/** The emulator side of the Link's Awakening client (`RAGameboy`): memory
    reads through `READ_CORE_MEMORY` replies, the chunked block read, the
    retrying snapshot of three memory regions into a cache that mirrors
    0xC000-0xFFFF, and lookups in that cache.

    The UDP socket is modelled by `inbox`: the replies the emulator will send,
    in the order they arrive. Each read consumes one; a read with no reply left
    times out. */
module Gameboy {
  import opened Common
  import opened LAConstants
  import opened RetroArch

  type Inbox = seq<seq<byte>>

  /** A value read, with the replies still to come. */
  type Read<T> = Result<(T, Inbox), GameboyError>

  /** A method's answer and the inbox it left, in the shape of `Read`. An
      exception says nothing about the inbox. */
  function Received<T>(r: Result<T, GameboyError>, rest: Inbox): Read<T>
  {
    match r
    case Ok(v) => Ok((v, rest))
    case Err(e) => Err(e)
  }

  // ---------------------------------------------------------------------------
  // Reads as functions of the inbox.

  /** How a reply to a read of `size` bytes at an address is checked and
      decoded. The client uses `ReadReply`; everything built on reads is
      defined for any decoder that keeps `NeverOverlong`. */
  type Decoder = (seq<byte>, int, int) -> Result<seq<byte>, GameboyError>

  /** A decoded reply never holds more bytes than were asked for. */
  ghost predicate NeverOverlong(decode: Decoder)
  {
    forall reply: seq<byte>, address: int, size: int ::
      decode(reply, address, size).Ok? ==> |decode(reply, address, size).value| <= size
  }

  lemma ReadReplyNeverOverlong()
    ensures NeverOverlong(ReadReply)
  {
  }

  /** `async_read_memory(address, size)`: the next reply, decoded; with no
      reply left the wait times out. */
  function ReadAt(decode: Decoder, inbox: Inbox, address: int, size: int): (r: Read<seq<byte>>)
    ensures inbox == [] ==> r == Err(Timeout)
    ensures r.Ok? ==> inbox != [] && r.value.1 == inbox[1..]
    ensures r.Ok? && NeverOverlong(decode) ==> |r.value.0| <= size
  {
    if inbox == [] then Err(Timeout) else Received(decode(inbox[0], address, size), inbox[1..])
  }

  function Unsafe(throw: bool, rest: Inbox): Read<bool>
  {
    if throw then Err(InvalidEmulatorState) else Ok((false, rest))
  }

  /** The decoder itself answers one of the check's three reads with `e`. */
  predicate DecoderRaised(decode: Decoder, inbox: Inbox, e: GameboyError)
  {
    || (|inbox| > 0 && decode(inbox[0], wCheckAddress, WRamCheckSize) == Err(e))
    || (|inbox| > 1 && decode(inbox[1], wGameplayType, 1) == Err(e))
    || (|inbox| > 2 && decode(inbox[2], wCheckAddress, WRamCheckSize) == Err(e))
  }

  /** `check_safe_gameplay(throw)`: the four check bytes, the gameplay type,
      and the check bytes again, stopping at the first that is wrong. A wrong
      value raises `InvalidEmulatorStateError` with `throw` and answers false
      without it; the only other errors are a timeout, the `IndexError` of an
      empty gameplay read, and what the reads themselves raise. */
  function SafeGameplay(decode: Decoder, inbox: Inbox, throw: bool): (r: Read<bool>)
    requires NeverOverlong(decode)
    ensures (r.Ok? && r.value.0) <==>
              && |inbox| >= 3
              && ReadAt(decode, inbox, wCheckAddress, WRamCheckSize) == Ok((WRamSafetyValue, inbox[1..]))
              && (var g := ReadAt(decode, inbox[1..], wGameplayType, 1);
                  g.Ok? && |g.value.0| > 0 && g.value.0[0] in SafeGameplayValues)
              && ReadAt(decode, inbox[2..], wCheckAddress, WRamCheckSize) == Ok((WRamSafetyValue, inbox[3..]))
    ensures r.Ok? && r.value.0 ==> r.value.1 == inbox[3..]
    ensures r.Ok? && !r.value.0 ==> !throw
    ensures r.Err? ==>
              || r.error == Timeout || r.error == IndexError
              || (throw && r.error == InvalidEmulatorState)
              || DecoderRaised(decode, inbox, r.error)
    ensures var c := ReadAt(decode, inbox, wCheckAddress, WRamCheckSize);
            c.Ok? && c.value.0 != WRamSafetyValue ==>
              r == (if throw then Err(InvalidEmulatorState) else Ok((false, inbox[1..])))
    ensures |inbox| >= 1 && ReadAt(decode, inbox, wCheckAddress, WRamCheckSize) == Ok((WRamSafetyValue, inbox[1..])) ==>
              var g := ReadAt(decode, inbox[1..], wGameplayType, 1);
              g.Ok? && |g.value.0| > 0 && g.value.0[0] !in SafeGameplayValues ==>
                r == (if throw then Err(InvalidEmulatorState) else Ok((false, inbox[2..])))
    ensures |inbox| >= 3 && ReadAt(decode, inbox, wCheckAddress, WRamCheckSize) == Ok((WRamSafetyValue, inbox[1..])) ==>
              var g := ReadAt(decode, inbox[1..], wGameplayType, 1);
              var c := ReadAt(decode, inbox[2..], wCheckAddress, WRamCheckSize);
              g.Ok? && |g.value.0| > 0 && g.value.0[0] in SafeGameplayValues && c.Ok? && c.value.0 != WRamSafetyValue ==>
                r == (if throw then Err(InvalidEmulatorState) else Ok((false, inbox[3..])))
  {
    match ReadAt(decode, inbox, wCheckAddress, WRamCheckSize)
    case Err(e) => Err(e)
    case Ok((before, in1)) =>
      if before != WRamSafetyValue then Unsafe(throw, in1)
      else
        match ReadAt(decode, in1, wGameplayType, 1)
        case Err(e) => Err(e)
        case Ok((gameplay, in2)) =>
          if |gameplay| == 0 then Err(IndexError)
          else if !InGameplay(gameplay[0]) then Unsafe(throw, in2)
          else
            match ReadAt(decode, in2, wCheckAddress, WRamCheckSize)
            case Err(e) => Err(e)
            case Ok((after, in3)) =>
              assert in2 == inbox[2..] && in3 == inbox[3..];
              if after != WRamSafetyValue then Unsafe(throw, in3) else Ok((true, in3))
  }

  /** Throwing or not changes only how an unsafe state is reported: with
      `throw` it raises `InvalidEmulatorStateError` where the non-throwing
      check answers false, and every other outcome is the same. */
  lemma ThrowOnlyReportsUnsafe(decode: Decoder, inbox: Inbox)
    requires NeverOverlong(decode)
    ensures SafeGameplay(decode, inbox, true) ==
              match SafeGameplay(decode, inbox, false)
              case Ok((false, _)) => Err(InvalidEmulatorState)
              case other => other
  {
  }

  /** On the emulator's replies: the state is safe exactly when the first and
      third replies carry the four zero check bytes and the second carries a
      gameplay value of normal play or the credits. */
  lemma SafeGameplayOnReplies(inbox: Inbox, throw: bool)
    ensures NeverOverlong(ReadReply)
    ensures var r := SafeGameplay(ReadReply, inbox, throw);
            (r.Ok? && r.value.0) <==>
              && |inbox| >= 3
              && ReadReply(inbox[0], wCheckAddress, WRamCheckSize) == Ok(WRamSafetyValue)
              && (var g := ReadReply(inbox[1], wGameplayType, 1);
                  g.Ok? && |g.value| > 0 && g.value[0] in SafeGameplayValues)
              && ReadReply(inbox[2], wCheckAddress, WRamCheckSize) == Ok(WRamSafetyValue)
    ensures SafeGameplay(ReadReply, inbox, false) != Err(InvalidEmulatorState)
  {
    ReadReplyNeverOverlong();
    if |inbox| >= 3 {
      assert inbox[1..][0] == inbox[1] && inbox[2..][0] == inbox[2];
      assert inbox[1..][1..] == inbox[2..] && inbox[2..][1..] == inbox[3..];
    }
  }

  /** `read_memory_block(address, size)`: ask for what remains at the address
      just past what has arrived, until `size` bytes have arrived. */
  function ReadBlock(decode: Decoder, inbox: Inbox, address: int, size: nat): (r: Read<seq<byte>>)
    requires NeverOverlong(decode)
    ensures r.Ok? ==> |r.value.0| == size
    decreases |inbox|
  {
    if size == 0 then Ok(([], inbox))
    else
      match ReadAt(decode, inbox, address, size)
      case Err(e) => Err(e)
      case Ok((chunk, rest)) =>
        match ReadBlock(decode, rest, address + |chunk|, size - |chunk|)
        case Err(e) => Err(e)
        case Ok((more, left)) => Ok((chunk + more, left))
  }

  /** `bytes` in front of whatever a read produced. */
  function Prepend(bytes: seq<byte>, r: Read<seq<byte>>): Read<seq<byte>>
  {
    match r
    case Err(e) => Err(e)
    case Ok((more, rest)) => Ok((bytes + more, rest))
  }

  lemma PrependTwice(a: seq<byte>, b: seq<byte>, r: Read<seq<byte>>)
    ensures Prepend(a, Prepend(b, r)) == Prepend(a + b, r)
  {
    match r
    case Err(_) =>
    case Ok((more, rest)) =>
      assert a + (b + more) == (a + b) + more;
  }

  /** One pass of the loop in `read_memory_block`, from the bytes collected so
      far to those plus the next chunk. */
  lemma BlockLoopStep(decode: Decoder, whole: Read<seq<byte>>, inbox: Inbox, address: int, size: nat,
                      block: seq<byte>, chunk: seq<byte>, rest: Inbox)
    requires NeverOverlong(decode) && |block| < size
    requires whole == Prepend(block, ReadBlock(decode, inbox, address + |block|, size - |block|))
    requires ReadAt(decode, inbox, address + |block|, size - |block|) == Ok((chunk, rest))
    ensures |block + chunk| <= size
    ensures whole == Prepend(block + chunk, ReadBlock(decode, rest, address + |block + chunk|, size - |block + chunk|))
  {
    ReadBlockStep(decode, inbox, address + |block|, size - |block|, chunk, rest);
    PrependTwice(block, chunk, ReadBlock(decode, rest, address + |block| + |chunk|, size - |block| - |chunk|));
  }

  /** How the emulator writes the reply to a read at an address. */
  type Formatter = (nat, seq<byte>) -> seq<byte>

  /** The replies the emulator sends when it hands over a block in `chunks`. */
  function ChunkReplies(format: Formatter, address: nat, chunks: seq<seq<byte>>): Inbox
    decreases |chunks|
  {
    if chunks == [] then []
    else [format(address, chunks[0])] + ChunkReplies(format, address + |chunks[0]|, chunks[1..])
  }

  function Flatten(chunks: seq<seq<byte>>): seq<byte>
  {
    if chunks == [] then [] else chunks[0] + Flatten(chunks[1..])
  }

  /** One pass of the loop in `read_memory_block`. */
  lemma ReadBlockStep(decode: Decoder, inbox: Inbox, address: int, size: nat, chunk: seq<byte>, rest: Inbox)
    requires NeverOverlong(decode)
    requires size > 0 && ReadAt(decode, inbox, address, size) == Ok((chunk, rest))
    ensures |chunk| <= size
    ensures ReadBlock(decode, inbox, address, size) == Prepend(chunk, ReadBlock(decode, rest, address + |chunk|, size - |chunk|))
  {
  }

  /** A decoder that takes back, from the reply `format` writes for a read,
      the bytes that reply carries. */
  ghost predicate AcceptsFormatted(decode: Decoder, format: Formatter)
  {
    forall address: nat, chunk: seq<byte>, size: int ::
      0 < |chunk| <= size ==> decode(format(address, chunk), address, size) == Ok(chunk)
  }

  lemma ReadReplyAcceptsFormattedReplies()
    ensures AcceptsFormatted(ReadReply, FormatReadReply)
  {
    forall address: nat, chunk: seq<byte>, size: int | 0 < |chunk| <= size
      ensures ReadReply(FormatReadReply(address, chunk), address, size) == Ok(chunk)
    {
      ReadReplyAcceptsFormatted(address, chunk, size);
    }
  }

  /** When the emulator answers with non-empty chunks at the addresses asked
      for, the block is the chunks joined in order, and exactly the replies
      for those chunks are consumed. */
  lemma ReadBlockOfEmulatorChunks(address: nat, chunks: seq<seq<byte>>, later: Inbox)
    requires forall k :: 0 <= k < |chunks| ==> chunks[k] != []
    ensures ReadBlock(ReadReply, ChunkReplies(FormatReadReply, address, chunks) + later, address, |Flatten(chunks)|)
            == Ok((Flatten(chunks), later))
  {
    ReadReplyNeverOverlong();
    ReadReplyAcceptsFormattedReplies();
    ReadBlockOfChunks(ReadReply, FormatReadReply, address, chunks, later);
  }

  /** The same, for any decoder that takes back what `format` writes. */
  lemma {:induction false} ReadBlockOfChunks(decode: Decoder, format: Formatter, address: nat,
                                             chunks: seq<seq<byte>>, later: Inbox)
    requires NeverOverlong(decode) && AcceptsFormatted(decode, format)
    requires forall k :: 0 <= k < |chunks| ==> chunks[k] != []
    ensures ReadBlock(decode, ChunkReplies(format, address, chunks) + later, address, |Flatten(chunks)|)
            == Ok((Flatten(chunks), later))
    decreases |chunks|
  {
    if chunks != [] {
      FirstChunkRead(decode, format, address, chunks, later);
      var tail := Flatten(chunks[1..]);
      ReadBlockOfChunks(decode, format, address + |chunks[0]|, chunks[1..], later);
      assert Prepend(chunks[0], Ok((tail, later))) == Ok((Flatten(chunks), later));
    } else {
      assert ChunkReplies(format, address, chunks) + later == later;
    }
  }

  /** The first reply of a chunked answer hands over the first chunk, and the
      rest of the block is read from the replies after it. */
  lemma FirstChunkRead(decode: Decoder, format: Formatter, address: nat, chunks: seq<seq<byte>>, later: Inbox)
    requires NeverOverlong(decode) && AcceptsFormatted(decode, format)
    requires chunks != [] && chunks[0] != []
    ensures ReadBlock(decode, ChunkReplies(format, address, chunks) + later, address, |Flatten(chunks)|)
            == Prepend(chunks[0], ReadBlock(decode, ChunkReplies(format, address + |chunks[0]|, chunks[1..]) + later,
                                            address + |chunks[0]|, |Flatten(chunks[1..])|))
  {
    var size := |Flatten(chunks)|;
    var rest := ChunkReplies(format, address + |chunks[0]|, chunks[1..]) + later;
    var inbox := [format(address, chunks[0])] + rest;
    assert ChunkReplies(format, address, chunks) + later == inbox;
    assert Flatten(chunks) == chunks[0] + Flatten(chunks[1..]);
    assert inbox[0] == format(address, chunks[0]) && inbox[1..] == rest;
    assert ReadAt(decode, inbox, address, size) == Ok((chunks[0], rest));
    ReadBlockStep(decode, inbox, address, size, chunks[0], rest);
  }

  // ---------------------------------------------------------------------------
  // The snapshot taken by `update_cache`.

  /** Where the three regions lie: fixed for the cache, set by the client for
      the checks and location blocks. */
  datatype Layout = Layout(
    cacheStart: int, cacheSize: nat,
    checksStart: int, checksSize: nat,
    locationStart: int, locationSize: nat,
    critical: seq<int>)

  /** Every region lies inside the cache, so writing it does not grow it. */
  predicate Fits(L: Layout)
  {
    && L.cacheStart <= L.checksStart && L.checksStart + L.checksSize <= L.cacheStart + L.cacheSize
    && L.cacheStart <= L.locationStart && L.locationStart + L.locationSize <= L.cacheStart + L.cacheSize
    && L.cacheStart <= hRamStart && hRamStart + hRamSize <= L.cacheStart + L.cacheSize
  }

  /** Python's `s[i]`, where a negative index counts from the end. */
  predicate InPyRange(i: int, n: nat)
  {
    -(n as int) <= i < n
  }

  function PyAt(s: seq<byte>, i: int): byte
    requires InPyRange(i, |s|)
  {
    if i >= 0 then s[i] else s[|s| + i]
  }

  /** The loop over the critical addresses, one address at a time: an index
      error at the first that falls outside the location block, otherwise
      whether both reads agree at every one of them. */
  function CriticalCheck(location: seq<byte>, verification: seq<byte>, locationStart: int, critical: seq<int>)
    : Result<bool, GameboyError>
    requires |location| == |verification|
    decreases |critical|
  {
    if critical == [] then Ok(true)
    else
      var offset := critical[0] - locationStart;
      if !InPyRange(offset, |location|) then Err(IndexError)
      else
        match CriticalCheck(location, verification, locationStart, critical[1..])
        case Err(e) => Err(e)
        case Ok(same) => Ok(PyAt(location, offset) == PyAt(verification, offset) && same)
  }

  /** The check fails exactly when some critical address lies outside the
      block (with an index error), and otherwise answers whether the two reads
      agree at every critical address. */
  lemma {:induction false} CriticalCheckMeaning(location: seq<byte>, verification: seq<byte>, locationStart: int,
                                                critical: seq<int>)
    requires |location| == |verification|
    ensures var r := CriticalCheck(location, verification, locationStart, critical);
            && (r.Err? <==> exists k :: 0 <= k < |critical| && !InPyRange(critical[k] - locationStart, |location|))
            && (r.Err? ==> r.error == IndexError)
            && (r.Ok? ==> (r.value <==> forall k :: 0 <= k < |critical| ==>
                             PyAt(location, critical[k] - locationStart) == PyAt(verification, critical[k] - locationStart)))
    decreases |critical|
  {
    if critical != [] {
      CriticalCheckMeaning(location, verification, locationStart, critical[1..]);
      assert forall k :: 1 <= k < |critical| ==> critical[k] == critical[1..][k - 1];
    }
  }

  datatype RoundResult = RoundResult(location: seq<byte>, hram: seq<byte>, stable: bool, rest: Inbox)

  /** One pass of the retry loop: location, hram, location again, compared. */
  function Round(decode: Decoder, inbox: Inbox, L: Layout): (r: Result<RoundResult, GameboyError>)
    requires NeverOverlong(decode)
    ensures r.Ok? ==> |r.value.location| == L.locationSize && |r.value.hram| == hRamSize
  {
    match ReadBlock(decode, inbox, L.locationStart, L.locationSize)
    case Err(e) => Err(e)
    case Ok((location, in1)) =>
      match ReadBlock(decode, in1, hRamStart, hRamSize)
      case Err(e) => Err(e)
      case Ok((hram, in2)) =>
        match ReadBlock(decode, in2, L.locationStart, L.locationSize)
        case Err(e) => Err(e)
        case Ok((verification, in3)) =>
          match CriticalCheck(location, verification, L.locationStart, L.critical)
          case Err(e) => Err(e)
          case Ok(stable) => Ok(RoundResult(location, hram, stable, in3))
  }

  /** Retries after the first unstable round before giving up. */
  const MaxAttempts: nat := 5

  datatype Snapshot = Stable(location: seq<byte>, hram: seq<byte>, rest: Inbox) | GaveUp(rest: Inbox)

  /** The retry loop from its `attempts`-th failure on. */
  function FindStable(decode: Decoder, inbox: Inbox, L: Layout, attempts: nat): (r: Result<Snapshot, GameboyError>)
    requires NeverOverlong(decode) && attempts <= MaxAttempts
    ensures r.Ok? && r.value.Stable? ==> |r.value.location| == L.locationSize && |r.value.hram| == hRamSize
    decreases MaxAttempts - attempts
  {
    match Round(decode, inbox, L)
    case Err(e) => Err(e)
    case Ok(round) =>
      if round.stable then Ok(Stable(round.location, round.hram, round.rest))
      else if attempts + 1 > MaxAttempts then Ok(GaveUp(round.rest))
      else FindStable(decode, round.rest, L, attempts + 1)
  }

  /** The retry loop's answer in the shape of `FindStable`: the two blocks of
      a stable round, or none after giving up. */
  function Taken(r: Result<Option<(seq<byte>, seq<byte>)>, GameboyError>, rest: Inbox): Result<Snapshot, GameboyError>
  {
    match r
    case Ok(Some((location, hram))) => Ok(Stable(location, hram, rest))
    case Ok(None) => Ok(GaveUp(rest))
    case Err(e) => Err(e)
  }

  /** The retry loop keeps only a round whose critical bytes agreed: a stable
      snapshot is the result of some round that came out stable. */
  lemma {:induction false} StableFromStableRound(decode: Decoder, inbox: Inbox, L: Layout, attempts: nat)
    returns (start: Inbox)
    requires NeverOverlong(decode) && attempts <= MaxAttempts
    requires FindStable(decode, inbox, L, attempts).Ok? && FindStable(decode, inbox, L, attempts).value.Stable?
    ensures var s := FindStable(decode, inbox, L, attempts).value;
            Round(decode, start, L) == Ok(RoundResult(s.location, s.hram, true, s.rest))
    decreases MaxAttempts - attempts
  {
    var round := Round(decode, inbox, L).value;
    NextAttempt(decode, inbox, L, attempts, round.location, round.hram, round.stable, round.rest);
    if round.stable {
      start := inbox;
    } else {
      start := StableFromStableRound(decode, round.rest, L, attempts + 1);
    }
  }

  /** A stable round read the location block twice, and the two reads agree
      at every critical address, each of which lies inside the block. */
  lemma StableRoundAgreed(decode: Decoder, start: Inbox, L: Layout, location: seq<byte>, hram: seq<byte>, rest: Inbox)
    returns (in2: Inbox, verification: seq<byte>)
    requires NeverOverlong(decode)
    requires Round(decode, start, L) == Ok(RoundResult(location, hram, true, rest))
    ensures ReadBlock(decode, in2, L.locationStart, L.locationSize) == Ok((verification, rest))
    ensures |verification| == |location|
    ensures forall k :: 0 <= k < |L.critical| ==>
              && InPyRange(L.critical[k] - L.locationStart, |location|)
              && PyAt(location, L.critical[k] - L.locationStart) == PyAt(verification, L.critical[k] - L.locationStart)
  {
    var in1 := ReadBlock(decode, start, L.locationStart, L.locationSize).value.1;
    in2 := ReadBlock(decode, in1, hRamStart, hRamSize).value.1;
    verification := ReadBlock(decode, in2, L.locationStart, L.locationSize).value.0;
    CriticalCheckMeaning(location, verification, L.locationStart, L.critical);
  }

  /** What the retry loop does after a round that read without error. */
  lemma NextAttempt(decode: Decoder, inbox: Inbox, L: Layout, attempts: nat,
                    location: seq<byte>, hram: seq<byte>, stable: bool, rest: Inbox)
    requires NeverOverlong(decode) && attempts <= MaxAttempts
    requires Round(decode, inbox, L) == Ok(RoundResult(location, hram, stable, rest))
    ensures stable ==> FindStable(decode, inbox, L, attempts) == Ok(Stable(location, hram, rest))
    ensures !stable && attempts == MaxAttempts ==> FindStable(decode, inbox, L, attempts) == Ok(GaveUp(rest))
    ensures !stable && attempts < MaxAttempts ==>
              FindStable(decode, inbox, L, attempts) == FindStable(decode, rest, L, attempts + 1)
  {
  }

  /** Consecutive rounds, each unstable and each starting where the last one
      stopped. */
  ghost predicate UnstableChain(decode: Decoder, chain: seq<Inbox>, L: Layout)
    requires NeverOverlong(decode)
  {
    forall j :: 0 <= j < |chain| - 1 ==>
      && Round(decode, chain[j], L).Ok?
      && !Round(decode, chain[j], L).value.stable
      && Round(decode, chain[j], L).value.rest == chain[j + 1]
  }

  /** A round that gave up, or that led to giving up later, was unstable. */
  lemma GaveUpStep(decode: Decoder, inbox: Inbox, L: Layout, attempts: nat)
    requires NeverOverlong(decode) && attempts <= MaxAttempts
    requires FindStable(decode, inbox, L, attempts).Ok? && FindStable(decode, inbox, L, attempts).value.GaveUp?
    ensures Round(decode, inbox, L).Ok? && !Round(decode, inbox, L).value.stable
    ensures attempts + 1 > MaxAttempts ==>
              FindStable(decode, inbox, L, attempts).value.rest == Round(decode, inbox, L).value.rest
    ensures attempts + 1 <= MaxAttempts ==>
              FindStable(decode, inbox, L, attempts) == FindStable(decode, Round(decode, inbox, L).value.rest, L, attempts + 1)
  {
  }

  /** An unstable round in front of a chain that starts where it stops. */
  lemma UnstableChainCons(decode: Decoder, inbox: Inbox, tail: seq<Inbox>, L: Layout)
    requires NeverOverlong(decode) && tail != [] && UnstableChain(decode, tail, L)
    requires Round(decode, inbox, L).Ok? && !Round(decode, inbox, L).value.stable
    requires Round(decode, inbox, L).value.rest == tail[0]
    ensures UnstableChain(decode, [inbox] + tail, L)
  {
    var chain := [inbox] + tail;
    forall j | 0 <= j < |chain| - 1
      ensures && Round(decode, chain[j], L).Ok?
              && !Round(decode, chain[j], L).value.stable
              && Round(decode, chain[j], L).value.rest == chain[j + 1]
    {
      if j > 0 {
        assert chain[j] == tail[j - 1] && chain[j + 1] == tail[j];
      }
    }
  }

  /** The loop gives up only after `MaxAttempts + 1` unstable rounds in a row
      (six, from the start). */
  lemma {:induction false} GaveUpAfterAllAttempts(decode: Decoder, inbox: Inbox, L: Layout, attempts: nat)
    returns (chain: seq<Inbox>)
    requires NeverOverlong(decode) && attempts <= MaxAttempts
    requires FindStable(decode, inbox, L, attempts).Ok? && FindStable(decode, inbox, L, attempts).value.GaveUp?
    ensures |chain| == MaxAttempts + 2 - attempts
    ensures chain[0] == inbox && chain[|chain| - 1] == FindStable(decode, inbox, L, attempts).value.rest
    ensures UnstableChain(decode, chain, L)
    decreases MaxAttempts - attempts
  {
    GaveUpStep(decode, inbox, L, attempts);
    var next := Round(decode, inbox, L).value.rest;
    if attempts + 1 > MaxAttempts {
      chain := [inbox, next];
    } else {
      var tail := GaveUpAfterAllAttempts(decode, next, L, attempts + 1);
      UnstableChainCons(decode, inbox, tail, L);
      chain := [inbox] + tail;
    }
  }

  /** `bytearray(n)`. */
  function Zeros(n: nat): (z: seq<byte>)
    ensures |z| == n && forall i :: 0 <= i < n ==> z[i] == 0
  {
    seq(n, _ => 0)
  }

  /** `a[start:start + len(b)] = b` for a slice that lies inside `a`. */
  function Overwrite(a: seq<byte>, start: int, b: seq<byte>): (r: seq<byte>)
    requires 0 <= start && start + |b| <= |a|
    ensures |r| == |a|
    ensures forall i :: 0 <= i < |a| ==> r[i] == if start <= i < start + |b| then b[i - start] else a[i]
  {
    a[..start] + b + a[start + |b|..]
  }

  /** The cache built from the three blocks: checks first, then location, then
      hram, so a later block wins where they overlap and untouched bytes are
      zero. */
  function Assemble(L: Layout, checks: seq<byte>, location: seq<byte>, hram: seq<byte>): (c: seq<byte>)
    requires Fits(L) && |checks| == L.checksSize && |location| == L.locationSize && |hram| == hRamSize
    ensures |c| == L.cacheSize
    ensures forall i :: 0 <= i < L.cacheSize ==>
              c[i] == var a := L.cacheStart + i;
                      if hRamStart <= a < hRamStart + hRamSize then hram[a - hRamStart]
                      else if L.locationStart <= a < L.locationStart + L.locationSize then location[a - L.locationStart]
                      else if L.checksStart <= a < L.checksStart + L.checksSize then checks[a - L.checksStart]
                      else 0
  {
    var c1 := Overwrite(Zeros(L.cacheSize), L.checksStart - L.cacheStart, checks);
    var c2 := Overwrite(c1, L.locationStart - L.cacheStart, location);
    Overwrite(c2, hRamStart - L.cacheStart, hram)
  }

  /** Writing the three blocks over a zeroed buffer one after the other gives
      `Assemble`. */
  lemma AssembleInOrder(L: Layout, checks: seq<byte>, location: seq<byte>, hram: seq<byte>, c: seq<byte>)
    requires Fits(L) && |checks| == L.checksSize && |location| == L.locationSize && |hram| == hRamSize
    requires c == Overwrite(Overwrite(Overwrite(Zeros(L.cacheSize), L.checksStart - L.cacheStart, checks),
                                      L.locationStart - L.cacheStart, location),
                            hRamStart - L.cacheStart, hram)
    ensures c == Assemble(L, checks, location, hram)
  {
  }

  /** What `update_cache` leaves behind: a cache and the replies still to come,
      or an exception (after which the cache is empty). */
  datatype CacheUpdate = Done(cache: seq<byte>, rest: Inbox) | Failed(error: GameboyError)

  function UpdateCacheSpec(decode: Decoder, inbox: Inbox, L: Layout): (u: CacheUpdate)
    requires NeverOverlong(decode) && Fits(L)
    ensures u.Done? && u.cache != [] ==> |u.cache| == L.cacheSize
  {
    match SafeGameplay(decode, inbox, true)
    case Err(e) => Failed(e)
    case Ok((safe, in1)) =>
      if !safe then Done([], in1)
      else
        match FindStable(decode, in1, L, 0)
        case Err(e) => Failed(e)
        case Ok(GaveUp(in2)) => Done([], in2)
        case Ok(Stable(location, hram, in2)) =>
          match ReadBlock(decode, in2, L.checksStart, L.checksSize)
          case Err(e) => Failed(e)
          case Ok((checks, in3)) =>
            match SafeGameplay(decode, in3, true)
            case Err(e) => Failed(e)
            case Ok((safe2, in4)) =>
              if !safe2 then Done([], in4) else Done(Assemble(L, checks, location, hram), in4)
  }

  /** A filled cache means both safety checks passed, the critical addresses
      agreed, and the cache holds the blocks read in between. */
  lemma FilledCacheWasConfirmed(decode: Decoder, inbox: Inbox, L: Layout)
    returns (location: seq<byte>, hram: seq<byte>, checks: seq<byte>, mid: Inbox)
    requires NeverOverlong(decode) && Fits(L)
    requires UpdateCacheSpec(decode, inbox, L).Done? && UpdateCacheSpec(decode, inbox, L).cache != []
    ensures SafeGameplay(decode, inbox, true).Ok? && SafeGameplay(decode, inbox, true).value.0
    ensures FindStable(decode, SafeGameplay(decode, inbox, true).value.1, L, 0) == Ok(Stable(location, hram, mid))
    ensures ReadBlock(decode, mid, L.checksStart, L.checksSize).Ok?
    ensures ReadBlock(decode, mid, L.checksStart, L.checksSize).value.0 == checks
    ensures SafeGameplay(decode, ReadBlock(decode, mid, L.checksStart, L.checksSize).value.1, true)
            == Ok((true, UpdateCacheSpec(decode, inbox, L).rest))
    ensures |checks| == L.checksSize && |location| == L.locationSize && |hram| == hRamSize
    ensures UpdateCacheSpec(decode, inbox, L).cache == Assemble(L, checks, location, hram)
    ensures exists start :: Round(decode, start, L) == Ok(RoundResult(location, hram, true, mid))
  {
    var in1 := SafeGameplay(decode, inbox, true).value.1;
    var snapshot := FindStable(decode, in1, L, 0).value;
    location, hram, mid := snapshot.location, snapshot.hram, snapshot.rest;
    checks := ReadBlock(decode, mid, L.checksStart, L.checksSize).value.0;
    var start := StableFromStableRound(decode, in1, L, 0);
  }

  /** Conversely, a confirmed snapshot and checks block fill the cache. */
  lemma FilledCacheFromConfirmedSnapshot(decode: Decoder, inbox: Inbox, L: Layout, in1: Inbox,
                                         location: seq<byte>, hram: seq<byte>, in2: Inbox,
                                         checks: seq<byte>, in3: Inbox, rest: Inbox)
    requires NeverOverlong(decode) && Fits(L)
    requires SafeGameplay(decode, inbox, true) == Ok((true, in1))
    requires FindStable(decode, in1, L, 0) == Ok(Stable(location, hram, in2))
    requires ReadBlock(decode, in2, L.checksStart, L.checksSize) == Ok((checks, in3))
    requires SafeGameplay(decode, in3, true) == Ok((true, rest))
    ensures |checks| == L.checksSize && |location| == L.locationSize && |hram| == hRamSize
    ensures UpdateCacheSpec(decode, inbox, L) == Done(Assemble(L, checks, location, hram), rest)
  {
  }

  /** With `throw` set, an unsafe state raises rather than answering false, so
      the early returns after the safety checks in `update_cache` never leave
      the cache empty without an exception. */
  lemma EmptyCacheOnlyAfterGivingUp(decode: Decoder, inbox: Inbox, L: Layout)
    requires NeverOverlong(decode) && Fits(L)
    requires UpdateCacheSpec(decode, inbox, L).Done? && UpdateCacheSpec(decode, inbox, L).cache == []
    ensures SafeGameplay(decode, inbox, true).Ok?
    ensures FindStable(decode, SafeGameplay(decode, inbox, true).value.1, L, 0).Ok?
    ensures FindStable(decode, SafeGameplay(decode, inbox, true).value.1, L, 0).value.GaveUp?
  {
    var in1 := SafeGameplay(decode, inbox, true).value.1;
    match FindStable(decode, in1, L, 0)
    case Ok(GaveUp(_)) =>
    case Ok(Stable(location, hram, in2)) =>
      var checks := ReadBlock(decode, in2, L.checksStart, L.checksSize).value.0;
      assert Assemble(L, checks, location, hram) != [] by {
        assert |Assemble(L, checks, location, hram)| == L.cacheSize;
      }
  }

  // ---------------------------------------------------------------------------
  // Lookups in the cache.

  /** `read_memory_cache` once the cache is up to date: nothing for an empty
      cache; otherwise the asserted length and the asserted (inclusive) bounds,
      then each address's byte. */
  function CacheLookup(cache: seq<byte>, cacheStart: int, cacheSize: int, addresses: seq<int>)
    : (r: Result<Option<map<int, byte>>, GameboyError>)
    ensures r == Ok(None) <==> cache == []
    ensures r.Ok? && r.value.Some? ==>
              && (forall a :: a in addresses <==> a in r.value.value)
              && forall a :: a in r.value.value ==>
                   0 <= a - cacheStart < |cache| && r.value.value[a] == cache[a - cacheStart]
    ensures r.Err? ==> cache != [] && (r.error == AssertionError || r.error == IndexError)
  {
    if cache == [] then Ok(None)
    else if |cache| != cacheSize then Err(AssertionError)
    else if exists a :: a in addresses && !(cacheStart <= a <= cacheStart + cacheSize) then Err(AssertionError)
    else if exists a :: a in addresses && a == cacheStart + cacheSize then Err(IndexError)
    else Ok(Some(map a | a in addresses :: cache[a - cacheStart]))
  }

  /** Addresses strictly inside the cache are looked up without error. */
  lemma CacheLookupInside(cache: seq<byte>, cacheStart: int, addresses: seq<int>)
    requires cache != []
    requires forall a :: a in addresses ==> cacheStart <= a < cacheStart + |cache|
    ensures CacheLookup(cache, cacheStart, |cache|, addresses).Ok?
    ensures CacheLookup(cache, cacheStart, |cache|, addresses).value.Some?
  {
  }

  /** The asserted bound is inclusive at the top: the address one past the
      cache passes the assertion and then fails the index. */
  lemma CacheLookupOnePastEnd(cache: seq<byte>, cacheStart: int)
    requires cache != []
    ensures CacheLookup(cache, cacheStart, |cache|, [cacheStart + |cache|]) == Err(IndexError)
  {
    assert cacheStart + |cache| in [cacheStart + |cache|];
  }

  /** A refreshed cache answers every address inside it with the byte of the
      last block written over it. */
  lemma LookupAfterUpdate(decode: Decoder, inbox: Inbox, L: Layout, addresses: seq<int>)
    requires NeverOverlong(decode) && Fits(L)
    requires UpdateCacheSpec(decode, inbox, L).Done? && UpdateCacheSpec(decode, inbox, L).cache != []
    requires forall a :: a in addresses ==> L.cacheStart <= a < L.cacheStart + L.cacheSize
    ensures var r := CacheLookup(UpdateCacheSpec(decode, inbox, L).cache, L.cacheStart, L.cacheSize, addresses);
            r.Ok? && r.value.Some? && forall a :: a in addresses ==> a in r.value.value
  {
    var cache := UpdateCacheSpec(decode, inbox, L).cache;
    CacheLookupInside(cache, L.cacheStart, addresses);
  }

  // ---------------------------------------------------------------------------
  // The object.

  /** `bytearray.__setitem__` for a slice inside the array, byte by byte. */
  method WriteSlice(a: array<byte>, start: int, block: seq<byte>)
    requires 0 <= start && start + |block| <= a.Length
    modifies a
    ensures a[..] == Overwrite(old(a[..]), start, block)
  {
    for k := 0 to |block|
      invariant forall i :: 0 <= i < a.Length ==>
                  a[i] == if start <= i < start + k then block[i - start] else old(a[i])
    {
      a[start + k] := block[k];
    }
  }

  /** `bytearray(n)`: a fresh buffer of `n` zero bytes. */
  method ZeroedBuffer(n: nat) returns (buffer: array<byte>)
    ensures fresh(buffer) && buffer[..] == Zeros(n)
  {
    buffer := new byte[n](_ => 0);
  }

  /** The three slice assignments of `update_cache`, in source order. */
  method WriteBlocks(buffer: array<byte>, L: Layout, checks: seq<byte>, location: seq<byte>, hram: seq<byte>)
    requires Fits(L) && |checks| == L.checksSize && |location| == L.locationSize && |hram| == hRamSize
    requires buffer.Length == L.cacheSize
    modifies buffer
    ensures buffer[..] == Overwrite(Overwrite(Overwrite(old(buffer[..]), L.checksStart - L.cacheStart, checks),
                                              L.locationStart - L.cacheStart, location),
                                    hRamStart - L.cacheStart, hram)
  {
    ghost var c0 := buffer[..];
    WriteSlice(buffer, L.checksStart - L.cacheStart, checks);
    ghost var c1 := buffer[..];
    assert c1 == Overwrite(c0, L.checksStart - L.cacheStart, checks);
    WriteSlice(buffer, L.locationStart - L.cacheStart, location);
    ghost var c2 := buffer[..];
    assert c2 == Overwrite(c1, L.locationStart - L.cacheStart, location);
    WriteSlice(buffer, hRamStart - L.cacheStart, hram);
    assert buffer[..] == Overwrite(c2, hRamStart - L.cacheStart, hram);
  }

  /** The end of `update_cache`: a zeroed `bytearray` of the cache's size,
      with the checks, location and hram blocks written into it in turn. */
  method BuildCache(L: Layout, checks: seq<byte>, location: seq<byte>, hram: seq<byte>) returns (c: seq<byte>)
    requires Fits(L) && |checks| == L.checksSize && |location| == L.locationSize && |hram| == hRamSize
    ensures c == Assemble(L, checks, location, hram)
  {
    var buffer := ZeroedBuffer(L.cacheSize);
    WriteBlocks(buffer, L, checks, location, hram);
    c := buffer[..];
    AssembleInOrder(L, checks, location, hram, c);
  }

  class RAGameboy {
    /** The cache mirrors memory from `cacheStart` for `cacheSize` bytes. */
    const cacheStart: int
    const cacheSize: nat
    /** How replies are checked and decoded: `ReadReply`, fixed at
        construction. The methods below hold for any decoder that keeps
        `NeverOverlong`. */
    const decode: Decoder
    /** The replies the emulator will send, in arrival order. */
    var inbox: Inbox
    /** Empty, or a snapshot of `cacheSize` bytes. */
    var cache: seq<byte>
    var checksStart: int
    var checksSize: nat
    var locationStart: int
    var locationSize: nat
    var criticalAddresses: seq<int>
    /** Whether `set_checks_range` / `set_location_range` have run; the
        attributes do not exist before. */
    var checksSet: bool
    var locationSet: bool

    constructor (replies: Inbox)
      ensures cacheStart == wRamStart && cacheSize == hRamStart + hRamSize - wRamStart
      ensures decode == ReadReply && NeverOverlong(decode)
      ensures cache == [] && inbox == replies && !checksSet && !locationSet
    {
      decode := ReadReply;
      ReadReplyNeverOverlong();
      cacheStart := wRamStart;
      cacheSize := hRamStart + hRamSize - wRamStart;
      inbox := replies;
      cache := [];
      checksSet, locationSet := false, false;
    }

    function CurrentLayout(): Layout
      reads this`checksStart, this`checksSize, this`locationStart, this`locationSize, this`criticalAddresses
    {
      Layout(cacheStart, cacheSize, checksStart, checksSize, locationStart, locationSize, criticalAddresses)
    }

    method SetChecksRange(start: int, size: nat)
      modifies this`checksStart, this`checksSize, this`checksSet
      ensures checksStart == start && checksSize == size && checksSet
    {
      checksStart, checksSize, checksSet := start, size, true;
    }

    method SetLocationRange(start: int, size: nat, critical: seq<int>)
      modifies this`locationStart, this`locationSize, this`criticalAddresses, this`locationSet
      ensures locationStart == start && locationSize == size && criticalAddresses == critical && locationSet
    {
      locationStart, locationSize, criticalAddresses, locationSet := start, size, critical, true;
    }

    method ReadMemory(address: int, size: int) returns (r: Result<seq<byte>, GameboyError>)
      modifies this`inbox
      ensures Received(r, inbox) == ReadAt(decode, old(inbox), address, size)
    {
      if inbox == [] {
        return Err(Timeout);
      }
      r := decode(inbox[0], address, size);
      inbox := inbox[1..];
    }

    method CheckSafeGameplay(throw: bool) returns (r: Result<bool, GameboyError>)
      requires NeverOverlong(decode)
      modifies this`inbox
      ensures Received(r, inbox) == SafeGameplay(decode, old(inbox), throw)
    {
      var before := ReadMemory(wCheckAddress, WRamCheckSize);
      if before.Err? {
        return Err(before.error);
      }
      if before.value != WRamSafetyValue {
        return if throw then Err(InvalidEmulatorState) else Ok(false);
      }
      var gameplay := ReadMemory(wGameplayType, 1);
      if gameplay.Err? {
        return Err(gameplay.error);
      }
      if |gameplay.value| == 0 {
        return Err(IndexError);
      }
      if !InGameplay(gameplay.value[0]) {
        return if throw then Err(InvalidEmulatorState) else Ok(false);
      }
      var after := ReadMemory(wCheckAddress, WRamCheckSize);
      if after.Err? {
        return Err(after.error);
      }
      if after.value != WRamSafetyValue {
        return if throw then Err(InvalidEmulatorState) else Ok(false);
      }
      return Ok(true);
    }

    method ReadMemoryBlock(address: int, size: nat) returns (r: Result<seq<byte>, GameboyError>)
      requires NeverOverlong(decode)
      modifies this`inbox
      ensures Received(r, inbox) == ReadBlock(decode, old(inbox), address, size)
    {
      var block: seq<byte> := [];
      assert Prepend(block, ReadBlock(decode, inbox, address, size)) == ReadBlock(decode, inbox, address, size) by {
        assert forall more: seq<byte> :: block + more == more;
      }
      while |block| < size
        invariant |block| <= size
        invariant ReadBlock(decode, old(inbox), address, size)
                  == Prepend(block, ReadBlock(decode, inbox, address + |block|, size - |block|))
        decreases |inbox|
      {
        ghost var before := inbox;
        var chunk := ReadMemory(address + |block|, size - |block|);
        if chunk.Err? {
          return Err(chunk.error);
        }
        BlockLoopStep(decode, ReadBlock(decode, old(inbox), address, size), before, address, size, block, chunk.value, inbox);
        block := block + chunk.value;
      }
      assert block + [] == block;
      return Ok(block);
    }

    method CriticalBytesMatch(location: seq<byte>, verification: seq<byte>) returns (r: Result<bool, GameboyError>)
      requires |location| == |verification|
      ensures r == CriticalCheck(location, verification, locationStart, criticalAddresses)
    {
      CriticalCheckMeaning(location, verification, locationStart, criticalAddresses);
      var valid := true;
      for i := 0 to |criticalAddresses|
        invariant forall k :: 0 <= k < i ==> InPyRange(criticalAddresses[k] - locationStart, |location|)
        invariant valid <==> forall k :: 0 <= k < i ==>
                    PyAt(location, criticalAddresses[k] - locationStart)
                    == PyAt(verification, criticalAddresses[k] - locationStart)
      {
        var offset := criticalAddresses[i] - locationStart;
        if !InPyRange(offset, |location|) {
          return Err(IndexError);
        }
        if PyAt(location, offset) != PyAt(verification, offset) {
          valid := false;
        }
      }
      return Ok(valid);
    }

    /** One pass of the retry loop in `update_cache`: the location block, the
        hram block, the location block again, and the comparison. */
    method ReadRound() returns (r: Result<(seq<byte>, seq<byte>, bool), GameboyError>)
      requires NeverOverlong(decode)
      modifies this`inbox
      ensures var expected := Round(decode, old(inbox), old(CurrentLayout()));
              match r
              case Ok((location, hram, stable)) => expected == Ok(RoundResult(location, hram, stable, inbox))
              case Err(e) => expected == Err(e)
    {
      var first := ReadMemoryBlock(locationStart, locationSize);
      if first.Err? {
        return Err(first.error);
      }
      var high := ReadMemoryBlock(hRamStart, hRamSize);
      if high.Err? {
        return Err(high.error);
      }
      var second := ReadMemoryBlock(locationStart, locationSize);
      if second.Err? {
        return Err(second.error);
      }
      var valid := CriticalBytesMatch(first.value, second.value);
      if valid.Err? {
        return Err(valid.error);
      }
      return Ok((first.value, high.value, valid.value));
    }

    /** The retry loop of `update_cache`: rounds until one is stable, giving
        up (`None`) after the sixth unstable round in a row. */
    method TakeSnapshot() returns (r: Result<Option<(seq<byte>, seq<byte>)>, GameboyError>)
      requires NeverOverlong(decode)
      modifies this`inbox
      ensures Taken(r, inbox) == FindStable(decode, old(inbox), old(CurrentLayout()), 0)
    {
      ghost var L := CurrentLayout();
      ghost var goal := FindStable(decode, inbox, L, 0);
      var attempts := 0;
      while true
        invariant attempts <= MaxAttempts && L == CurrentLayout()
        invariant goal == FindStable(decode, inbox, L, attempts)
        decreases MaxAttempts - attempts
      {
        var done;
        done, r := Attempt(attempts);
        if done {
          return;
        }
        attempts := attempts + 1;
      }
    }

    /** One round of the retry loop after `attempts` unstable ones: either
        the loop's answer, or the next attempt continues from the new inbox. */
    method Attempt(attempts: nat) returns (done: bool, r: Result<Option<(seq<byte>, seq<byte>)>, GameboyError>)
      requires NeverOverlong(decode) && attempts <= MaxAttempts
      modifies this`inbox
      ensures done ==> Taken(r, inbox) == FindStable(decode, old(inbox), old(CurrentLayout()), attempts)
      ensures !done ==> (attempts < MaxAttempts &&
                         FindStable(decode, old(inbox), old(CurrentLayout()), attempts)
                         == FindStable(decode, inbox, old(CurrentLayout()), attempts + 1))
    {
      ghost var before := inbox;
      var round := ReadRound();
      if round.Err? {
        return true, Err(round.error);
      }
      var (location, hram, stable) := round.value;
      NextAttempt(decode, before, CurrentLayout(), attempts, location, hram, stable, inbox);
      if stable {
        return true, Ok(Some((location, hram)));
      }
      if attempts + 1 > MaxAttempts {
        return true, Ok(None);
      }
      return false, Ok(None);
    }

    method UpdateCache() returns (r: Result<(), GameboyError>)
      requires NeverOverlong(decode) && checksSet && locationSet && Fits(CurrentLayout())
      modifies this`cache, this`inbox
      ensures r.Ok? ==> UpdateCacheSpec(decode, old(inbox), old(CurrentLayout())) == Done(cache, inbox)
      ensures r.Err? ==> UpdateCacheSpec(decode, old(inbox), old(CurrentLayout())) == Failed(r.error) && cache == []
    {
      var L := CurrentLayout();
      cache := [];
      var safe := CheckSafeGameplay(true);
      if safe.Err? {
        return Err(safe.error);
      }
      if !safe.value {
        return Ok(());
      }
      ghost var afterCheck := inbox;
      var snapshot := TakeSnapshot();
      if snapshot.Err? {
        return Err(snapshot.error);
      }
      if snapshot.value.None? {
        return Ok(());
      }
      var (location, hram) := snapshot.value.value;
      ghost var afterSnapshot := inbox;
      var checks := ReadMemoryBlock(checksStart, checksSize);
      if checks.Err? {
        return Err(checks.error);
      }
      ghost var afterChecks := inbox;
      safe := CheckSafeGameplay(true);
      if safe.Err? {
        return Err(safe.error);
      }
      if !safe.value {
        return Ok(());
      }
      FilledCacheFromConfirmedSnapshot(decode, old(inbox), L, afterCheck, location, hram, afterSnapshot,
                                       checks.value, afterChecks, inbox);
      cache := BuildCache(L, checks.value, location, hram);
      return Ok(());
    }

    /** `read_memory_cache(addresses)`; `stale` is the clock's verdict that
        the cache is older than a tenth of a second or was never filled. */
    method ReadMemoryCache(addresses: seq<int>, stale: bool) returns (r: Result<Option<map<int, byte>>, GameboyError>)
      requires stale ==> checksSet && locationSet && Fits(CurrentLayout())
      requires NeverOverlong(decode)
      modifies this`cache, this`inbox
      ensures !stale ==> cache == old(cache) && inbox == old(inbox)
      ensures !stale ==> r == CacheLookup(cache, cacheStart, cacheSize, addresses)
      ensures stale ==> match UpdateCacheSpec(decode, old(inbox), old(CurrentLayout()))
                        case Failed(e) => r == Err(e) && cache == []
                        case Done(c, rest) =>
                          cache == c && inbox == rest && r == CacheLookup(c, cacheStart, cacheSize, addresses)
    {
      if stale {
        var updated := UpdateCache();
        if updated.Err? {
          return Err(updated.error);
        }
      }
      r := CacheLookup(cache, cacheStart, cacheSize, addresses);
    }
  }
}
