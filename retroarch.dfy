/** The checks the emulator client applies to what the emulator tells it: the
    reply to a command (`check_command_response`), the reply to a memory read
    (`async_read_memory`), and the range of gameplay-type values in which the
    game's memory can be trusted. Replies are byte strings; the UDP
    exchange that produces them is not part of this model. */
module RetroArch {
  import opened Common
  import opened LAConstants

  // ---------------------------------------------------------------------------
  // Bytes and text.

  predicate IsAscii(s: string)
  {
    forall i :: 0 <= i < |s| ==> s[i] as int < 128
  }

  /** The bytes of an ASCII string (`str.encode()`). */
  function Bytes(s: string): (b: seq<byte>)
    requires IsAscii(s)
    ensures |b| == |s| && forall i :: 0 <= i < |s| ==> b[i] == s[i] as int
  {
    seq(|s|, i requires 0 <= i < |s| => s[i] as int)
  }

  /** Every byte decodes as ASCII (`bytes.decode('ascii')` does not raise). */
  predicate AsciiBytes(b: seq<byte>)
  {
    forall i :: 0 <= i < |b| ==> b[i] < 128
  }

  const Space: byte := 32
  const Newline: byte := 10
  const Dot: byte := 46

  /** The first position of `x` in `s`. */
  function FirstIndex(s: seq<byte>, x: byte): (r: Option<nat>)
    ensures r.Some? ==> r.value < |s| && s[r.value] == x && forall k :: 0 <= k < r.value ==> s[k] != x
    ensures r.None? ==> forall k :: 0 <= k < |s| ==> s[k] != x
  {
    if s == [] then None
    else if s[0] == x then Some(0)
    else
      match FirstIndex(s[1..], x)
      case None => None
      case Some(p) => Some(p + 1)
  }

  /** `text.split(" ", 2)`: cut at the first two spaces, at most three parts. */
  function SplitSpace2(s: seq<byte>): (parts: seq<seq<byte>>)
    ensures 1 <= |parts| <= 3
  {
    match FirstIndex(s, Space)
    case None => [s]
    case Some(p) =>
      var rest := s[p + 1..];
      match FirstIndex(rest, Space)
      case None => [s[..p], rest]
      case Some(q) => [s[..p], rest[..q], rest[q + 1..]]
  }

  // ---------------------------------------------------------------------------
  // The reply to a command.

  predicate IsDigit(b: byte)
  {
    48 <= b <= 57
  }

  /** The length of the run of decimal digits that starts at `i`. */
  function DigitRun(s: seq<byte>, i: nat): (n: nat)
    requires i <= |s|
    ensures i + n <= |s|
    ensures forall k :: i <= k < i + n ==> IsDigit(s[k])
    ensures i + n < |s| ==> !IsDigit(s[i + n])
    decreases |s| - i
  {
    if i < |s| && IsDigit(s[i]) then 1 + DigitRun(s, i + 1) else 0
  }

  /** Whether `re.match(r"\d+\.\d+\.\d+", text)` succeeds, found by following
      the three digit runs. */
  predicate StartsWithVersion(s: seq<byte>)
  {
    var a := DigitRun(s, 0);
    && 0 < a < |s| && s[a] == Dot
    && var b := DigitRun(s, a + 1);
       && 0 < b && a + 1 + b < |s| && s[a + 1 + b] == Dot
       && DigitRun(s, a + b + 2) > 0
  }

  ghost predicate AllDigits(s: seq<byte>, lo: int, hi: int)
    requires 0 <= lo <= hi <= |s|
  {
    forall t :: lo <= t < hi ==> IsDigit(s[t])
  }

  /** The regular expression matches a prefix `s[..k]` that consists of digits
      up to `i`, a dot, digits up to `j`, a dot, and digits up to `k`. */
  ghost predicate VersionAt(s: seq<byte>, i: int, j: int, k: int)
  {
    && 0 < i && i + 1 < j && j + 1 < k <= |s|
    && AllDigits(s, 0, i) && s[i] == Dot
    && AllDigits(s, i + 1, j) && s[j] == Dot
    && AllDigits(s, j + 1, k)
  }

  lemma DigitRunExact(s: seq<byte>, lo: nat, hi: nat)
    requires lo <= hi < |s| && AllDigits(s, lo, hi) && !IsDigit(s[hi])
    ensures DigitRun(s, lo) == hi - lo
  {
    var n := DigitRun(s, lo);
    if n < hi - lo {
      assert IsDigit(s[lo + n]);
    }
  }

  /** Following the digit runs finds a match exactly when the regular
      expression has one. */
  lemma StartsWithVersionIff(s: seq<byte>)
    ensures StartsWithVersion(s) <==> exists i, j, k :: VersionAt(s, i, j, k)
  {
    if StartsWithVersion(s) {
      VersionFound(s);
    }
    if exists i, j, k :: VersionAt(s, i, j, k) {
      var i, j, k :| VersionAt(s, i, j, k);
      VersionFollowed(s, i, j, k);
    }
  }

  lemma VersionFound(s: seq<byte>)
    requires StartsWithVersion(s)
    ensures exists i, j, k :: VersionAt(s, i, j, k)
  {
    var a := DigitRun(s, 0);
    var b := DigitRun(s, a + 1);
    var c := DigitRun(s, a + b + 2);
    assert VersionAt(s, a, a + 1 + b, a + b + 2 + c);
  }

  lemma VersionFollowed(s: seq<byte>, i: int, j: int, k: int)
    requires VersionAt(s, i, j, k)
    ensures StartsWithVersion(s)
  {
    DigitRunExact(s, 0, i);
    DigitRunExact(s, i + 1, j);
    assert DigitRun(s, j + 1) > 0;
  }

  /** Accept or refuse the reply to `command`: the version query must answer
      with a dotted version number, every other command must be echoed. */
  function CheckCommandResponse(command: string, response: seq<byte>): (r: Result<(), GameboyError>)
    requires IsAscii(command)
    ensures command != "VERSION" ==> (r.Ok? <==> StartsWith(response, Bytes(command)))
    ensures r.Err? ==> r.error == BadRetroArchResponse || (command == "VERSION" && r.error == DecodeError)
  {
    if command == "VERSION" then
      if !AsciiBytes(response) then Err(DecodeError)
      else if StartsWithVersion(response) then Ok(())
      else Err(BadRetroArchResponse)
    else if StartsWith(response, Bytes(command)) then Ok(())
    else Err(BadRetroArchResponse)
  }

  /** The version query is accepted exactly when the reply is ASCII and
      starts with digits, a dot, digits, a dot and digits. */
  lemma VersionResponseAccepted(response: seq<byte>)
    ensures CheckCommandResponse("VERSION", response).Ok? <==>
              AsciiBytes(response) && exists i, j, k :: VersionAt(response, i, j, k)
    ensures CheckCommandResponse("VERSION", response).Err? ==>
              CheckCommandResponse("VERSION", response).error ==
                (if AsciiBytes(response) then BadRetroArchResponse else DecodeError)
  {
    StartsWithVersionIff(response);
  }

  // ---------------------------------------------------------------------------
  // Hexadecimal, over plain hex digits.

  predicate IsHexDigit(b: byte)
  {
    (48 <= b <= 57) || (97 <= b <= 102) || (65 <= b <= 70)
  }

  function HexDigitValue(b: byte): (v: nat)
    requires IsHexDigit(b)
    ensures v < 16
  {
    if b <= 57 then b - 48 else if b >= 97 then b - 87 else b - 55
  }

  /** The lower-case digit for `v`. */
  function HexChar(v: nat): (b: byte)
    requires v < 16
    ensures IsHexDigit(b) && HexDigitValue(b) == v && b != Space
  {
    if v < 10 then 48 + v else 87 + v
  }

  predicate AllHex(s: seq<byte>)
  {
    forall i :: 0 <= i < |s| ==> IsHexDigit(s[i])
  }

  function HexNumber(s: seq<byte>): nat
    requires AllHex(s)
  {
    if s == [] then 0 else HexNumber(s[..|s| - 1]) * 16 + HexDigitValue(s[|s| - 1])
  }

  /** `int(text, 16)` for hex digits with an optional `0x` or `0X` prefix;
      anything else fails. */
  function ParseHex(s: seq<byte>): (r: Option<nat>)
    ensures AllHex(s) ==> r == if s == [] then None else Some(HexNumber(s))
  {
    var digits := if |s| >= 2 && s[0] == 48 && (s[1] == 120 || s[1] == 88) then s[2..] else s;
    if digits != [] && AllHex(digits) then Some(HexNumber(digits)) else None
  }

  /** `hex(n)` without its `0x` prefix, as the emulator echoes addresses. */
  function ToHex(n: nat): (s: seq<byte>)
    ensures s != [] && AllHex(s) && Space !in s
  {
    if n < 16 then [HexChar(n)]
    else
      var s := ToHex(n / 16) + [HexChar(n % 16)];
      assert forall i :: 0 <= i < |s| - 1 ==> s[i] == ToHex(n / 16)[i];
      s
  }

  lemma {:induction false} ParseToHex(n: nat)
    ensures ParseHex(ToHex(n)) == Some(n)
  {
    HexNumberToHex(n);
  }

  lemma {:induction false} HexNumberToHex(n: nat)
    ensures HexNumber(ToHex(n)) == n
  {
    var s := ToHex(n);
    if n < 16 {
      assert s[..0] == [];
    } else {
      HexNumberToHex(n / 16);
      assert s[..|s| - 1] == ToHex(n / 16);
    }
  }

  predicate IsPySpace(b: byte)
  {
    b == 32 || (9 <= b <= 13)
  }

  /** `bytearray.fromhex(text)`: pairs of hex digits, with whitespace allowed
      before each pair; anything else fails. */
  function FromHex(s: seq<byte>): Option<seq<byte>>
  {
    if s == [] then Some([])
    else if IsPySpace(s[0]) then FromHex(s[1..])
    else if |s| >= 2 && IsHexDigit(s[0]) && IsHexDigit(s[1]) then
      match FromHex(s[2..])
      case None => None
      case Some(rest) => Some([HexDigitValue(s[0]) * 16 + HexDigitValue(s[1])] + rest)
    else None
  }

  /** The two lower-case digits of a byte. */
  function Hex2(b: byte): (s: seq<byte>)
    ensures |s| == 2 && IsHexDigit(s[0]) && IsHexDigit(s[1]) && Space !in s
  {
    [HexChar(b / 16), HexChar(b % 16)]
  }

  /** Each byte as a space and two hex digits. */
  function SpacedHex(p: seq<byte>): (s: seq<byte>)
    ensures p != [] ==> s != [] && s[0] == Space
  {
    if p == [] then [] else [Space] + Hex2(p[0]) + SpacedHex(p[1..])
  }

  lemma {:induction false} FromSpacedHex(p: seq<byte>)
    ensures FromHex(SpacedHex(p)) == Some(p)
    ensures p != [] ==> FromHex(SpacedHex(p)[1..]) == Some(p)
  {
    if p != [] {
      FromSpacedHex(p[1..]);
      var s := SpacedHex(p);
      var h := Hex2(p[0]);
      assert s[1..] == h + SpacedHex(p[1..]);
      assert s[1..][2..] == SpacedHex(p[1..]);
      assert HexDigitValue(h[0]) * 16 + HexDigitValue(h[1]) == p[0];
      assert FromHex(s[1..]) == Some([p[0]] + p[1..]);
      assert [p[0]] + p[1..] == p;
    }
  }

  // ---------------------------------------------------------------------------
  // The reply to a memory read.

  const ReadCommand: string := "READ_CORE_MEMORY"

  /** Validate the reply to `READ_CORE_MEMORY <address> <size>` and return the
      bytes it carries: the reply must echo the command, then (with its last
      byte, the newline, dropped) the hex address that was asked for and hex
      pairs, no more than `size` of them. */
  function ReadReply(reply: seq<byte>, address: int, size: int): (r: Result<seq<byte>, GameboyError>)
    ensures r.Ok? ==> |r.value| <= size
    ensures r.Err? ==> r.error in {BadRetroArchResponse, DecodeError, IndexError, ValueError}
  {
    match CheckCommandResponse(ReadCommand, reply)
    case Err(e) => Err(e)
    case Ok(_) =>
      var text := reply[..|reply| - 1];
      if !AsciiBytes(text) then Err(DecodeError)
      else
        var parts := SplitSpace2(text);
        if |parts| < 2 then Err(IndexError)
        else
          match ParseHex(parts[1])
          case None => Err(BadRetroArchResponse)
          case Some(echoed) =>
            if echoed != address then Err(BadRetroArchResponse)
            else if |parts| < 3 then Err(IndexError)
            else
              match FromHex(parts[2])
              case None => Err(ValueError)
              case Some(payload) => if |payload| > size then Err(BadRetroArchResponse) else Ok(payload)
  }

  /** An accepted reply echoes the command, and the rest of it (less its last
      byte) is a word, a space, the requested address in hex, a space, and
      hex pairs that decode to the bytes returned. */
  lemma ReadReplyAccepted(reply: seq<byte>, address: int, size: int)
    returns (head: seq<byte>, echoed: seq<byte>, payload: seq<byte>)
    requires ReadReply(reply, address, size).Ok?
    ensures StartsWith(reply, Bytes(ReadCommand))
    ensures reply[..|reply| - 1] == head + [Space] + (echoed + [Space] + payload)
    ensures Space !in head && Space !in echoed
    ensures ParseHex(echoed) == Some(address) && FromHex(payload) == Some(ReadReply(reply, address, size).value)
  {
    var text := reply[..|reply| - 1];
    SplitThree(text);
    var parts := SplitSpace2(text);
    head, echoed, payload := parts[0], parts[1], parts[2];
  }

  lemma SplitThree(s: seq<byte>)
    requires |SplitSpace2(s)| == 3
    ensures var parts := SplitSpace2(s);
            s == parts[0] + [Space] + (parts[1] + [Space] + parts[2]) && Space !in parts[0] && Space !in parts[1]
  {
    var p := FirstIndex(s, Space).value;
    var q := FirstIndex(s[p + 1..], Space).value;
    CutTwice(s, p, q);
  }

  /** Cutting at the first space, and again at the first space after it,
      leaves two space-free words and the remainder. */
  lemma CutTwice(s: seq<byte>, p: nat, q: nat)
    requires FirstIndex(s, Space) == Some(p) && FirstIndex(s[p + 1..], Space) == Some(q)
    ensures var rest := s[p + 1..];
            && SplitSpace2(s) == [s[..p], rest[..q], rest[q + 1..]]
            && s == s[..p] + [Space] + (rest[..q] + [Space] + rest[q + 1..])
            && Space !in s[..p] && Space !in rest[..q]
  {
    var rest := s[p + 1..];
    CutAt(s, p);
    CutAt(rest, q);
  }

  /** Cutting at the first space leaves a space-free head. */
  lemma CutAt(s: seq<byte>, p: nat)
    requires FirstIndex(s, Space) == Some(p)
    ensures s == s[..p] + [Space] + s[p + 1..] && Space !in s[..p]
  {
    assert forall k :: 0 <= k < p ==> s[..p][k] == s[k];
  }

  /** A reply in the emulator's format: the command, the address in hex, each
      byte as a space and two hex digits, and a newline. */
  function FormatReadReply(address: nat, payload: seq<byte>): seq<byte>
  {
    Bytes(ReadCommand) + [Space] + ToHex(address) + SpacedHex(payload) + [Newline]
  }

  /** A position holding `x` with no `x` before it is the first. */
  lemma FirstIndexAt(s: seq<byte>, x: byte, i: nat)
    requires i < |s| && s[i] == x && x !in s[..i]
    ensures FirstIndex(s, x) == Some(i)
  {
    assert forall k :: 0 <= k < i ==> s[..i][k] == s[k];
  }

  /** Text with two spaces, and none in its first two parts, splits there. */
  lemma SplitAtTwoSpaces(a: seq<byte>, b: seq<byte>, c: seq<byte>)
    requires Space !in a && Space !in b
    ensures SplitSpace2(a + [Space] + b + [Space] + c) == [a, b, c]
  {
    var s := a + [Space] + b + [Space] + c;
    assert s[..|a|] == a;
    FirstIndexAt(s, Space, |a|);
    var rest := s[|a| + 1..];
    assert rest == b + [Space] + c;
    assert rest[..|b|] == b;
    FirstIndexAt(rest, Space, |b|);
    assert rest[|b| + 1..] == c;
  }

  /** Text with one space, and none after it, splits into two parts. */
  lemma SplitAtOneSpace(a: seq<byte>, b: seq<byte>)
    requires Space !in a && Space !in b
    ensures SplitSpace2(a + [Space] + b) == [a, b]
  {
    var s := a + [Space] + b;
    assert s[..|a|] == a;
    FirstIndexAt(s, Space, |a|);
    assert s[|a| + 1..] == b;
  }

  /** The command word is ASCII, sixteen bytes long and has no space. */
  lemma ReadCommandWord()
    ensures |Bytes(ReadCommand)| == 16 && AsciiBytes(Bytes(ReadCommand)) && Space !in Bytes(ReadCommand)
  {
  }

  lemma AsciiConcat(a: seq<byte>, b: seq<byte>)
    requires AsciiBytes(a) && AsciiBytes(b)
    ensures AsciiBytes(a + b)
  {
  }

  /** The text of a formatted reply splits into the command, the echoed
      address and, when there is a payload, the hex pairs. */
  lemma SplitFormatted(address: nat, payload: seq<byte>)
    ensures var reply := FormatReadReply(address, payload);
            var text := reply[..|reply| - 1];
            && AsciiBytes(text)
            && SplitSpace2(text) == if payload == [] then [Bytes(ReadCommand), ToHex(address)]
                                    else [Bytes(ReadCommand), ToHex(address), SpacedHex(payload)[1..]]
  {
    ReadCommandWord();
    SpacedHexAscii(payload);
    var reply := FormatReadReply(address, payload);
    assert reply == Bytes(ReadCommand) + [Space] + ToHex(address) + SpacedHex(payload) + [Newline];
    SplitWords(Bytes(ReadCommand), ToHex(address), SpacedHex(payload), reply);
  }

  /** `reply` is a word, a space, a hex number and spaced hex pairs, then one
      more byte: its text splits into those parts. */
  lemma SplitWords(cmd: seq<byte>, hex: seq<byte>, tail: seq<byte>, reply: seq<byte>)
    requires AsciiBytes(cmd) && Space !in cmd
    requires hex != [] && AllHex(hex) && Space !in hex
    requires tail != [] ==> tail[0] == Space
    requires AsciiBytes(tail)
    requires reply == cmd + [Space] + hex + tail + [Newline]
    ensures var text := reply[..|reply| - 1];
            && AsciiBytes(text)
            && SplitSpace2(text) == if tail == [] then [cmd, hex] else [cmd, hex, tail[1..]]
  {
    var text := cmd + [Space] + hex + tail;
    assert reply[..|reply| - 1] == text;
    AsciiConcat(cmd, [Space]);
    AsciiConcat(cmd + [Space], hex);
    AsciiConcat(cmd + [Space] + hex, tail);
    if tail == [] {
      assert text == cmd + [Space] + hex;
      SplitAtOneSpace(cmd, hex);
    } else {
      assert text == cmd + [Space] + hex + [Space] + tail[1..];
      SplitAtTwoSpaces(cmd, hex, tail[1..]);
    }
  }

  lemma {:induction false} SpacedHexAscii(p: seq<byte>)
    ensures AsciiBytes(SpacedHex(p))
  {
    if p != [] {
      SpacedHexAscii(p[1..]);
    }
  }

  /** A well-formed reply that echoes the address asked for and carries at
      least one and at most `size` bytes is accepted with exactly those bytes. */
  lemma ReadReplyAcceptsFormatted(address: nat, payload: seq<byte>, size: int)
    requires 0 < |payload| <= size
    ensures ReadReply(FormatReadReply(address, payload), address, size) == Ok(payload)
  {
    var reply := FormatReadReply(address, payload);
    assert reply[..16] == Bytes(ReadCommand);
    SplitFormatted(address, payload);
    ParseToHex(address);
    FromSpacedHex(payload);
  }

  /** A reply that echoes another address is refused, whatever it carries. */
  lemma ReadReplyRejectsOtherAddress(echoed: nat, payload: seq<byte>, address: int, size: int)
    requires echoed != address
    ensures ReadReply(FormatReadReply(echoed, payload), address, size) == Err(BadRetroArchResponse)
  {
    var reply := FormatReadReply(echoed, payload);
    assert reply[..16] == Bytes(ReadCommand);
    SplitFormatted(echoed, payload);
    ParseToHex(echoed);
  }

  /** A reply carrying more bytes than were asked for is refused. */
  lemma ReadReplyRejectsOversized(address: nat, payload: seq<byte>, size: int)
    requires 0 <= size < |payload|
    ensures ReadReply(FormatReadReply(address, payload), address, size) == Err(BadRetroArchResponse)
  {
    var reply := FormatReadReply(address, payload);
    assert reply[..16] == Bytes(ReadCommand);
    SplitFormatted(address, payload);
    ParseToHex(address);
    FromSpacedHex(payload);
  }

  // ---------------------------------------------------------------------------
  // Whether the game is in a state where its memory can be read.

  /** The gameplay-type values of normal play and of the credits. */
  const SafeGameplayValues: set<int> := {0x01} + set v | MinGameplayValue <= v <= MaxGameplayValue

  /** The test at the heart of `check_safe_gameplay`: in gameplay or in the
      credits. Values 0x00 and 0x02 to 0x05 (title, file select, intro) and
      anything above 0x1A are not safe. */
  function InGameplay(v: byte): (safe: bool)
    ensures safe <==> v in SafeGameplayValues
  {
    (MinGameplayValue <= v <= MaxGameplayValue) || v == 0x01
  }
}
