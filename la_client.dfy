/** The Link's Awakening client's side of the multiworld sync: the table of
    items received from the server (`recvd_checks`), their playback into the
    game one at a time (`recved_item_from_ap` and the end of `main_tick`), and
    the deathlink debounce in `main_tick`. What the client reads from the
    emulator arrives as parameters; what it writes is recorded, in order, in
    the client's `sent` log. */
module LAClient {
  import opened Common
  import opened LAConstants

  /** An item the server sent: its id and the index of the player it came
      from (the other fields of the server's record are not used here). */
  datatype NetworkItem = NetworkItem(item: int, player: int)

  /** One `write_memory(address, bytes)` call. */
  datatype MemoryWrite = MemoryWrite(address: int, data: seq<int>)

  // ---------------------------------------------------------------------------
  // `struct.pack(">H", n)` and `struct.unpack(">H", b)`.

  function PackU16BE(n: int): (r: Result<seq<byte>, GameboyError>)
    ensures r.Ok? <==> 0 <= n < 0x1_0000
    ensures r.Err? ==> r.error == StructError
    ensures r.Ok? ==> |r.value| == 2 && (r.value[0] as int) * 256 + r.value[1] as int == n
  {
    if 0 <= n < 0x1_0000 then Ok([n / 256, n % 256]) else Err(StructError)
  }

  function UnpackU16BE(b: seq<byte>): (r: Result<int, GameboyError>)
    ensures r.Ok? <==> |b| == 2
    ensures r.Err? ==> r.error == StructError
    ensures r.Ok? ==> 0 <= r.value < 0x1_0000
  {
    if |b| == 2 then Ok((b[0] as int) * 256 + b[1] as int) else Err(StructError)
  }

  lemma UnpackPack(n: int)
    requires 0 <= n < 0x1_0000
    ensures UnpackU16BE(PackU16BE(n).value) == Ok(n)
  {
  }

  lemma PackUnpack(b: seq<byte>)
    requires |b| == 2
    ensures PackU16BE(UnpackU16BE(b).value) == Ok(b)
  {
    var n := (b[0] as int) * 256 + b[1] as int;
    assert n / 256 == b[0] && n % 256 == b[1];
    assert [b[0], b[1]] == b;
  }

  // ---------------------------------------------------------------------------
  // Playing back one received item.

  /** `status |= 1`: the flag telling the ROM that an item is waiting. */
  function MarkPending(status: byte): (r: byte)
    ensures r % 2 == 1 && r / 2 == status / 2
  {
    if status % 2 == 1 then status else status + 1
  }

  /** The sender index the ROM's player-name table can show: at most 100. */
  function SenderIndex(player: int): (p: int)
    ensures p <= 100 && (p == player || p == 100)
    ensures player <= 100 ==> p == player
  {
    if player > 100 then 100 else player
  }

  /** The writes of one playback, and the exception that cut it short. */
  datatype Played = Played(writes: seq<MemoryWrite>, error: Option<GameboyError>)

  /** `recved_item_from_ap` once the ROM has taken the previous item (the
      last status byte read has bit 0 clear): the item and its sender, the
      pending flag, and the index of the next item expected. `struct.pack`
      raises after the first two writes have gone out when the next index
      does not fit in two bytes. */
  function Playback(hasStartItem: bool, itemId: int, fromPlayer: int, nextIndex: int, status: byte, baseId: int)
    : (p: Played)
    ensures !hasStartItem ==> p == Played([], None)
    ensures hasStartItem ==>
              && 2 <= |p.writes| <= 3
              && p.writes[0].address == wLinkGiveItem && |p.writes[0].data| == 2
              && p.writes[0].data[0] + baseId == itemId
              && p.writes[0].data[1] == (if fromPlayer > 100 then 100 else fromPlayer)
              && p.writes[1].address == wLinkStatusBits && |p.writes[1].data| == 1
              && p.writes[1].data[0] % 2 == 1 && p.writes[1].data[0] / 2 == status / 2
              && (p.error.None? <==> -1 <= nextIndex < 0xFFFF)
              && (p.error.Some? ==> |p.writes| == 2 && p.error.value == StructError)
    ensures hasStartItem && p.error.None? ==>
              && |p.writes| == 3 && p.writes[2].address == wRecvIndex
              && var d := p.writes[2].data;
                 |d| == 2 && 0 <= d[0] < 256 && 0 <= d[1] < 256 && d[0] * 256 + d[1] == nextIndex + 1
  {
    if !hasStartItem then Played([], None)
    else
      var give := MemoryWrite(wLinkGiveItem, [itemId - baseId, SenderIndex(fromPlayer)]);
      var mark := MemoryWrite(wLinkStatusBits, [MarkPending(status)]);
      match PackU16BE(nextIndex + 1)
      case Err(e) => Played([give, mark], Some(e))
      case Ok(index) => Played([give, mark, MemoryWrite(wRecvIndex, index)], None)
  }

  /** The last part of `main_tick`: read the index the ROM expects next and,
      when an item with that index has been received, play it back. */
  function PlayNext(reply: Result<seq<byte>, GameboyError>, checks: map<int, NetworkItem>,
                    hasStartItem: bool, status: byte, baseId: int): (p: Played)
    ensures reply.Err? ==> p == Played([], Some(reply.error))
    ensures reply.Ok? && |reply.value| != 2 ==> p == Played([], Some(StructError))
    ensures p.writes != [] ==>
              && reply.Ok? && |reply.value| == 2 && hasStartItem
              && UnpackU16BE(reply.value).value in checks
    ensures reply.Ok? && |reply.value| == 2 ==>
              var index := UnpackU16BE(reply.value).value;
              index in checks ==>
                p == Playback(hasStartItem, checks[index].item, checks[index].player, index, status, baseId)
    ensures reply.Ok? && |reply.value| == 2 && UnpackU16BE(reply.value).value !in checks ==>
              p == Played([], None)
  {
    match reply
    case Err(e) => Played([], Some(e))
    case Ok(bytes) =>
      match UnpackU16BE(bytes)
      case Err(e) => Played([], Some(e))
      case Ok(index) =>
        if index in checks then
          Playback(hasStartItem, checks[index].item, checks[index].player, index, status, baseId)
        else Played([], None)
  }

  /** Playback moves the ROM's index on by exactly one: the item written is
      the one received at the index the ROM asked for, and the index written
      back is the next one, unless the index read was the last two bytes can
      hold. */
  lemma PlayNextAdvancesByOne(reply: Result<seq<byte>, GameboyError>, checks: map<int, NetworkItem>,
                              hasStartItem: bool, status: byte, baseId: int)
    requires PlayNext(reply, checks, hasStartItem, status, baseId).writes != []
    ensures var p := PlayNext(reply, checks, hasStartItem, status, baseId);
            var index := UnpackU16BE(reply.value).value;
            && p.writes[0].data[0] + baseId == checks[index].item
            && (p.error.None? <==> index < 0xFFFF)
            && (p.error.None? ==> PackU16BE(index + 1) == Ok(p.writes[2].data))
  {
    var p := PlayNext(reply, checks, hasStartItem, status, baseId);
    var index := UnpackU16BE(reply.value).value;
    if p.error.None? {
      var d := p.writes[2].data;
      assert d[0] == (index + 1) / 256 && d[1] == (index + 1) % 256;
      assert PackU16BE(index + 1).value == [d[0], d[1]] == d;
    }
  }

  // ---------------------------------------------------------------------------
  // The deathlink debounce.

  /** `deathlink_debounce` and `pending_deathlink`. */
  datatype Deathlink = Deathlink(debounce: bool, pending: bool)

  /** What one tick does: the new flags, whether the deathlink callback runs,
      and whether Link's health is written to zero. */
  datatype HealthOutcome = HealthOutcome(next: Deathlink, fire: bool, killLink: bool)

  /** The debounce at the health read in `main_tick`: a death is reported
      once, and a deathlink from the server kills Link without being
      reported back. */
  function HealthTick(d: Deathlink, health: byte): (t: HealthOutcome)
    ensures t.fire <==> !d.debounce && health == 0
    ensures t.killLink <==> d.pending
    ensures !t.next.pending
    ensures t.next.debounce <==> health == 0 || d.pending
  {
    var debounce :=
      if d.debounce && health != 0 then false
      else if !d.debounce && health == 0 then true
      else d.debounce;
    var fire := !d.debounce && health == 0;
    if d.pending then HealthOutcome(Deathlink(true, false), fire, true)
    else HealthOutcome(Deathlink(debounce, false), fire, false)
  }

  /** How often the callback runs over consecutive ticks that read
      `healths`, with no deathlink arriving in between. */
  function Fires(d: Deathlink, healths: seq<byte>): nat
    decreases |healths|
  {
    if healths == [] then 0
    else
      var t := HealthTick(d, healths[0]);
      (if t.fire then 1 else 0) + Fires(t.next, healths[1..])
  }

  /** The deaths in a run of health readings: the readings of zero that
      follow a nonzero one (or, for the first, a live Link when `alive`). */
  function Deaths(alive: bool, healths: seq<byte>): nat
    decreases |healths|
  {
    if healths == [] then 0
    else (if alive && healths[0] == 0 then 1 else 0) + Deaths(healths[0] != 0, healths[1..])
  }

  /** Each death is reported exactly once: the callback runs as often as
      the health reading falls to zero. */
  lemma {:induction false} FiresOncePerDeath(d: Deathlink, healths: seq<byte>)
    requires !d.pending
    ensures Fires(d, healths) == Deaths(!d.debounce, healths)
    decreases |healths|
  {
    if healths != [] {
      var t := HealthTick(d, healths[0]);
      FiresOncePerDeath(t.next, healths[1..]);
    }
  }

  /** A deathlink from the server kills Link, and the death that follows is
      not reported back to the server. */
  lemma DeathlinkNotEchoed(d: Deathlink, health: byte)
    requires d.pending
    ensures HealthTick(d, health).killLink
    ensures !HealthTick(HealthTick(d, health).next, 0).fire
  {
  }

  // ---------------------------------------------------------------------------
  // The client.

  class LinksAwakeningClient {
    var pendingDeathlink: bool
    var deathlinkDebounce: bool
    /** Items received from the server, by their index. */
    var recvdChecks: map<int, NetworkItem>
    /** Every memory write sent to the emulator, oldest first. */
    var sent: seq<MemoryWrite>
    /** The id the game's item ids are offset by. */
    const baseId: int

    constructor(baseId: int)
      ensures !pendingDeathlink && deathlinkDebounce && recvdChecks == map[] && sent == []
      ensures this.baseId == baseId
    {
      this.baseId := baseId;
      pendingDeathlink := false;
      deathlinkDebounce := true;
      recvdChecks := map[];
      sent := [];
    }

    function Flags(): Deathlink
      reads this`deathlinkDebounce, this`pendingDeathlink
    {
      Deathlink(deathlinkDebounce, pendingDeathlink)
    }

    /** The `ReceivedItems` branch of `on_package`: the items are stored at
        consecutive indices from `index`, over whatever was there. */
    method OnReceivedItems(index: int, items: seq<NetworkItem>)
      modifies this`recvdChecks
      ensures forall k :: k in recvdChecks <==> k in old(recvdChecks) || index <= k < index + |items|
      ensures forall k :: k in recvdChecks ==>
                recvdChecks[k] == if index <= k < index + |items| then items[k - index] else old(recvdChecks)[k]
    {
      var i := 0;
      while i < |items|
        invariant 0 <= i <= |items|
        invariant forall k :: k in recvdChecks <==> k in old(recvdChecks) || index <= k < index + i
        invariant forall k :: k in recvdChecks ==>
                    recvdChecks[k] == if index <= k < index + i then items[k - index] else old(recvdChecks)[k]
      {
        recvdChecks := recvdChecks[index + i := items[i]];
        i := i + 1;
      }
    }

    /** `recved_item_from_ap`, from the point where the ROM has taken the
        previous item and the last status byte read is `status`. */
    method ReceivedItemFromAP(itemId: int, fromPlayer: int, nextIndex: int, hasStartItem: bool, status: byte)
      returns (r: Result<(), GameboyError>)
      modifies this`sent
      ensures var p := Playback(hasStartItem, itemId, fromPlayer, nextIndex, status, baseId);
              && sent == old(sent) + p.writes
              && (r.Err? <==> p.error.Some?) && (r.Err? ==> r.error == p.error.value)
    {
      if !hasStartItem {
        return Ok(());
      }
      var item := itemId - baseId;
      var from := fromPlayer;
      if from > 100 {
        from := 100;
      }
      var next := nextIndex + 1;
      sent := sent + [MemoryWrite(wLinkGiveItem, [item, from])];
      var marked := MarkPending(status);
      sent := sent + [MemoryWrite(wLinkStatusBits, [marked])];
      var packed := PackU16BE(next);
      if packed.Err? {
        return Err(packed.error);
      }
      sent := sent + [MemoryWrite(wRecvIndex, packed.value)];
      return Ok(());
    }

    /** The deathlink and playback part of `main_tick`: `health` is what the
        cache read gave for Link's health (`None` when the cache is empty,
        which `main_tick` then indexes), `reply` the outcome of reading the
        two-byte index the ROM expects next. */
    method MainTick(health: Option<byte>, reply: Result<seq<byte>, GameboyError>, hasStartItem: bool, status: byte)
      returns (fired: bool, r: Result<(), GameboyError>)
      modifies this`deathlinkDebounce, this`pendingDeathlink, this`sent
      ensures health.None? ==> !fired && r == Err(TypeError) && Flags() == old(Flags()) && sent == old(sent)
      ensures health.Some? ==>
                var t := HealthTick(old(Flags()), health.value);
                var p := PlayNext(reply, recvdChecks, hasStartItem, status, baseId);
                && fired == t.fire && Flags() == t.next
                && sent == old(sent) + (if t.killLink then [MemoryWrite(wLinkHealth, [0])] else []) + p.writes
                && (r.Err? <==> p.error.Some?) && (r.Err? ==> r.error == p.error.value)
    {
      if health.None? {
        return false, Err(TypeError);
      }
      var currentHealth := health.value;
      fired := false;
      if deathlinkDebounce && currentHealth != 0 {
        deathlinkDebounce := false;
      } else if !deathlinkDebounce && currentHealth == 0 {
        fired := true;
        deathlinkDebounce := true;
      }
      if pendingDeathlink {
        sent := sent + [MemoryWrite(wLinkHealth, [0])];
        pendingDeathlink := false;
        deathlinkDebounce := true;
      }
      ghost var afterHealth := sent;
      if reply.Err? {
        return fired, Err(reply.error);
      }
      var recvIndex := UnpackU16BE(reply.value);
      if recvIndex.Err? {
        return fired, Err(recvIndex.error);
      }
      if recvIndex.value in recvdChecks {
        var item := recvdChecks[recvIndex.value];
        r := ReceivedItemFromAP(item.item, item.player, recvIndex.value, hasStartItem, status);
      } else {
        r := Ok(());
      }
    }
  }
}
