/** The durable timed lease of src/Core/Control/TimedActuatorOverride.h: its record format, the
    object that keeps one lease, and the same steps as functions on a value. */
module TimedActuatorOverride {
  import opened Wrappers
  import opened Bytes

  const MAX_DURATION_SEC := 86400
  const RECORD_SIZE := 32

  datatype Reason = NoReason | Expired | Released | Safety | Configuration | ClockInvalid

  datatype Mode = Guided | Forced | WaitingTime | PersistenceError

  /** What `state` shows. */
  datatype ControlState = ControlState(mode: Mode, reason: Reason, value: bool, remainingSec: U32, endsAtUtc: U64)

  /** The fields of the object. */
  datatype Lease = Lease(slot: Byte, binding: U32, active: bool, value: bool, anchored: bool, dirty: bool,
                         startUtc: U64, endUtc: U64, deadlineMs: U64, reason: Reason)

  const IDLE := Lease(0, 0, false, false, false, false, 0, 0, 0, NoReason)

  // ----- the record format -----

  /** What a flash record says. */
  datatype Record = Record(active: bool, slot: Byte, binding: U32, value: bool, start: U64, end: U64)

  function Flag(b: bool): Byte {
    if b then 1 else 0
  }

  const PADDING: seq<Byte> := [0, 0, 0, 0, 0, 0, 0, 0]

  function Head(r: Record): (h: seq<Byte>)
    ensures |h| == 4
  {
    [1, Flag(r.active), Flag(r.value), r.slot]
  }

  function Encode(r: Record): (bytes: seq<Byte>)
    ensures |bytes| == RECORD_SIZE
  {
    Layout(Head(r), ToBytes(r.binding, 4), ToBytes(r.start, 8), ToBytes(r.end, 8))
  }

  function Layout(head: seq<Byte>, key: seq<Byte>, start: seq<Byte>, end: seq<Byte>): seq<Byte> {
    head + key + start + end + PADDING
  }

  lemma LayoutParts(p: seq<Byte>, head: seq<Byte>, key: seq<Byte>, start: seq<Byte>, end: seq<Byte>)
    requires |head| == |key| == 4 && |start| == |end| == 8 && |p| == RECORD_SIZE
    ensures p == Layout(head, key, start, end) <==>
            p[..4] == head && p[4..8] == key && p[8..16] == start && p[16..24] == end && p[24..] == PADDING
  {
    if p[..4] == head && p[4..8] == key && p[8..16] == start && p[16..24] == end && p[24..] == PADDING {
      assert p == p[..4] + p[4..8] + p[8..16] + p[16..24] + p[24..];
    }
  }

  /** Where each field lies: version, flags and slot, then three little-endian numbers. */
  lemma RecordLayout(r: Record)
    ensures var b := Encode(r);
            && b[0] == 1 && b[1] == (if r.active then 1 else 0) && b[2] == (if r.value then 1 else 0) && b[3] == r.slot
            && FieldAt(b, 4, 4) == r.binding && FieldAt(b, 8, 8) == r.start && FieldAt(b, 16, 8) == r.end
            && forall i: nat | 24 <= i < 32 :: b[i] == 0
  {
    var b := Encode(r);
    LayoutParts(b, Head(r), ToBytes(r.binding, 4), ToBytes(r.start, 8), ToBytes(r.end, 8));
    Widths();
    FromToBytes(r.binding, 4);
    FromToBytes(r.start, 8);
    FromToBytes(r.end, 8);
    assert b[..4] == Head(r);
    assert forall i: nat | 24 <= i < 32 :: b[i] == PADDING[i - 24];
  }

  /** The record in the given bytes; None when they are not in the format. */
  function Decode(bytes: seq<Byte>): Option<Record> {
    if |bytes| != RECORD_SIZE || bytes[0] != 1 || bytes[1] > 1 || bytes[2] > 1 then None
    else
      Some(Record(bytes[1] == 1, bytes[3], Read32(bytes[4..8]), bytes[2] == 1, Read64(bytes[8..16]), Read64(bytes[16..24])))
  }

  function Read32(bytes: seq<Byte>): (v: U32)
    requires |bytes| == 4
  {
    Widths();
    ToFromBytes(bytes);
    FromBytes(bytes)
  }

  function Read64(bytes: seq<Byte>): (v: U64)
    requires |bytes| == 8
  {
    Widths();
    ToFromBytes(bytes);
    FromBytes(bytes)
  }

  /** Decoding inverts encoding. */
  lemma DecodeEncoded(r: Record)
    ensures Decode(Encode(r)) == Some(r)
  {
    var bytes := Encode(r);
    Widths();
    FromToBytes(r.binding, 4);
    FromToBytes(r.start, 8);
    FromToBytes(r.end, 8);
    LayoutParts(bytes, Head(r), ToBytes(r.binding, 4), ToBytes(r.start, 8), ToBytes(r.end, 8));
    assert bytes[..4] == Head(r);
  }

  /** Bytes that decode are the encoding of what they decode to, up to the unused tail. */
  lemma EncodeDecoded(bytes: seq<Byte>)
    requires Decode(bytes).Some?
    ensures Encode(Decode(bytes).value)[..24] == bytes[..24]
  {
    var r := Decode(bytes).value;
    ToFromBytes(bytes[4..8]);
    ToFromBytes(bytes[8..16]);
    ToFromBytes(bytes[16..24]);
    var padded := bytes[..24] + PADDING;
    assert padded[..4] == Head(r);
    LayoutParts(padded, Head(r), bytes[4..8], bytes[8..16], bytes[16..24]);
  }

  // ----- restoring -----

  predicate LegalPeriod(start: U64, end: U64) {
    start != 0 && start < end && end - start <= MAX_DURATION_SEC
  }

  /** The lease a record restores to; None when its period is not legal. */
  function Restored(record: Option<Record>, deadlineMs: U64): Option<Lease> {
    var r :- record;
    if r.active && !LegalPeriod(r.start, r.end) then None
    else Some(Lease(r.slot, r.binding, r.active, r.value, false, false, r.start, r.end, deadlineMs, NoReason))
  }

  // ----- storage -----

  /** What flash holds, as far as it is a record, and how many writes it has been asked for. */
  datatype Disk = Disk(record: Option<Record>, writes: nat)

  /** Whether a save callback is configured, and which of its calls will succeed. */
  datatype Storage = Storage(configured: bool, succeeds: nat -> bool)

  /** A refused or failed write leaves the record as it was. */
  function Save(io: Storage, disk: Disk, record: Record): (r: (bool, Disk)) {
    if !io.configured then (false, disk)
    else if io.succeeds(disk.writes) then (true, Disk(Some(record), disk.writes + 1))
    else (false, Disk(disk.record, disk.writes + 1))
  }

  // ----- the operations on a value -----

  datatype World = World(lease: Lease, disk: Disk)

  function Flushed(io: Storage, w: World): (r: (bool, World)) {
    if !w.lease.dirty then (true, w)
    else
      var (ok, disk) := Save(io, w.disk, Record(false, w.lease.slot, w.lease.binding, false, 0, 0));
      (ok, World(w.lease.(dirty := !ok), disk))
  }

  function Cancelled(io: Storage, w: World, reason: Reason): (r: (bool, World)) {
    if !w.lease.active && !w.lease.dirty then (true, w)
    else Flushed(io, w.(lease := w.lease.(active := false, anchored := false, dirty := true, reason := reason)))
  }

  function Started(io: Storage, w: World, slot: Byte, binding: U32, value: bool, seconds: U32, utc: U64, monotonicMs: U64)
    : (r: (bool, World))
  {
    if utc == 0 || seconds == 0 || seconds > MAX_DURATION_SEC || utc > U64_MAX - seconds then (false, w)
    else
      var (ok, disk) := Save(io, w.disk, Record(true, slot, binding, value, utc, utc + seconds));
      if !ok then (false, w.(disk := disk))
      else (true, World(Lease(slot, binding, true, value, true, false, utc, utc + seconds,
                              Wrap64(monotonicMs + seconds * 1000), NoReason), disk))
  }

  function Distance(a: U64, b: U64): nat {
    if a > b then a - b else b - a
  }

  function RemainingSeconds(deadlineMs: U64, monotonicMs: U64): U64 {
    Wrap64(deadlineMs - monotonicMs + 999) / 1000
  }

  /** A tick on an active, anchored lease. */
  function AnchoredTick(io: Storage, w: World, utc: U64, monotonicMs: U64): World {
    if monotonicMs >= w.lease.deadlineMs then Cancelled(io, w, Expired).1
    else if utc == 0 then w
    else
      var correctedEnd := Wrap64(utc + RemainingSeconds(w.lease.deadlineMs, monotonicMs));
      if Distance(correctedEnd, w.lease.endUtc) <= 2 then w else Corrected(io, w, correctedEnd)
  }

  /** Moves the stored period to end at `correctedEnd`, or gives the lease up. */
  function Corrected(io: Storage, w: World, correctedEnd: U64): World {
    var duration := Wrap64(w.lease.endUtc - w.lease.startUtc);
    if correctedEnd < duration then Cancelled(io, w, ClockInvalid).1
    else
      var start := correctedEnd - duration;
      var (ok, disk) := Save(io, w.disk, Record(true, w.lease.slot, w.lease.binding, w.lease.value, start, correctedEnd));
      if !ok then Cancelled(io, w.(disk := disk), ClockInvalid).1
      else World(w.lease.(startUtc := start, endUtc := correctedEnd), disk)
  }

  /** Anchoring a restored lease, and whether the tick ends with it. */
  function Anchored(io: Storage, w: World, utc: U64, monotonicMs: U64): (r: (bool, World)) {
    if utc == 0 then (true, w)
    else if utc < w.lease.startUtc then (true, Cancelled(io, w, ClockInvalid).1)
    else if utc >= w.lease.endUtc then (true, Cancelled(io, w, Expired).1)
    else
      var deadline := Wrap64(monotonicMs + Wrap64((w.lease.endUtc - utc) * 1000));
      (false, w.(lease := w.lease.(deadlineMs := deadline, anchored := true)))
  }

  function Ticked(io: Storage, w: World, utc: U64, monotonicMs: U64): World {
    if !w.lease.active then w
    else if w.lease.anchored then AnchoredTick(io, w, utc, monotonicMs)
    else
      var (ended, next) := Anchored(io, w, utc, monotonicMs);
      if ended then next else AnchoredTick(io, next, utc, monotonicMs)
  }

  /** A reboot: a fresh object restored from the record. */
  function Booted(disk: Disk): World {
    var r := Restored(disk.record, 0);
    World(if r.Some? then r.value else IDLE, disk)
  }

  // ----- the object -----

  class Flash {
    const succeeds: nat -> bool
    var bytes: seq<Byte>
    var writes: nat

    constructor (succeeds: nat -> bool, bytes: seq<Byte>)
      ensures this.succeeds == succeeds && this.bytes == bytes && writes == 0
    {
      this.succeeds := succeeds;
      this.bytes := bytes;
      writes := 0;
    }

    function Contents(): Disk
      reads this
    {
      Disk(Decode(bytes), writes)
    }

    method Write(data: seq<Byte>) returns (ok: bool)
      modifies this
      ensures ok == succeeds(old(writes)) && writes == old(writes) + 1
      ensures bytes == if ok then data else old(bytes)
    {
      ok := succeeds(writes);
      writes := writes + 1;
      if ok {
        bytes := data;
      }
    }
  }

  class Override {
    var flash: Flash?
    var slot: Byte
    var binding: U32
    var active: bool
    var value: bool
    var anchored: bool
    var dirty: bool
    var startUtc: U64
    var endUtc: U64
    var deadlineMs: U64
    var reason: Reason

    constructor ()
      ensures Abstract() == IDLE && flash == null
    {
      flash := null;
      slot, binding, active, value := 0, 0, false, false;
      anchored, dirty, reason := false, false, NoReason;
      startUtc, endUtc, deadlineMs := 0, 0, 0;
    }

    function Abstract(): Lease
      reads this
    {
      Lease(slot, binding, active, value, anchored, dirty, startUtc, endUtc, deadlineMs, reason)
    }

    ghost function Objects(): set<object>
      reads this
    {
      {this} + if flash == null then {} else {flash}
    }

    ghost function Io(): Storage
      reads this
    {
      if flash == null then Storage(false, (n: nat) => false) else Storage(true, flash.succeeds)
    }

    ghost function State(): World
      reads Objects()
    {
      World(Abstract(), if flash == null then Disk(None, 0) else flash.Contents())
    }

    method Configure(flash: Flash)
      modifies this
      ensures this.flash == flash && Abstract() == old(Abstract())
    {
      this.flash := flash;
    }

    /** Fills `p` with a record, byte by byte. */
    method Fill(p: array<Byte>, r: Record)
      requires p.Length == RECORD_SIZE && p[24..] == PADDING
      modifies p
      ensures p[..] == Encode(r)
    {
      p[0], p[1], p[2], p[3] := 1, Flag(r.active), Flag(r.value), r.slot;
      WriteBytes(p, 4, r.binding, 4);
      assert p[4..8] == ToBytes(r.binding, 4);
      WriteBytes(p, 8, r.start, 8);
      assert p[8..16] == ToBytes(r.start, 8) && p[4..8] == ToBytes(r.binding, 4);
      WriteBytes(p, 16, r.end, 8);
      assert p[16..24] == ToBytes(r.end, 8) && p[8..16] == ToBytes(r.start, 8) && p[4..8] == ToBytes(r.binding, 4);
      assert p[24..] == PADDING && p[..4] == Head(r);
      LayoutParts(p[..], Head(r), ToBytes(r.binding, 4), ToBytes(r.start, 8), ToBytes(r.end, 8));
    }

    method WriteBytes(p: array<Byte>, at: nat, v: U64, n: nat)
      requires at + n <= p.Length
      modifies p
      ensures p[at..at + n] == ToBytes(v, n)
      ensures forall k | 0 <= k < p.Length && !(at <= k < at + n) :: p[k] == old(p[k])
    {
      for i := 0 to n
        invariant forall k | 0 <= k < i :: p[at + k] == (v / Power256(k)) % 256
        invariant forall k | 0 <= k < p.Length && !(at <= k < at + n) :: p[k] == old(p[k])
      {
        p[at + i] := (v / Power256(i)) % 256;
      }
      forall k | 0 <= k < n
        ensures p[at + k] == ToBytes(v, n)[k]
      {
        ToBytesAt(v, n, k);
      }
    }

    /** Encodes a record into a zeroed buffer and asks the callback, if any, to keep it. */
    method SaveRecord(r: Record) returns (ok: bool)
      modifies if flash == null then {} else {flash}
      ensures Abstract() == old(Abstract()) && flash == old(flash)
      ensures (ok, State().disk) == Save(Io(), old(State().disk), r)
    {
      var bytes := new Byte[RECORD_SIZE](_ => 0);
      assert bytes[24..] == PADDING;
      Fill(bytes, r);
      if flash == null {
        return false;
      }
      DecodeEncoded(r);
      ok := flash.Write(bytes[..]);
    }

    method Restore(bytes: Option<seq<Byte>>) returns (ok: bool)
      modifies this
      ensures flash == old(flash)
      ensures ok <==> bytes.Some? && Restored(Decode(bytes.value), old(deadlineMs)).Some?
      ensures Abstract() == if ok then Restored(Decode(bytes.value), old(deadlineMs)).value else old(Abstract())
    {
      if bytes.None? || |bytes.value| != RECORD_SIZE || bytes.value[0] != 1 || bytes.value[1] > 1 || bytes.value[2] > 1 {
        return false;
      }
      var start := ReadBytes(bytes.value[8..16]);
      var end := ReadBytes(bytes.value[16..24]);
      if bytes.value[1] == 1 && (start == 0 || end <= start || end - start > MAX_DURATION_SEC) {
        return false;
      }
      var key := ReadBytes(bytes.value[4..8]);
      assert Read64(bytes.value[8..16]) == start && Read64(bytes.value[16..24]) == end && Read32(bytes.value[4..8]) == key;
      slot, binding := bytes.value[3], key;
      active, value := bytes.value[1] == 1, bytes.value[2] == 1;
      startUtc, endUtc := start, end;
      anchored, dirty, reason := false, false, NoReason;
      return true;
    }

    method ReadBytes(bytes: seq<Byte>) returns (v: U64)
      requires |bytes| <= 8
      ensures v == FromBytes(bytes)
    {
      var sum: nat := 0;
      for i := 0 to |bytes|
        invariant sum == FromBytes(bytes[..i])
      {
        FromBytesSnoc(bytes[..i], bytes[i]);
        assert bytes[..i + 1] == bytes[..i] + [bytes[i]];
        sum := sum + bytes[i] * Power256(i);
      }
      assert bytes[..|bytes|] == bytes;
      ShortBytes(bytes);
      v := sum;
    }

    method Start(slot: Byte, binding: U32, value: bool, seconds: U32, utc: U64, monotonicMs: U64) returns (ok: bool)
      modifies Objects()
      ensures flash == old(flash)
      ensures (ok, State()) == Started(Io(), old(State()), slot, binding, value, seconds, utc, monotonicMs)
    {
      if utc == 0 || seconds == 0 || seconds > MAX_DURATION_SEC || utc > U64_MAX - seconds {
        return false;
      }
      ok := SaveRecord(Record(true, slot, binding, value, utc, utc + seconds));
      if !ok {
        return false;
      }
      Force(slot, binding, value, utc, utc + seconds, Wrap64(monotonicMs + seconds * 1000));
    }

    /** The fields of a lease that has just been saved. */
    method Force(slot: Byte, binding: U32, value: bool, startUtc: U64, endUtc: U64, deadlineMs: U64)
      modifies this
      ensures flash == old(flash)
      ensures Abstract() == Lease(slot, binding, true, value, true, false, startUtc, endUtc, deadlineMs, NoReason)
    {
      this.slot, this.binding, this.value := slot, binding, value;
      active, anchored := true, true;
      this.startUtc, this.endUtc := startUtc, endUtc;
      this.deadlineMs := deadlineMs;
      dirty, reason := false, NoReason;
    }

    method Cancel(reason: Reason) returns (ok: bool)
      modifies Objects()
      ensures flash == old(flash)
      ensures (ok, State()) == Cancelled(Io(), old(State()), reason)
    {
      if !active && !dirty {
        return true;
      }
      active, anchored, dirty := false, false, true;
      this.reason := reason;
      ok := Flush();
    }

    method Flush() returns (ok: bool)
      modifies Objects()
      ensures flash == old(flash)
      ensures (ok, State()) == Flushed(Io(), old(State()))
    {
      if !dirty {
        return true;
      }
      ok := SaveRecord(Record(false, slot, binding, false, 0, 0));
      if ok {
        dirty := false;
      }
    }

    method Tick(utc: U64, monotonicMs: U64)
      modifies Objects()
      ensures flash == old(flash)
      ensures State() == Ticked(Io(), old(State()), utc, monotonicMs)
    {
      if !active {
        return;
      }
      if !anchored {
        var ended := Anchor(utc, monotonicMs);
        if ended {
          return;
        }
      }
      TickAnchored(utc, monotonicMs);
    }

    /** Gives a restored lease its monotonic deadline, once the time is known and within it. */
    method Anchor(utc: U64, monotonicMs: U64) returns (ended: bool)
      requires active && !anchored
      modifies Objects()
      ensures flash == old(flash)
      ensures Anchored(Io(), old(State()), utc, monotonicMs) == (ended, State())
      ensures !ended ==> active
    {
      if utc == 0 {
        return true;
      }
      if utc < startUtc {
        var _ := Cancel(ClockInvalid);
        return true;
      }
      if utc >= endUtc {
        var _ := Cancel(Expired);
        return true;
      }
      deadlineMs := Wrap64(monotonicMs + Wrap64((endUtc - utc) * 1000));
      anchored := true;
      return false;
    }

    /** The part of `tick` behind anchoring: expiry, then correction of the stored period. */
    method TickAnchored(utc: U64, monotonicMs: U64)
      requires active
      modifies Objects()
      ensures flash == old(flash)
      ensures State() == AnchoredTick(Io(), old(State()), utc, monotonicMs)
    {
      if monotonicMs >= deadlineMs {
        var _ := Cancel(Expired);
        return;
      }
      if utc == 0 {
        return;
      }
      var correctedEnd := Wrap64(utc + RemainingSeconds(deadlineMs, monotonicMs));
      if Distance(correctedEnd, endUtc) > 2 {
        Correct(correctedEnd);
      }
    }

    method Correct(correctedEnd: U64)
      requires active
      modifies Objects()
      ensures flash == old(flash)
      ensures State() == Corrected(Io(), old(State()), correctedEnd)
    {
      var duration := Wrap64(endUtc - startUtc);
      if correctedEnd < duration {
        var _ := Cancel(ClockInvalid);
        return;
      }
      var start := correctedEnd - duration;
      var ok := SaveRecord(Record(true, slot, binding, value, start, correctedEnd));
      if !ok {
        var _ := Cancel(ClockInvalid);
        return;
      }
      startUtc, endUtc := start, correctedEnd;
    }

    /** What the user sees of the lease. The remaining time is rounded up to whole seconds; beyond
        the 32 bits of its field only the low bits are shown, and none when the rounding wraps. */
    method Report(monotonicMs: U64) returns (shown: ControlState)
      ensures shown.reason == reason && shown.value == value
      ensures shown.mode == PersistenceError <==> dirty
      ensures shown.mode == Forced <==> !dirty && active && anchored
      ensures shown.mode == WaitingTime <==> !dirty && active && !anchored
      ensures shown.endsAtUtc == if active then endUtc else 0
      ensures !(active && anchored && monotonicMs < deadlineMs) ==> shown.remainingSec == 0
      ensures active && anchored && monotonicMs < deadlineMs ==>
                var left := deadlineMs - monotonicMs;
                && (left <= 1000 * 0xFFFF_FFFF ==> 1000 * (shown.remainingSec - 1) < left <= 1000 * shown.remainingSec)
                && shown.remainingSec == if left <= U64_MAX - 999 then ((left + 999) / 1000) % 0x1_0000_0000 else 0
    {
      var mode := if dirty then PersistenceError else if !active then Guided
                  else if anchored then Forced else WaitingTime;
      var remainingSec := 0;
      if active && anchored && deadlineMs > monotonicMs {
        remainingSec := RemainingSeconds(deadlineMs, monotonicMs) % 0x1_0000_0000;
      }
      shown := ControlState(mode, reason, value, remainingSec, if active then endUtc else 0);
    }
  }

  lemma ShortBytes(bytes: seq<Byte>)
    requires |bytes| <= 8
    ensures FromBytes(bytes) <= U64_MAX
  {
    ToFromBytes(bytes);
    Widths();
    PowersGrow(|bytes|, 8);
  }

  lemma {:induction false} PowersGrow(m: nat, n: nat)
    requires m <= n
    ensures Power256(m) <= Power256(n)
  {
    if m < n {
      PowersGrow(m, n - 1);
    }
  }
}
