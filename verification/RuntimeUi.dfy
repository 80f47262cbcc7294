/** The binary records of the local display: self-delimiting records written into a fixed buffer,
    and the service that answers a list of ids with one buffer of records. */
module RuntimeUi {
  import opened Wrappers
  import opened Bytes

  const MODULE_STRIDE := 100
  const MODULE_COUNT := 36
  const DATA_BASE := 32768
  const DATA_CAPACITY := 688
  const MAX_TEXT := 255

  type ShortText = t: seq<Byte> | |t| <= MAX_TEXT

  /** A value on the wire; the two float types carry their bit patterns. */
  datatype Item = NotFound | Unavailable | Bool(b: bool) | Int32(bits: U32) | UInt32(bits: U32) | Float32(bits: U32)
                | Enum(code: Byte) | Text(t: ShortText) | Float64(wide: U64)

  datatype Record = Record(id: U16, item: Item)

  // ----- the format -----

  function Tag(item: Item): Byte {
    match item
    case NotFound => 0
    case Unavailable => 1
    case Bool(_) => 2
    case Int32(_) => 3
    case UInt32(_) => 4
    case Float32(_) => 5
    case Enum(_) => 6
    case Text(_) => 7
    case Float64(_) => 8
  }

  function Payload(item: Item): seq<Byte> {
    match item
    case NotFound => []
    case Unavailable => []
    case Bool(b) => [if b then 1 else 0]
    case Int32(bits) => ToBytes(bits, 4)
    case UInt32(bits) => ToBytes(bits, 4)
    case Float32(bits) => ToBytes(bits, 4)
    case Enum(code) => [code]
    case Text(t) => [|t|] + t
    case Float64(wide) => ToBytes(wide % 0x1_0000_0000, 4) + ToBytes(wide / 0x1_0000_0000, 4)
  }

  function RecordBytes(r: Record): (s: seq<Byte>)
    ensures |s| == 3 + |Payload(r.item)|
  {
    ToBytes(r.id, 2) + [Tag(r.item)] + Payload(r.item)
  }

  function RecordsBytes(records: seq<Record>): seq<Byte>
    decreases |records|
  {
    if records == [] then [] else RecordBytes(records[0]) + RecordsBytes(records[1..])
  }

  /** What a record looks like: the id, low byte first, a tag, and the value in as many bytes as its
      type takes, low byte first; a text is led by its length. */
  lemma RecordLayout(r: Record)
    ensures var s := RecordBytes(r);
            && s[..2] == [r.id % 256, r.id / 256]
            && match r.item
               case NotFound => s[2..] == [0]
               case Unavailable => s[2..] == [1]
               case Bool(b) => s[2..] == [2, if b then 1 else 0]
               case Int32(bits) => s[2..] == [3] + ToBytes(bits, 4)
               case UInt32(bits) => s[2..] == [4] + ToBytes(bits, 4)
               case Float32(bits) => s[2..] == [5] + ToBytes(bits, 4)
               case Enum(code) => s[2..] == [6, code]
               case Text(t) => s[2..] == [7, |t|] + t
               case Float64(wide) => s[2..] == [8] + ToBytes(wide, 8)
  {
    TwoBytes(r.id);
    var s := RecordBytes(r);
    assert s[2..] == [Tag(r.item)] + Payload(r.item);
    if r.item.Float64? {
      Widths();
      Split(r.item.wide % 0x1_0000_0000, r.item.wide / 0x1_0000_0000, 4);
    }
  }

  /** Four high bytes behind the low ones are the bytes of the whole. */
  lemma {:induction false} Split(low: nat, high: nat, n: nat)
    requires low < Power256(n)
    ensures ToBytes(low, n) + ToBytes(high, 4) == ToBytes(low + Power256(n) * high, n + 4)
    decreases n
  {
    if n > 0 {
      var p := Power256(n - 1) * high;
      assert Power256(n) * high == 256 * p;
      assert (low + 256 * p) % 256 == low % 256 && (low + 256 * p) / 256 == low / 256 + p;
      Split(low / 256, high, n - 1);
      assert [low % 256] + (ToBytes(low / 256, n - 1) + ToBytes(high, 4)) == ToBytes(low, n) + ToBytes(high, 4);
    }
  }

  // ----- reading the records back -----

  /** The payload at the front of a buffer and what follows it. */
  function ItemAt(tag: Byte, s: seq<Byte>): (r: Option<(Item, seq<Byte>)>)
    ensures r.Some? ==> |r.value.1| <= |s|
  {
    match tag
    case 0 => Some((NotFound, s))
    case 1 => Some((Unavailable, s))
    case 2 => if |s| < 1 then None else Some((Bool(s[0] != 0), s[1..]))
    case 6 => if |s| < 1 then None else Some((Enum(s[0]), s[1..]))
    case 7 =>
      if |s| < 1 then None
      else
        var stop: nat := 1 + s[0] as int;
        if |s| < stop then None else Some((Text(s[1..stop]), s[stop..]))
    case 8 => if |s| < 8 then None else Some((Float64(Number(s, 0) + 0x1_0000_0000 * Number(s, 4)), s[8..]))
    case 3 => if |s| < 4 then None else Some((Int32(Number(s, 0)), s[4..]))
    case 4 => if |s| < 4 then None else Some((UInt32(Number(s, 0)), s[4..]))
    case 5 => if |s| < 4 then None else Some((Float32(Number(s, 0)), s[4..]))
    case _ => None
  }

  function Number(s: seq<Byte>, at: nat): U32
    requires at + 4 <= |s|
  {
    Widths();
    FieldAt(s, at, 4)
  }

  function IdAt(s: seq<Byte>): U16
    requires |s| >= 2
  {
    Widths();
    FieldAt(s, 0, 2)
  }

  function Parsed(s: seq<Byte>): Option<seq<Record>>
    decreases |s|
  {
    if s == [] then Some([])
    else if |s| < 3 then None
    else
      var (item, rest) :- ItemAt(s[2], s[3..]);
      var records :- Parsed(rest);
      Some([Record(IdAt(s), item)] + records)
  }

  lemma NumberOfBytes(n: U32, rest: seq<Byte>)
    ensures Number(ToBytes(n, 4) + rest, 0) == n && (ToBytes(n, 4) + rest)[4..] == rest
  {
    Widths();
    FromToBytes(n, 4);
    assert (ToBytes(n, 4) + rest)[0..4] == ToBytes(n, 4);
  }

  lemma ItemRoundTrip(item: Item, rest: seq<Byte>)
    ensures ItemAt(Tag(item), Payload(item) + rest) == Some((item, rest))
  {
    assert [] + rest == rest;
    match item {
      case NotFound =>
      case Unavailable =>
      case Bool(_) =>
      case Enum(_) =>
      case Int32(n) => NumberOfBytes(n, rest);
      case UInt32(n) => NumberOfBytes(n, rest);
      case Float32(n) => NumberOfBytes(n, rest);
      case Text(t) =>
        var s := [|t|] + t + rest;
        assert s[1..1 + |t|] == t && s[1 + |t|..] == rest;
      case Float64(w) => WideRoundTrip(w, rest);
    }
  }

  lemma WideRoundTrip(w: U64, rest: seq<Byte>)
    ensures ItemAt(8, Payload(Float64(w)) + rest) == Some((Float64(w), rest))
  {
    var low, high: U32 := w % 0x1_0000_0000, w / 0x1_0000_0000;
    var s := ToBytes(low, 4) + ToBytes(high, 4) + rest;
    Widths();
    FromToBytes(low, 4);
    FromToBytes(high, 4);
    assert s[0..4] == ToBytes(low, 4) && s[4..8] == ToBytes(high, 4) && s[8..] == rest;
  }

  lemma RecordRoundTrip(r: Record, rest: seq<Byte>)
    ensures var s := RecordBytes(r) + rest;
            && |s| >= 3 && IdAt(s) == r.id && s[2] == Tag(r.item) && s[3..] == Payload(r.item) + rest
  {
    var s := RecordBytes(r) + rest;
    Widths();
    FromToBytes(r.id, 2);
    assert s[0..2] == ToBytes(r.id, 2);
  }

  lemma ParsedCons(r: Record, rest: seq<Byte>)
    requires Parsed(rest).Some?
    ensures Parsed(RecordBytes(r) + rest) == Some([r] + Parsed(rest).value)
  {
    RecordRoundTrip(r, rest);
    ItemRoundTrip(r.item, rest);
  }

  /** A concatenation of records reads back as those records. */
  lemma {:induction false} RecordsRoundTrip(records: seq<Record>)
    ensures Parsed(RecordsBytes(records)) == Some(records)
    decreases |records|
  {
    if records != [] {
      RecordsRoundTrip(records[1..]);
      ParsedCons(records[0], RecordsBytes(records[1..]));
      assert records == [records[0]] + records[1..];
    }
  }

  lemma {:induction false} RecordsConcat(a: seq<Record>, b: seq<Record>)
    ensures RecordsBytes(a + b) == RecordsBytes(a) + RecordsBytes(b)
    decreases |a|
  {
    if a == [] {
      assert a + b == b;
    } else {
      assert (a + b)[1..] == a[1..] + b;
      RecordsConcat(a[1..], b);
    }
  }

  lemma RecordsSnoc(a: seq<Record>, r: Record)
    ensures RecordsBytes(a + [r]) == RecordsBytes(a) + RecordBytes(r)
  {
    RecordsConcat(a, [r]);
    assert [r][1..] == [];
  }

  // ----- the writer -----

  /** What a writer has produced: its complete records, and whether something did not fit. */
  datatype Tape = Tape(records: seq<Record>, overflowed: bool)

  /** One more record, or none of it. */
  function Written(t: Tape, capacity: nat, r: Record): (Tape, bool) {
    if t.overflowed || |RecordsBytes(t.records)| + |RecordBytes(r)| > capacity then (t.(overflowed := true), false)
    else (t.(records := t.records + [r]), true)
  }

  class Writer {
    const out: array<Byte>
    const base: nat
    const capacity: nat
    var length: nat
    var recordCount: Byte
    var overflowed: bool
    ghost var records: seq<Record>

    /** The region holds complete records, and as many as the count byte says. */
    ghost predicate Valid()
      reads this, out
    {
      && InRegion()
      && out[base..base + length] == RecordsBytes(records)
      && recordCount == |records| % 256
    }

    predicate Room(full: bool, used: nat, more: nat) {
      !full && used + more <= capacity
    }

    predicate InRegion()
      reads this
    {
      base + capacity <= out.Length && length <= capacity
    }

    ghost function Contents(): Tape
      reads this
    {
      Tape(records, overflowed)
    }

    constructor (out: array<Byte>, base: nat)
      requires base <= out.Length
      ensures Valid() && Contents() == Tape([], false)
      ensures this.out == out && this.base == base && capacity == out.Length - base
    {
      this.out := out;
      this.base := base;
      capacity := out.Length - base;
      length := 0;
      recordCount := 0;
      overflowed := false;
      records := [];
    }

    method AppendU8(value: Byte) returns (ok: bool)
      requires InRegion()
      modifies this`length, this`overflowed, out
      ensures InRegion() && (ok <==> !old(overflowed) && old(length) < capacity)
      ensures ok ==> !overflowed && out[..base + length] == old(out[..base + length]) + [value]
      ensures !ok ==> overflowed && length == old(length) && out[..] == old(out[..])
      ensures ok ==> length == old(length) + 1
    {
      if overflowed || length >= capacity {
        overflowed := true;
        return false;
      }
      out[base + length] := value;
      length := length + 1;
      ok := true;
    }

    /** Low byte first, for two and four bytes; the bytes that fit are written before it fails. */
    method AppendNumber(value: nat, width: nat) returns (ok: bool)
      requires InRegion() && width > 0
      modifies this`length, this`overflowed, out
      ensures InRegion() && (ok <==> Room(old(overflowed), old(length), width)) && overflowed == !ok
      ensures length == if ok then old(length) + width else if old(overflowed) then old(length) else capacity
      ensures length - old(length) <= width
              && out[..base + length] == old(out[..base + length]) + ToBytes(value, width)[..length - old(length)]
    {
      ghost var all, start := ToBytes(value, width), out[..base + length];
      var v := value;
      for i := 0 to width
        invariant InRegion() && length == old(length) + i && overflowed == old(overflowed)
        invariant i > 0 ==> !overflowed
        invariant ToBytes(v, width - i) == all[i..]
        invariant out[..base + length] == start + all[..i]
      {
        assert all[i..][0] == v % 256 && all[i..][1..] == all[i + 1..];
        ok := AppendU8(v % 256);
        if !ok {
          return;
        }
        assert all[..i + 1] == all[..i] + [v % 256];
        v := v / 256;
      }
      assert all[..width] == all;
      ok := true;
    }

    /** All bytes, or none and the overflow flag. */
    method AppendBytes(data: seq<Byte>) returns (ok: bool)
      requires InRegion()
      modifies this`length, this`overflowed, out
      ensures InRegion() && (ok <==> Room(old(overflowed), old(length), |data|)) && overflowed == !ok
      ensures length == if ok then old(length) + |data| else old(length)
      ensures out[..base + length] == old(out[..base + length]) + if ok then data else []
    {
      if overflowed || length + |data| > capacity {
        overflowed := true;
        return false;
      }
      var start := base + length;
      for i := 0 to |data|
        invariant InRegion() && !overflowed && length == old(length)
        invariant out[..start + i] == old(out[..base + length]) + data[..i]
      {
        out[start + i] := data[i];
        assert data[..i + 1] == data[..i] + [data[i]];
        assert out[..start + i + 1] == out[..start + i] + [data[i]];
      }
      length := length + |data|;
      assert data[..|data|] == data;
      ok := true;
    }

    /** The header is written only when the whole record fits. */
    method WriteHeader(id: U16, tag: Byte, payloadLen: nat) returns (ok: bool)
      requires InRegion()
      modifies this`length, this`overflowed, this`recordCount, out
      ensures InRegion() && (ok <==> !old(overflowed) && old(length) + 3 + payloadLen <= capacity)
      ensures ok ==> !overflowed && length == old(length) + 3 && recordCount == (old(recordCount) + 1) % 256
      ensures ok ==> out[..base + length] == old(out[..base + length]) + (ToBytes(id, 2) + [tag])
      ensures !ok ==> overflowed && length == old(length) && recordCount == old(recordCount) && out[..] == old(out[..])
    {
      if overflowed || length + 3 + payloadLen > capacity {
        overflowed := true;
        return false;
      }
      ghost var before := out[..base + length];
      ok := AppendNumber(id, 2);
      assert ToBytes(id, 2)[..2] == ToBytes(id, 2);
      ok := AppendU8(tag);
      assert before + ToBytes(id, 2) + [tag] == before + (ToBytes(id, 2) + [tag]);
      recordCount := (recordCount + 1) % 256;
    }

    method WriteText(t: ShortText) returns (ok: bool)
      requires InRegion()
      modifies this`length, this`overflowed, out
      ensures InRegion() && (ok <==> Room(old(overflowed), old(length), 1 + |t|)) && overflowed == !ok
      ensures ok ==> length == old(length) + 1 + |t|
      ensures ok ==> out[..base + length] == old(out[..base + length]) + ([|t| as Byte] + t)
    {
      ghost var before, front := out[..base + length], [|t| as Byte];
      ok := AppendU8(|t|);
      if ok {
        ok := AppendBytes(t);
        Associative(before, front, t);
      }
    }

    method WriteWide(wide: U64) returns (ok: bool)
      requires InRegion()
      modifies this`length, this`overflowed, out
      ensures InRegion() && (ok <==> Room(old(overflowed), old(length), 8)) && overflowed == !ok
      ensures ok ==> length == old(length) + 8
      ensures ok ==> out[..base + length] == old(out[..base + length]) + Payload(Float64(wide))
    {
      ghost var before := out[..base + length];
      var low, high := wide % 0x1_0000_0000, wide / 0x1_0000_0000;
      ok := AppendNumber(low, 4);
      if ok {
        ok := AppendNumber(high, 4);
        if ok {
          WholeNumber(low);
          WholeNumber(high);
          Associative(before, ToBytes(low, 4), ToBytes(high, 4));
        }
      }
    }

    method WriteWord(bits: U32) returns (ok: bool)
      requires InRegion()
      modifies this`length, this`overflowed, out
      ensures InRegion() && (ok <==> Room(old(overflowed), old(length), 4)) && overflowed == !ok
      ensures ok ==> length == old(length) + 4
      ensures ok ==> out[..base + length] == old(out[..base + length]) + ToBytes(bits, 4)
    {
      ok := AppendNumber(bits, 4);
      WholeNumber(bits);
    }

    /** The payload part of the typed calls. A payload that does not fit sets the overflow flag. */
    method WritePayload(item: Item) returns (ok: bool)
      requires InRegion()
      modifies this`length, this`overflowed, out
      ensures InRegion()
      ensures ok <==> Payload(item) == [] || Room(old(overflowed), old(length), |Payload(item)|)
      ensures overflowed == (old(overflowed) || !ok)
      ensures ok ==> length == old(length) + |Payload(item)|
      ensures ok ==> out[..base + length] == old(out[..base + length]) + Payload(item)
    {
      ok := true;
      match item {
        case NotFound => assert out[..base + length] + [] == out[..base + length];
        case Unavailable => assert out[..base + length] + [] == out[..base + length];
        case Bool(b) => ok := AppendU8(if b then 1 else 0);
        case Int32(bits) => ok := WriteWord(bits);
        case UInt32(bits) => ok := WriteWord(bits);
        case Float32(bits) => ok := WriteWord(bits);
        case Enum(code) => ok := AppendU8(code);
        case Text(t) => ok := WriteText(t);
        case Float64(wide) => ok := WriteWide(wide);
      }
    }

    method WriteRecord(r: Record) returns (ok: bool)
      requires InRegion()
      modifies this`length, this`overflowed, this`recordCount, out
      ensures InRegion() && (ok <==> !old(overflowed) && old(length) + |RecordBytes(r)| <= capacity)
      ensures ok ==> !overflowed && length == old(length) + |RecordBytes(r)| && recordCount == (old(recordCount) + 1) % 256
      ensures ok ==> out[..base + length] == old(out[..base + length]) + RecordBytes(r)
      ensures !ok ==> overflowed && length == old(length) && recordCount == old(recordCount) && out[..] == old(out[..])
    {
      ghost var before := out[..base + length];
      ok := WriteHeader(r.id, Tag(r.item), |Payload(r.item)|);
      if ok {
        ok := WritePayload(r.item);
        Associative(before, ToBytes(r.id, 2) + [Tag(r.item)], Payload(r.item));
      }
    }

    /** One of the typed `write` calls: a complete record, or nothing and the overflow flag. */
    method Write(r: Record) returns (ok: bool)
      requires Valid()
      modifies this, out
      ensures Valid() && (Contents(), ok) == Written(old(Contents()), capacity, r)
      ensures out[..base] == old(out[..base])
    {
      ghost var before, region := out[..base + length], out[base..base + length];
      assert before == out[..base] + region;
      ok := WriteRecord(r);
      if ok {
        Extended(out[..], before, RecordBytes(r), base, base + length);
        RecordsSnoc(records, r);
        records := records + [r];
      } else {
        Extended(out[..], before, [], base, base + length);
      }
    }
  }

  lemma WholeNumber(bits: U32)
    ensures ToBytes(bits, 4)[..4] == ToBytes(bits, 4)
  {
  }

  /** A buffer whose front is an earlier front and some more bytes, seen from `base` on. */
  lemma Extended(after: seq<Byte>, before: seq<Byte>, more: seq<Byte>, base: nat, stop: nat)
    requires base <= |before| && stop <= |after| && after[..stop] == before + more
    ensures base <= stop && after[base..stop] == before[base..] + more && after[..base] == before[..base]
  {
    assert after[base..stop] == after[..stop][base..];
    assert after[..base] == after[..stop][..base];
  }
}
