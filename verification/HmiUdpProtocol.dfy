/** The UDP framing between the controller and its remote display: a 13-byte packed header whose
    last field is a CRC-16 over the rest of the header and the payload. The CRC is the one of
    MODBUS over Serial Line V1.02, section 6.2.2. */
module HmiUdpProtocol {
  import opened Wrappers
  import opened Bytes
  import opened Bits

  const MAGIC0: Byte := 0x46  // 'F'
  const MAGIC1: Byte := 0x48  // 'H'
  const VERSION: Byte := 7
  const MAX_PACKET := 512
  const HEADER_SIZE := 13
  const CRC_OFFSET := 11
  const POLYNOMIAL: U16 := 0xA001
  const SEED: U16 := 0xFFFF
  const BYTE_BITS := 8

  // ----- the CRC -----

  /** One bit of the shift register. */
  function Shifted(crc: U16): (r: U16) {
    ShiftedBound(crc);
    Feedback(crc, POLYNOMIAL)
  }

  lemma ShiftedBound(crc: U16)
    ensures Xor(crc / 2, POLYNOMIAL) < 0x1_0000
  {
    Powers();
    XorBound(crc / 2, POLYNOMIAL, 16);
  }

  function Shifts(crc: U16, n: nat): U16
    decreases n, crc
  {
    if n == 0 then crc else Shifts(Shifted(crc), n - 1)
  }

  function Mixed(crc: U16, b: Byte): U16 {
    WordXorBound(crc, b);
    Xor(crc, b)
  }

  lemma WordXorBound(x: U16, y: U16)
    ensures Xor(x, y) < 0x1_0000
  {
    Powers();
    XorBound(x, y, 16);
  }

  /** The register after one byte. */
  function Absorbed(crc: U16, b: Byte): U16 {
    Shifts(Mixed(crc, b), BYTE_BITS)
  }

  function Crc(data: seq<Byte>, seed: U16): U16 {
    if data == [] then seed else Crc(data[1..], Absorbed(seed, data[0]))
  }

  method Crc16(data: seq<Byte>, seed: U16) returns (crc: U16)
    ensures crc == Crc(data, seed)
  {
    crc := seed;
    for i := 0 to |data|
      invariant Crc(data[i..], crc) == Crc(data, seed)
    {
      ghost var rest := data[i..];
      assert rest[0] == data[i] && rest[1..] == data[i + 1..];
      crc := Mixed(crc, data[i]);
      ghost var mixed := crc;
      for bit := 0 to BYTE_BITS
        invariant Shifts(crc, BYTE_BITS - bit) == Shifts(mixed, BYTE_BITS)
      {
        if crc % 2 != 0 {
          ShiftedBound(crc);
          crc := Xor(crc / 2, POLYNOMIAL);
        } else {
          crc := crc / 2;
        }
      }
    }
  }

  /** The CRC of a header followed by a payload is the CRC of the payload started from the CRC of
      the header. */
  lemma {:induction false} CrcChains(a: seq<Byte>, b: seq<Byte>, seed: U16)
    ensures Crc(a + b, seed) == Crc(b, Crc(a, seed))
    decreases |a|
  {
    if a == [] {
      assert a + b == b;
    } else {
      assert (a + b)[1..] == a[1..] + b;
      CrcChains(a[1..], b, Absorbed(seed, a[0]));
    }
  }

  // ----- the CRC loses nothing -----

  /** The polynomial's top bit tells which branch a shift took. */
  lemma ShiftedBranch(crc: U16)
    ensures Shifted(crc) >= 0x8000 <==> crc % 2 != 0
    ensures Shifted(crc) < 0x8000 ==> crc == 2 * Shifted(crc)
  {
    Powers();
    if crc % 2 != 0 {
      XorTop(crc / 2, POLYNOMIAL, 15);
    }
  }

  lemma ShiftedInjective(x: U16, y: U16)
    requires Shifted(x) == Shifted(y)
    ensures x == y
  {
    ShiftedBranch(x);
    ShiftedBranch(y);
    XorInjective(x / 2, y / 2, POLYNOMIAL);
  }

  lemma {:induction false} ShiftsInjective(x: U16, y: U16, n: nat)
    requires Shifts(x, n) == Shifts(y, n)
    ensures x == y
    decreases n
  {
    if n > 0 {
      ShiftsInjective(Shifted(x), Shifted(y), n - 1);
      ShiftedInjective(x, y);
    }
  }

  /** For fixed data the CRC is injective in its starting value. */
  lemma {:induction false} CrcInjective(data: seq<Byte>, x: U16, y: U16)
    requires Crc(data, x) == Crc(data, y)
    ensures x == y
    decreases |data|
  {
    if data != [] {
      CrcInjective(data[1..], Absorbed(x, data[0]), Absorbed(y, data[0]));
      ShiftsInjective(Mixed(x, data[0]), Mixed(y, data[0]), 8);
      XorInjective(x, y, data[0]);
    }
  }

  // ----- linearity, for changes of two adjacent bytes -----

  lemma ShiftedLinear(x: U16, y: U16)
    ensures Xor(x, y) < 0x1_0000
    ensures Shifted(Xor(x, y)) == Xor(Shifted(x), Shifted(y))
  {
    Powers();
    XorBound(x, y, 16);
    FeedbackLinear(x, y, POLYNOMIAL);
  }

  lemma {:induction false} ShiftsLinear(x: U16, y: U16, n: nat)
    ensures Xor(x, y) < 0x1_0000
    ensures Shifts(Xor(x, y), n) == Xor(Shifts(x, n), Shifts(y, n))
    decreases n
  {
    ShiftedLinear(x, y);
    if n > 0 {
      ShiftsLinear(Shifted(x), Shifted(y), n - 1);
    }
  }

  /** A register that is still narrow after some shifts held only zeros below. */
  lemma {:induction false} NarrowAfterShifts(d: U16, n: nat)
    requires n <= 8 && Shifts(d, n) < 0x100
    ensures d == Power2(n) * Shifts(d, n)
    decreases n
  {
    if n > 0 {
      var e := Shifts(d, n);
      NarrowAfterShifts(Shifted(d), n - 1);
      SmallMultiple(n - 1, e);
      ShiftedBranch(d);
      DoublePower(n - 1, e);
    }
  }

  lemma SmallMultiple(n: nat, e: nat)
    requires n <= 7 && e < 0x100
    ensures Power2(n) * e < 0x8000
  {
    assert Power2(1) == 2 && Power2(2) == 4 && Power2(3) == 8 && Power2(4) == 16;
    assert Power2(5) == 32 && Power2(6) == 64 && Power2(7) == 128;
    assert n == 0 || n == 1 || n == 2 || n == 3 || n == 4 || n == 5 || n == 6 || n == 7;
  }

  lemma DoublePower(n: nat, e: nat)
    ensures Power2(n + 1) * e == 2 * (Power2(n) * e)
  {
    var p := Power2(n);
    assert (2 * p) * e == 2 * (p * e);
  }

  lemma XorMove(a: nat, b: nat, x: nat, y: nat)
    requires Xor(a, x) == Xor(b, y)
    ensures Xor(a, b) == Xor(x, y)
  {
    XorUndo(a, x);
    XorAssociates(b, y, x);
    XorCommutes(y, x);
    var d := Xor(x, y);
    assert a == Xor(b, d);
    XorCommutes(b, d);
    XorUndo(d, b);
  }

  lemma XorIsZero(a: nat, b: nat)
    requires Xor(a, b) == 0
    ensures a == b
  {
    XorUndo(a, b);
    XorZero(b);
  }

  /** From one register value, different pairs of bytes lead to different register values. */
  lemma TwoBytesInjective(c: U16, x1: Byte, y1: Byte, x2: Byte, y2: Byte)
    requires Absorbed(Absorbed(c, x1), y1) == Absorbed(Absorbed(c, x2), y2)
    ensures x1 == x2 && y1 == y2
  {
    var a, b := Absorbed(c, x1), Absorbed(c, x2);
    ShiftsInjective(Mixed(a, y1), Mixed(b, y2), 8);
    XorMove(a, b, y1, y2);
    var d := Xor(Mixed(c, x1), Mixed(c, x2));
    ShiftsLinear(Mixed(c, x1), Mixed(c, x2), 8);
    MixedDifference(c, x1, x2);
    Powers();
    XorBound(x1, x2, 8);
    XorBound(y1, y2, 8);
    NarrowAfterShifts(d, 8);
    XorIsZero(x1, x2);
    XorIsZero(y1, y2);
  }

  lemma MixedDifference(c: U16, x: Byte, y: Byte)
    ensures Xor(Mixed(c, x), Mixed(c, y)) == Xor(x, y)
  {
    XorCommutes(c, x);
    XorCommutes(c, y);
    XorFour(x, y, c);
  }

  /** Messages that differ in two adjacent bytes at most have different CRCs. */
  lemma {:induction false} AdjacentBytesShow(m: seq<Byte>, n: seq<Byte>, k: nat, seed: U16)
    requires |m| == |n| && k + 1 < |m|
    requires forall i | 0 <= i < |m| && i != k && i != k + 1 :: m[i] == n[i]
    requires Crc(m, seed) == Crc(n, seed)
    ensures m == n
    decreases k
  {
    if k == 0 {
      assert m[2..] == n[2..];
      CrcOfTwo(m, seed);
      CrcOfTwo(n, seed);
      CrcInjective(m[2..], Absorbed(Absorbed(seed, m[0]), m[1]), Absorbed(Absorbed(seed, n[0]), n[1]));
      TwoBytesInjective(seed, m[0], m[1], n[0], n[1]);
      assert m == m[..2] + m[2..] && n == n[..2] + n[2..];
    } else {
      AdjacentBytesShow(m[1..], n[1..], k - 1, Absorbed(seed, m[0]));
      assert m == [m[0]] + m[1..] && n == [n[0]] + n[1..];
    }
  }

  lemma CrcOfTwo(m: seq<Byte>, seed: U16)
    requires |m| >= 2
    ensures Crc(m, seed) == Crc(m[2..], Absorbed(Absorbed(seed, m[0]), m[1]))
  {
    assert m[1..][1..] == m[2..];
  }

  /** The register as the standard draws it: a shift with no bit falling out, and one that feeds
      x^16 + x^15 + x^2 + 1 back, bit 15 - n standing for x^n. */
  lemma Taps(x: nat)
    requires x < 0x8000
    ensures Shifted(2 * x) == x
    ensures Shifted(2 * x + 1) == Xor(x, Power2(15) + Power2(15 - 2) + Power2(15 - 15))
  {
    Powers();
    assert Power2(13) == 2 * Power2(12) == 4 * Power2(11) == 8 * Power2(10) == 16 * Power2(9) == 32 * Power2(8);
    assert (2 * x) / 2 == x && (2 * x + 1) / 2 == x;
  }

  // ----- packets -----

  datatype Header = Header(magic0: Byte, magic1: Byte, version: Byte, kind: Byte, sequence: U16, ack: U16,
                           flags: Byte, len: U16, crc: U16)

  datatype Packet = Packet(header: Header, payload: seq<Byte>)

  function Covered(h: Header): (s: seq<Byte>)
    ensures |s| == CRC_OFFSET
  {
    [h.magic0, h.magic1, h.version, h.kind] + ToBytes(h.sequence, 2) + ToBytes(h.ack, 2) + [h.flags] + ToBytes(h.len, 2)
  }

  function HeaderBytes(h: Header): (s: seq<Byte>)
    ensures |s| == HEADER_SIZE
  {
    Covered(h) + ToBytes(h.crc, 2)
  }

  /** The little-endian field at an offset. */
  function ShortAt(data: seq<Byte>, i: nat): U16
    requires i + 2 <= |data|
  {
    Widths();
    FieldAt(data, i, 2)
  }

  function HeaderOf(data: seq<Byte>): Header
    requires |data| >= HEADER_SIZE
  {
    Header(data[0], data[1], data[2], data[3], ShortAt(data, 4), ShortAt(data, 6), data[8], ShortAt(data, 9),
           ShortAt(data, CRC_OFFSET))
  }

  function PacketCrc(h: Header, payload: seq<Byte>): U16
    requires |payload| >= h.len
  {
    var crc := Crc(Covered(h), SEED);
    if h.len > 0 then Crc(payload[..h.len], crc) else crc
  }

  /** The header a packet is sent with. */
  function Sealed(kind: Byte, sequence: U16, ack: U16, flags: Byte, payload: seq<Byte>): Header
    requires |payload| <= 0xFFFF
  {
    var h := Header(MAGIC0, MAGIC1, VERSION, kind, sequence, ack, flags, |payload|, 0);
    h.(crc := PacketCrc(h, payload))
  }

  function Built(kind: Byte, sequence: U16, ack: U16, flags: Byte, payload: seq<Byte>): (s: seq<Byte>)
    requires |payload| <= 0xFFFF
    ensures |s| == HEADER_SIZE + |payload|
  {
    HeaderBytes(Sealed(kind, sequence, ack, flags, payload)) + payload
  }

  /** Where every byte of a packet is: two magic bytes, the version, the kind, the sequence and
      acknowledgement numbers, the flags, the length of the payload and, behind the CRC, the payload. */
  lemma PacketLayout(kind: Byte, sequence: U16, ack: U16, flags: Byte, payload: seq<Byte>)
    requires |payload| <= 0xFFFF
    ensures var s := Built(kind, sequence, ack, flags, payload);
            && s[..4] == [0x46, 0x48, 7, kind]
            && s[4..9] == [sequence % 256, sequence / 256, ack % 256, ack / 256, flags]
            && s[9..11] == [|payload| % 256, |payload| / 256]
            && s[13..] == payload
  {
    LaidOut(Sealed(kind, sequence, ack, flags, payload), payload);
  }

  lemma LaidOut(h: Header, payload: seq<Byte>)
    ensures var s := HeaderBytes(h) + payload;
            && s[..4] == [h.magic0, h.magic1, h.version, h.kind]
            && s[4..9] == [h.sequence % 256, h.sequence / 256, h.ack % 256, h.ack / 256, h.flags]
            && s[9..11] == [h.len % 256, h.len / 256] && s[13..] == payload
  {
    TwoBytes(h.sequence);
    TwoBytes(h.ack);
    TwoBytes(h.len);
  }

  function Validated(data: seq<Byte>): Option<Packet> {
    if |data| < HEADER_SIZE || |data| > MAX_PACKET then None
    else
      var h := HeaderOf(data);
      var payload := data[HEADER_SIZE..];
      if h.magic0 != MAGIC0 || h.magic1 != MAGIC1 || h.version != VERSION then None
      else if h.len + HEADER_SIZE != |data| then None
      else if PacketCrc(h, payload) != h.crc then None
      else Some(Packet(h, payload))
  }

  method Crc16OfPacket(h: Header, payload: seq<Byte>) returns (crc: U16)
    requires |payload| >= h.len
    ensures crc == PacketCrc(h, payload)
  {
    crc := Crc16(Covered(h), SEED);
    if h.len > 0 {
      crc := Crc16(payload[..h.len], crc);
    }
  }

  /** `memcpy` into the output buffer. */
  method Copy(out: array<Byte>, at: nat, bytes: seq<Byte>)
    requires at + |bytes| <= out.Length
    modifies out
    ensures out[..] == old(out[..at]) + bytes + old(out[at + |bytes|..])
  {
    for i := 0 to |bytes|
      invariant out[..at] == old(out[..at]) && out[at..at + i] == bytes[..i] && out[at + i..] == old(out[at + i..])
    {
      out[at + i] := bytes[i];
    }
    assert out[..] == out[..at] + out[at..at + |bytes|] + out[at + |bytes|..];
  }

  /** `hmiUdpBuildPacket` into the caller's buffer. */
  method BuildPacket(out: array<Byte>, kind: Byte, sequence: U16, ack: U16, flags: Byte, payload: seq<Byte>)
    returns (ok: bool, outLen: nat)
    modifies out
    ensures ok <==> |payload| <= 0xFFFF && |payload| + HEADER_SIZE <= out.Length
    ensures ok ==> outLen == HEADER_SIZE + |payload|
                   && out[..] == Built(kind, sequence, ack, flags, payload) + old(out[..])[outLen..]
    ensures !ok ==> outLen == 0 && out[..] == old(out[..])
  {
    if out.Length < HEADER_SIZE || |payload| > 0xFFFF || |payload| + HEADER_SIZE > out.Length {
      return false, 0;
    }
    var header := Header(MAGIC0, MAGIC1, VERSION, kind, sequence, ack, flags, |payload|, 0);
    var crc := Crc16OfPacket(header, payload);
    var bytes := HeaderBytes(header.(crc := crc));
    ghost var before := out[..];
    Copy(out, 0, bytes);
    Copy(out, HEADER_SIZE, payload);
    Overlaid(before, bytes, payload);
    return true, HEADER_SIZE + |payload|;
  }

  lemma Overlaid(before: seq<Byte>, bytes: seq<Byte>, payload: seq<Byte>)
    requires |bytes| == HEADER_SIZE && HEADER_SIZE + |payload| <= |before|
    ensures var mid := before[..0] + bytes + before[HEADER_SIZE..];
            mid[..HEADER_SIZE] + payload + mid[HEADER_SIZE + |payload|..]
              == bytes + payload + before[HEADER_SIZE + |payload|..]
  {
  }

  method ValidatePacket(data: seq<Byte>) returns (packet: Option<Packet>)
    ensures packet == Validated(data)
  {
    if |data| < HEADER_SIZE || |data| > MAX_PACKET {
      return None;
    }
    var h := HeaderOf(data);
    if h.magic0 != MAGIC0 || h.magic1 != MAGIC1 || h.version != VERSION || h.len + HEADER_SIZE != |data| {
      return None;
    }
    var payload := data[HEADER_SIZE..];
    var expected := Crc16OfPacket(h, payload);
    packet := if expected != h.crc then None else Some(Packet(h, payload));
  }

  // ----- round trips -----

  lemma HeaderOfBytes(h: Header, payload: seq<Byte>)
    ensures HeaderOf(HeaderBytes(h) + payload) == h
  {
    var data := HeaderBytes(h) + payload;
    Widths();
    FromToBytes(h.sequence, 2);
    FromToBytes(h.ack, 2);
    FromToBytes(h.len, 2);
    FromToBytes(h.crc, 2);
    assert data[4..6] == ToBytes(h.sequence, 2);
    assert data[6..8] == ToBytes(h.ack, 2);
    assert data[9..11] == ToBytes(h.len, 2);
    assert data[11..13] == ToBytes(h.crc, 2);
  }

  lemma BytesOfHeader(data: seq<Byte>)
    requires |data| >= HEADER_SIZE
    ensures HeaderBytes(HeaderOf(data)) == data[..HEADER_SIZE] && Covered(HeaderOf(data)) == data[..CRC_OFFSET]
  {
    ToFromBytes(data[4..6]);
    ToFromBytes(data[6..8]);
    ToFromBytes(data[9..11]);
    ToFromBytes(data[11..13]);
    assert data[..CRC_OFFSET] == data[..4] + data[4..6] + data[6..8] + [data[8]] + data[9..11];
    assert data[..HEADER_SIZE] == data[..CRC_OFFSET] + data[11..13];
  }

  /** A packet of at most 512 bytes validates to the header it was sealed with and its payload. */
  lemma BuiltValidates(kind: Byte, sequence: U16, ack: U16, flags: Byte, payload: seq<Byte>)
    requires |payload| + HEADER_SIZE <= MAX_PACKET
    ensures Validated(Built(kind, sequence, ack, flags, payload))
              == Some(Packet(Sealed(kind, sequence, ack, flags, payload), payload))
  {
    var h := Sealed(kind, sequence, ack, flags, payload);
    HeaderOfBytes(h, payload);
    assert Built(kind, sequence, ack, flags, payload)[HEADER_SIZE..] == payload;
  }

  /** Only built packets validate. */
  lemma ValidatedIsBuilt(data: seq<Byte>)
    requires Validated(data).Some?
    ensures var h := Validated(data).value.header;
            var payload := Validated(data).value.payload;
            && h.magic0 == MAGIC0 && h.magic1 == MAGIC1 && h.version == VERSION
            && |payload| + HEADER_SIZE <= MAX_PACKET
            && data == Built(h.kind, h.sequence, h.ack, h.flags, payload)
  {
    BytesOfHeader(data);
    assert data == data[..HEADER_SIZE] + data[HEADER_SIZE..];
  }

  // ----- damaged packets -----

  /** The bytes a CRC protects. */
  function Protected(data: seq<Byte>): (m: seq<Byte>)
    requires |data| >= HEADER_SIZE
    ensures |m| == |data| - 2
  {
    data[..CRC_OFFSET] + data[HEADER_SIZE..]
  }

  /** The redundant fields of a packet fit the rest of it. */
  predicate Consistent(data: seq<Byte>) {
    && |data| >= HEADER_SIZE
    && ShortAt(data, 9) == |data| - HEADER_SIZE
    && ShortAt(data, CRC_OFFSET) == Crc(Protected(data), SEED)
  }

  lemma ProtectedCrc(data: seq<Byte>)
    requires |data| >= HEADER_SIZE && ShortAt(data, 9) == |data| - HEADER_SIZE
    ensures PacketCrc(HeaderOf(data), data[HEADER_SIZE..]) == Crc(Protected(data), SEED)
  {
    BytesOfHeader(data);
    var payload := data[HEADER_SIZE..];
    assert payload[..|payload|] == payload;
    CrcChains(data[..CRC_OFFSET], payload, SEED);
  }

  lemma ValidIsConsistent(data: seq<Byte>)
    requires Validated(data).Some?
    ensures Consistent(data)
  {
    ProtectedCrc(data);
  }

  lemma SameField(p: seq<Byte>, q: seq<Byte>, i: nat)
    requires i + 2 <= |p| && i + 2 <= |q|
    ensures ShortAt(p, i) == ShortAt(q, i) <==> p[i] == q[i] && p[i + 1] == q[i + 1]
  {
    var a, b := p[i..i + 2], q[i..i + 2];
    ToFromBytes(a);
    ToFromBytes(b);
    assert a == [p[i], p[i + 1]] && b == [q[i], q[i + 1]];
  }

  lemma SameProtected(p: seq<Byte>, q: seq<Byte>)
    requires |p| == |q| >= HEADER_SIZE
    ensures Protected(p) == Protected(q) <==> forall i: nat | i < |p| && i != 11 && i != 12 :: p[i] == q[i]
  {
    if Protected(p) == Protected(q) {
      forall i: nat | i < |p| && i != 11 && i != 12
        ensures p[i] == q[i]
      {
        var j := if i < 11 then i else i - 2;
        assert Protected(p)[j] == p[i] && Protected(q)[j] == q[i];
      }
    }
  }

  ghost predicate DifferAt(p: seq<Byte>, q: seq<Byte>, k: nat) {
    |p| == |q| && forall i: nat | i < |p| && i != k && i != k + 1 :: p[i] == q[i]
  }

  /** Changes next to or inside the CRC field. */
  lemma CrcFieldChange(p: seq<Byte>, q: seq<Byte>, k: nat)
    requires Consistent(p) && Consistent(q) && DifferAt(p, q, k) && (k == 10 || k == 11)
    ensures p == q
  {
    SameField(p, q, 9);
    SameProtected(p, q);
    SameField(p, q, CRC_OFFSET);
  }

  /** Changes of protected bytes only, at two neighbouring positions of the protected message. */
  lemma ProtectedChange(p: seq<Byte>, q: seq<Byte>, j: nat)
    requires Consistent(p) && Consistent(q) && |p| == |q| && j + 3 < |p|
    requires forall i: nat | i < |p| && i != Position(j) && i != Position(j + 1) :: p[i] == q[i]
    ensures p == q
  {
    var m, n := Protected(p), Protected(q);
    forall i: nat | i < |m| && i != j && i != j + 1
      ensures m[i] == n[i]
    {
      assert m[i] == p[Position(i)] && n[i] == q[Position(i)];
    }
    SameField(p, q, CRC_OFFSET);
    AdjacentBytesShow(m, n, j, SEED);
    SameProtected(p, q);
  }

  /** Where a protected byte lies in the packet. */
  function Position(j: nat): nat {
    if j < CRC_OFFSET then j else j + 2
  }

  /** Two valid packets of one length that differ in two adjacent bytes at most are the same packet;
      the pair made of the CRC's last byte and the payload's first one is the exception. */
  lemma AdjacentChangeIsCaught(p: seq<Byte>, q: seq<Byte>, k: nat)
    requires Validated(p).Some? && Validated(q).Some? && DifferAt(p, q, k) && k + 1 < |p| && k != 12
    ensures p == q
  {
    ValidIsConsistent(p);
    ValidIsConsistent(q);
    if k == 10 || k == 11 {
      CrcFieldChange(p, q, k);
    } else {
      ProtectedChange(p, q, if k < 10 then k else k - 2);
    }
  }

  /** Changing any one byte of a valid packet makes validation fail. */
  lemma SingleByteChangeIsCaught(p: seq<Byte>, q: seq<Byte>, k: nat)
    requires Validated(p).Some? && |q| == |p| && k < |p| && q[k] != p[k]
    requires forall i: nat | i < |p| && i != k :: p[i] == q[i]
    ensures Validated(q).None?
  {
    if Validated(q).Some? {
      ValidIsConsistent(p);
      ValidIsConsistent(q);
      OneByteSame(p, q, k);
    }
  }

  lemma OneByteSame(p: seq<Byte>, q: seq<Byte>, k: nat)
    requires Consistent(p) && Consistent(q) && |p| == |q| && k < |p|
    requires forall i: nat | i < |p| && i != k :: p[i] == q[i]
    ensures p == q
  {
    if k == 11 || k == 12 {
      CrcFieldChange(p, q, 11);
    } else {
      var j := if k < 11 then k else k - 2;
      ProtectedChange(p, q, if j == 0 then 0 else j - 1);
    }
  }

  // ----- the pair that lies across the end of the CRC field -----

  /** A register difference after some more bytes. */
  function Carried(d: U16, bytes: nat): U16
    decreases bytes
  {
    if bytes == 0 then d else Carried(Shifts(d, BYTE_BITS), bytes - 1)
  }

  /** Where two registers differ. */
  function Difference(x: U16, y: U16): U16 {
    WordXorBound(x, y);
    Xor(x, y)
  }

  lemma AbsorbedDifference(x: U16, y: U16, b: Byte)
    ensures Difference(Absorbed(x, b), Absorbed(y, b)) == Shifts(Difference(x, y), BYTE_BITS)
  {
    ShiftsLinear(Mixed(x, b), Mixed(y, b), BYTE_BITS);
    XorFour(x, y, b);
  }

  // The argument about whole messages needs only how one byte acts, so it is made for any step.

  function Folded(step: (U16, Byte) -> U16, data: seq<Byte>, c: U16): U16 {
    if data == [] then c else Folded(step, data[1..], step(c, data[0]))
  }

  function Iterated(carry: U16 -> U16, d: U16, n: nat): U16
    decreases n
  {
    if n == 0 then d else Iterated(carry, carry(d), n - 1)
  }

  lemma {:induction false} FoldedDifference(step: (U16, Byte) -> U16, diff: (U16, U16) -> U16, carry: U16 -> U16,
                                            data: seq<Byte>, x: U16, y: U16)
    requires forall u: U16, v: U16, b: Byte :: diff(step(u, b), step(v, b)) == carry(diff(u, v))
    ensures diff(Folded(step, data, x), Folded(step, data, y)) == Iterated(carry, diff(x, y), |data|)
    decreases |data|
  {
    if data != [] {
      FoldedDifference(step, diff, carry, data[1..], step(x, data[0]), step(y, data[0]));
    }
  }

  lemma {:induction false} CrcIsFolded(step: (U16, Byte) -> U16, data: seq<Byte>, c: U16)
    requires forall u: U16, b: Byte :: step(u, b) == Absorbed(u, b)
    ensures Crc(data, c) == Folded(step, data, c)
    decreases |data|
  {
    if data != [] {
      CrcIsFolded(step, data[1..], step(c, data[0]));
    }
  }

  lemma {:induction false} CarriedIsIterated(carry: U16 -> U16, d: U16, n: nat)
    requires forall u: U16 :: carry(u) == Shifts(u, BYTE_BITS)
    ensures Carried(d, n) == Iterated(carry, d, n)
    decreases n
  {
    if n > 0 {
      CarriedIsIterated(carry, carry(d), n - 1);
    }
  }

  /** The same data carries a difference of two registers through. */
  lemma CrcDifference(data: seq<Byte>, x: U16, y: U16)
    ensures Difference(Crc(data, x), Crc(data, y)) == Carried(Difference(x, y), |data|)
  {
    var step := (u: U16, b: Byte) => Absorbed(u, b);
    var diff := (u: U16, v: U16) => Difference(u, v);
    var carry := (u: U16) => Shifts(u, BYTE_BITS);
    forall u: U16, v: U16, b: Byte
      ensures diff(step(u, b), step(v, b)) == carry(diff(u, v))
    {
      AbsorbedDifference(u, v, b);
    }
    FoldedDifference(step, diff, carry, data, x, y);
    CrcIsFolded(step, data, x);
    CrcIsFolded(step, data, y);
    CarriedIsIterated(carry, Difference(x, y), |data|);
  }

  lemma FirstAbsorbed(x: Byte, y: Byte, seed: U16)
    ensures Xor(x, y) < 256
    ensures Xor(Absorbed(seed, x), Absorbed(seed, y)) == Shifts(Xor(x, y), BYTE_BITS)
  {
    Powers();
    XorBound(x, y, 8);
    ShiftsLinear(Mixed(seed, x), Mixed(seed, y), BYTE_BITS);
    MixedDifference(seed, x, y);
  }

  /** Messages that differ in their first byte only: the difference of their CRCs. */
  lemma FirstByteDifference(m: seq<Byte>, n: seq<Byte>, seed: U16)
    requires |m| == |n| > 0 && m[1..] == n[1..]
    ensures Xor(m[0], n[0]) < 256
    ensures Xor(Crc(m, seed), Crc(n, seed)) == Carried(Xor(m[0], n[0]), |m|)
  {
    FirstAbsorbed(m[0], n[0], seed);
    CrcDifference(m[1..], Absorbed(seed, m[0]), Absorbed(seed, n[0]));
  }

  /** A change of the CRC's last byte and the payload's first one is missed exactly when the CRC
      field changes by what the payload byte's change becomes over the payload's length. */
  lemma SpanningChangeExactly(p: seq<Byte>, q: seq<Byte>)
    requires Validated(p).Some? && DifferAt(p, q, 12) && |p| > HEADER_SIZE
    ensures Xor(p[13], q[13]) < 256
    ensures Validated(q).Some? <==>
            Xor(ShortAt(p, CRC_OFFSET), ShortAt(q, CRC_OFFSET)) == Carried(Xor(p[13], q[13]), |p| - HEADER_SIZE)
  {
    ValidIsConsistent(p);
    SameField(p, q, 9);
    ValidityOf(q);
    ProtectedDifference(p, q, SEED);
    XorInjective(ShortAt(q, CRC_OFFSET), Crc(Protected(q), SEED), ShortAt(p, CRC_OFFSET));
  }

  lemma ProtectedDifference(p: seq<Byte>, q: seq<Byte>, seed: U16)
    requires DifferAt(p, q, 12) && |p| > HEADER_SIZE
    ensures Xor(p[13], q[13]) < 256
    ensures Xor(Crc(Protected(p), seed), Crc(Protected(q), seed)) == Carried(Xor(p[13], q[13]), |p| - HEADER_SIZE)
  {
    var head, m, n := SpanningParts(p, q);
    MessageDifference(head, m, n, seed);
  }

  lemma SpanningParts(p: seq<Byte>, q: seq<Byte>) returns (head: seq<Byte>, m: seq<Byte>, n: seq<Byte>)
    requires DifferAt(p, q, 12) && |p| > HEADER_SIZE
    ensures Protected(p) == head + m && Protected(q) == head + n
    ensures |m| == |n| == |p| - HEADER_SIZE && m[1..] == n[1..] && m[0] == p[13] && n[0] == q[13]
  {
    head, m, n := p[..CRC_OFFSET], p[HEADER_SIZE..], q[HEADER_SIZE..];
    assert q[..CRC_OFFSET] == head;
  }

  lemma MessageDifference(head: seq<Byte>, m: seq<Byte>, n: seq<Byte>, seed: U16)
    requires |m| == |n| > 0 && m[1..] == n[1..]
    ensures Xor(m[0], n[0]) < 256
    ensures Xor(Crc(head + m, seed), Crc(head + n, seed)) == Carried(Xor(m[0], n[0]), |m|)
  {
    CrcChains(head, m, seed);
    CrcChains(head, n, seed);
    FirstByteDifference(m, n, Crc(head, seed));
  }

  lemma ValidityOf(data: seq<Byte>)
    requires HEADER_SIZE <= |data| <= MAX_PACKET && data[0] == MAGIC0 && data[1] == MAGIC1 && data[2] == VERSION
    requires ShortAt(data, 9) == |data| - HEADER_SIZE
    ensures Validated(data).Some? <==> ShortAt(data, 11) == Crc(Protected(data), 0xFFFF)
  {
    ProtectedCrc(data);
  }

  lemma TwelveShifted()
    ensures Shifts(12, 8) == 0x0500
  {
    XorZero(0x5000);
    assert Xor(1, POLYNOMIAL) == 2 * Xor(0, 0x5000);
    assert Shifted(12) == 6 && Shifted(6) == 3 && Shifted(3) == 0xA000;
    assert Shifted(0xA000) == 0x5000 && Shifted(0x5000) == 0x2800 && Shifted(0x2800) == 0x1400;
    assert Shifts(0x2800, 3) == Shifts(0x1400, 2) == Shifts(0x0A00, 1) == 0x0500;
    assert Shifts(12, 8) == Shifts(6, 7) == Shifts(3, 6) == Shifts(0xA000, 5) == Shifts(0x5000, 4) == Shifts(0x2800, 3);
  }

  lemma ChangedByTwelve(b: Byte)
    ensures Xor(b, 12) < 256 && Xor(b, Xor(b, 12)) == 12
  {
    Powers();
    XorBound(b, 12, 8);
    XorAssociates(b, b, 12);
    XorZero(b);
    XorZero(12);
  }

  lemma LowByteSame(x: U16, y: U16)
    requires Xor(x, y) == 0x0500
    ensures ToBytes(x, 2)[0] == ToBytes(y, 2)[0]
  {
    XorUndo(y, x);
    XorCommutes(x, y);
    XorCommutes(0x0500, x);
    Powers();
    XorHigh(x, 0x0500, 8);
  }

  /** Such changes exist: every packet with one payload byte shares its other bytes, but for the
      CRC's last one, with another valid packet. */
  lemma SpanningChangeIsMissed(kind: Byte, sequence: U16, ack: U16, flags: Byte, b: Byte)
    ensures Xor(b, 12) < 256
    ensures var p, q := Built(kind, sequence, ack, flags, [b]), Built(kind, sequence, ack, flags, [Xor(b, 12)]);
            Validated(p).Some? && Validated(q).Some? && p[13] != q[13] && DifferAt(p, q, 12)
  {
    ChangedByTwelve(b);
    var c: Byte := Xor(b, 12);
    BuiltValidates(kind, sequence, ack, flags, [b]);
    BuiltValidates(kind, sequence, ack, flags, [c]);
    SealedDifference(kind, sequence, ack, flags, b, c);
    XorZero(b);
  }

  lemma SealedDifference(kind: Byte, sequence: U16, ack: U16, flags: Byte, b: Byte, c: Byte)
    requires Xor(b, c) == 12
    ensures var h, g := Sealed(kind, sequence, ack, flags, [b]), Sealed(kind, sequence, ack, flags, [c]);
            Covered(h) == Covered(g) && ToBytes(h.crc, 2)[0] == ToBytes(g.crc, 2)[0]
  {
    var h, g := Sealed(kind, sequence, ack, flags, [b]), Sealed(kind, sequence, ack, flags, [c]);
    var seed := Crc(Covered(h), SEED);
    assert Covered(g) == Covered(h);
    FirstByteDifference([b], [c], seed);
    assert [b][..1] == [b] && [c][..1] == [c];
    TwelveShifted();
    assert Carried(12, 1) == Carried(Shifts(12, 8), 0);
    LowByteSame(h.crc, g.crc);
  }
}
