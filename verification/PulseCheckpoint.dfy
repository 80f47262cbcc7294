/** The checkpoint blob of the pulse counters: sixteen fixed-size entries behind a magic word and a
    version, closed by a 32-bit FNV-1a hash (draft-eastlake-fnv, section 2). */
module PulseCheckpoint {
  import opened Wrappers
  import opened Bytes
  import opened Bits

  const CAPACITY := 16
  const ENTRY_SIZE := 14
  const SIZE := 8 + CAPACITY * ENTRY_SIZE + 4
  const HASH_OFFSET := SIZE - 4
  const MAGIC: U32 := 0x31534c50
  const VERSION: U32 := 1
  const OFFSET_BASIS: U32 := 2166136261
  const PRIME := 16777619
  /** The inverse of the prime modulo 2^32. */
  const PRIME_INVERSE := 899433627
  const MODULUS := 0x1_0000_0000

  datatype Entry = Entry(count: U64, generation: U32, resetToken: U16)

  type State = s: seq<Entry> | |s| == CAPACITY witness seq(CAPACITY, _ => Entry(0, 0, 0))

  // ----- the hash -----

  function Hashed(hash: U32, b: Byte): U32 {
    (Xor(hash, b) * PRIME) % MODULUS
  }

  function Hash(bytes: seq<Byte>, hash: U32): U32
    decreases |bytes|
  {
    if bytes == [] then hash else Hash(bytes[1..], Hashed(hash, bytes[0]))
  }

  function Checksum(bytes: seq<Byte>): U32 {
    Hash(bytes, OFFSET_BASIS)
  }

  method ComputeChecksum(bytes: seq<Byte>) returns (hash: U32)
    ensures hash == Checksum(bytes)
  {
    hash := OFFSET_BASIS;
    for i := 0 to |bytes|
      invariant Hash(bytes[i..], hash) == Checksum(bytes)
    {
      ghost var rest := bytes[i..];
      assert rest[0] == bytes[i] && rest[1..] == bytes[i + 1..];
      hash := (Xor(hash, bytes[i]) * PRIME) % MODULUS;
    }
  }

  /** Multiplication by the odd prime loses nothing modulo 2^32. */
  lemma PrimeInjective(x: U32, y: U32)
    requires (x * PRIME) % MODULUS == (y * PRIME) % MODULUS
    ensures x == y
  {
    PrimeUndo(x);
    PrimeUndo(y);
  }

  lemma PrimeUndo(x: U32)
    ensures ((x * PRIME) % MODULUS * PRIME_INVERSE) % MODULUS == x
  {
    var q, r := (x * PRIME) / MODULUS, (x * PRIME) % MODULUS;
    assert PRIME * PRIME_INVERSE == 1 + 3513497 * MODULUS;
    RemainderIs(r * PRIME_INVERSE, x, x * 3513497 - q * PRIME_INVERSE);
  }

  lemma RemainderIs(a: int, x: U32, t: int)
    requires a == x + t * MODULUS
    ensures a % MODULUS == x
  {
  }

  lemma HashedInjective(h: U32, b: Byte, k: U32, c: Byte)
    requires h == k || b == c
    requires Hashed(h, b) == Hashed(k, c)
    ensures h == k && b == c
  {
    Powers();
    XorBound(h, b, 32);
    XorBound(k, c, 32);
    PrimeInjective(Xor(h, b), Xor(k, c));
    XorInjective(h, k, b);
    XorInjective(b, c, h);
  }

  lemma {:induction false} HashInjective(bytes: seq<Byte>, h: U32, k: U32)
    requires Hash(bytes, h) == Hash(bytes, k)
    ensures h == k
    decreases |bytes|
  {
    if bytes != [] {
      HashInjective(bytes[1..], Hashed(h, bytes[0]), Hashed(k, bytes[0]));
      HashedInjective(h, bytes[0], k, bytes[0]);
    }
  }

  /** Messages that differ in one byte at most have different hashes. */
  lemma {:induction false} OneByteShows(m: seq<Byte>, n: seq<Byte>, k: nat, hash: U32)
    requires |m| == |n| && k < |m| && forall i: nat | i < |m| && i != k :: m[i] == n[i]
    requires Hash(m, hash) == Hash(n, hash)
    ensures m == n
    decreases |m|
  {
    assert m == [m[0]] + m[1..] && n == [n[0]] + n[1..];
    if k == 0 {
      assert m[1..] == n[1..];
      HashInjective(m[1..], Hashed(hash, m[0]), Hashed(hash, n[0]));
      HashedInjective(hash, m[0], hash, n[0]);
    } else {
      OneByteShows(m[1..], n[1..], k - 1, Hashed(hash, m[0]));
    }
  }

  // ----- the byte format -----

  function EntryBytes(e: Entry): (s: seq<Byte>)
    ensures |s| == ENTRY_SIZE
  {
    ToBytes(e.count, 8) + ToBytes(e.generation, 4) + ToBytes(e.resetToken, 2)
  }

  function EntriesBytes(entries: seq<Entry>): (s: seq<Byte>)
    ensures |s| == ENTRY_SIZE * |entries|
    decreases |entries|
  {
    if entries == [] then [] else EntryBytes(entries[0]) + EntriesBytes(entries[1..])
  }

  function Unsealed(magic: U32, version: U32, state: State): (s: seq<Byte>)
    ensures |s| == HASH_OFFSET
  {
    ToBytes(magic, 4) + ToBytes(version, 4) + EntriesBytes(state)
  }

  function Sealed(body: seq<Byte>): (s: seq<Byte>)
    ensures |s| == |body| + 4
  {
    body + ToBytes(Checksum(body), 4)
  }

  function Encoded(state: State): (s: seq<Byte>)
    ensures |s| == SIZE
  {
    Sealed(Unsealed(MAGIC, VERSION, state))
  }

  function EntryAt(bytes: seq<Byte>, at: nat): Entry
    requires at + ENTRY_SIZE <= |bytes|
  {
    Widths();
    Entry(FieldAt(bytes, at, 8), FieldAt(bytes, at + 8, 4), FieldAt(bytes, at + 12, 2))
  }

  function EntriesAt(bytes: seq<Byte>, at: nat, n: nat): (s: seq<Entry>)
    requires at + ENTRY_SIZE * n <= |bytes|
    ensures |s| == n
    decreases n, at
  {
    if n == 0 then [] else [EntryAt(bytes, at)] + EntriesAt(bytes, at + ENTRY_SIZE, n - 1)
  }

  function Decoded(bytes: seq<Byte>): Option<State> {
    if |bytes| != SIZE then None
    else if FieldAt(bytes, 0, 4) != MAGIC || FieldAt(bytes, 4, 4) != VERSION then None
    else if FieldAt(bytes, HASH_OFFSET, 4) != Checksum(bytes[..HASH_OFFSET]) then None
    else Some(EntriesAt(bytes, 8, CAPACITY))
  }

  // ----- in place -----

  /** `put`: writes the low bytes of a number, least significant first. */
  method Put(out: array<Byte>, at: nat, value: nat, length: nat) returns (next: nat)
    requires at + length <= out.Length
    modifies out
    ensures next == at + length
    ensures out[..next] == old(out[..at]) + ToBytes(value, length)
  {
    var v := value;
    for i := 0 to length
      invariant out[..at + i] + ToBytes(v, length - i) == old(out[..at]) + ToBytes(value, length)
    {
      ghost var written := out[..at + i];
      assert ToBytes(v, length - i) == [v % 256] + ToBytes(v / 256, length - i - 1);
      out[at + i] := v % 256;
      v := v / 256;
      assert out[..at + i + 1] == written + [out[at + i]];
    }
    next := at + length;
    assert out[..next] + ToBytes(v, 0) == out[..next];
  }

  /** `get`: reads them back. */
  method Get(bytes: seq<Byte>, at: nat, length: nat) returns (v: nat)
    requires at + length <= |bytes|
    ensures v == FieldAt(bytes, at, length)
  {
    v := 0;
    var weight: nat := 1;
    for i := 0 to length
      invariant v == FromBytes(bytes[at..at + i]) && weight == Power256(i)
    {
      FromBytesSnoc(bytes[at..at + i], bytes[at + i]);
      assert bytes[at..at + i + 1] == bytes[at..at + i] + [bytes[at + i]];
      v := v + bytes[at + i] * weight;
      weight := 256 * weight;
    }
  }

  method PutEntry(out: array<Byte>, at: nat, e: Entry) returns (next: nat)
    requires at + ENTRY_SIZE <= out.Length
    modifies out
    ensures next == at + ENTRY_SIZE
    ensures out[..next] == old(out[..at]) + EntryBytes(e)
  {
    ghost var a, b, c, d := out[..at], ToBytes(e.count, 8), ToBytes(e.generation, 4), ToBytes(e.resetToken, 2);
    var p := Put(out, at, e.count, 8);
    p := Put(out, p, e.generation, 4);
    next := Put(out, p, e.resetToken, 2);
    Associative(a + b, c, d);
    Associative(a, b, c + d);
    Associative(b, c, d);
  }

  method GetEntry(bytes: seq<Byte>, at: nat) returns (e: Entry)
    requires at + ENTRY_SIZE <= |bytes|
    ensures e == EntryAt(bytes, at)
  {
    Widths();
    var count := Get(bytes, at, 8);
    var generation := Get(bytes, at + 8, 4);
    var resetToken := Get(bytes, at + 12, 2);
    e := Entry(count, generation, resetToken);
  }

  lemma {:induction false} EntriesSnoc(entries: seq<Entry>, e: Entry)
    ensures EntriesBytes(entries + [e]) == EntriesBytes(entries) + EntryBytes(e)
    decreases |entries|
  {
    if entries == [] {
      assert [e][1..] == [] && [] + [e] == [e];
    } else {
      assert (entries + [e])[1..] == entries[1..] + [e];
      EntriesSnoc(entries[1..], e);
    }
  }

  method PutEntries(out: array<Byte>, at: nat, entries: seq<Entry>) returns (next: nat)
    requires at + ENTRY_SIZE * |entries| <= out.Length
    modifies out
    ensures next == at + ENTRY_SIZE * |entries|
    ensures out[..next] == old(out[..at]) + EntriesBytes(entries)
  {
    ghost var head := out[..at];
    next := at;
    for i := 0 to |entries|
      invariant next == at + ENTRY_SIZE * i
      invariant out[..next] == head + EntriesBytes(entries[..i])
    {
      next := PutEntry(out, next, entries[i]);
      assert entries[..i + 1] == entries[..i] + [entries[i]];
      EntriesSnoc(entries[..i], entries[i]);
      Associative(head, EntriesBytes(entries[..i]), EntryBytes(entries[i]));
    }
    assert entries[..|entries|] == entries;
  }

  lemma FirstEntry(bytes: seq<Byte>, at: nat, n: nat)
    requires n > 0 && at + ENTRY_SIZE * n <= |bytes|
    ensures EntriesAt(bytes, at, n) == [EntryAt(bytes, at)] + EntriesAt(bytes, at + ENTRY_SIZE, n - 1)
  {
  }

  /** The first of the remaining entries joins those already read. */
  lemma JoinsOn(read: seq<Entry>, e: Entry, rest: seq<Entry>)
    ensures (read + [e]) + rest == read + ([e] + rest)
  {
  }

  method GetEntries(bytes: seq<Byte>, at: nat, n: nat) returns (entries: seq<Entry>)
    requires at + ENTRY_SIZE * n <= |bytes|
    ensures entries == EntriesAt(bytes, at, n)
  {
    entries := [];
    ghost var rest := EntriesAt(bytes, at, n);
    ghost var all := rest;
    var place: nat := at;
    for i := 0 to n
      invariant place + ENTRY_SIZE * (n - i) <= |bytes|
      invariant rest == EntriesAt(bytes, place, n - i) && entries + rest == all
    {
      FirstEntry(bytes, place, n - i);
      var e := GetEntry(bytes, place);
      rest := EntriesAt(bytes, place + ENTRY_SIZE, n - i - 1);
      JoinsOn(entries, e, rest);
      entries := entries + [e];
      place := place + ENTRY_SIZE;
    }
    assert rest == [];
  }

  method PutBody(out: array<Byte>, magic: U32, version: U32, state: State) returns (next: nat)
    requires out.Length >= HASH_OFFSET
    modifies out
    ensures next == HASH_OFFSET && out[..next] == Unsealed(magic, version, state)
  {
    next := Put(out, 0, magic, 4);
    next := Put(out, next, version, 4);
    next := PutEntries(out, next, state);
  }

  method Encode(state: State, out: array<Byte>)
    requires out.Length == SIZE
    modifies out
    ensures out[..] == Encoded(state)
  {
    var p := PutBody(out, MAGIC, VERSION, state);
    var hash := ComputeChecksum(out[..HASH_OFFSET]);
    p := Put(out, p, hash, 4);
    assert out[..] == out[..p];
  }

  method Decode(bytes: seq<Byte>) returns (state: Option<State>)
    ensures state == Decoded(bytes)
  {
    if |bytes| != SIZE {
      return None;
    }
    var magic := Get(bytes, 0, 4);
    var version := Get(bytes, 4, 4);
    if magic != MAGIC || version != VERSION {
      return None;
    }
    var stored := Get(bytes, HASH_OFFSET, 4);
    var hash := ComputeChecksum(bytes[..HASH_OFFSET]);
    if stored != hash {
      return None;
    }
    var entries := GetEntries(bytes, 8, CAPACITY);
    state := Some(entries);
  }

  // ----- round trips -----

  lemma EntryRoundTrip(bytes: seq<Byte>, at: nat, e: Entry)
    requires at + ENTRY_SIZE <= |bytes|
    ensures EntryAt(bytes, at) == e <==> bytes[at..at + ENTRY_SIZE] == EntryBytes(e)
  {
    Widths();
    var slice := bytes[at..at + ENTRY_SIZE];
    var a, b, c := bytes[at..at + 8], bytes[at + 8..at + 12], bytes[at + 12..at + ENTRY_SIZE];
    assert slice == a + b + c;
    ToFromBytes(a);
    ToFromBytes(b);
    ToFromBytes(c);
    if slice == EntryBytes(e) {
      assert a == EntryBytes(e)[..8] && b == EntryBytes(e)[8..12] && c == EntryBytes(e)[12..];
      FromToBytes(e.count, 8);
      FromToBytes(e.generation, 4);
      FromToBytes(e.resetToken, 2);
    }
  }

  lemma {:induction false} EntriesRoundTrip(bytes: seq<Byte>, at: nat, stop: nat, entries: seq<Entry>)
    requires stop == at + ENTRY_SIZE * |entries| <= |bytes|
    ensures EntriesAt(bytes, at, |entries|) == entries <==> bytes[at..stop] == EntriesBytes(entries)
    decreases |entries|
  {
    if entries == [] {
      assert bytes[at..stop] == [];
    } else {
      var next := at + ENTRY_SIZE;
      EntryRoundTrip(bytes, at, entries[0]);
      EntriesRoundTrip(bytes, next, stop, entries[1..]);
      assert bytes[at..stop] == bytes[at..next] + bytes[next..stop];
      ConsEquals(EntryAt(bytes, at), EntriesAt(bytes, next, |entries| - 1), entries);
      JoinEquals(bytes[at..next], bytes[next..stop], EntryBytes(entries[0]), EntriesBytes(entries[1..]));
    }
  }

  lemma ConsEquals(e: Entry, rest: seq<Entry>, entries: seq<Entry>)
    requires entries != []
    ensures [e] + rest == entries <==> e == entries[0] && rest == entries[1..]
  {
    assert entries == [entries[0]] + entries[1..];
    assert ([e] + rest)[1..] == rest;
  }

  lemma JoinEquals(a: seq<Byte>, b: seq<Byte>, c: seq<Byte>, d: seq<Byte>)
    requires |a| == |c|
    ensures a + b == c + d <==> a == c && b == d
  {
    if a + b == c + d {
      assert a == (a + b)[..|a|] && c == (c + d)[..|c|];
      assert b == (a + b)[|a|..] && d == (c + d)[|c|..];
    }
  }

  /** The parts of a blob's body. */
  lemma BodyParts(bytes: seq<Byte>, magic: U32, version: U32, state: State)
    requires |bytes| == SIZE
    ensures bytes[..HASH_OFFSET] == Unsealed(magic, version, state) <==>
              && FieldAt(bytes, 0, 4) == magic && FieldAt(bytes, 4, 4) == version
              && EntriesAt(bytes, 8, CAPACITY) == state
  {
    var a, b, c := bytes[0..4], bytes[4..8], bytes[8..HASH_OFFSET];
    assert bytes[..HASH_OFFSET] == (a + b) + c;
    JoinEquals(a + b, c, ToBytes(magic, 4) + ToBytes(version, 4), EntriesBytes(state));
    JoinEquals(a, b, ToBytes(magic, 4), ToBytes(version, 4));
    Widths();
    FieldRoundTrip(bytes, 0, 4, magic);
    FieldRoundTrip(bytes, 4, 4, version);
    EntriesRoundTrip(bytes, 8, HASH_OFFSET, state);
  }

  lemma SealParts(bytes: seq<Byte>, at: nat, body: seq<Byte>)
    requires |bytes| == at + 4 && |body| == at
    ensures bytes == Sealed(body) <==> bytes[..at] == body && FieldAt(bytes, at, 4) == Checksum(bytes[..at])
  {
    Widths();
    FieldRoundTrip(bytes, at, 4, Checksum(body));
    assert bytes == bytes[..at] + bytes[at..at + 4];
    JoinEquals(bytes[..at], bytes[at..at + 4], body, ToBytes(Checksum(body), 4));
  }

  /** `decode` and `encode` are inverses: a blob decodes to a state exactly when it is the encoding
      of that state. */
  lemma DecodedIsEncoded(bytes: seq<Byte>, state: State)
    ensures Decoded(bytes) == Some(state) <==> bytes == Encoded(state)
  {
    if |bytes| == SIZE {
      BodyParts(bytes, MAGIC, VERSION, state);
      SealParts(bytes, HASH_OFFSET, Unsealed(MAGIC, VERSION, state));
    }
  }

  lemma {:induction false} EntryOf(bytes: seq<Byte>, at: nat, n: nat, i: nat)
    requires i < n && at + ENTRY_SIZE * n <= |bytes|
    ensures at + ENTRY_SIZE * i + ENTRY_SIZE <= |bytes|
    ensures EntriesAt(bytes, at, n)[i] == EntryAt(bytes, at + ENTRY_SIZE * i)
    decreases n
  {
    if i > 0 {
      EntryOf(bytes, at + ENTRY_SIZE, n - 1, i - 1);
    }
  }

  /** The entry at place `i` of a decoded blob: an eight-byte count, a four-byte generation and a
      two-byte reset token. */
  lemma EntryLayout(s: seq<Byte>, n: nat, i: nat)
    requires i < n && 8 + ENTRY_SIZE * n <= |s|
    ensures 22 + 14 * i <= |s|
    ensures EntriesAt(s, 8, n)[i].count == FieldAt(s, 8 + 14 * i, 8)
    ensures EntriesAt(s, 8, n)[i].generation == FieldAt(s, 16 + 14 * i, 4)
    ensures EntriesAt(s, 8, n)[i].resetToken == FieldAt(s, 20 + 14 * i, 2)
  {
    EntryOf(s, 8, n, i);
  }

  /** Where everything is in a blob: "PLS1", the version, sixteen entries of fourteen bytes, and the
      checksum of all that. */
  lemma BlobLayout(state: State, i: nat)
    requires i < 16
    ensures var s := Encoded(state);
            && |s| == 236
            && s[..4] == [0x50, 0x4c, 0x53, 0x31] && FieldAt(s, 4, 4) == 1
            && FieldAt(s, 8 + 14 * i, 8) == state[i].count
            && FieldAt(s, 16 + 14 * i, 4) == state[i].generation
            && FieldAt(s, 20 + 14 * i, 2) == state[i].resetToken
            && FieldAt(s, 232, 4) == Checksum(s[..232])
  {
    var s := Encoded(state);
    DecodedIsEncoded(s, state);
    EntryLayout(s, |state|, i);
    MagicBytes(MAGIC);
    FieldRoundTrip(s, 0, 4, MAGIC);
  }

  lemma MagicBytes(magic: U32)
    requires magic == MAGIC
    ensures ToBytes(magic, 4) == [0x50, 0x4c, 0x53, 0x31]
  {
    assert ToBytes(magic, 4) == [magic % 256] + ToBytes(magic / 256, 3);
    assert ToBytes(magic / 256, 3) == [0x4c] + ToBytes(0x3153, 2);
    TwoBytes(0x3153);
  }

  /** Changing any one byte of an accepted blob makes decoding fail. */
  lemma SingleByteChangeIsCaught(p: seq<Byte>, q: seq<Byte>, k: nat)
    requires Decoded(p).Some? && |q| == |p| && k < |p| && q[k] != p[k]
    requires forall i: nat | i < |p| && i != k :: p[i] == q[i]
    ensures Decoded(q).None?
  {
    if Decoded(q).Some? {
      OneByteSame(p, q, HASH_OFFSET, k);
    }
  }

  lemma OneByteSame(p: seq<Byte>, q: seq<Byte>, at: nat, k: nat)
    requires |q| == |p| == at + 4 && k < |p| && forall i: nat | i < |p| && i != k :: p[i] == q[i]
    requires FieldAt(p, at, 4) == Checksum(p[..at]) && FieldAt(q, at, 4) == Checksum(q[..at])
    ensures p[k] == q[k]
  {
    var m, n := p[..at], q[..at];
    var a, b := p[at..at + 4], q[at..at + 4];
    if k < at {
      assert a == b;
      OneByteShows(m, n, k, OFFSET_BASIS);
      assert m[k] == p[k] && n[k] == q[k];
    } else {
      assert m == n;
      ToFromBytes(a);
      ToFromBytes(b);
      assert a[k - at] == p[k] && b[k - at] == q[k];
    }
  }
}
