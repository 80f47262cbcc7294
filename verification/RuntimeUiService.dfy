/** Answers a list of ids: every id gets what its provider wrote, or a not-found record. */
module RuntimeUiService {
  import opened Wrappers
  import opened Bytes
  import opened RuntimeUi

  /** What a provider does for one value: the records it writes and the success it reports. */
  datatype Answer = Answer(records: seq<Record>, ok: bool)

  /** The provider table, by module index. */
  type Registry = map<nat, nat -> Answer>

  function ModuleOf(id: U16): nat {
    (id / MODULE_STRIDE) % 256
  }

  predicate IsModule(index: nat) {
    0 < index < MODULE_COUNT
  }

  predicate ValidId(id: U16) {
    if id >= DATA_BASE then id < DATA_BASE + DATA_CAPACITY
    else IsModule(ModuleOf(id)) && id % MODULE_STRIDE > 0
  }

  predicate HasProvider(registry: Registry, id: U16) {
    ValidId(id) && IsModule(ModuleOf(id)) && ModuleOf(id) in registry
  }

  /** An id is 100 times a module's index plus a value's. The index is one byte, so ids 25600
      further on reach the same module. */
  predicate Addresses(id: U16, m: nat, v: nat) {
    0 < m < 36 && 0 < v < 100 && (id == 100 * m + v || id == 25600 + 100 * m + v)
  }

  lemma ProviderExactly(registry: Registry, id: U16)
    ensures HasProvider(registry, id) <==> exists m: nat, v: nat :: Addresses(id, m, v) && m in registry
    ensures forall m: nat, v: nat | Addresses(id, m, v) && m in registry :: AnswerOf(registry, id) == registry[m](v)
  {
    forall m: nat, v: nat | Addresses(id, m, v)
      ensures ModuleOf(id) == m && id % 100 == v && ValidId(id)
    {
      var wrap := if id == 100 * m + v then 0 else 256;
      assert id == 100 * (m + wrap) + v;
      assert id / 100 == m + wrap;
    }
    if HasProvider(registry, id) {
      assert id == 100 * (id / 100) + id % 100 && id / 100 < 328;
      assert Addresses(id, ModuleOf(id), id % 100);
    }
  }

  function AnswerOf(registry: Registry, id: U16): Answer
    requires HasProvider(registry, id)
  {
    registry[ModuleOf(id)](id % MODULE_STRIDE)
  }

  /** The records one id contributes. The count byte wraps, so 256 records look like none. */
  function Contribution(registry: Registry, id: U16): seq<Record> {
    if !HasProvider(registry, id) then [Record(id, NotFound)]
    else
      var a := AnswerOf(registry, id);
      a.records + if !a.ok || |a.records| % 256 == 0 then [Record(id, NotFound)] else []
  }

  function Contributions(registry: Registry, ids: seq<U16>): seq<Record>
    decreases |ids|
  {
    if ids == [] then []
    else Contributions(registry, ids[..|ids| - 1]) + Contribution(registry, ids[|ids| - 1])
  }

  // ----- several writes -----

  function WrittenAll(t: Tape, capacity: nat, rs: seq<Record>): Tape
    decreases |rs|
  {
    if rs == [] then t else WrittenAll(Written(t, capacity, rs[0]).0, capacity, rs[1..])
  }

  /** Several writes produce all their records, or overflow because these do not fit. */
  lemma {:induction false} WrittenAllFits(t: Tape, capacity: nat, rs: seq<Record>)
    ensures var w := WrittenAll(t, capacity, rs);
            var fits := |RecordsBytes(t.records + rs)| <= capacity;
            if t.overflowed then w.overflowed
            else if fits then w == Tape(t.records + rs, false)
            else |RecordsBytes(t.records)| <= capacity ==> w.overflowed
    decreases |rs|
  {
    if rs == [] {
      assert t.records + rs == t.records;
    } else {
      WrittenAllFits(Written(t, capacity, rs[0]).0, capacity, rs[1..]);
      SizesAdd(t.records, rs);
    }
  }

  lemma {:induction false} SizesAdd(before: seq<Record>, rs: seq<Record>)
    requires rs != []
    ensures before + rs == (before + [rs[0]]) + rs[1..]
    ensures |RecordsBytes(before)| + |RecordBytes(rs[0])| == |RecordsBytes(before + [rs[0]])| <= |RecordsBytes(before + rs)|
  {
    RecordsSnoc(before, rs[0]);
    assert rs == [rs[0]] + rs[1..];
    assert before + rs == (before + [rs[0]]) + rs[1..];
    RecordsConcat(before + [rs[0]], rs[1..]);
  }

  method WriteAll(writer: Writer, rs: seq<Record>)
    requires writer.Valid()
    modifies writer, writer.out
    ensures writer.Valid() && writer.Contents() == WrittenAll(old(writer.Contents()), writer.capacity, rs)
    ensures writer.out[..writer.base] == old(writer.out[..writer.base])
  {
    for i := 0 to |rs|
      invariant writer.Valid()
      invariant WrittenAll(writer.Contents(), writer.capacity, rs[i..]) == WrittenAll(old(writer.Contents()), writer.capacity, rs)
      invariant writer.out[..writer.base] == old(writer.out[..writer.base])
    {
      assert rs[i..][0] == rs[i] && rs[i..][1..] == rs[i + 1..];
      var _ := writer.Write(rs[i]);
    }
  }

  ghost predicate Fits(writer: Writer, more: seq<Record>)
    reads writer
  {
    !writer.overflowed && |RecordsBytes(writer.records + more)| <= writer.capacity
  }

  /** A provider's turn: its own records, and a not-found record when it reports failure or the
      count byte did not change. */
  method CallProvider(writer: Writer, answer: Answer, id: U16, ghost all: seq<Record>) returns (ok: bool)
    requires writer.Valid() && !writer.overflowed
    requires all == answer.records + if !answer.ok || |answer.records| % 256 == 0 then [Record(id, NotFound)] else []
    modifies writer, writer.out
    ensures writer.Valid() && (ok <==> old(Fits(writer, all)))
    ensures ok ==> writer.records == old(writer.records) + all && !writer.overflowed
    ensures writer.out[..writer.base] == old(writer.out[..writer.base])
  {
    ghost var start := writer.Contents();
    var beforeCount := writer.recordCount;
    ghost var again := !answer.ok || |answer.records| % 256 == 0;
    assert |RecordsBytes(start.records)| <= writer.capacity;
    TurnFits(start, writer.capacity, answer.records, Record(id, NotFound), again);
    ghost var w := WrittenAll(start, writer.capacity, answer.records);
    WriteAll(writer, answer.records);
    assert writer.Contents() == w;
    SameCount(|start.records|, |answer.records|);
    if !answer.ok || writer.recordCount == beforeCount {
      ok := writer.Write(Record(id, NotFound));
    } else {
      ok := !writer.overflowed;
    }
  }

  /** A turn fits exactly when all its records do. */
  lemma TurnFits(t: Tape, capacity: nat, rs: seq<Record>, last: Record, again: bool)
    requires !t.overflowed && |RecordsBytes(t.records)| <= capacity
    ensures var w := WrittenAll(t, capacity, rs);
            var u := if again then Written(w, capacity, last).0 else w;
            var all := rs + if again then [last] else [];
            && (!u.overflowed <==> |RecordsBytes(t.records + all)| <= capacity)
            && (!u.overflowed ==> u.records == t.records + all)
            && (!w.overflowed ==> w.records == t.records + rs)
            && (w.overflowed ==> u.overflowed)
  {
    var w := WrittenAll(t, capacity, rs);
    WrittenAllFits(t, capacity, rs);
    if again {
      PrefixFits(t.records, rs, rs + [last]);
      WrittenFits(w, capacity, last);
      Associative(t.records, rs, [last]);
    } else {
      assert rs + [] == rs;
    }
  }

  /** The body of the service's loop. */
  method AnswerOne(writer: Writer, registry: Registry, id: U16) returns (ok: bool)
    requires writer.Valid() && !writer.overflowed
    modifies writer, writer.out
    ensures writer.Valid() && (ok <==> old(Fits(writer, Contribution(registry, id))))
    ensures ok ==> writer.records == old(writer.records) + Contribution(registry, id) && !writer.overflowed
    ensures writer.out[..writer.base] == old(writer.out[..writer.base])
  {
    if !HasProvider(registry, id) {
      WrittenFits(writer.Contents(), writer.capacity, Record(id, NotFound));
      ok := writer.Write(Record(id, NotFound));
    } else {
      ok := CallProvider(writer, AnswerOf(registry, id), id, Contribution(registry, id));
    }
  }

  lemma WrittenFits(t: Tape, capacity: nat, r: Record)
    ensures Written(t, capacity, r).1 <==> !t.overflowed && |RecordsBytes(t.records + [r])| <= capacity
  {
    RecordsSnoc(t.records, r);
  }

  lemma PrefixFits(before: seq<Record>, some: seq<Record>, all: seq<Record>)
    requires some <= all
    ensures |RecordsBytes(before + some)| <= |RecordsBytes(before + all)|
  {
    assert all == some + all[|some|..];
    assert before + all == (before + some) + all[|some|..];
    RecordsConcat(before + some, all[|some|..]);
  }

  lemma SameCount(before: nat, added: nat)
    ensures (before + added) % 256 == before % 256 <==> added % 256 == 0
  {
  }

  /** `readValues`: succeeds exactly when the count byte and all records fit the buffer. */
  method ReadValues(ids: seq<U16>, registry: Registry, out: array<Byte>) returns (ok: bool, outLen: nat)
    requires |ids| <= 255
    modifies out
    ensures ok <==> 1 + |RecordsBytes(Contributions(registry, ids))| <= out.Length
    ensures ok ==> outLen == 1 + |RecordsBytes(Contributions(registry, ids))| <= out.Length
                   && out[0] == |Contributions(registry, ids)| % 256
                   && out[1..outLen] == RecordsBytes(Contributions(registry, ids))
    ensures !ok ==> outLen == 0 && (out.Length > 0 ==> out[0] == 0)
  {
    if out.Length == 0 {
      return false, 0;
    }
    out[0] := 0;
    if |ids| == 0 {
      return true, 1;
    }
    var writer := new Writer(out, 1);
    for i := 0 to |ids|
      invariant writer.Valid() && writer.out == out && writer.base == 1 && writer.capacity == out.Length - 1 && fresh(writer)
      invariant !writer.overflowed && writer.records == Contributions(registry, ids[..i])
      invariant out[..1] == [0]
    {
      assert ids[..i + 1][..i] == ids[..i] && ids[..i + 1][i] == ids[i];
      var answered := AnswerOne(writer, registry, ids[i]);
      assert out[0] == out[..1][0];
      if !answered {
        EarlierFits(registry, ids, i + 1);
        return false, 0;
      }
    }
    assert ids[..|ids|] == ids;
    out[0] := writer.recordCount;
    outLen := writer.length + 1;
    ok := !writer.overflowed;
  }

  lemma {:induction false} EarlierFits(registry: Registry, ids: seq<U16>, i: nat)
    requires i <= |ids|
    ensures |RecordsBytes(Contributions(registry, ids[..i]))| <= |RecordsBytes(Contributions(registry, ids))|
    decreases |ids|
  {
    if i == |ids| {
      assert ids[..i] == ids;
    } else {
      var init := ids[..|ids| - 1];
      EarlierFits(registry, init, i);
      assert init[..i] == ids[..i];
      RecordsConcat(Contributions(registry, init), Contribution(registry, ids[|ids| - 1]));
    }
  }

  // ----- one record per id -----

  /** The provider writes one record for the requested id and says so, or writes none. */
  predicate Truthful(registry: Registry, id: U16) {
    HasProvider(registry, id) ==>
      var a := AnswerOf(registry, id);
      a.records == [] || (|a.records| == 1 && a.records[0].id == id && a.ok)
  }

  /** An id contributes one record of its own exactly when its provider is truthful. */
  lemma OneRecordExactly(registry: Registry, id: U16)
    ensures Truthful(registry, id) <==> |Contribution(registry, id)| == 1 && Contribution(registry, id)[0].id == id
  {
    if HasProvider(registry, id) {
      var a := AnswerOf(registry, id);
      if a.records != [] {
        assert Contribution(registry, id)[0] == a.records[0];
      }
    }
  }

  /** A provider that writes its record and then reports failure: the id contributes two records. */
  lemma FailureAddsARecord()
    ensures var registry := map[1 := (valueId: nat) => Answer([Record(101, Bool(true))], false)];
            && HasProvider(registry, 101) && !Truthful(registry, 101)
            && Contribution(registry, 101) == [Record(101, Bool(true)), Record(101, NotFound)]
  {
    var registry := map[1 := (valueId: nat) => Answer([Record(101, Bool(true))], false)];
    assert AnswerOf(registry, 101) == Answer([Record(101, Bool(true))], false);
  }

  /** With truthful providers the buffer decodes to one record per requested id, in order. */
  lemma {:induction false} OneRecordPerId(registry: Registry, ids: seq<U16>)
    requires forall i: nat | i < |ids| :: Truthful(registry, ids[i])
    ensures Answers(Contributions(registry, ids), ids)
    decreases |ids|
  {
    if ids != [] {
      OneRecordPerId(registry, ids[..|ids| - 1]);
      OneRecordExactly(registry, ids[|ids| - 1]);
    }
  }

  lemma {:induction false} ReadsBack(records: seq<Record>, ids: seq<U16>, count: Byte, body: seq<Byte>)
    requires |ids| <= 255 && Answers(records, ids)
    requires count == |records| % 256 && body == RecordsBytes(records)
    ensures count == |ids| && Parsed(body) == Some(records)
  {
    RecordsRoundTrip(records);
    assert Parsed(body) == Some(records);
  }

  /** What a caller of `readValues` reads from the count byte and the rest of the buffer. */
  lemma AnswersReadBack(registry: Registry, ids: seq<U16>, count: Byte, body: seq<Byte>)
    requires |ids| <= 255 && forall i: nat | i < |ids| :: Truthful(registry, ids[i])
    requires count == |Contributions(registry, ids)| % 256 && body == RecordsBytes(Contributions(registry, ids))
    ensures count == |ids| && exists records :: Parsed(body) == Some(records) && Answers(records, ids)
  {
    OneRecordPerId(registry, ids);
    ReadsBack(Contributions(registry, ids), ids, count, body);
  }

  /** One record per id, in the order of the ids. */
  predicate Answers(records: seq<Record>, ids: seq<U16>) {
    |records| == |ids| && forall i: nat | i < |ids| :: records[i].id == ids[i]
  }
}
