/** The coalescing mailbox of src/Core/DataStore/PendingDataKeys.h: a bitset of pending keys
    drained in cyclic order from a rotating cursor. */
module PendingDataKeys {
  import opened Wrappers
  import opened Bytes

  // ----- draining, as a function on the set of pending keys -----

  datatype Drained = Drained(pending: set<nat>, cursor: nat, published: seq<nat>)

  function Next(n: nat, cursor: nat): nat
    requires cursor < n
  {
    if cursor + 1 == n then 0 else cursor + 1
  }

  lemma NextWraps(n: nat, cursor: nat)
    requires cursor < n
    ensures (cursor + 1) % n == Next(n, cursor)
  {
  }

  /** Scans `left` places from the cursor. The `call`-th publication is accepted or refused as
      `accepts` says; a refused key stays pending and ends the pass. */
  function DrainFrom(n: nat, pending: set<nat>, cursor: nat, left: nat, budget: nat, call: nat, accepts: nat -> bool): (r: Drained)
    requires cursor < n
    ensures r.cursor < n
    decreases left
  {
    if left == 0 || budget == 0 then Drained(pending, cursor, [])
    else if cursor !in pending then DrainFrom(n, pending, Next(n, cursor), left - 1, budget, call, accepts)
    else if !accepts(call) then Drained(pending, Next(n, cursor), [])
    else
      var rest := DrainFrom(n, pending - {cursor}, Next(n, cursor), left - 1, budget - 1, call + 1, accepts);
      rest.(published := [cursor] + rest.published)
  }

  /** A pass under way: what it published, and the rest of it. */
  function Continued(n: nat, pending: set<nat>, cursor: nat, left: nat, budget: nat, published: seq<nat>, accepts: nat -> bool): (r: Drained)
    requires cursor < n
  {
    var rest := DrainFrom(n, pending, cursor, left, budget, |published|, accepts);
    rest.(published := published + rest.published)
  }

  lemma ContinuedSteps(n: nat, pending: set<nat>, cursor: nat, left: nat, budget: nat, published: seq<nat>, accepts: nat -> bool)
    requires cursor < n
    ensures Continued(n, pending, cursor, left, budget, published, accepts) ==
            if left == 0 || budget == 0 then Drained(pending, cursor, published)
            else if cursor !in pending then Continued(n, pending, Next(n, cursor), left - 1, budget, published, accepts)
            else if !accepts(|published|) then Drained(pending, Next(n, cursor), published)
            else Continued(n, pending - {cursor}, Next(n, cursor), left - 1, budget - 1, published + [cursor], accepts)
  {
    assert published + [] == published;
    if left > 0 && budget > 0 && cursor in pending {
      var more := DrainFrom(n, pending - {cursor}, Next(n, cursor), left - 1, budget - 1, |published| + 1, accepts).published;
      assert published + ([cursor] + more) == (published + [cursor]) + more;
    }
  }

  lemma WholePass(n: nat, pending: set<nat>, cursor: nat, budget: nat, accepts: nat -> bool)
    requires cursor < n
    ensures Continued(n, pending, cursor, n, budget, [], accepts) == DrainFrom(n, pending, cursor, n, budget, 0, accepts)
  {
    var published := DrainFrom(n, pending, cursor, n, budget, 0, accepts).published;
    assert [] + published == published;
  }

  // ----- the mailbox -----

  class Mailbox {
    const keyCount: nat
    const bits: array<Word>
    var cursor: nat

    ghost predicate Valid()
      reads this, bits
    {
      && 0 < keyCount < 0x1_0000
      && bits.Length == (keyCount + 31) / WORD_BITS
      && cursor < keyCount
    }

    constructor (keyCount: nat)
      requires 0 < keyCount < 0x1_0000
      ensures Valid() && this.keyCount == keyCount && cursor == 0 && Pending() == {}
      ensures fresh(bits)
    {
      this.keyCount := keyCount;
      bits := new Word[(keyCount + 31) / WORD_BITS](_ => NO_BITS);
      cursor := 0;
    }

    predicate IsPending(key: nat)
      requires Valid() && key < keyCount
      reads this, bits
    {
      bits[key / WORD_BITS][key % WORD_BITS]
    }

    ghost function Pending(): set<nat>
      requires Valid()
      reads this, bits
    {
      set key: nat | key < keyCount && IsPending(key)
    }

    /** Writes one bit; all other keys keep theirs. */
    method Put(key: nat, value: bool)
      requires Valid() && key < keyCount
      modifies bits
      ensures Valid()
      ensures Pending() == if value then old(Pending()) + {key} else old(Pending()) - {key}
    {
      var word := key / WORD_BITS;
      bits[word] := bits[word][key % WORD_BITS := value];
      forall other: nat | other < keyCount
        ensures IsPending(other) == if other == key then value else old(IsPending(other))
      {
        if other / WORD_BITS == word && other % WORD_BITS == key % WORD_BITS {
          assert other == key;
        }
      }
    }

    method Mark(key: nat) returns (ok: bool)
      requires Valid()
      modifies bits
      ensures Valid() && (ok <==> key < keyCount)
      ensures Pending() == if ok then old(Pending()) + {key} else old(Pending())
    {
      if key >= keyCount {
        return false;
      }
      Put(key, true);
      return true;
    }

    /** Takes the key under the cursor out of the mailbox, if it is pending, and moves on. */
    method Scan() returns (key: nat, wasPending: bool)
      requires Valid()
      modifies `cursor, bits
      ensures Valid() && key == old(cursor) && cursor == Next(keyCount, key)
      ensures wasPending <==> key in old(Pending())
      ensures Pending() == old(Pending()) - {key}
    {
      key := cursor;
      NextWraps(keyCount, cursor);
      cursor := (cursor + 1) % keyCount;
      wasPending := IsPending(key);
      Put(key, false);
    }

    method TryDrain(budget: U16, accepts: nat -> bool) returns (published: seq<nat>)
      requires Valid()
      modifies `cursor, bits
      ensures Valid()
      ensures Drained(Pending(), cursor, published) == DrainFrom(keyCount, old(Pending()), old(cursor), keyCount, budget, 0, accepts)
    {
      published := [];
      WholePass(keyCount, Pending(), cursor, budget, accepts);
      var left, allowance := keyCount, budget;
      while left > 0 && allowance > 0
        invariant Valid()
        invariant Continued(keyCount, Pending(), cursor, left, allowance, published, accepts) ==
                  Continued(keyCount, old(Pending()), old(cursor), keyCount, budget, [], accepts)
        decreases left
      {
        ContinuedSteps(keyCount, Pending(), cursor, left, allowance, published, accepts);
        ghost var before := Pending();
        left := left - 1;
        var key, wasPending := Scan();
        if wasPending {
          allowance := allowance - 1;
          if !accepts(|published|) {
            var _ := Mark(key);
            assert Pending() == before;
            return;
          }
          published := published + [key];
        } else {
          assert Pending() == before;
        }
      }
      ContinuedSteps(keyCount, Pending(), cursor, left, allowance, published, accepts);
    }
  }

  // ----- what a pass publishes -----

  /** How far ahead of the cursor a key is, going round. */
  function Ahead(n: nat, cursor: nat, key: nat): nat
    requires cursor < n && key < n
  {
    if key >= cursor then key - cursor else key + n - cursor
  }

  /** The pending keys among the next `left` places, in cyclic order. */
  function CyclicPending(n: nat, pending: set<nat>, cursor: nat, left: nat): seq<nat>
    requires cursor < n
    decreases left
  {
    if left == 0 then []
    else (if cursor in pending then [cursor] else []) + CyclicPending(n, pending, Next(n, cursor), left - 1)
  }

  /** `list` holds exactly the pending keys among the next `left` places, nearest first. */
  ghost predicate NearestFirst(n: nat, pending: set<nat>, cursor: nat, left: nat, list: seq<nat>)
    requires cursor < n
  {
    && (forall i | 0 <= i < |list| :: list[i] < n && list[i] in pending && Ahead(n, cursor, list[i]) < left)
    && (forall i, j | 0 <= i < j < |list| :: Ahead(n, cursor, list[i]) < Ahead(n, cursor, list[j]))
    && (forall key: nat | key in pending && key < n && Ahead(n, cursor, key) < left :: key in list)
  }

  lemma AheadShrinks(n: nat, cursor: nat)
    requires cursor < n
    ensures forall key: nat | key < n && key != cursor :: Ahead(n, cursor, key) == Ahead(n, Next(n, cursor), key) + 1
    ensures Ahead(n, cursor, cursor) == 0 && Ahead(n, Next(n, cursor), cursor) == n - 1
  {
  }

  lemma NearestFirstGrows(n: nat, pending: set<nat>, cursor: nat, left: nat, tail: seq<nat>)
    requires cursor < n && 0 < left <= n
    requires NearestFirst(n, pending, Next(n, cursor), left - 1, tail)
    ensures cursor in pending ==> NearestFirst(n, pending, cursor, left, [cursor] + tail)
    ensures cursor !in pending ==> NearestFirst(n, pending, cursor, left, tail)
  {
    AheadShrinks(n, cursor);
    forall i | 0 <= i < |tail|
      ensures tail[i] != cursor && Ahead(n, cursor, tail[i]) == Ahead(n, Next(n, cursor), tail[i]) + 1
    {
    }
    if cursor in pending {
      forall key: nat | key in pending && key < n && Ahead(n, cursor, key) < left
        ensures key in [cursor] + tail
      {
        assert key == cursor || key in tail;
      }
    }
  }

  lemma {:induction false} CyclicPendingIsOrdered(n: nat, pending: set<nat>, cursor: nat, left: nat)
    requires cursor < n && left <= n
    ensures NearestFirst(n, pending, cursor, left, CyclicPending(n, pending, cursor, left))
    decreases left
  {
    if left > 0 {
      var tail := CyclicPending(n, pending, Next(n, cursor), left - 1);
      CyclicPendingIsOrdered(n, pending, Next(n, cursor), left - 1);
      NearestFirstGrows(n, pending, cursor, left, tail);
      assert [] + tail == tail;
    }
  }

  /** Keys that are not ahead do not matter. */
  lemma {:induction false} CyclicPendingIgnores(n: nat, pending: set<nat>, other: set<nat>, cursor: nat, left: nat)
    requires cursor < n && left <= n
    requires forall key: nat | key < n && Ahead(n, cursor, key) < left :: key in pending <==> key in other
    ensures CyclicPending(n, pending, cursor, left) == CyclicPending(n, other, cursor, left)
    decreases left
  {
    if left > 0 {
      assert Ahead(n, cursor, cursor) == 0;
      forall key: nat | key < n && Ahead(n, Next(n, cursor), key) < left - 1
        ensures key in pending <==> key in other
      {
        assert Ahead(n, cursor, key) == Ahead(n, Next(n, cursor), key) + 1;
      }
      CyclicPendingIgnores(n, pending, other, Next(n, cursor), left - 1);
    }
  }

  /** How many of `available` publications happen within the budget before the first refusal. */
  function Quota(available: nat, budget: nat, call: nat, accepts: nat -> bool): (quota: nat)
    ensures quota <= available && quota <= budget
  {
    if available == 0 || budget == 0 || !accepts(call) then 0 else 1 + Quota(available - 1, budget - 1, call + 1, accepts)
  }

  ghost function Elements(s: seq<nat>): set<nat> {
    set k | k in s
  }

  lemma PublishFirst(pending: set<nat>, key: nat, tail: seq<nat>, quota: nat)
    requires quota <= |tail|
    ensures ([key] + tail)[..1 + quota] == [key] + tail[..quota]
    ensures pending - {key} - Elements(tail[..quota]) == pending - Elements([key] + tail[..quota])
  {
    assert Elements([key] + tail[..quota]) == {key} + Elements(tail[..quota]);
  }

  /** A pass publishes exactly the first keys in cyclic order that the budget and the first
      refusal allow, and keeps all others pending. */
  lemma {:induction false} DrainIsExact(n: nat, pending: set<nat>, cursor: nat, left: nat, budget: nat, call: nat, accepts: nat -> bool)
    requires cursor < n && left <= n
    ensures var r := DrainFrom(n, pending, cursor, left, budget, call, accepts);
            var list := CyclicPending(n, pending, cursor, left);
            && r.published == list[..Quota(|list|, budget, call, accepts)]
            && r.pending == pending - Elements(r.published)
    decreases left
  {
    if left == 0 || budget == 0 {
    } else if cursor !in pending {
      DrainIsExact(n, pending, Next(n, cursor), left - 1, budget, call, accepts);
    } else if accepts(call) {
      var fewer := pending - {cursor};
      assert Ahead(n, Next(n, cursor), cursor) == n - 1;
      CyclicPendingIgnores(n, pending, fewer, Next(n, cursor), left - 1);
      DrainIsExact(n, fewer, Next(n, cursor), left - 1, budget - 1, call + 1, accepts);
      var tail := CyclicPending(n, fewer, Next(n, cursor), left - 1);
      PublishFirst(pending, cursor, tail, Quota(|tail|, budget - 1, call + 1, accepts));
    }
  }

  /** A whole pass: the list it works through is every pending key, nearest first. */
  lemma WholePassIsExact(n: nat, pending: set<nat>, cursor: nat, budget: nat, accepts: nat -> bool)
    requires cursor < n && forall key | key in pending :: key < n
    ensures var list := CyclicPending(n, pending, cursor, n);
            var r := DrainFrom(n, pending, cursor, n, budget, 0, accepts);
            && Elements(list) == pending && NearestFirst(n, pending, cursor, n, list)
            && r.published == list[..Quota(|list|, budget, 0, accepts)]
            && r.pending == pending - Elements(r.published)
  {
    CyclicPendingIsOrdered(n, pending, cursor, n);
    DrainIsExact(n, pending, cursor, n, budget, 0, accepts);
    var list := CyclicPending(n, pending, cursor, n);
    forall key
      ensures key in Elements(list) <==> key in pending
    {
      if key in pending {
        assert Ahead(n, cursor, key) < n;
      }
    }
  }

  lemma {:induction false} DrainAdvances(n: nat, pending: set<nat>, cursor: nat, left: nat, budget: nat, call: nat,
                                         accepts: nat -> bool, key: nat)
    requires cursor < n && left <= n && key < n && key in pending
    requires forall c :: accepts(c)
    ensures var r := DrainFrom(n, pending, cursor, left, budget, call, accepts);
            key in r.published || (key in r.pending && Ahead(n, r.cursor, key) <= Ahead(n, cursor, key) &&
                                   (left > 0 && budget > 0 ==> Ahead(n, r.cursor, key) < Ahead(n, cursor, key)))
    decreases left
  {
    if left == 0 || budget == 0 || cursor == key {
      if left > 0 && budget > 0 {
        assert DrainFrom(n, pending, cursor, left, budget, call, accepts).published[0] == key;
      }
    } else {
      assert Ahead(n, cursor, key) == Ahead(n, Next(n, cursor), key) + 1;
      if cursor in pending {
        DrainAdvances(n, pending - {cursor}, Next(n, cursor), left - 1, budget - 1, call + 1, accepts, key);
      } else {
        DrainAdvances(n, pending, Next(n, cursor), left - 1, budget, call, accepts, key);
      }
    }
  }

  /** Fairness: without refusals, every pass publishes a pending key or brings the cursor
      strictly closer to it. */
  lemma DrainIsFair(n: nat, pending: set<nat>, cursor: nat, budget: nat, accepts: nat -> bool, key: nat)
    requires cursor < n && key < n && key in pending
    requires budget >= 1 && forall c :: accepts(c)
    ensures var r := DrainFrom(n, pending, cursor, n, budget, 0, accepts);
            key in r.published || (key in r.pending && Ahead(n, r.cursor, key) < Ahead(n, cursor, key))
  {
    DrainAdvances(n, pending, cursor, n, budget, 0, accepts, key);
  }
}
