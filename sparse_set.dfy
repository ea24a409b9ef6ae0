/** The filter-bucketed sparse set of contains.go.
 *
 * A set is a list of buckets. Each bucket has a one-word filter (the OR of the
 * scrambled forms of the keys it holds) and a list of keys. A lookup only scans
 * the lists of buckets whose filter is a bit-superset of the scrambled key.
 *
 * The value-level part (Buckets, FirstCover, Insert and the lemmas) states what
 * the set means; the class Set is the in-place implementation, proved against it.
 * Machine words are fixed at 64 bits.
 */
module SparseSet {

  import opened Words

  /** minDiff: a key joins the last bucket only if it adds at least this many bits. */
  const MinDiff: nat := 2

  /** Knuth's MMIX linear congruential generator, used by filter on 64-bit words. */
  const Multiplier: nat := 6364136223846793005
  const Increment: nat := 1442695040888963407

  /** The scrambled form of a key: the LCG step with uintptr wrap-around. The
      step can be run backwards, so no two keys share a scrambled form. */
  function Filter(key: Word): (r: Word)
    ensures Unfilter(r) == key
  {
    UnfilterUndoesStep(key);
    (Multiplier * key + Increment) % WordModulus
  }

  /** The inverse of Multiplier modulo 2^64 (Multiplier is odd, so it has one). */
  const InverseMultiplier: nat := 13877824140714322085

  /** The key whose scrambled form is r: the LCG step run backwards. */
  function Unfilter(r: Word): (key: Word)
  {
    ((r + WordModulus - Increment) * InverseMultiplier) % WordModulus
  }

  /** Unfilter undoes the LCG step. */
  lemma UnfilterUndoesStep(key: Word)
    ensures Unfilter((Multiplier * key + Increment) % WordModulus) == key
  {
    var a := Multiplier * key + Increment;
    var q := a / WordModulus;
    var t := a % WordModulus + WordModulus - Increment;
    assert a == q * WordModulus + a % WordModulus;
    assert t == Multiplier * key + (1 - q) * WordModulus;
    var c := 4787856489426250814 * key + (1 - q) * InverseMultiplier;
    assert t * InverseMultiplier == key + c * WordModulus by {
      assert Multiplier * InverseMultiplier == 1 + 4787856489426250814 * WordModulus;
      calc {
        t * InverseMultiplier;
        (Multiplier * InverseMultiplier) * key + (1 - q) * InverseMultiplier * WordModulus;
        key + c * WordModulus;
      }
    }
    ModUnique(t * InverseMultiplier, c, key, WordModulus);
  }

  /** Filter undoes Unfilter: every word is the scrambled form of some key. */
  lemma FilterUnfilter(r: Word)
    ensures Filter(Unfilter(r)) == r
  {
    var t := r + WordModulus - Increment;
    var p := t * InverseMultiplier;
    var q := p / WordModulus;
    var u := p % WordModulus;
    assert p == q * WordModulus + u;
    var c := 1 + 4787856489426250814 * t - Multiplier * q;
    assert Multiplier * u + Increment == r + c * WordModulus by {
      assert Multiplier * InverseMultiplier == 1 + 4787856489426250814 * WordModulus;
      calc {
        Multiplier * u + Increment;
        Multiplier * (p - q * WordModulus) + Increment;
        (Multiplier * InverseMultiplier) * t - Multiplier * q * WordModulus + Increment;
        r + c * WordModulus;
      }
    }
    ModUnique(Multiplier * u + Increment, c, r, WordModulus);
  }

  /** Distinct keys have distinct scrambled forms. */
  lemma FilterInjective(a: Word, b: Word)
    requires Filter(a) == Filter(b)
    ensures a == b
  {
    assert Unfilter(Filter(a)) == a && Unfilter(Filter(b)) == b;
  }

  /** Filter f is a bit-superset of r (Go's `f&r == r`). A covered
      word is never larger than the filter covering it. */
  predicate Covers(f: Word, r: Word)
    ensures Covers(f, r) ==> r <= f
  {
    And(f, r) == r
  }

  /** The filter of the last bucket after it absorbs r (`s.filters[k] |= r`). */
  function Widen(f: Word, r: Word): (g: Word)
    ensures Covers(g, f) && Covers(g, r)
  {
    OrWord(f, r);
    AndOrAbsorbLeft(f, r);
    AndOrAbsorbRight(f, r);
    Or(f, r)
  }

  /** Widening keeps everything the filter covered. */
  lemma CoversWiden(f: Word, r: Word, y: Word)
    requires Covers(f, y)
    ensures Covers(Widen(f, r), y)
  {
    AndOrWiden(f, r, y);
  }

  lemma CoversSelf(f: Word)
    ensures Covers(f, f)
  {
    AndSelf(f);
  }

  /** Whether the key joins the last bucket: its scrambled form adds at least
      MinDiff bits to the last filter. */
  predicate JoinsLast(f: Word, r: Word)
    ensures JoinsLast(f, r) ==> AndNot(r, f) != 0
  {
    OnesCount(AndNot(r, f)) >= MinDiff
  }

  /** When Add widens the last filter, the filter strictly grows. */
  lemma WideningAddsBits(f: Word, r: Word)
    requires JoinsLast(f, r)
    ensures Widen(f, r) != f
  {
    if Or(f, r) == f {
      OrUnchangedClearsAndNot(f, r);
    }
  }

  /** The live part of a set: parallel filters and key lists. */
  datatype Buckets = Buckets(filters: seq<Word>, lists: seq<seq<Word>>)

  /** The index of the first bucket whose filter covers r, or -1 if none does.
      This is where both scanning loops of Add and Contains first stop. */
  function FirstCover(filters: seq<Word>, r: Word): (k: int)
    ensures -1 <= k < |filters|
    ensures k >= 0 ==> Covers(filters[k], r) && forall i :: 0 <= i < k ==> !Covers(filters[i], r)
    ensures k < 0 ==> forall i :: 0 <= i < |filters| ==> !Covers(filters[i], r)
  {
    if |filters| == 0 then -1
    else if Covers(filters[0], r) then 0
    else
      var k := FirstCover(filters[1..], r);
      if k < 0 then -1 else k + 1
  }

  /** FirstCover is determined by its contract: any first covering index is it. */
  lemma FirstCoverIs(filters: seq<Word>, r: Word, j: int)
    requires 0 <= j < |filters| && Covers(filters[j], r)
    requires forall i :: 0 <= i < j ==> !Covers(filters[i], r)
    ensures FirstCover(filters, r) == j
  {
  }

  predicate NoDuplicates(s: seq<Word>)
  {
    forall p, q :: 0 <= p < q < |s| ==> s[p] != s[q]
  }

  /** Widening keeps every scrambled form of ys that the filter covered. */
  lemma CoversWidenAll(f: Word, r: Word, ys: seq<Word>)
    requires forall y :: y in ys ==> Covers(f, Filter(y))
    ensures forall y :: y in ys ==> Covers(Widen(f, r), Filter(y))
  {
    forall y | y in ys
      ensures Covers(Widen(f, r), Filter(y))
    {
      CoversWiden(f, r, Filter(y));
    }
  }

  /** The filter Add builds for a list of keys: the first key's scrambled form,
      widened by each later key's, that is, the OR of them all. */
  function OrAll(keys: seq<Word>): (f: Word)
  {
    if |keys| == 0 then 0
    else Widen(OrAll(keys[..|keys| - 1]), Filter(keys[|keys| - 1]))
  }

  /** The OR of a list's keys covers the scrambled form of every one of them. */
  lemma {:induction false} OrAllCovers(keys: seq<Word>)
    ensures forall x :: x in keys ==> Covers(OrAll(keys), Filter(x))
  {
    if |keys| > 0 {
      var init := keys[..|keys| - 1];
      OrAllCovers(init);
      CoversWidenAll(OrAll(init), Filter(keys[|keys| - 1]), init);
      assert keys == init + [keys[|keys| - 1]];
    }
  }

  /** A bit of the OR is a bit of some key's scrambled form, and conversely, so
      a filter holds no bit that none of its keys put there. */
  lemma {:induction false} OrAllBit(keys: seq<Word>, i: nat)
    ensures Bit(OrAll(keys), i) <==> exists x :: x in keys && Bit(Filter(x), i)
  {
    if |keys| == 0 {
      ZeroHasNoBit(i);
    } else {
      var init := keys[..|keys| - 1];
      var last := keys[|keys| - 1];
      OrAllBit(init, i);
      OrBit(OrAll(init), Filter(last), i);
      assert keys == init + [last];
    }
  }

  /** Each bucket's filter is exactly the OR of the scrambled forms of the keys
      in its list, no more. */
  ghost predicate ExactFilters(b: Buckets)
  {
    |b.lists| == |b.filters|
    && forall j {:trigger OrAll(b.lists[j])} :: 0 <= j < |b.filters| ==> b.filters[j] == OrAll(b.lists[j])
  }

  /** The invariant of a set: filters and lists are parallel, every stored key
      lives in the first bucket whose filter covers its scrambled form, and no
      list holds a key twice. */
  ghost predicate WellFormed(b: Buckets)
  {
    |b.lists| == |b.filters|
    && (forall j, x :: 0 <= j < |b.lists| && x in b.lists[j] ==> FirstCover(b.filters, Filter(x)) == j)
    && (forall j :: 0 <= j < |b.lists| ==> NoDuplicates(b.lists[j]))
  }

  /** Every stored key is covered by its own bucket's filter, so the scans of
      Add and Contains look in that bucket. */
  lemma StoredIsCovered(b: Buckets, j: int, x: Word)
    requires WellFormed(b) && 0 <= j < |b.lists| && x in b.lists[j]
    ensures Covers(b.filters[j], Filter(x))
  {
    assert FirstCover(b.filters, Filter(x)) == j;
  }

  /** The abstract set: every key stored in some list. */
  ghost function Members(b: Buckets): (keys: set<Word>)
  {
    set j, x | 0 <= j < |b.lists| && x in b.lists[j] :: x
  }

  /** What Contains looks for: a bucket whose filter covers the key and whose
      list holds it. */
  ghost predicate Found(b: Buckets, key: Word)
    requires |b.lists| == |b.filters|
  {
    exists j :: 0 <= j < |b.lists| && Covers(b.filters[j], Filter(key)) && key in b.lists[j]
  }

  /** Whether Add inserted the key, and the buckets after it. */
  datatype Outcome = Outcome(added: bool, next: Buckets)

  /** Add on the live buckets: look in the first covering bucket; else widen the
      last filter if the key adds at least MinDiff bits to it; else open a new
      bucket. Filters below the last one are never changed, and the last one
      only gains bits. */
  function Insert(b: Buckets, key: Word): (o: Outcome)
    requires |b.lists| == |b.filters|
    ensures |o.next.lists| == |o.next.filters|
    ensures |b.filters| <= |o.next.filters| <= |b.filters| + 1
    ensures forall i :: 0 <= i < |b.filters| - 1 ==> o.next.filters[i] == b.filters[i]
    ensures forall i :: 0 <= i < |b.lists| ==> b.lists[i] <= o.next.lists[i]
  {
    var r := Filter(key);
    var k := FirstCover(b.filters, r);
    if k >= 0 then
      if key in b.lists[k] then Outcome(false, b)
      else Outcome(true, Buckets(b.filters, b.lists[k := b.lists[k] + [key]]))
    else if |b.filters| > 0 && JoinsLast(b.filters[|b.filters| - 1], r) then
      var last := |b.filters| - 1;
      Outcome(true, Buckets(b.filters[last := Widen(b.filters[last], r)], b.lists[last := b.lists[last] + [key]]))
    else
      Outcome(true, Buckets(b.filters + [r], b.lists + [[key]]))
  }

  /** The last filter only gains bits: whatever it covered before Add, it
      covers after. */
  lemma InsertWidensOnlyLast(b: Buckets, key: Word)
    requires |b.lists| == |b.filters| > 0
    ensures Covers(Insert(b, key).next.filters[|b.filters| - 1], b.filters[|b.filters| - 1])
  {
    var last := |b.filters| - 1;
    var r := Filter(key);
    if FirstCover(b.filters, r) < 0 && JoinsLast(b.filters[last], r) {
    } else {
      CoversSelf(b.filters[last]);
    }
  }

  /** Every insertion path of Add keeps the invariant. The crux is that only the
      last filter ever widens, so no earlier bucket starts to cover a key that
      is already stored further on. */
  lemma InsertKeepsWellFormed(b: Buckets, key: Word)
    requires WellFormed(b)
    ensures WellFormed(Insert(b, key).next)
  {
    var r := Filter(key);
    var k := FirstCover(b.filters, r);
    var n := Insert(b, key).next;
    if k >= 0 {
      if key !in b.lists[k] {
        forall j, x | 0 <= j < |n.lists| && x in n.lists[j]
          ensures FirstCover(n.filters, Filter(x)) == j
        {
          if j != k || x != key {
            assert x in b.lists[j];
          }
        }
        assert NoDuplicates(n.lists[k]) by {
          assert n.lists[k] == b.lists[k] + [key];
        }
      }
    } else if |b.filters| > 0 && JoinsLast(b.filters[|b.filters| - 1], r) {
      var last := |b.filters| - 1;
      forall j, x | 0 <= j < |n.lists| && x in n.lists[j]
        ensures FirstCover(n.filters, Filter(x)) == j
      {
        if j == last && x == key {
          FirstCoverIs(n.filters, r, last);
        } else {
          assert x in b.lists[j];
          var y := Filter(x);
          CoversWiden(b.filters[j], r, y);
          FirstCoverIs(n.filters, y, j);
        }
      }
      assert NoDuplicates(n.lists[last]) by {
        assert n.lists[last] == b.lists[last] + [key];
      }
    } else {
      forall j, x | 0 <= j < |n.lists| && x in n.lists[j]
        ensures FirstCover(n.filters, Filter(x)) == j
      {
        if j == |b.filters| {
          assert x == key;
          CoversSelf(r);
          FirstCoverIs(n.filters, r, j);
        } else {
          assert x in b.lists[j];
          FirstCoverIs(n.filters, Filter(x), j);
        }
      }
    }
  }

  /** Add returns false exactly when the key is already present, and then changes
      nothing; otherwise it returns true and the set grows by exactly the key. */
  lemma InsertReportsPresence(b: Buckets, key: Word)
    requires WellFormed(b)
    ensures Insert(b, key).added <==> key !in Members(b)
    ensures Members(Insert(b, key).next) == Members(b) + {key}
    ensures !Insert(b, key).added ==> Insert(b, key).next == b
  {
    var r := Filter(key);
    var k := FirstCover(b.filters, r);
    var o := Insert(b, key);
    if key in Members(b) {
      var j :| 0 <= j < |b.lists| && key in b.lists[j];
      assert k == j;
    }
    if k >= 0 && key !in b.lists[k] {
      assert key in o.next.lists[k];
    } else if k < 0 && |b.filters| > 0 && JoinsLast(b.filters[|b.filters| - 1], r) {
      assert key in o.next.lists[|b.filters| - 1];
    } else if k < 0 {
      assert key in o.next.lists[|b.filters|];
    }
    forall x | x in Members(o.next) ensures x in Members(b) + {key} {
      var j :| 0 <= j < |o.next.lists| && x in o.next.lists[j];
      if x != key {
        assert x in b.lists[j];
      }
    }
    forall x | x in Members(b) ensures x in Members(o.next) {
      var j :| 0 <= j < |b.lists| && x in b.lists[j];
      assert x in o.next.lists[j];
    }
  }

  /** Every insertion path keeps each filter the OR of its bucket's keys: a new
      bucket starts at r, the last filter ORs r in as its list gains the key,
      and a key that joins a covering bucket adds no bit to it. */
  lemma InsertKeepsFiltersExact(b: Buckets, key: Word)
    requires ExactFilters(b)
    ensures ExactFilters(Insert(b, key).next)
  {
    var r := Filter(key);
    var k := FirstCover(b.filters, r);
    if k >= 0 {
      if key !in b.lists[k] {
        assert (b.lists[k] + [key])[..|b.lists[k]|] == b.lists[k];
        CoveredOrSame(b.filters[k], r);
      }
    } else if |b.filters| > 0 && JoinsLast(b.filters[|b.filters| - 1], r) {
      var last := |b.filters| - 1;
      assert (b.lists[last] + [key])[..|b.lists[last]|] == b.lists[last];
    } else {
      assert [key][..0] == [];
    }
  }

  /** No key is stored twice: not in two buckets, not twice in one list. */
  lemma StoredOnce(b: Buckets, i: int, p: int, j: int, q: int)
    requires WellFormed(b)
    requires 0 <= i < |b.lists| && 0 <= p < |b.lists[i]|
    requires 0 <= j < |b.lists| && 0 <= q < |b.lists[j]|
    requires b.lists[i][p] == b.lists[j][q]
    ensures i == j && p == q
  {
    var x := b.lists[i][p];
    assert x in b.lists[i] && x in b.lists[j];
    assert i == FirstCover(b.filters, Filter(x)) == j;
    assert NoDuplicates(b.lists[i]);
  }

  /** Scanning every covering bucket finds exactly the members, because every
      stored key is covered by its own bucket's filter. */
  lemma FoundIffMember(b: Buckets, key: Word)
    requires WellFormed(b)
    ensures Found(b, key) <==> key in Members(b)
  {
    if key in Members(b) {
      var j :| 0 <= j < |b.lists| && key in b.lists[j];
      assert FirstCover(b.filters, Filter(key)) == j;
    }
  }

  /** The buckets of an empty set (the zero value, or just after Reset). */
  lemma EmptyIsWellFormed()
    ensures WellFormed(Buckets([], [])) && Members(Buckets([], [])) == {}
  {
  }

  /** The capacity Go's append gives s.keys when it is full. The runtime's exact
      growth factor is not part of the package; doubling stands for it. */
  function GrownCapacity(capacity: nat): (c: nat)
    ensures c > capacity
  {
    if capacity == 0 then 1 else 2 * capacity
  }

  /** The sparse set: parallel filters and key lists. The constructor builds
      the Go zero value, which needs no further setup. */
  class Set {
    /** s.filters: one filter per live bucket. */
    var filters: seq<Word>
    /** The backing array of s.keys: its length is cap(s.keys). The capacity of
        each key list is not modelled. */
    var lists: array<seq<Word>>
    /** len(s.keys). */
    var used: nat
    /** The keys added since the last Reset. */
    ghost var Contents: set<Word>

    /** The live buckets: filters and the key lists beside them. */
    ghost function Live(): Buckets
      reads this, lists
      requires |filters| <= lists.Length
    {
      Buckets(filters, lists[..|filters|])
    }

    /** len(keys) >= len(filters), with equality once anything has been added
        since the last Reset; every list past the live ones is empty, so a slot
        that Add re-exposes starts empty; the live buckets keep the invariant,
        each filter is the OR of its bucket's keys, and they hold exactly
        Contents. */
    ghost predicate Valid()
      reads this, lists
    {
      |filters| <= used <= lists.Length
      && (|filters| > 0 ==> used == |filters|)
      && (forall j :: |filters| <= j < lists.Length ==> lists[j] == [])
      && WellFormed(Live())
      && ExactFilters(Live())
      && Contents == Members(Live())
    }

    constructor ()
      ensures Valid() && fresh(lists)
      ensures Contents == {}
      ensures filters == [] && used == 0 && lists.Length == 0
    {
      filters := [];
      lists := new seq<Word>[0];
      used := 0;
      Contents := {};
      EmptyIsWellFormed();
    }

    /** Inserts key as Insert does on the live buckets. The result is true
        exactly when the key was not yet a member. The backing array of keys
        is replaced, by one of GrownCapacity slots, exactly when a new bucket
        is needed and every slot is live; otherwise it is kept. */
    method Add(key: Word) returns (added: bool)
      requires Valid()
      modifies this, lists
      ensures Valid()
      ensures Outcome(added, Live()) == Insert(old(Live()), key)
      ensures added <==> key !in old(Contents)
      ensures Contents == old(Contents) + {key}
      ensures used == |filters|
      ensures !added ==> filters == old(filters) && used == old(used) && lists == old(lists) && lists[..] == old(lists[..])
      ensures old(|filters|) < old(lists.Length) ==> lists == old(lists)
      ensures lists == old(lists) || (fresh(lists) && lists.Length > old(lists.Length))
      ensures if |filters| > old(|filters|) && old(|filters|) == old(lists.Length)
              then fresh(lists) && lists.Length == GrownCapacity(old(lists.Length))
              else lists == old(lists)
    {
      ghost var b := Live();
      var r := Filter(key);
      var k := 0;
      while k < |filters|
        invariant 0 <= k <= |filters|
        invariant forall i :: 0 <= i < k ==> !Covers(filters[i], r)
      {
        if And(filters[k], r) == r {
          FirstCoverIs(filters, r, k);
          var list := lists[k];
          var j := 0;
          while j < |list|
            invariant 0 <= j <= |list|
            invariant key !in list[..j]
          {
            if list[j] == key {
              assert key in b.lists[k];
              InsertReportsPresence(b, key);
              return false;
            }
            j := j + 1;
          }
          assert list[..j] == list;
          lists[k] := list + [key];
          Contents := Contents + {key};
          assert Live().lists == b.lists[k := b.lists[k] + [key]];
          InsertKeepsWellFormed(b, key);
          InsertKeepsFiltersExact(b, key);
          InsertReportsPresence(b, key);
          return true;
        }
        k := k + 1;
      }
      // No filter covers r.
      assert FirstCover(filters, r) < 0;
      var last := |filters| - 1;
      if last >= 0 && OnesCount(AndNot(r, filters[last])) >= MinDiff {
        WidenLast(key, r);
      } else {
        OpenBucket(key, r);
      }
      added := true;
      InsertReportsPresence(b, key);
    }

    /** Add's second insertion path: no filter covers r, and r adds at least
        MinDiff bits to the last filter, so that filter absorbs r and the key
        joins the last list. */
    method WidenLast(key: Word, r: Word)
      requires Valid()
      requires r == Filter(key) && FirstCover(filters, r) < 0
      requires |filters| > 0 && JoinsLast(filters[|filters| - 1], r)
      modifies this, lists
      ensures Valid()
      ensures Outcome(true, Live()) == Insert(old(Live()), key)
      ensures Contents == old(Contents) + {key}
      ensures used == |filters| == old(|filters|) && lists == old(lists)
    {
      ghost var b := Live();
      var last := |filters| - 1;
      filters := filters[last := Widen(filters[last], r)];
      lists[last] := lists[last] + [key];
      assert Live().lists == b.lists[last := b.lists[last] + [key]];
      Contents := Contents + {key};
      InsertKeepsWellFormed(b, key);
      InsertKeepsFiltersExact(b, key);
      InsertReportsPresence(b, key);
    }

    /** Add's third insertion path: a new bucket with filter r and list [key].
        When len(filters) < cap(keys), keys is re-sliced over the next slot,
        left either by Reset or by an earlier append's growth; otherwise keys
        is full and the append reallocates. */
    method OpenBucket(key: Word, r: Word)
      requires Valid()
      requires r == Filter(key) && FirstCover(filters, r) < 0
      requires !(|filters| > 0 && JoinsLast(filters[|filters| - 1], r))
      modifies this, lists
      ensures Valid()
      ensures Outcome(true, Live()) == Insert(old(Live()), key)
      ensures Contents == old(Contents) + {key}
      ensures used == |filters| == old(|filters|) + 1
      ensures if old(|filters|) < old(lists.Length) then lists == old(lists)
              else fresh(lists) && lists.Length == GrownCapacity(old(lists.Length))
    {
      Reserve();
      ghost var b := Live();
      var last := |filters| - 1;
      assert lists[last + 1] == [];
      ghost var before := lists[..];
      assert before[..last + 1] == b.lists;
      assert before[last + 1] == [];
      filters := filters + [r];
      used := last + 2;
      lists[last + 1] := lists[last + 1] + [key];
      assert lists[last + 1] == [key];
      assert lists[..] == before[last + 1 := [key]];
      assert lists[..last + 2] == b.lists + [[key]];
      Contents := Contents + {key};
      InsertKeepsWellFormed(b, key);
      InsertKeepsFiltersExact(b, key);
      InsertReportsPresence(b, key);
    }

    /** Makes sure the backing array has a slot past the live buckets: the
        append in Add either re-slices over spare capacity, which Reset or an
        earlier append's growth left, or, when keys is full, moves everything
        to a larger array. */
    method Reserve()
      requires Valid()
      modifies this
      ensures Valid() && Live() == old(Live()) && Contents == old(Contents)
      ensures filters == old(filters) && used == old(used)
      ensures |filters| < lists.Length
      ensures if old(|filters|) < old(lists.Length) then lists == old(lists)
              else fresh(lists) && lists.Length == GrownCapacity(old(lists.Length))
    {
      if |filters| >= lists.Length {
        ghost var b := Live();
        lists := Reallocate(lists);
        assert lists[..|filters|] == b.lists;
      }
    }

    /** A fresh backing array of GrownCapacity(a.Length) lists: a copy of a
        followed by empty lists. */
    static method Reallocate(a: array<seq<Word>>) returns (g: array<seq<Word>>)
      ensures fresh(g) && g.Length == GrownCapacity(a.Length)
      ensures g[..a.Length] == a[..]
      ensures forall j :: a.Length <= j < g.Length ==> g[j] == []
    {
      g := new seq<Word>[GrownCapacity(a.Length)](_ => []);
      forall i | 0 <= i < a.Length {
        g[i] := a[i];
      }
    }

    /** Membership test: scans every bucket whose filter covers the scrambled
        key, not only the first, and changes nothing. */
    method Contains(key: Word) returns (found: bool)
      requires Valid()
      ensures found == Found(Live(), key)
      ensures found <==> key in Contents
    {
      FoundIffMember(Live(), key);
      var r := Filter(key);
      var k := 0;
      while k < |filters|
        invariant 0 <= k <= |filters|
        invariant forall i :: 0 <= i < k ==> !(Covers(filters[i], r) && key in lists[i])
      {
        if And(filters[k], r) == r {
          var list := lists[k];
          var j := 0;
          while j < |list|
            invariant 0 <= j <= |list|
            invariant key !in list[..j]
          {
            if list[j] == key {
              assert Live().lists[k] == list;
              return true;
            }
            j := j + 1;
          }
          assert list[..j] == list;
        }
        k := k + 1;
      }
      found := false;
    }

    /** Empties the set: filters and every key list are truncated in place,
        and the backing array stays for the next round of Adds. */
    method Reset()
      requires Valid()
      modifies this, lists
      ensures Valid()
      ensures Contents == {}
      ensures filters == [] && used == old(used) && lists == old(lists)
      ensures forall j :: 0 <= j < lists.Length ==> lists[j] == []
    {
      // Go's Reset skips this when s.filters is nil, that is, when nothing was
      // ever added; then len(s.keys) is 0 and the loop below does nothing.
      filters := [];
      var k := 0;
      while k < used
        invariant 0 <= k <= used <= lists.Length
        invariant lists == old(lists) && used == old(used) && filters == []
        invariant forall j :: 0 <= j < k ==> lists[j] == []
        invariant forall j :: used <= j < lists.Length ==> lists[j] == []
      {
        lists[k] := [];
        k := k + 1;
      }
      Contents := {};
      EmptyIsWellFormed();
      assert Live() == Buckets([], []);
    }
  }

  /** The documented usage example of a Set: the five booleans it prints, in
      order, and whether the Add after Reset reused the backing array. */
  method ExampleSet() returns (printed: seq<bool>, reused: bool)
    ensures printed == [false, true, true, false, true]
    ensures reused
  {
    var s := new Set();
    var c1 := s.Contains(1);
    var a1 := s.Add(1);
    var c2 := s.Contains(1);
    var a2 := s.Add(1);
    s.Reset();
    var backing := s.lists;
    var a3 := s.Add(1);
    reused := s.lists == backing;
    printed := [c1, a1, c2, a2, a3];
  }

  /** Adding distinct keys, resetting, then adding them again: every re-add
      reports a new key. */
  method ReaddAfterReset(keys: seq<Word>) returns (allAdded: bool)
    requires NoDuplicates(keys)
    ensures allAdded
  {
    var s := new Set();
    for i := 0 to |keys|
      invariant s.Valid() && fresh(s.lists)
    {
      var _ := s.Add(keys[i]);
    }
    s.Reset();
    allAdded := true;
    for i := 0 to |keys|
      invariant s.Valid() && fresh(s.lists)
      invariant s.Contents == set x | x in keys[..i]
      invariant allAdded
    {
      var a := s.Add(keys[i]);
      assert keys[i] !in keys[..i];
      allAdded := allAdded && a;
      assert keys[..i + 1] == keys[..i] + [keys[i]];
    }
  }
}
