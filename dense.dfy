/** The dense bitset of dense.go.
 *
 * A Dense set of non-negative integers is a slice of words: key k is bit
 * k % 64 of word k / 64. The slice has a length and a capacity; Reset only
 * shortens it, so the words between its length and its capacity may still
 * hold bits from before the Reset, and growing back over them must zero them.
 *
 * BitsOf and the lemmas about it say which keys a slice of words holds; the
 * class Dense is the in-place implementation, proved against it.
 */
module DenseBitset {

  import opened Words

  /** The keys held by a slice of words: k is held when bit k % 64 of word
      k / 64 is set. */
  ghost function BitsOf(ws: seq<Word>): (keys: set<nat>)
    ensures forall k :: k in keys ==> k < WordSize * |ws|
  {
    set k: nat | k < WordSize * |ws| && Bit(ws[k / WordSize], k % WordSize)
  }

  /** n zero words, as make or an explicit zeroing loop produces them. */
  function Zeros(n: nat): (ws: seq<Word>)
  {
    seq(n, _ => 0)
  }

  /** The membership test of Contains, stated on the words. */
  lemma InBitsOf(ws: seq<Word>, key: nat)
    ensures key in BitsOf(ws) <==> key / WordSize < |ws| && Bit(ws[key / WordSize], key % WordSize)
  {
  }

  /** Setting bit key % 64 of word key / 64 adds exactly key. */
  lemma SetBitAdds(ws: seq<Word>, key: nat)
    requires key / WordSize < |ws|
    ensures BitsOf(ws[key / WordSize := WithBit(ws[key / WordSize], key % WordSize)]) == BitsOf(ws) + {key}
  {
    var w := key / WordSize;
    var next := ws[w := WithBit(ws[w], key % WordSize)];
    forall k: nat
      ensures k in BitsOf(next) <==> k in BitsOf(ws) || k == key
    {
      InBitsOf(next, k);
      InBitsOf(ws, k);
    }
  }

  /** Zero words at the end hold no key. */
  lemma {:induction false} ZerosAddNothing(ws: seq<Word>, n: nat)
    ensures BitsOf(ws + Zeros(n)) == BitsOf(ws)
  {
    var ext := ws + Zeros(n);
    forall k: nat
      ensures k in BitsOf(ext) <==> k in BitsOf(ws)
    {
      InBitsOf(ext, k);
      InBitsOf(ws, k);
      if |ws| <= k / WordSize < |ext| {
        ZeroHasNoBit(k % WordSize);
      }
    }
  }

  /** The number of words Grow reserves for a key, (key + 63) / 64: the
      ceiling of key / 64, the fewest words whose bits number at least key. */
  function CeilWords(key: nat): (n: nat)
    ensures WordSize * n >= key
    ensures n == 0 || WordSize * (n - 1) < key
  {
    (key + WordSize - 1) / WordSize
  }

  /** The words CeilWords(key) reserves include key's own word exactly when
      key is not a multiple of 64. */
  lemma CeilWordsHoldsKey(key: nat)
    ensures key / WordSize < CeilWords(key) <==> key % WordSize != 0
  {
  }

  /** The number of words that hold key: key / 64 + 1. */
  function HoldWords(key: nat): (n: nat)
    ensures key < WordSize * n && WordSize * (n - 1) <= key
  {
    key / WordSize + 1
  }

  /** The dense bitset. The constructor builds the Go zero value: no words,
      no capacity, and no keys. */
  class Dense {
    /** The backing array of s.v: its length is cap(s.v). Words at index len
        and beyond may hold stale bits. */
    var v: array<Word>
    /** len(s.v). */
    var len: nat

    ghost predicate Valid()
      reads this
    {
      len <= v.Length
    }

    /** The keys in the set: the bits of the first len words. */
    ghost function Elements(): set<nat>
      reads this, v
      requires Valid()
    {
      BitsOf(v[..len])
    }

    constructor ()
      ensures Valid() && fresh(v)
      ensures Elements() == {}
      ensures len == 0 && v.Length == 0
    {
      v := new Word[0];
      len := 0;
    }

    /** Sets bit key % 64 of word key / 64, first growing the slice to
        key / 64 + 1 words when it is shorter. */
    method Add(key: nat)
      requires Valid()
      modifies this, v
      ensures Valid()
      ensures Elements() == old(Elements()) + {key}
      ensures key / WordSize < len
      ensures len == if key / WordSize < old(len) then old(len) else key / WordSize + 1
      ensures if key / WordSize >= old(len) && key / WordSize + 1 >= old(v.Length)
        then fresh(v) && v.Length == key / WordSize + 1 else v == old(v)
      ensures key in old(Elements()) ==> v == old(v) && v[..] == old(v[..])
    {
      var w := key / WordSize;
      if w >= len {
        GrowWords(w + 1);
      }
      ghost var before := v[..len];
      if key in BitsOf(before) {
        InBitsOf(before, key);
        OrPow2Present(v[w], key % WordSize);
      }
      v[w] := WithBit(v[w], key % WordSize);
      assert v[..len] == before[w := WithBit(before[w], key % WordSize)];
      SetBitAdds(before, key);
    }

    /** Membership test: false when key's word lies past the length, and
        otherwise bit key % 64 of that word. */
    function Contains(key: nat): (found: bool)
      reads this, v
      requires Valid()
      ensures found <==> key in Elements()
    {
      InBitsOf(v[..len], key);
      var w := key / WordSize;
      if w >= len then false
      else
        AndPow2(v[w], key % WordSize);
        And(v[w], BitMask(key % WordSize)) != 0
    }

    /** Empties the set by truncating the slice to length 0. The backing
        array stays for reuse, stale words and all. */
    method Reset()
      requires Valid()
      modifies this
      ensures Valid()
      ensures Elements() == {}
      ensures len == 0 && v == old(v)
    {
      // Go's Reset skips this when s.v is nil, when len(s.v) is already 0.
      len := 0;
    }

    /** Grow reserves CeilWords(key) words; see CeilWordsHoldsKey for what
        that covers. */
    method Grow(key: nat)
      requires Valid()
      modifies this, v
      ensures Valid()
      ensures Elements() == old(Elements())
      ensures len == if CeilWords(key) >= old(len) then CeilWords(key) else old(len)
      ensures if CeilWords(key) >= old(v.Length) then fresh(v) && v.Length == CeilWords(key) else v == old(v)
    {
      GrowWords(CeilWords(key));
    }

    /** Grow with the bound that covers key's own word, over the corrected
        grow: it reallocates only when the capacity is short, and afterwards
        Add(key) neither grows nor reallocates. */
    method GrowToHold(key: nat)
      requires Valid()
      modifies this, v
      ensures Valid()
      ensures Elements() == old(Elements())
      ensures key / WordSize < len
      ensures len == if HoldWords(key) >= old(len) then HoldWords(key) else old(len)
      ensures if HoldWords(key) > old(v.Length) then fresh(v) && v.Length == HoldWords(key) else v == old(v)
    {
      GrowWordsReusing(HoldWords(key));
    }

    /** grow makes the slice at least w words long without changing the set:
        it reallocates when w reaches the capacity, re-exposes and zeroes old
        capacity when w is within it, and otherwise does nothing. */
    method GrowWords(w: nat)
      requires Valid()
      modifies this, v
      ensures Valid()
      ensures len == if w >= old(len) then w else old(len)
      ensures v[..len] == old(v[..len]) + Zeros(len - old(len))
      ensures if w >= old(v.Length) then fresh(v) && v.Length == w else v == old(v)
      ensures Elements() == old(Elements())
    {
      if w >= v.Length {
        Reallocate(w);
      } else if w >= len {
        Reexpose(w);
      }
    }

    /** grow with the capacity test the comment on its first case describes:
        reallocate only when the backing array cannot hold w words. */
    method GrowWordsReusing(w: nat)
      requires Valid()
      modifies this, v
      ensures Valid()
      ensures len == if w >= old(len) then w else old(len)
      ensures v[..len] == old(v[..len]) + Zeros(len - old(len))
      ensures if w > old(v.Length) then fresh(v) && v.Length == w else v == old(v)
      ensures Elements() == old(Elements())
    {
      if w > v.Length {
        Reallocate(w);
      } else if w >= len {
        Reexpose(w);
      }
    }

    /** make([]uint, w) and copy the live words into it. */
    method Reallocate(w: nat)
      requires Valid() && len <= w
      modifies this
      ensures Valid() && fresh(v) && v.Length == w && len == w
      ensures v[..len] == old(v[..len]) + Zeros(w - old(len))
      ensures Elements() == old(Elements())
    {
      ghost var before := v[..len];
      var grown := new Word[w](_ => 0);
      forall i | 0 <= i < len {
        grown[i] := v[i];
      }
      assert grown[..w] == before + Zeros(w - len);
      v := grown;
      len := w;
      ZerosAddNothing(before, w - |before|);
    }

    /** Re-slice over old capacity and zero the words that exposes, which may
        hold bits from before a Reset. */
    method Reexpose(w: nat)
      requires Valid() && len <= w <= v.Length
      modifies this, v
      ensures Valid() && v == old(v) && len == w
      ensures v[..len] == old(v[..len]) + Zeros(w - old(len))
      ensures Elements() == old(Elements())
    {
      ghost var before := v[..len];
      var a := len;
      len := w;
      while a < w
        invariant |before| <= a <= w == len <= v.Length
        invariant v == old(v)
        invariant v[..a] == before + Zeros(a - |before|)
      {
        v[a] := 0;
        assert v[..a + 1] == v[..a] + [0];
        a := a + 1;
      }
      ZerosAddNothing(before, w - |before|);
    }
  }

  /** The documented usage example of a Dense set: the three booleans it
      prints, in order. */
  method ExampleDense() returns (printed: seq<bool>)
    ensures printed == [false, true, false]
  {
    var s := new Dense();
    var c1 := s.Contains(1);
    s.Add(1);
    var c2 := s.Contains(1);
    s.Reset();
    var c3 := s.Contains(1);
    printed := [c1, c2, c3];
  }

  /** Keys added before a Reset do not come back when Grow re-exposes the
      words that held them: after adding keys, resetting and growing to any
      bound, none of the keys is found. */
  method NoStaleKeysAfterReset(keys: seq<nat>, bound: nat) returns (stale: bool)
    ensures !stale
  {
    var s := new Dense();
    for i := 0 to |keys|
      invariant s.Valid() && fresh(s.v)
    {
      s.Add(keys[i]);
    }
    s.Reset();
    s.Grow(bound);
    stale := false;
    for i := 0 to |keys|
      invariant s.Valid() && s.Elements() == {}
      invariant !stale
    {
      if s.Contains(keys[i]) {
        stale := true;
      }
    }
  }

  /** Grow(64) reserves one word, but key 64 lives in word 1, so the Add that
      follows still reallocates. */
  method GrowThenAddReallocates()
  {
    var s := new Dense();
    s.Grow(64);
    assert s.len == 1 && 64 / WordSize == 1;
    var backing := s.v;
    s.Add(64);
    assert s.v != backing;
  }

  /** After GrowToHold(key), Add(key) keeps the backing array and the length. */
  method GrowToHoldThenAddKeepsBacking(key: nat)
  {
    var s := new Dense();
    s.GrowToHold(key);
    var backing := s.v;
    var size := s.len;
    s.Add(key);
    assert s.v == backing && s.len == size;
    assert s.Contains(key);
  }

  /** After a Reset, re-adding key 0 to a set whose capacity is one word
      reallocates: grow(1) takes its first case because 1 >= cap. */
  method ResetThenAddReallocates()
  {
    var s := new Dense();
    s.Add(0);
    s.Reset();
    var backing := s.v;
    s.Add(0);
    assert s.v != backing;
  }

  /** With the corrected grow, the same re-add reuses the backing array. */
  method ResetThenGrowReuses()
  {
    var s := new Dense();
    s.Add(0);
    s.Reset();
    var backing := s.v;
    s.GrowToHold(0);
    s.Add(0);
    assert s.v == backing && s.Contains(0);
  }
}
