/** Order-preserving filtering and stable sorting over sequences: the two
    array primitives (`Array.prototype.filter` and the stable
    `Array.prototype.sort` with a numeric comparator) every list in the
    explorer is derived with. */
module Seqs {

  // ---------------------------------------------------------------------
  // Filtering

  /** `s.filter(p)`: the elements satisfying `p`, in their original order. */
  function Keep<T>(s: seq<T>, p: T -> bool): (r: seq<T>)
    ensures |r| <= |s|
    ensures forall i :: 0 <= i < |r| ==> p(r[i])
  {
    if |s| == 0 then []
    else
      (if p(s[0]) then [s[0]] else []) + Keep(s[1..], p)
  }

  /** Filtering keeps exactly the elements satisfying `p`: each kept element
      comes from `s`, and each element of `s` satisfying `p` is kept. */
  lemma {:induction false} KeepMembers<T>(s: seq<T>, p: T -> bool)
    ensures forall i :: 0 <= i < |Keep(s, p)| ==> Keep(s, p)[i] in s
    ensures forall i :: 0 <= i < |s| && p(s[i]) ==> s[i] in Keep(s, p)
  {
    if |s| > 0 {
      KeepMembers(s[1..], p);
      var tail := Keep(s[1..], p);
      var r := Keep(s, p);
      forall i | 0 <= i < |r| ensures r[i] in s {
        if p(s[0]) && i > 0 {
          assert r[i] == tail[i - 1];
        } else if !p(s[0]) {
          assert r[i] == tail[i];
        }
      }
      forall i | 0 <= i < |s| && p(s[i]) ensures s[i] in r {
        if i > 0 {
          assert s[i] == s[1..][i - 1];
        }
      }
    }
  }

  /** `idx` lists strictly increasing positions of `b` that spell out `a`. */
  ghost predicate Embeds<T>(idx: seq<nat>, a: seq<T>, b: seq<T>) {
    && |idx| == |a|
    && (forall k :: 0 <= k < |idx| ==> idx[k] < |b| && a[k] == b[idx[k]])
    && (forall k, m :: 0 <= k < m < |idx| ==> idx[k] < idx[m])
  }

  /** `a` is an order-preserving sublist of `b`. */
  ghost predicate IsSublist<T>(a: seq<T>, b: seq<T>) {
    exists idx :: Embeds(idx, a, b)
  }

  /** Filtering keeps elements in their original relative order. */
  lemma {:induction false} KeepIsSublist<T>(s: seq<T>, p: T -> bool)
    ensures IsSublist(Keep(s, p), s)
  {
    var idx := KeepPositions(s, p);
  }

  lemma {:induction false} KeepPositions<T>(s: seq<T>, p: T -> bool) returns (idx: seq<nat>)
    ensures Embeds(idx, Keep(s, p), s)
  {
    if |s| == 0 {
      idx := [];
    } else {
      var rest := KeepPositions(s[1..], p);
      var tail := Keep(s[1..], p);
      var shifted := seq(|rest|, k requires 0 <= k < |rest| => rest[k] + 1);
      assert Embeds(shifted, tail, s) by {
        forall k | 0 <= k < |shifted| ensures shifted[k] < |s| && tail[k] == s[shifted[k]] {
          assert tail[k] == s[1..][rest[k]];
        }
      }
      if p(s[0]) {
        idx := [0] + shifted;
        assert Keep(s, p) == [s[0]] + tail;
        forall k | 0 <= k < |idx| ensures idx[k] < |s| && Keep(s, p)[k] == s[idx[k]] {
          if k > 0 {
            assert idx[k] == shifted[k - 1];
          }
        }
      } else {
        idx := shifted;
        assert Keep(s, p) == tail;
      }
    }
  }

  /** Filtering a filtered list with the same predicate changes nothing. */
  lemma {:induction false} KeepIdempotent<T>(s: seq<T>, p: T -> bool)
    ensures Keep(Keep(s, p), p) == Keep(s, p)
  {
    if |s| > 0 {
      KeepIdempotent(s[1..], p);
      var tail := Keep(s[1..], p);
      if p(s[0]) {
        var kept := Keep(s, p);
        assert kept == [s[0]] + tail;
        assert kept[0] == s[0] && kept[1..] == tail;
        assert Keep(kept, p) == [s[0]] + Keep(tail, p);
      } else {
        assert Keep(s, p) == tail;
      }
    }
  }

  /** Predicates that agree everywhere filter alike. */
  lemma {:induction false} KeepSameFilter<T>(s: seq<T>, p: T -> bool, q: T -> bool)
    requires forall x :: p(x) == q(x)
    ensures Keep(s, p) == Keep(s, q)
  {
    if |s| > 0 {
      KeepSameFilter(s[1..], p, q);
    }
  }

  /** Filtering a list extended by one element. */
  lemma KeepSnoc<T>(s: seq<T>, x: T, p: T -> bool)
    ensures Keep(s + [x], p) == Keep(s, p) + (if p(x) then [x] else [])
  {
    KeepAppend(s, [x], p);
    assert Keep([x], p) == (if p(x) then [x] else []) + Keep([x][1..], p);
  }

  /** Filtering never invents elements or duplicates. */
  lemma KeepSubMultiset<T>(s: seq<T>, p: T -> bool)
    ensures multiset(Keep(s, p)) <= multiset(s)
  {
    forall x ensures multiset(Keep(s, p))[x] <= multiset(s)[x] {
      KeepCount(s, p, x);
    }
  }

  /** A predicate every element satisfies keeps the whole list. */
  lemma {:induction false} KeepAll<T>(s: seq<T>, p: T -> bool)
    requires forall i :: 0 <= i < |s| ==> p(s[i])
    ensures Keep(s, p) == s
  {
    if |s| > 0 {
      KeepAll(s[1..], p);
    }
  }

  /** Filtering commutes with concatenation. */
  lemma {:induction false} KeepAppend<T>(a: seq<T>, b: seq<T>, p: T -> bool)
    ensures Keep(a + b, p) == Keep(a, p) + Keep(b, p)
  {
    if |a| > 0 {
      assert (a + b)[1..] == a[1..] + b;
      KeepAppend(a[1..], b, p);
    } else {
      assert a + b == b;
    }
  }

  // ---------------------------------------------------------------------
  // Reversal

  function Reverse<T>(s: seq<T>): (r: seq<T>)
    ensures |r| == |s|
    ensures forall i :: 0 <= i < |s| ==> r[i] == s[|s| - 1 - i]
  {
    if |s| == 0 then [] else Reverse(s[1..]) + [s[0]]
  }

  /** Reversal rearranges without adding or losing elements. */
  lemma {:induction false} ReversePermutation<T>(s: seq<T>)
    ensures multiset(Reverse(s)) == multiset(s)
  {
    if |s| > 0 {
      ReversePermutation(s[1..]);
      assert s == [s[0]] + s[1..];
    }
  }

  /** Reverse of `s + [x]` is `x` followed by the reverse of `s`. */
  lemma ReverseSnoc<T>(s: seq<T>, x: T)
    ensures Reverse(s + [x]) == [x] + Reverse(s)
  {
  }

  // ---------------------------------------------------------------------
  // Stable sorting by an integer key

  /** `a` goes strictly before `b` under the comparator `key(a) - key(b)`
      (ascending) or `key(b) - key(a)` (descending). */
  predicate Precedes<T>(key: T -> int, ascending: bool, a: T, b: T) {
    if ascending then key(a) < key(b) else key(a) > key(b)
  }

  ghost predicate SortedBy<T>(s: seq<T>, key: T -> int, ascending: bool) {
    forall i, j :: 0 <= i < j < |s| ==> !Precedes(key, ascending, s[j], s[i])
  }

  /** Places `x` before the first element that does not strictly precede it. */
  function Insert<T>(x: T, t: seq<T>, key: T -> int, ascending: bool): (r: seq<T>)
    ensures |r| == |t| + 1
  {
    if |t| == 0 || !Precedes(key, ascending, t[0], x) then [x] + t
    else [t[0]] + Insert(x, t[1..], key, ascending)
  }

  lemma {:induction false} InsertPermutation<T>(x: T, t: seq<T>, key: T -> int, ascending: bool)
    ensures multiset(Insert(x, t, key, ascending)) == multiset(t) + multiset{x}
  {
    if |t| > 0 && Precedes(key, ascending, t[0], x) {
      InsertPermutation(x, t[1..], key, ascending);
      assert t == [t[0]] + t[1..];
    }
  }

  lemma {:induction false} InsertSorted<T>(x: T, t: seq<T>, key: T -> int, ascending: bool)
    requires SortedBy(t, key, ascending)
    ensures SortedBy(Insert(x, t, key, ascending), key, ascending)
  {
    if |t| > 0 && Precedes(key, ascending, t[0], x) {
      InsertSorted(x, t[1..], key, ascending);
      InsertPermutation(x, t[1..], key, ascending);
      var rest := Insert(x, t[1..], key, ascending);
      forall y | y in rest ensures !Precedes(key, ascending, y, t[0]) {
        assert y in multiset(rest);
        if y != x {
          assert y in t[1..];
        }
      }
    }
  }

  /** The stable sort `s.sort((a, b) => key(a) - key(b))` (or its
      descending mirror): the result is a permutation of `s` in key order. */
  function SortBy<T>(s: seq<T>, key: T -> int, ascending: bool): (r: seq<T>)
    ensures |r| == |s|
    ensures multiset(r) == multiset(s)
    ensures SortedBy(r, key, ascending)
  {
    if |s| == 0 then []
    else
      var t := SortBy(s[1..], key, ascending);
      InsertSorted(s[0], t, key, ascending);
      InsertPermutation(s[0], t, key, ascending);
      assert s == [s[0]] + s[1..];
      Insert(s[0], t, key, ascending)
  }

  /** The elements of `s` whose key is `k`, in their order in `s`. */
  function WithKey<T>(s: seq<T>, key: T -> int, k: int): (r: seq<T>)
    ensures |r| <= |s|
    ensures forall i :: 0 <= i < |r| ==> key(r[i]) == k
  {
    if |s| == 0 then []
    else (if key(s[0]) == k then [s[0]] else []) + WithKey(s[1..], key, k)
  }

  lemma {:induction false} WithKeyInsert<T>(x: T, t: seq<T>, key: T -> int, ascending: bool, k: int)
    ensures WithKey(Insert(x, t, key, ascending), key, k)
         == (if key(x) == k then [x] else []) + WithKey(t, key, k)
  {
    if |t| > 0 && Precedes(key, ascending, t[0], x) {
      WithKeyInsert(x, t[1..], key, ascending, k);
      var r := Insert(x, t, key, ascending);
      assert r[0] == t[0] && r[1..] == Insert(x, t[1..], key, ascending);
    } else {
      var r := Insert(x, t, key, ascending);
      assert r[0] == x && r[1..] == t;
    }
  }

  /** Stability: among elements with equal keys, sorting keeps the
      original relative order. */
  lemma {:induction false} SortByStable<T>(s: seq<T>, key: T -> int, ascending: bool, k: int)
    ensures WithKey(SortBy(s, key, ascending), key, k) == WithKey(s, key, k)
  {
    if |s| > 0 {
      SortByStable(s[1..], key, ascending, k);
      WithKeyInsert(s[0], SortBy(s[1..], key, ascending), key, ascending, k);
    }
  }

  lemma {:induction false} WithKeyNonEmpty<T>(s: seq<T>, key: T -> int, i: nat)
    requires i < |s|
    ensures |WithKey(s, key, key(s[i]))| > 0
  {
    if i > 0 {
      WithKeyNonEmpty(s[1..], key, i - 1);
    }
  }

  lemma {:induction false} WithKeyMember<T>(s: seq<T>, key: T -> int, k: int)
    requires |WithKey(s, key, k)| > 0
    ensures exists i :: 0 <= i < |s| && key(s[i]) == k
  {
    if key(s[0]) != k {
      WithKeyMember(s[1..], key, k);
      var i :| 0 <= i < |s[1..]| && key(s[1..][i]) == k;
      assert key(s[i + 1]) == k;
    }
  }

  /** Dropping the head of `s` drops it from its own key group only. */
  lemma WithKeyTail<T>(s: seq<T>, key: T -> int, k: int)
    requires |s| > 0
    ensures WithKey(s[1..], key, k)
         == if key(s[0]) == k then WithKey(s, key, k)[1..] else WithKey(s, key, k)
  {
  }

  /** Two sorted sequences with the same key groups start with the same element. */
  lemma SortedSameHead<T>(a: seq<T>, b: seq<T>, key: T -> int, ascending: bool)
    requires SortedBy(a, key, ascending) && SortedBy(b, key, ascending)
    requires |a| > 0 && |b| > 0
    requires forall k :: WithKey(a, key, k) == WithKey(b, key, k)
    ensures a[0] == b[0]
  {
    var ka, kb := key(a[0]), key(b[0]);
    WithKeyNonEmpty(a, key, 0);
    WithKeyNonEmpty(b, key, 0);
    WithKeyMember(b, key, ka);
    WithKeyMember(a, key, kb);
    var i :| 0 <= i < |b| && key(b[i]) == ka;
    var j :| 0 <= j < |a| && key(a[j]) == kb;
    if i > 0 { assert !Precedes(key, ascending, b[i], b[0]); }
    if j > 0 { assert !Precedes(key, ascending, a[j], a[0]); }
    assert ka == kb;
    assert WithKey(a, key, ka)[0] == a[0];
    assert WithKey(b, key, ka)[0] == b[0];
  }

  /** A sorted sequence is determined by its groups of equal keys: two
      sequences sorted the same way, agreeing on every key group, are equal. */
  lemma {:induction false} SortedUnique<T>(a: seq<T>, b: seq<T>, key: T -> int, ascending: bool)
    requires SortedBy(a, key, ascending) && SortedBy(b, key, ascending)
    requires forall k :: WithKey(a, key, k) == WithKey(b, key, k)
    ensures a == b
    decreases |a| + |b|
  {
    if |a| == 0 || |b| == 0 {
      if |a| > 0 {
        WithKeyNonEmpty(a, key, 0);
      } else if |b| > 0 {
        WithKeyNonEmpty(b, key, 0);
      }
    } else {
      SortedSameHead(a, b, key, ascending);
      forall k ensures WithKey(a[1..], key, k) == WithKey(b[1..], key, k) {
        WithKeyTail(a, key, k);
        WithKeyTail(b, key, k);
      }
      SortedUnique(a[1..], b[1..], key, ascending);
      assert a == [a[0]] + a[1..] && b == [b[0]] + b[1..];
    }
  }

  /** Sorting one way and then the other gives the same list as sorting the
      original list the second way only: stability makes an earlier sort
      invisible except through the order of equal keys, which it keeps. */
  lemma ResortForgetsEarlierSort<T>(s: seq<T>, key: T -> int, first: bool, second: bool)
    ensures SortBy(SortBy(s, key, first), key, second) == SortBy(s, key, second)
  {
    var once := SortBy(s, key, first);
    forall k ensures WithKey(SortBy(once, key, second), key, k) == WithKey(SortBy(s, key, second), key, k) {
      SortByStable(once, key, second, k);
      SortByStable(s, key, first, k);
      SortByStable(s, key, second, k);
    }
    SortedUnique(SortBy(once, key, second), SortBy(s, key, second), key, second);
  }
  /** Sorting an already sorted list leaves it as it is. */
  lemma SortBySorted<T>(s: seq<T>, key: T -> int, ascending: bool)
    requires SortedBy(s, key, ascending)
    ensures SortBy(s, key, ascending) == s
  {
    forall k ensures WithKey(SortBy(s, key, ascending), key, k) == WithKey(s, key, k) {
      SortByStable(s, key, ascending, k);
    }
    SortedUnique(SortBy(s, key, ascending), s, key, ascending);
  }

  // ---------------------------------------------------------------------
  // Order facts that filtering and reversal preserve

  ghost predicate DistinctKeys<T>(s: seq<T>, key: T -> int) {
    forall i, j :: 0 <= i < j < |s| ==> key(s[i]) != key(s[j])
  }

  /** A sublist of a sorted list is sorted. */
  lemma KeepSorted<T>(s: seq<T>, p: T -> bool, key: T -> int, ascending: bool)
    requires SortedBy(s, key, ascending)
    ensures SortedBy(Keep(s, p), key, ascending)
  {
    var idx := KeepPositions(s, p);
    var r := Keep(s, p);
    forall i, j | 0 <= i < j < |r| ensures !Precedes(key, ascending, r[j], r[i]) {
      assert r[i] == s[idx[i]] && r[j] == s[idx[j]] && idx[i] < idx[j];
    }
  }

  /** A sublist of a list with distinct keys has distinct keys. */
  lemma KeepDistinct<T>(s: seq<T>, p: T -> bool, key: T -> int)
    requires DistinctKeys(s, key)
    ensures DistinctKeys(Keep(s, p), key)
  {
    var idx := KeepPositions(s, p);
    var r := Keep(s, p);
    forall i, j | 0 <= i < j < |r| ensures key(r[i]) != key(r[j]) {
      assert r[i] == s[idx[i]] && r[j] == s[idx[j]] && idx[i] < idx[j];
    }
  }

  /** Reversing an ascending list gives a descending one. */
  lemma ReverseSorted<T>(s: seq<T>, key: T -> int)
    requires SortedBy(s, key, true)
    ensures SortedBy(Reverse(s), key, false)
  {
  }

  lemma ReverseDistinct<T>(s: seq<T>, key: T -> int)
    requires DistinctKeys(s, key)
    ensures DistinctKeys(Reverse(s), key)
  {
  }

  lemma {:induction false} WithKeyTwo<T>(s: seq<T>, key: T -> int, i: nat, j: nat)
    requires i < j < |s| && key(s[i]) == key(s[j])
    ensures |WithKey(s, key, key(s[i]))| >= 2
  {
    if i > 0 {
      WithKeyTwo(s[1..], key, i - 1, j - 1);
    } else {
      WithKeyNonEmpty(s[1..], key, j - 1);
    }
  }

  lemma {:induction false} WithKeyTwoMembers<T>(s: seq<T>, key: T -> int, k: int)
    requires |WithKey(s, key, k)| >= 2
    ensures !DistinctKeys(s, key)
  {
    if key(s[0]) == k {
      WithKeyMember(s[1..], key, k);
      var i :| 0 <= i < |s[1..]| && key(s[1..][i]) == k;
      assert key(s[0]) == key(s[i + 1]);
    } else {
      WithKeyTwoMembers(s[1..], key, k);
      var i, j :| 0 <= i < j < |s[1..]| && key(s[1..][i]) == key(s[1..][j]);
      assert key(s[i + 1]) == key(s[j + 1]);
    }
  }

  /** Sorting neither creates nor removes duplicate keys. */
  lemma SortByDistinct<T>(s: seq<T>, key: T -> int, ascending: bool)
    requires DistinctKeys(s, key)
    ensures DistinctKeys(SortBy(s, key, ascending), key)
  {
    var r := SortBy(s, key, ascending);
    if !DistinctKeys(r, key) {
      var i, j :| 0 <= i < j < |r| && key(r[i]) == key(r[j]);
      WithKeyTwo(r, key, i, j);
      SortByStable(s, key, ascending, key(r[i]));
      WithKeyTwoMembers(s, key, key(r[i]));
    }
  }

  /** How often `x` survives filtering. */
  lemma {:induction false} KeepCount<T>(s: seq<T>, p: T -> bool, x: T)
    ensures multiset(Keep(s, p))[x] == if p(x) then multiset(s)[x] else 0
  {
    if |s| > 0 {
      var head := if p(s[0]) then [s[0]] else [];
      KeepCount(s[1..], p, x);
      assert s == [s[0]] + s[1..];
      assert multiset(Keep(s, p)) == multiset(head) + multiset(Keep(s[1..], p));
      assert multiset(s) == multiset([s[0]]) + multiset(s[1..]);
    }
  }

  /** Filtering two permutations of each other gives permutations of each other. */
  lemma KeepPermutation<T>(a: seq<T>, b: seq<T>, p: T -> bool)
    requires multiset(a) == multiset(b)
    ensures multiset(Keep(a, p)) == multiset(Keep(b, p))
  {
    var ka, kb := multiset(Keep(a, p)), multiset(Keep(b, p));
    forall x ensures ka[x] == kb[x] {
      KeepCount(a, p, x);
      KeepCount(b, p, x);
    }
    KeepSubMultiset(a, p);
    KeepSubMultiset(b, p);
  }
}
