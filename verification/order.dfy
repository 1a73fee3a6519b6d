/**
 * The priority order of the layout pass (docs/poi.js:145-149, poi.js:111-115): entries are
 * sorted by `priority | 0`, ties broken by comparing ids as strings.
 *
 * Array.prototype.sort leaves the algorithm to the engine. The model sorts the entry
 * indices by insertion, which is stable; SortedPermutationUnique shows that when no two
 * entries share both `priority | 0` and id, every sorted permutation is this one, so the
 * choice of algorithm does not matter.
 */
module Order {

  // ---- `x | 0` on a finite number ----

  /** Truncation towards zero. */
  function Truncate(x: real): (t: int)
    ensures x >= 0.0 ==> t as real <= x < t as real + 1.0
    ensures x < 0.0 ==> t as real - 1.0 < x <= t as real
  {
    if x >= 0.0 then x.Floor else -((-x).Floor)
  }

  const TWO_32: int := 0x1_0000_0000
  const TWO_31: int := 0x8000_0000

  /** ToInt32: truncate, reduce modulo 2^32, and read the result as a signed 32-bit integer. */
  function ToInt32(x: real): (r: int)
    ensures -TWO_31 <= r < TWO_31
    ensures (r - Truncate(x)) % TWO_32 == 0
  {
    var m := Truncate(x) % TWO_32;
    if m >= TWO_31 then m - TWO_32 else m
  }

  /** Priorities that are whole numbers within the 32-bit range are left unchanged by `| 0`. */
  lemma ToInt32InRange(x: real)
    requires x == x.Floor as real && -TWO_31 as real <= x < TWO_31 as real
    ensures ToInt32(x) == x.Floor
  {
  }

  // ---- string comparison ----

  /** JavaScript's `a < b` on strings: lexicographic by character, a proper prefix first. */
  predicate IdLess(a: string, b: string) {
    if |a| == 0 then |b| > 0
    else if |b| == 0 then false
    else if a[0] != b[0] then a[0] < b[0]
    else IdLess(a[1..], b[1..])
  }

  lemma {:induction false} IdLessIrreflexive(a: string)
    ensures !IdLess(a, a)
  {
    if |a| > 0 {
      IdLessIrreflexive(a[1..]);
    }
  }

  lemma {:induction false} IdLessTransitive(a: string, b: string, c: string)
    requires IdLess(a, b) && IdLess(b, c)
    ensures IdLess(a, c)
  {
    if |a| > 0 && |b| > 0 && |c| > 0 && a[0] == b[0] && b[0] == c[0] {
      IdLessTransitive(a[1..], b[1..], c[1..]);
    }
  }

  /** Distinct strings are always ordered one way or the other. */
  lemma {:induction false} IdLessTotal(a: string, b: string)
    requires a != b
    ensures IdLess(a, b) || IdLess(b, a)
  {
    if |a| > 0 && |b| > 0 && a[0] == b[0] {
      assert a == [a[0]] + a[1..] && b == [b[0]] + b[1..];
      IdLessTotal(a[1..], b[1..]);
    }
  }

  lemma {:induction false} IdLessAsymmetric(a: string, b: string)
    requires IdLess(a, b)
    ensures !IdLess(b, a)
  {
    if IdLess(b, a) {
      IdLessTransitive(a, b, a);
      IdLessIrreflexive(a);
    }
  }

  // ---- the comparator ----

  /** What the comparator reads of an entry. */
  datatype Key = Key(priority: real, id: string)

  function Rank(k: Key): int {
    ToInt32(k.priority)
  }

  /** The comparator of the sort call. */
  function Compare(a: Key, b: Key): (c: int)
    ensures c != 0
  {
    var d := Rank(a) - Rank(b);
    if d != 0 then d else if IdLess(b.id, a.id) then 1 else -1
  }

  /** a strictly precedes b: smaller `priority | 0`, or the same and a smaller id. */
  predicate KeyLess(a: Key, b: Key) {
    Rank(a) < Rank(b) || (Rank(a) == Rank(b) && IdLess(a.id, b.id))
  }

  /** a may come before b in a sorted order. */
  predicate KeyLe(a: Key, b: Key) {
    !KeyLess(b, a)
  }

  /**
   * The comparator answers "a first" exactly when a precedes b, or when the two share
   * `priority | 0` and id; on such a pair it answers -1 both ways, so it is not a
   * consistent comparator there and the engine may order them either way.
   */
  lemma CompareMeaning(a: Key, b: Key)
    ensures Compare(a, b) < 0 <==> KeyLess(a, b) || (Rank(a) == Rank(b) && a.id == b.id)
    ensures Rank(a) == Rank(b) && a.id == b.id ==> Compare(a, b) < 0 && Compare(b, a) < 0
  {
    if Rank(a) == Rank(b) {
      if a.id == b.id {
        IdLessIrreflexive(a.id);
      } else {
        IdLessTotal(a.id, b.id);
        if IdLess(a.id, b.id) {
          IdLessAsymmetric(a.id, b.id);
        }
      }
    }
  }

  lemma KeyLeTotal(a: Key, b: Key)
    ensures KeyLe(a, b) || KeyLe(b, a)
  {
    if Rank(a) == Rank(b) && a.id != b.id {
      IdLessTotal(a.id, b.id);
      if IdLess(a.id, b.id) {
        IdLessAsymmetric(a.id, b.id);
      }
    } else if Rank(a) == Rank(b) {
      IdLessIrreflexive(a.id);
    }
  }

  lemma KeyLeTransitive(a: Key, b: Key, c: Key)
    requires KeyLe(a, b) && KeyLe(b, c)
    ensures KeyLe(a, c)
  {
    if Rank(a) == Rank(b) == Rank(c) && IdLess(c.id, a.id) {
      if a.id == b.id {
      } else if b.id == c.id {
      } else {
        IdLessTotal(a.id, b.id);
        IdLessTotal(b.id, c.id);
        if IdLess(a.id, b.id) {
          IdLessTransitive(c.id, a.id, b.id);
        } else {
          IdLessTransitive(b.id, c.id, a.id);
        }
      }
    }
  }

  lemma KeyLessImpliesLe(a: Key, b: Key)
    requires KeyLess(a, b)
    ensures KeyLe(a, b)
  {
    if Rank(a) == Rank(b) {
      IdLessAsymmetric(a.id, b.id);
    }
  }

  // ---- sorting the entry indices ----

  predicate ValidIndices(keys: seq<Key>, s: seq<nat>) {
    forall k :: 0 <= k < |s| ==> s[k] < |keys|
  }

  /** The indices in s are in comparator order. */
  predicate Sorted(keys: seq<Key>, s: seq<nat>)
    requires ValidIndices(keys, s)
  {
    forall a, b :: 0 <= a < b < |s| ==> KeyLe(keys[s[a]], keys[s[b]])
  }

  predicate Distinct(s: seq<nat>) {
    forall a, b :: 0 <= a < b < |s| ==> s[a] != s[b]
  }

  /** Index i inserted before the first index whose key it strictly precedes. */
  function Insert(keys: seq<Key>, i: nat, s: seq<nat>): (r: seq<nat>)
    requires i < |keys| && ValidIndices(keys, s)
    ensures |r| == |s| + 1 && ValidIndices(keys, r)
    ensures forall x :: x in r <==> x == i || x in s
  {
    if s == [] then [i]
    else if KeyLess(keys[i], keys[s[0]]) then [i] + s
    else [s[0]] + Insert(keys, i, s[1..])
  }

  lemma {:induction false} InsertSorted(keys: seq<Key>, i: nat, s: seq<nat>)
    requires i < |keys| && ValidIndices(keys, s) && Sorted(keys, s)
    ensures Sorted(keys, Insert(keys, i, s))
  {
    if s != [] {
      var r := Insert(keys, i, s);
      if KeyLess(keys[i], keys[s[0]]) {
        KeyLessImpliesLe(keys[i], keys[s[0]]);
        forall b | 1 <= b < |r|
          ensures KeyLe(keys[r[0]], keys[r[b]])
        {
          if b > 1 {
            KeyLeTransitive(keys[i], keys[s[0]], keys[s[b - 1]]);
          }
        }
      } else {
        InsertSorted(keys, i, s[1..]);
        KeyLeTotal(keys[i], keys[s[0]]);
        forall b | 1 <= b < |r|
          ensures KeyLe(keys[r[0]], keys[r[b]])
        {
          assert r[b] in Insert(keys, i, s[1..]);
          if r[b] != i {
            var m :| 0 <= m < |s[1..]| && s[1..][m] == r[b];
            assert s[m + 1] == r[b];
          }
        }
      }
    }
  }

  lemma {:induction false} InsertDistinct(keys: seq<Key>, i: nat, s: seq<nat>)
    requires i < |keys| && ValidIndices(keys, s) && Distinct(s) && i !in s
    ensures Distinct(Insert(keys, i, s))
  {
    if s != [] && !KeyLess(keys[i], keys[s[0]]) {
      assert s[0] !in s[1..];
      InsertDistinct(keys, i, s[1..]);
    }
  }

  /** sorted = entries.slice().sort(comparator), as indices into the entries. */
  function SortOrder(keys: seq<Key>, n: nat): (o: seq<nat>)
    requires n <= |keys|
    ensures |o| == n && ValidIndices(keys, o)
    ensures forall x: nat :: x in o <==> x < n
  {
    if n == 0 then [] else Insert(keys, n - 1, SortOrder(keys, n - 1))
  }

  /** The order lists every index exactly once and is sorted by the comparator's key. */
  lemma {:induction false} SortOrderCorrect(keys: seq<Key>, n: nat)
    requires n <= |keys|
    ensures Distinct(SortOrder(keys, n)) && Sorted(keys, SortOrder(keys, n))
  {
    if n > 0 {
      SortOrderCorrect(keys, n - 1);
      InsertSorted(keys, n - 1, SortOrder(keys, n - 1));
      InsertDistinct(keys, n - 1, SortOrder(keys, n - 1));
    }
  }

  /** No two of the first n entries share both `priority | 0` and id. */
  predicate DistinctKeys(keys: seq<Key>, n: nat)
    requires n <= |keys|
  {
    forall i, j :: 0 <= i < j < n ==> Rank(keys[i]) != Rank(keys[j]) || keys[i].id != keys[j].id
  }

  /** Keys ordered both ways share `priority | 0` and id. */
  lemma KeyLeAntisymmetric(a: Key, b: Key)
    ensures KeyLe(a, b) && KeyLe(b, a) ==> Rank(a) == Rank(b) && a.id == b.id
  {
    if a.id != b.id {
      IdLessTotal(a.id, b.id);
    }
  }

  /** Dropping equal heads from two sequences with the same elements leaves the same elements. */
  lemma TailsSameElements(o1: seq<nat>, o2: seq<nat>)
    requires o1 != [] && o2 != [] && o1[0] == o2[0]
    requires Distinct(o1) && Distinct(o2)
    requires forall x :: x in o1 <==> x in o2
    ensures forall x :: x in o1[1..] <==> x in o2[1..]
  {
    forall x | x in o1[1..] ensures x in o2[1..] {
      var m :| 0 <= m < |o1[1..]| && o1[1..][m] == x;
      assert o1[m + 1] == x && x != o1[0];
      assert x in o1 && x in o2;
      var m2 :| 0 <= m2 < |o2| && o2[m2] == x;
      assert m2 > 0;
      assert o2[1..][m2 - 1] == x;
    }
    forall x | x in o2[1..] ensures x in o1[1..] {
      var m :| 0 <= m < |o2[1..]| && o2[1..][m] == x;
      assert o2[m + 1] == x && x != o2[0];
      assert x in o2 && x in o1;
      var m1 :| 0 <= m1 < |o1| && o1[m1] == x;
      assert m1 > 0;
      assert o1[1..][m1 - 1] == x;
    }
  }

  /** Two sorted sequences that each hold the other's first index, with distinct keys, start alike. */
  lemma SortedHeadsEqual(keys: seq<Key>, n: nat, o1: seq<nat>, o2: seq<nat>)
    requires n <= |keys| && DistinctKeys(keys, n) && o1 != [] && o2 != []
    requires o1[0] < n && o2[0] < n
    requires ValidIndices(keys, o1) && ValidIndices(keys, o2) && Sorted(keys, o1) && Sorted(keys, o2)
    requires o2[0] in o1 && o1[0] in o2
    ensures o1[0] == o2[0]
  {
    var h1, h2 := o1[0], o2[0];
    var m1 :| 0 <= m1 < |o1| && o1[m1] == h2;
    var m2 :| 0 <= m2 < |o2| && o2[m2] == h1;
    assert m1 == 0 || KeyLe(keys[h1], keys[h2]);
    assert m2 == 0 || KeyLe(keys[h2], keys[h1]);
    KeyLeAntisymmetric(keys[h1], keys[h2]);
  }

  /** The tail of a duplicate-free sorted sequence is duplicate-free, sorted and drawn from it. */
  lemma SortedTail(keys: seq<Key>, o: seq<nat>)
    requires o != [] && ValidIndices(keys, o) && Distinct(o) && Sorted(keys, o)
    ensures ValidIndices(keys, o[1..]) && Distinct(o[1..]) && Sorted(keys, o[1..])
    ensures forall x :: x in o[1..] ==> x in o
  {
    var t := o[1..];
    assert forall k :: 0 <= k < |t| ==> t[k] == o[k + 1];
  }

  /** Two duplicate-free sorted sequences of the same indices with distinct keys are equal. */
  lemma {:induction false} SortedSameElementsEqual(keys: seq<Key>, n: nat, o1: seq<nat>, o2: seq<nat>)
    requires n <= |keys| && DistinctKeys(keys, n)
    requires (forall x :: x in o1 ==> x < n) && (forall x :: x in o2 ==> x < n)
    requires ValidIndices(keys, o1) && ValidIndices(keys, o2)
    requires Distinct(o1) && Distinct(o2) && Sorted(keys, o1) && Sorted(keys, o2)
    requires forall x :: x in o1 <==> x in o2
    ensures o1 == o2
    decreases |o1|
  {
    if o1 != [] {
      assert o1[0] in o1;
    }
    if o2 != [] {
      assert o2[0] in o2;
    }
    if o1 != [] && o2 != [] {
      SortedHeadsEqual(keys, n, o1, o2);
      TailsSameElements(o1, o2);
      SortedTail(keys, o1);
      SortedTail(keys, o2);
      SortedSameElementsEqual(keys, n, o1[1..], o2[1..]);
      assert o1 == [o1[0]] + o1[1..];
      assert o2 == [o2[0]] + o2[1..];
    }
  }

  /**
   * When no two entries share both `priority | 0` and id, the comparator is consistent and
   * any duplicate-free sorted arrangement of all the indices is exactly SortOrder: every
   * conforming sort implementation yields the model's order.
   */
  lemma SortedPermutationUnique(keys: seq<Key>, n: nat, o: seq<nat>)
    requires n <= |keys| && DistinctKeys(keys, n)
    requires ValidIndices(keys, o) && Distinct(o) && Sorted(keys, o)
    requires forall x: nat :: x in o <==> x < n
    ensures o == SortOrder(keys, n)
  {
    SortOrderCorrect(keys, n);
    SortedSameElementsEqual(keys, n, o, SortOrder(keys, n));
  }
}
