/**
 * Lexicographic comparison of code sequences and the JDK binary search over a list sorted by it.
 *
 * Dictionary.java's byte comparator and java.lang.String.compareTo compute the same thing on
 * the integer codes of their elements: the difference of the first pair of elements that differ,
 * or else the difference of the lengths. Both lookups of the repository go through
 * Collections.binarySearch, whose index-based loop is modelled here as a recursive function.
 */
module Lex {

  /** The comparator: the first differing pair decides, else the shorter sequence sorts first. */
  function Compare(a: seq<int>, b: seq<int>): (r: int)
  {
    if a == [] || b == [] then |a| - |b|
    else if a[0] != b[0] then a[0] - b[0]
    else Compare(a[1..], b[1..])
  }

  /** The comparator returns 0 exactly on equal sequences. */
  lemma {:induction false} CompareZero(a: seq<int>, b: seq<int>)
    ensures Compare(a, b) == 0 <==> a == b
  {
    if a != [] && b != [] && a[0] == b[0] {
      assert a == [a[0]] + a[1..] && b == [b[0]] + b[1..];
      CompareZero(a[1..], b[1..]);
    }
  }

  /** `a` is an initial segment of `b`. */
  predicate IsPrefix(a: seq<int>, b: seq<int>)
  {
    |a| <= |b| && b[..|a|] == a
  }

  /** Pairwise order of a list under the comparator (duplicates allowed). */
  ghost predicate Sorted(list: seq<seq<int>>)
  {
    forall i, j :: 0 <= i < j < |list| ==> Compare(list[i], list[j]) <= 0
  }

  /** Every element before index `n` sorts strictly before `key`. */
  ghost predicate AllBelow(list: seq<seq<int>>, key: seq<int>, n: int)
  {
    forall i :: 0 <= i < n && i < |list| ==> Compare(list[i], key) < 0
  }

  /** Every element after index `h` sorts strictly after `key`. */
  ghost predicate AllAbove(list: seq<seq<int>>, key: seq<int>, h: int)
  {
    forall i :: h < i < |list| && 0 <= i ==> Compare(list[i], key) > 0
  }

  /** `ip` is where `key` would be inserted to keep `list` sorted, and `key` is absent. */
  ghost predicate InsertionPoint(list: seq<seq<int>>, key: seq<int>, ip: int)
  {
    0 <= ip <= |list| && AllBelow(list, key, ip) && AllAbove(list, key, ip - 1)
  }

  // ---------------------------------------------------------------------------------------------
  // The comparator is a total order

  /** Swapping the arguments negates the result. */
  lemma {:induction false} CompareAntisymmetric(a: seq<int>, b: seq<int>)
    ensures Compare(b, a) == -Compare(a, b)
  {
    if a != [] && b != [] && a[0] == b[0] {
      CompareAntisymmetric(a[1..], b[1..]);
    }
  }

  /** Transitivity, with strictness carried through either step. */
  lemma {:induction false} CompareTransitive(a: seq<int>, b: seq<int>, c: seq<int>)
    requires Compare(a, b) <= 0 && Compare(b, c) <= 0
    ensures Compare(a, c) <= 0
    ensures Compare(a, b) < 0 || Compare(b, c) < 0 ==> Compare(a, c) < 0
  {
    if a != [] && b != [] && c != [] && a[0] == b[0] && b[0] == c[0] {
      CompareTransitive(a[1..], b[1..], c[1..]);
      if Compare(a, c) == 0 {
        CompareAntisymmetric(a, b);
      }
    }
  }

  /** When the sequences first differ at `k`, the result is the difference of the elements there. */
  lemma {:induction false} CompareFirstDifference(a: seq<int>, b: seq<int>, k: nat)
    requires k < |a| && k < |b| && a[..k] == b[..k] && a[k] != b[k]
    ensures Compare(a, b) == a[k] - b[k]
  {
    if k > 0 {
      assert a[0] == a[..k][0] == b[..k][0] == b[0];
      assert a[1..][..k - 1] == a[..k][1..] == b[..k][1..] == b[1..][..k - 1];
      CompareFirstDifference(a[1..], b[1..], k - 1);
    }
  }

  /** When one sequence is a prefix of the other, the result is the difference of the lengths. */
  lemma {:induction false} CompareCommonPrefix(a: seq<int>, b: seq<int>)
    requires IsPrefix(a, b) || IsPrefix(b, a)
    ensures Compare(a, b) == |a| - |b|
  {
    if a != [] && b != [] {
      assert a[0] == b[0];
      assert IsPrefix(a[1..], b[1..]) || IsPrefix(b[1..], a[1..]);
      CompareCommonPrefix(a[1..], b[1..]);
    }
  }

  /** Anything sorting between `key` and an extension `e` of `key` also extends `key`. */
  lemma {:induction false} PrefixBetween(key: seq<int>, x: seq<int>, e: seq<int>)
    requires IsPrefix(key, e)
    requires Compare(x, key) > 0 && Compare(x, e) <= 0
    ensures IsPrefix(key, x)
  {
    if key != [] {
      assert e != [] && e[0] == key[0];
      assert x != [];
      assert IsPrefix(key[1..], e[1..]);
      PrefixBetween(key[1..], x[1..], e[1..]);
      assert x == [x[0]] + x[1..] && key == [key[0]] + key[1..];
    }
  }

  // ---------------------------------------------------------------------------------------------
  // Binary search (java.util.Collections.indexedBinarySearch)

  /**
   * The search loop over `low..high`: a found index, or `-(low + 1)` when the range empties.
   * Without any sortedness a non-negative result still points at an element equal to `key`.
   */
  function SearchRange(list: seq<seq<int>>, key: seq<int>, low: int, high: int): (r: int)
    requires 0 <= low <= high + 1 <= |list|
    ensures 0 <= r ==> low <= r <= high && list[r] == key
    ensures r < 0 ==> low <= -r - 1 <= high + 1
    decreases high - low
  {
    if low > high then -(low + 1)
    else
      var mid := (low + high) / 2;
      var cmp := Compare(list[mid], key);
      if cmp < 0 then SearchRange(list, key, mid + 1, high)
      else if cmp > 0 then SearchRange(list, key, low, mid - 1)
      else CompareZero(list[mid], key); mid
  }

  /** Collections.binarySearch: an index of `key`, or `-(insertion point) - 1`. */
  function BinarySearch(list: seq<seq<int>>, key: seq<int>): (r: int)
    ensures 0 <= r ==> r < |list| && list[r] == key
    ensures r < 0 ==> -r - 1 <= |list|
  {
    SearchRange(list, key, 0, |list| - 1)
  }

  /** A middle element below `key` puts everything up to it below `key`. */
  lemma BelowThrough(list: seq<seq<int>>, key: seq<int>, mid: int)
    requires Sorted(list) && 0 <= mid < |list| && Compare(list[mid], key) < 0
    ensures AllBelow(list, key, mid + 1)
  {
    forall i | 0 <= i <= mid ensures Compare(list[i], key) < 0 {
      if i < mid { CompareTransitive(list[i], list[mid], key); }
    }
  }

  /** A middle element above `key` puts everything from it on above `key`. */
  lemma AboveFrom(list: seq<seq<int>>, key: seq<int>, mid: int)
    requires Sorted(list) && 0 <= mid < |list| && Compare(list[mid], key) > 0
    ensures AllAbove(list, key, mid - 1)
  {
    forall i | mid < i < |list| ensures Compare(list[i], key) > 0 {
      CompareAntisymmetric(list[i], key);
      CompareAntisymmetric(list[mid], key);
      CompareAntisymmetric(list[mid], list[i]);
      CompareTransitive(key, list[mid], list[i]);
    }
  }

  /** One round of the search loop. */
  lemma SearchRangeStep(list: seq<seq<int>>, key: seq<int>, low: int, high: int)
    requires 0 <= low <= high < |list|
    ensures var mid := (low + high) / 2;
            var cmp := Compare(list[mid], key);
            (cmp < 0 ==> SearchRange(list, key, low, high) == SearchRange(list, key, mid + 1, high)) &&
            (cmp > 0 ==> SearchRange(list, key, low, high) == SearchRange(list, key, low, mid - 1)) &&
            (cmp == 0 ==> SearchRange(list, key, low, high) == mid)
  {
  }

  /** On a sorted list the search range keeps everything left of it below and right of it above. */
  lemma {:induction false} SearchRangeSorted(list: seq<seq<int>>, key: seq<int>, low: int, high: int)
    requires 0 <= low <= high + 1 <= |list|
    requires Sorted(list) && AllBelow(list, key, low) && AllAbove(list, key, high)
    ensures SearchRange(list, key, low, high) < 0 ==>
              InsertionPoint(list, key, -SearchRange(list, key, low, high) - 1)
    decreases high - low, 1
  {
    if low <= high {
      var mid := (low + high) / 2;
      if Compare(list[mid], key) < 0 {
        SearchRight(list, key, low, high);
      } else if Compare(list[mid], key) > 0 {
        SearchLeft(list, key, low, high);
      }
    }
  }

  /** The round that moves the range right of a middle element below `key`. */
  lemma {:induction false} SearchRight(list: seq<seq<int>>, key: seq<int>, low: int, high: int)
    requires 0 <= low <= high < |list| && Compare(list[(low + high) / 2], key) < 0
    requires Sorted(list) && AllBelow(list, key, low) && AllAbove(list, key, high)
    ensures SearchRange(list, key, low, high) < 0 ==>
              InsertionPoint(list, key, -SearchRange(list, key, low, high) - 1)
    decreases high - low, 0
  {
    var mid := (low + high) / 2;
    SearchRangeStep(list, key, low, high);
    BelowThrough(list, key, mid);
    SearchRangeSorted(list, key, mid + 1, high);
  }

  /** The round that moves the range left of a middle element above `key`. */
  lemma {:induction false} SearchLeft(list: seq<seq<int>>, key: seq<int>, low: int, high: int)
    requires 0 <= low <= high < |list| && Compare(list[(low + high) / 2], key) > 0
    requires Sorted(list) && AllBelow(list, key, low) && AllAbove(list, key, high)
    ensures SearchRange(list, key, low, high) < 0 ==>
              InsertionPoint(list, key, -SearchRange(list, key, low, high) - 1)
    decreases high - low, 0
  {
    var mid := (low + high) / 2;
    SearchRangeStep(list, key, low, high);
    AboveFrom(list, key, mid);
    SearchRangeSorted(list, key, low, mid - 1);
  }

  /** On a sorted list the search finds `key` exactly when it is present, and else its insertion point. */
  lemma BinarySearchSorted(list: seq<seq<int>>, key: seq<int>)
    requires Sorted(list)
    ensures BinarySearch(list, key) >= 0 <==> key in list
    ensures BinarySearch(list, key) < 0 ==> InsertionPoint(list, key, -BinarySearch(list, key) - 1)
  {
    SearchRangeSorted(list, key, 0, |list| - 1);
    if key in list {
      var i :| 0 <= i < |list| && list[i] == key;
      CompareZero(list[i], key);
    }
  }
}
