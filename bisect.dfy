/**
  `bisect_left` and `bisect_right` from Python's `bisect` module, over a list of
  strings kept in ascending order. Both halve the range [lo, hi) the way the
  library does (mid = (lo + hi) // 2); they differ only in which side an element
  equal to x falls on.
 */
module Bisect {
  import opened StringOrder

  /** Ascending order, equal neighbours allowed: what `bisect` asks of its list. */
  predicate Sorted(a: seq<string>) {
    forall i, j :: 0 <= i < j < |a| ==> !Less(a[j], a[i])
  }

  /** Ascending order without repeats: what `sorted` gives for distinct keys. */
  predicate StrictlyAscending(a: seq<string>) {
    forall i, j :: 0 <= i < j < |a| ==> Less(a[i], a[j])
  }

  lemma StrictlyAscendingIsSorted(a: seq<string>)
    requires StrictlyAscending(a)
    ensures Sorted(a)
  {
    forall i, j | 0 <= i < j < |a| ensures !Less(a[j], a[i]) {
      LessAsymmetric(a[i], a[j]);
    }
  }

  /** Everything up to a[mid] sorts below x once a[mid] does. */
  lemma BelowUpTo(a: seq<string>, mid: nat, x: string)
    requires Sorted(a) && mid < |a| && Less(a[mid], x)
    ensures forall j :: 0 <= j <= mid ==> Less(a[j], x)
  {
    forall j | 0 <= j <= mid ensures Less(a[j], x) {
      if j < mid {
        LeLessTransitive(a[j], a[mid], x);
      }
    }
  }

  /** Everything from a[mid] on sorts no lower than x once a[mid] does. */
  lemma NotBelowFrom(a: seq<string>, mid: nat, x: string)
    requires Sorted(a) && mid < |a| && !Less(a[mid], x)
    ensures forall j :: mid <= j < |a| ==> !Less(a[j], x)
  {
    forall j | mid <= j < |a| ensures !Less(a[j], x) {
      if mid < j {
        LeTransitive(x, a[mid], a[j]);
      }
    }
  }

  /** Everything from a[mid] on sorts above x once a[mid] does. */
  lemma AboveFrom(a: seq<string>, mid: nat, x: string)
    requires Sorted(a) && mid < |a| && Less(x, a[mid])
    ensures forall j :: mid <= j < |a| ==> Less(x, a[j])
  {
    forall j | mid <= j < |a| ensures Less(x, a[j]) {
      if mid < j {
        LessLeTransitive(x, a[mid], a[j]);
      }
    }
  }

  /** Everything up to a[mid] sorts no higher than x once a[mid] does. */
  lemma NotAboveUpTo(a: seq<string>, mid: nat, x: string)
    requires Sorted(a) && mid < |a| && !Less(x, a[mid])
    ensures forall j :: 0 <= j <= mid ==> !Less(x, a[j])
  {
    forall j | 0 <= j <= mid ensures !Less(x, a[j]) {
      if j < mid {
        LeTransitive(a[j], a[mid], x);
      }
    }
  }

  /** The search of `bisect_left` within [lo, hi). */
  function BisectLeftIn(a: seq<string>, x: string, lo: nat, hi: nat): (i: nat)
    requires Sorted(a) && lo <= hi <= |a|
    requires forall j :: 0 <= j < lo ==> Less(a[j], x)
    requires forall j :: hi <= j < |a| ==> !Less(a[j], x)
    ensures lo <= i <= hi
    ensures forall j :: 0 <= j < i ==> Less(a[j], x)
    ensures forall j :: i <= j < |a| ==> !Less(a[j], x)
    decreases hi - lo
  {
    if lo == hi then lo
    else
      var mid := (lo + hi) / 2;
      if Less(a[mid], x) then
        BelowUpTo(a, mid, x);
        BisectLeftIn(a, x, mid + 1, hi)
      else
        NotBelowFrom(a, mid, x);
        BisectLeftIn(a, x, lo, mid)
  }

  /** `bisect_left(a, x)`: the first position whose element is not below x. */
  function BisectLeft(a: seq<string>, x: string): (i: nat)
    requires Sorted(a)
    ensures i <= |a|
    ensures forall j :: 0 <= j < i ==> Less(a[j], x)
    ensures forall j :: i <= j < |a| ==> !Less(a[j], x)
  {
    BisectLeftIn(a, x, 0, |a|)
  }

  /** The search of `bisect_right` within [lo, hi). */
  function BisectRightIn(a: seq<string>, x: string, lo: nat, hi: nat): (i: nat)
    requires Sorted(a) && lo <= hi <= |a|
    requires forall j :: 0 <= j < lo ==> !Less(x, a[j])
    requires forall j :: hi <= j < |a| ==> Less(x, a[j])
    ensures lo <= i <= hi
    ensures forall j :: 0 <= j < i ==> !Less(x, a[j])
    ensures forall j :: i <= j < |a| ==> Less(x, a[j])
    decreases hi - lo
  {
    if lo == hi then lo
    else
      var mid := (lo + hi) / 2;
      if Less(x, a[mid]) then
        AboveFrom(a, mid, x);
        BisectRightIn(a, x, lo, mid)
      else
        NotAboveUpTo(a, mid, x);
        BisectRightIn(a, x, mid + 1, hi)
  }

  /** `bisect_right(a, x)`: the first position whose element is above x. */
  function BisectRight(a: seq<string>, x: string): (i: nat)
    requires Sorted(a)
    ensures i <= |a|
    ensures forall j :: 0 <= j < i ==> !Less(x, a[j])
    ensures forall j :: i <= j < |a| ==> Less(x, a[j])
  {
    BisectRightIn(a, x, 0, |a|)
  }

  /** Searching for a smaller key never lands further right. */
  lemma BisectLeftNotAfterRight(a: seq<string>, x: string, y: string)
    requires Sorted(a) && Less(x, y)
    ensures BisectLeft(a, x) <= BisectRight(a, y)
  {
    var s, e := BisectLeft(a, x), BisectRight(a, y);
    if e < s {
      LessTransitive(a[e], x, y);
      LessAsymmetric(y, a[e]);
    }
  }
}
