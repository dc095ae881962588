/**
  The prefix index of the lookup tool: the catalog keys in sorted order, and
  `autocomplete`, which lowers the typed prefix and returns the slice of the
  index between `bisect_left(index, prefix)` and
  `bisect_right(index, prefix + "\uffff")`.
 */
module PrefixIndex {
  import opened StringOrder
  import opened CaseFold
  import opened Bisect

  // ---------------------------------------------------------------------------
  // Building the index: `sorted(categories.keys())`
  // ---------------------------------------------------------------------------

  predicate IsLeast(m: string, keys: set<string>) {
    m in keys && forall y :: y in keys && y != m ==> Less(m, y)
  }

  lemma {:induction false} LeastExists(keys: set<string>)
    requires keys != {}
    ensures exists m :: IsLeast(m, keys)
    decreases keys
  {
    var x :| x in keys;
    if keys != {x} {
      var rest := keys - {x};
      LeastExists(rest);
      var m :| IsLeast(m, rest);
      LessTotal(m, x);
      if Less(m, x) {
        assert IsLeast(m, keys);
      } else {
        forall y | y in keys && y != x ensures Less(x, y) {
          if y != m {
            LessTransitive(x, m, y);
          }
        }
        assert IsLeast(x, keys);
      }
    } else {
      assert IsLeast(x, keys);
    }
  }

  lemma LeastUnique(keys: set<string>)
    ensures forall a, b :: IsLeast(a, keys) && IsLeast(b, keys) ==> a == b
  {
    forall a, b | IsLeast(a, keys) && IsLeast(b, keys) ensures a == b {
      if a != b {
        LessAsymmetric(a, b);
      }
    }
  }

  /** `sorted(keys)`: every key once, in ascending order. */
  function SortedKeys(keys: set<string>): (r: seq<string>)
    ensures StrictlyAscending(r)
    ensures forall n :: n in r <==> n in keys
    ensures |r| == |keys|
    decreases keys
  {
    if keys == {} then []
    else
      LeastExists(keys);
      LeastUnique(keys);
      var m :| IsLeast(m, keys);
      var rest := SortedKeys(keys - {m});
      assert forall j :: 0 <= j < |rest| ==> Less(m, rest[j]);
      [m] + rest
  }

  /** The tail of a strictly ascending sequence holds everything but its head. */
  lemma TailMembers(a: seq<string>, n: string)
    requires StrictlyAscending(a) && |a| > 0
    ensures n in a[1..] <==> n in a && n != a[0]
  {
    if n in a[1..] {
      var k :| 0 <= k < |a| - 1 && a[1..][k] == n;
      LessIrreflexive(a[0]);
      assert Less(a[0], a[k + 1]);
    }
    if n in a && n != a[0] {
      var k :| 0 <= k < |a| && a[k] == n;
      assert a[1..][k - 1] == n;
    }
  }

  /**
    A strictly ascending sequence is fixed by its elements: `sorted` has only
    one possible answer for a given set of keys.
   */
  lemma {:induction false} AscendingUnique(a: seq<string>, b: seq<string>)
    requires StrictlyAscending(a) && StrictlyAscending(b)
    requires forall n :: n in a <==> n in b
    ensures a == b
    decreases |a|
  {
    SameMembersNonEmpty(a, b);
    if |a| > 0 {
      HeadIsLeast(a, b[0]);
      HeadIsLeast(b, a[0]);
      LessTotal(a[0], b[0]);
      forall n ensures n in a[1..] <==> n in b[1..] {
        TailMembers(a, n);
        TailMembers(b, n);
      }
      AscendingUnique(a[1..], b[1..]);
      assert a == [a[0]] + a[1..] && b == [b[0]] + b[1..];
    }
  }

  lemma SameMembersNonEmpty(a: seq<string>, b: seq<string>)
    requires forall n :: n in a <==> n in b
    ensures |a| > 0 <==> |b| > 0
  {
    if |a| > 0 {
      assert a[0] in b;
    }
    if |b| > 0 {
      assert b[0] in a;
    }
  }

  /** Nothing in a strictly ascending sequence sorts below its head. */
  lemma HeadIsLeast(a: seq<string>, n: string)
    requires StrictlyAscending(a) && n in a
    ensures !Less(n, a[0])
  {
    var k :| 0 <= k < |a| && a[k] == n;
    if k == 0 {
      LessIrreflexive(n);
    } else {
      LessAsymmetric(a[0], n);
    }
  }

  // ---------------------------------------------------------------------------
  // The prefix window
  // ---------------------------------------------------------------------------

  /** The character appended to the prefix to bound the range: "\uffff". */
  const Sentinel: char := '\U{FFFF}'

  /** Python's `s <= "\uffff"`: what may follow the prefix in a returned name. */
  predicate SuffixFits(s: string) {
    !Less([Sentinel], s)
  }

  lemma SuffixFitsIff(s: string)
    ensures SuffixFits(s) <==> |s| == 0 || s[0] < Sentinel || s == [Sentinel]
  {
    if |s| > 0 && s[0] == Sentinel {
      assert [Sentinel][1..] == [];
      if |s| > 1 {
        assert Less([Sentinel][1..], s[1..]);
      } else {
        assert !Less([Sentinel][1..], s[1..]);
      }
    }
  }

  /**
    The names the two bisections keep: not below the prefix q, and not above
    q + "\uffff".
   */
  predicate InWindow(q: string, n: string) {
    !Less(n, q) && !Less(q + [Sentinel], n)
  }

  /**
    A name lies in the window exactly when it starts with q and what follows q
    sorts no higher than "\uffff".
   */
  lemma WindowIff(q: string, n: string)
    ensures InWindow(q, n) <==> StartsWith(n, q) && SuffixFits(n[|q|..])
  {
    if InWindow(q, n) {
      BetweenStartsWith(n, q, Sentinel);
    }
    if StartsWith(n, q) {
      PrefixNotGreater(n, q);
      assert n == q + n[|q|..];
      CommonPrefixLess(q, [Sentinel], n[|q|..]);
    }
  }

  /** `autocomplete(prefix)` over the sorted index `names`. */
  function Autocomplete(names: seq<string>, prefix: string): (r: seq<string>)
    requires Sorted(names)
    ensures exists s, e :: 0 <= s <= e <= |names| && r == names[s..e]
    ensures forall n :: n in r <==>
      n in names && StartsWith(n, Lower(prefix)) && SuffixFits(n[|Lower(prefix)|..])
    ensures StrictlyAscending(names) ==> StrictlyAscending(r)
  {
    var q := Lower(prefix);
    var start := BisectLeft(names, q);
    var end := BisectRight(names, q + [Sentinel]);
    assert StartsWith(q + [Sentinel], q);
    ProperPrefixLess(q, q + [Sentinel]);
    BisectLeftNotAfterRight(names, q, q + [Sentinel]);
    assert forall i :: 0 <= i < |names| ==> (start <= i < end <==> InWindow(q, names[i]));
    forall n ensures InWindow(q, n) <==> StartsWith(n, q) && SuffixFits(n[|q|..]) {
      WindowIff(q, n);
    }
    names[start..end]
  }

  // ---------------------------------------------------------------------------
  // Properties of autocomplete
  // ---------------------------------------------------------------------------

  /** Only the lowered prefix matters: "S" and "s" give the same names. */
  lemma AutocompleteIgnoresCase(names: seq<string>, prefix: string)
    requires Sorted(names)
    ensures Autocomplete(names, prefix) == Autocomplete(names, Lower(prefix))
  {
    LowerIdempotent(prefix);
  }

  /** The empty prefix returns the whole index when every name fits under "\uffff". */
  lemma AutocompleteEmptyPrefix(names: seq<string>)
    requires Sorted(names)
    requires forall n :: n in names ==> SuffixFits(n)
    ensures Autocomplete(names, "") == names
  {
    assert Lower("") == "";
    assert "" + [Sentinel] == [Sentinel];
    var start := BisectLeft(names, "");
    var end := BisectRight(names, [Sentinel]);
    assert StartsWith([Sentinel], "");
    ProperPrefixLess("", [Sentinel]);
    BisectLeftNotAfterRight(names, "", [Sentinel]);
    if |names| > 0 {
      assert !Less(names[0], "");
      assert names[|names| - 1] in names;
    }
    assert Autocomplete(names, "") == names[start..end];
  }

  /** The linear scan: the names that start with q, in index order. */
  function PrefixFilter(names: seq<string>, q: string): (r: seq<string>)
    ensures |r| <= |names|
  {
    if names == [] then []
    else (if StartsWith(names[0], q) then [names[0]] else []) + PrefixFilter(names[1..], q)
  }

  /** The scan keeps exactly the names that start with q. */
  lemma {:induction false} PrefixFilterMembers(names: seq<string>, q: string, n: string)
    ensures n in PrefixFilter(names, q) <==> n in names && StartsWith(n, q)
    decreases |names|
  {
    if names != [] {
      PrefixFilterMembers(names[1..], q, n);
      assert names == [names[0]] + names[1..];
    }
  }

  /** Filtering for a contiguous run of matches yields that run. */
  lemma {:induction false} FilterContiguous(names: seq<string>, q: string, s: nat, e: nat)
    requires s <= e <= |names|
    requires forall i :: 0 <= i < |names| ==> (StartsWith(names[i], q) <==> s <= i < e)
    ensures PrefixFilter(names, q) == names[s..e]
    decreases |names|
  {
    if names != [] {
      var tail := names[1..];
      assert forall i :: 0 <= i < |tail| ==> tail[i] == names[i + 1];
      var head := if 0 < s || e == 0 then [] else [names[0]];
      assert PrefixFilter(names, q) == head + PrefixFilter(tail, q);
      if s > 0 {
        FilterContiguous(tail, q, s - 1, e - 1);
        assert tail[s - 1..e - 1] == names[s..e];
      } else if e > 0 {
        FilterContiguous(tail, q, 0, e - 1);
        assert names[0..e] == [names[0]] + tail[0..e - 1];
      } else {
        FilterContiguous(tail, q, 0, 0);
      }
    }
  }

  /** Every character of n lies below U+FFFF (true of every ASCII name). */
  predicate BelowSentinel(n: string) {
    forall k :: 0 <= k < |n| ==> n[k] < Sentinel
  }

  lemma BelowSentinelFits(n: string)
    requires BelowSentinel(n)
    ensures SuffixFits(n)
  {
    SuffixFitsIff(n);
  }

  /**
    When no name holds a character at or above U+FFFF, the binary search gives
    exactly the linear scan: every name that starts with the lowered prefix,
    and no other, in index order.
   */
  lemma AutocompleteIsPrefixFilter(names: seq<string>, prefix: string)
    requires Sorted(names)
    requires forall n :: n in names ==> BelowSentinel(n)
    ensures Autocomplete(names, prefix) == PrefixFilter(names, Lower(prefix))
  {
    var q := Lower(prefix);
    var s := BisectLeft(names, q);
    var e := BisectRight(names, q + [Sentinel]);
    assert StartsWith(q + [Sentinel], q);
    ProperPrefixLess(q, q + [Sentinel]);
    BisectLeftNotAfterRight(names, q, q + [Sentinel]);
    assert Autocomplete(names, prefix) == names[s..e];
    forall i | 0 <= i < |names| ensures StartsWith(names[i], q) <==> s <= i < e {
      var n := names[i];
      assert n in names;
      WindowIff(q, n);
      assert s <= i < e <==> InWindow(q, n);
      if StartsWith(n, q) {
        SuffixFitsIff(n[|q|..]);
        if |q| < |n| {
          assert n[|q|..][0] == n[|q|];
        }
      }
    }
    FilterContiguous(names, q, s, e);
  }

  /** A name whose next character lies above U+FFFF is not suggested. */
  lemma AstralContinuationDropped()
    ensures StartsWith("s\U{1F9F4}", "s")
    ensures "s\U{1F9F4}" !in Autocomplete(["s\U{1F9F4}"], "s")
  {
    var n := "s\U{1F9F4}";
    assert n[1..] == "\U{1F9F4}";
    assert Less([Sentinel], n[1..]);
    assert Lower("s") == "s";
  }

  /** A name that continues with U+FFFF and then more characters is not suggested. */
  lemma SentinelContinuationDropped()
    ensures StartsWith("s\U{FFFF}a", "s")
    ensures "s\U{FFFF}a" !in Autocomplete(["s\U{FFFF}a"], "s")
  {
    var n := "s\U{FFFF}a";
    assert n[1..] == [Sentinel, 'a'];
    SuffixFitsIff(n[1..]);
    assert Lower("s") == "s";
  }
}
