/**
  The order in which Python compares `str` values: lexicographic, character by
  character on code points, a proper prefix sorting before the longer string.
  Dafny's own `<` on sequences means "proper prefix", so the order is defined
  here from scratch, together with `str.startswith`.
 */
module StringOrder {

  /** Python's `a < b` on strings. */
  predicate Less(a: string, b: string)
    decreases |a|
  {
    |b| > 0 && (|a| == 0 || a[0] < b[0] || (a[0] == b[0] && Less(a[1..], b[1..])))
  }

  /** Python's `n.startswith(q)`. */
  predicate StartsWith(n: string, q: string) {
    |q| <= |n| && n[..|q|] == q
  }

  lemma {:induction false} LessIrreflexive(a: string)
    ensures !Less(a, a)
    decreases |a|
  {
    if |a| > 0 {
      LessIrreflexive(a[1..]);
    }
  }

  lemma {:induction false} LessTransitive(a: string, b: string, c: string)
    requires Less(a, b) && Less(b, c)
    ensures Less(a, c)
    decreases |a|
  {
    if |a| > 0 && a[0] == b[0] && b[0] == c[0] {
      LessTransitive(a[1..], b[1..], c[1..]);
    }
  }

  /** Any two strings are comparable: the order is total. */
  lemma {:induction false} LessTotal(a: string, b: string)
    ensures Less(a, b) || a == b || Less(b, a)
    decreases |a|
  {
    if |a| > 0 && |b| > 0 && a[0] == b[0] {
      LessTotal(a[1..], b[1..]);
      if a[1..] == b[1..] {
        assert a == [a[0]] + a[1..] && b == [b[0]] + b[1..];
      }
    }
  }

  lemma LessAsymmetric(a: string, b: string)
    requires Less(a, b)
    ensures !Less(b, a)
  {
    if Less(b, a) {
      LessTransitive(a, b, a);
      LessIrreflexive(a);
    }
  }

  /** a <= b and b < c give a < c. */
  lemma LeLessTransitive(a: string, b: string, c: string)
    requires !Less(b, a) && Less(b, c)
    ensures Less(a, c)
  {
    LessTotal(a, b);
    if a != b {
      LessTransitive(a, b, c);
    }
  }

  /** a < b and b <= c give a < c. */
  lemma LessLeTransitive(a: string, b: string, c: string)
    requires Less(a, b) && !Less(c, b)
    ensures Less(a, c)
  {
    LessTotal(b, c);
    if b != c {
      LessTransitive(a, b, c);
    }
  }

  /** a <= b and b <= c give a <= c. */
  lemma LeTransitive(a: string, b: string, c: string)
    requires !Less(b, a) && !Less(c, b)
    ensures !Less(c, a)
  {
    if Less(c, a) {
      LessLeTransitive(c, a, b);
      LessAsymmetric(c, b);
    }
  }

  /** A string never sorts before one of its own prefixes. */
  lemma {:induction false} PrefixNotGreater(n: string, q: string)
    requires StartsWith(n, q)
    ensures !Less(n, q)
    decreases |q|
  {
    if |q| > 0 {
      assert n[1..][..|q| - 1] == q[1..];
      PrefixNotGreater(n[1..], q[1..]);
    }
  }

  /** A proper prefix sorts strictly before the longer string. */
  lemma {:induction false} ProperPrefixLess(q: string, n: string)
    requires StartsWith(n, q) && |q| < |n|
    ensures Less(q, n)
    decreases |q|
  {
    if |q| > 0 {
      assert n[1..][..|q| - 1] == q[1..];
      ProperPrefixLess(q[1..], n[1..]);
    }
  }

  /** Comparing two strings with a common prefix compares what follows it. */
  lemma {:induction false} CommonPrefixLess(q: string, x: string, y: string)
    ensures Less(q + x, q + y) <==> Less(x, y)
    decreases |q|
  {
    if |q| == 0 {
      assert q + x == x && q + y == y;
    } else {
      assert (q + x)[0] == q[0] == (q + y)[0];
      assert (q + x)[1..] == q[1..] + x;
      assert (q + y)[1..] == q[1..] + y;
      CommonPrefixLess(q[1..], x, y);
    }
  }

  /**
    A string that sorts no lower than q and no higher than q + [top] starts
    with q, whatever the character top is.
   */
  lemma {:induction false} BetweenStartsWith(n: string, q: string, top: char)
    requires !Less(n, q) && !Less(q + [top], n)
    ensures StartsWith(n, q)
    decreases |q|
  {
    if |q| > 0 {
      assert (q + [top])[1..] == q[1..] + [top];
      BetweenStartsWith(n[1..], q[1..], top);
      assert n == [n[0]] + n[1..];
    }
  }
}
