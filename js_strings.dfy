/** JavaScript's relational operators on string values.
    Dafny's `<` on sequences means "proper prefix", so the order that
    `columnA < columnB` computes in the table's comparator is defined here. */
module JsStrings {

  /** JavaScript's conversion of a string to a boolean, as `!s` and `if (s)`
      use it: only the empty string is falsy. */
  predicate Truthy(s: string)
  {
    s != ""
  }

  /** `a < b` for two strings: the first differing character decides; when
      there is none, the shorter string (a proper prefix) is the smaller. */
  predicate Less(a: string, b: string)
    ensures Less(a, b) ==> a != b
    ensures |a| < |b| && a == b[..|a|] ==> Less(a, b)
    decreases |a|
  {
    if |a| == 0 then |b| > 0
    else if |b| == 0 then false
    else if a[0] != b[0] then a[0] < b[0]
    else Less(a[1..], b[1..])
  }

  /** `a <= b`, i.e. `!(b < a)` once totality is known (see LessTrichotomy). */
  predicate LessEq(a: string, b: string)
  {
    a == b || Less(a, b)
  }

  /** The definition the language standard gives for strings: either `a` is a
      proper prefix of `b`, or at the first index where they differ the
      character of `a` is the smaller one. */
  predicate LessByFirstDifference(a: string, b: string)
  {
    (|a| < |b| && a == b[..|a|]) ||
    exists k :: 0 <= k < |a| && k < |b| && a[..k] == b[..k] && a[k] < b[k]
  }

  /** A prefix of length k + 1 is the first character followed by a prefix
      of length k of the rest. */
  lemma PrefixCons(a: string, k: nat)
    requires k < |a|
    ensures a[..k + 1] == [a[0]] + a[1..][..k]
  {
  }

  lemma {:induction false} LessHasFirstDifference(a: string, b: string)
    requires Less(a, b)
    ensures LessByFirstDifference(a, b)
    decreases |a|
  {
    if |a| == 0 {
      assert a == b[..0];
    } else if a[0] != b[0] {
      assert 0 < |a| && 0 < |b| && a[..0] == b[..0] && a[0] < b[0];
    } else {
      var a', b' := a[1..], b[1..];
      LessHasFirstDifference(a', b');
      if |a'| < |b'| && a' == b'[..|a'|] {
        PrefixCons(b, |a'|);
        assert a == [a[0]] + a';
      } else {
        var k :| 0 <= k < |a'| && k < |b'| && a'[..k] == b'[..k] && a'[k] < b'[k];
        PrefixCons(a, k);
        PrefixCons(b, k);
        assert a[k + 1] == a'[k] && b[k + 1] == b'[k];
      }
    }
  }

  lemma {:induction false} FirstDifferenceGivesLess(a: string, b: string)
    requires LessByFirstDifference(a, b)
    ensures Less(a, b)
    decreases |a|
  {
    if |a| < |b| && a == b[..|a|] {
      // a proper prefix: Less's own contract
    } else {
      var k :| 0 <= k < |a| && k < |b| && a[..k] == b[..k] && a[k] < b[k];
      if k > 0 {
        var a', b' := a[1..], b[1..];
        PrefixCons(a, k - 1);
        PrefixCons(b, k - 1);
        assert a[..k][0] == a[0] && b[..k][0] == b[0];
        assert a'[k - 1] == a[k] && b'[k - 1] == b[k];
        assert 0 <= k - 1 < |a'| && k - 1 < |b'| && a'[..k - 1] == b'[..k - 1] && a'[k - 1] < b'[k - 1];
        FirstDifferenceGivesLess(a', b');
      }
    }
  }

  /** The recursive definition agrees with the language standard's. */
  lemma LessMatchesStandard(a: string, b: string)
    ensures Less(a, b) <==> LessByFirstDifference(a, b)
  {
    if Less(a, b) {
      LessHasFirstDifference(a, b);
    }
    if LessByFirstDifference(a, b) {
      FirstDifferenceGivesLess(a, b);
    }
  }

  lemma {:induction false} LessIrreflexive(a: string)
    ensures !Less(a, a)
    decreases |a|
  {
    if |a| > 0 {
      LessIrreflexive(a[1..]);
    }
  }

  lemma {:induction false} LessTransitive(a: string, b: string, c: string)
    requires Less(a, b) && Less(b, c)
    ensures Less(a, c)
    decreases |a|
  {
    if |a| > 0 && a[0] == b[0] && b[0] == c[0] {
      LessTransitive(a[1..], b[1..], c[1..]);
    }
  }

  /** Any two strings are comparable: JavaScript's `<` is a strict total order. */
  lemma {:induction false} LessTrichotomy(a: string, b: string)
    ensures Less(a, b) || a == b || Less(b, a)
    decreases |a|
  {
    if |a| > 0 && |b| > 0 && a[0] == b[0] {
      LessTrichotomy(a[1..], b[1..]);
      if a[1..] == b[1..] {
        assert a == [a[0]] + a[1..] && b == [b[0]] + b[1..];
      }
    }
  }

  lemma LessAsymmetric(a: string, b: string)
    requires Less(a, b)
    ensures !Less(b, a) && a != b
  {
    LessIrreflexive(a);
    if Less(b, a) {
      LessTransitive(a, b, a);
    }
  }
}
