/**
 * The order on strings that `BTreeMap<String, _>` and `BTreeSet<String>` use:
 * lexicographic comparison, element by element, where a proper prefix is
 * smaller. Rust compares the UTF-8 bytes of the strings, which orders strings
 * the same way as comparing their Unicode scalar values, Dafny's `char`s.
 * Also the sorted, duplicate-free sequences such a set yields and the
 * insertion that keeps them so.
 */
module LexOrder {

  /** `a` sorts strictly before `b`. */
  predicate LexLess(a: string, b: string)
    decreases |a|
  {
    |b| > 0 && (|a| == 0 || a[0] < b[0] || (a[0] == b[0] && LexLess(a[1..], b[1..])))
  }

  /** The textbook definition of the same order: `a` is a proper prefix of
      `b`, or `a` has the smaller character at the first position where the
      two differ. */
  ghost predicate FirstDifferenceLess(a: string, b: string) {
    || (|a| < |b| && a == b[..|a|])
    || exists k :: 0 <= k < |a| && k < |b| && a[..k] == b[..k] && a[k] < b[k]
  }

  lemma {:induction false} LexLessIsFirstDifference(a: string, b: string)
    ensures LexLess(a, b) <==> FirstDifferenceLess(a, b)
    decreases |a|
  {
    if |a| == 0 || |b| == 0 {
      assert |a| == 0 && |b| > 0 ==> a == b[..|a|];
    } else if a[0] < b[0] {
      assert a[..0] == b[..0];
    } else if a[0] == b[0] {
      var a', b' := a[1..], b[1..];
      LexLessIsFirstDifference(a', b');
      if FirstDifferenceLess(a', b') {
        if |a'| < |b'| && a' == b'[..|a'|] {
          assert a == [a[0]] + a' && b[..|a|] == [b[0]] + b'[..|a'|];
        } else {
          var k :| 0 <= k < |a'| && k < |b'| && a'[..k] == b'[..k] && a'[k] < b'[k];
          assert a[..k + 1] == [a[0]] + a'[..k] && b[..k + 1] == [b[0]] + b'[..k];
          assert a[k + 1] == a'[k] && b[k + 1] == b'[k];
        }
      }
      if FirstDifferenceLess(a, b) {
        if |a| < |b| && a == b[..|a|] {
          assert a' == b'[..|a'|];
        } else {
          var k :| 0 <= k < |a| && k < |b| && a[..k] == b[..k] && a[k] < b[k];
          assert k != 0;
          assert a'[..k - 1] == a[1..k] == b[1..k] == b'[..k - 1];
          assert a'[k - 1] == a[k] && b'[k - 1] == b[k];
        }
      }
    } else {
      forall k | 0 < k <= |a| && k <= |b| ensures a[..k] != b[..k] {
        assert a[..k][0] == a[0] && b[..k][0] == b[0];
      }
      assert a[..|a|] == a;
    }
  }

  lemma {:induction false} LexLessIrreflexive(a: string)
    ensures !LexLess(a, a)
    decreases |a|
  {
    if |a| > 0 {
      LexLessIrreflexive(a[1..]);
    }
  }

  lemma {:induction false} LexLessAsymmetric(a: string, b: string)
    requires LexLess(a, b)
    ensures !LexLess(b, a)
    decreases |a|
  {
    if |a| > 0 && a[0] == b[0] {
      LexLessAsymmetric(a[1..], b[1..]);
    }
  }

  lemma {:induction false} LexLessTransitive(a: string, b: string, c: string)
    requires LexLess(a, b) && LexLess(b, c)
    ensures LexLess(a, c)
    decreases |a|
  {
    if |a| > 0 && a[0] == b[0] && b[0] == c[0] {
      LexLessTransitive(a[1..], b[1..], c[1..]);
    }
  }

  /** Any two different strings are ordered one way or the other. */
  lemma {:induction false} LexLessTotal(a: string, b: string)
    requires a != b
    ensures LexLess(a, b) || LexLess(b, a)
    decreases |a|
  {
    if |a| > 0 && |b| > 0 && a[0] == b[0] {
      assert a == [a[0]] + a[1..] && b == [b[0]] + b[1..];
      LexLessTotal(a[1..], b[1..]);
    }
  }

  /** Sorted without duplicates, as a `BTreeSet<String>` iterates. */
  predicate StrictlyAscending(s: seq<string>) {
    forall i, j :: 0 <= i < j < |s| ==> LexLess(s[i], s[j])
  }

  lemma AscendingDistinct(s: seq<string>)
    requires StrictlyAscending(s)
    ensures forall i, j :: 0 <= i < j < |s| ==> s[i] != s[j]
  {
    forall i, j | 0 <= i < j < |s| ensures s[i] != s[j] {
      LexLessIrreflexive(s[i]);
    }
  }

  lemma SameElementsNonEmpty(s: seq<string>, t: seq<string>)
    requires s != []
    requires forall x :: x in s <==> x in t
    ensures t != []
  {
    assert s[0] in t;
  }

  /** A set of strings has exactly one sorted, duplicate-free listing. */
  lemma {:induction false} AscendingUnique(s: seq<string>, t: seq<string>)
    requires StrictlyAscending(s) && StrictlyAscending(t)
    requires forall x :: x in s <==> x in t
    ensures s == t
    decreases |s|
  {
    if s != [] {
      SameElementsNonEmpty(s, t);
    }
    if t != [] {
      SameElementsNonEmpty(t, s);
    }
    if s != [] {
      if s[0] != t[0] {
        assert s[0] in t;
        var p :| 0 <= p < |t| && t[p] == s[0];
        assert t[0] in s;
        var q :| 0 <= q < |s| && s[q] == t[0];
        LexLessAsymmetric(s[0], t[0]);
        assert false;
      }
      AscendingDistinct(s);
      AscendingDistinct(t);
      forall x ensures x in s[1..] <==> x in t[1..] {
        if x in s[1..] {
          var i :| 0 <= i < |s| - 1 && s[1..][i] == x;
          assert s[i + 1] == x && x in t;
          var j :| 0 <= j < |t| && t[j] == x;
          assert j != 0 && t[1..][j - 1] == x;
        }
        if x in t[1..] {
          var j :| 0 <= j < |t| - 1 && t[1..][j] == x;
          assert t[j + 1] == x && x in s;
          var i :| 0 <= i < |s| && s[i] == x;
          assert i != 0 && s[1..][i - 1] == x;
        }
      }
      AscendingUnique(s[1..], t[1..]);
      assert s == [s[0]] + s[1..] && t == [t[0]] + t[1..];
    }
  }

  lemma PrependAscending(x: string, s: seq<string>)
    requires StrictlyAscending(s)
    requires forall y :: y in s ==> LexLess(x, y)
    ensures StrictlyAscending([x] + s)
  {
    forall i, j | 0 <= i < j < |[x] + s| ensures LexLess(([x] + s)[i], ([x] + s)[j]) {
      if i == 0 {
        assert ([x] + s)[j] == s[j - 1];
      }
    }
  }

  lemma BelowHead(x: string, s: seq<string>)
    requires StrictlyAscending(s) && s != [] && LexLess(x, s[0])
    ensures forall y :: y in s ==> LexLess(x, y)
  {
    forall y | y in s ensures LexLess(x, y) {
      var k :| 0 <= k < |s| && s[k] == y;
      if k > 0 {
        LexLessTransitive(x, s[0], y);
      }
    }
  }

  /** `BTreeSet::insert`: adds `x` unless it is already present, keeping the
      listing sorted and duplicate-free. */
  function SetInsert(s: seq<string>, x: string): (r: seq<string>)
    requires StrictlyAscending(s)
    ensures StrictlyAscending(r)
    ensures forall y :: y in r <==> y in s || y == x
    decreases |s|
  {
    if s == [] then [x]
    else if x == s[0] then s
    else if LexLess(x, s[0]) then
      BelowHead(x, s);
      PrependAscending(x, s);
      [x] + s
    else
      LexLessTotal(x, s[0]);
      var rest := SetInsert(s[1..], x);
      assert forall y :: y in s[1..] ==> LexLess(s[0], y);
      PrependAscending(s[0], rest);
      assert s == [s[0]] + s[1..];
      [s[0]] + rest
  }

  /** `collect::<BTreeSet<_>>()` followed by iteration: the distinct strings
      of `xs`, in ascending order. */
  function CollectSorted(xs: seq<string>): (r: seq<string>)
    ensures StrictlyAscending(r)
    ensures forall y :: y in r <==> y in xs
    decreases |xs|
  {
    if xs == [] then []
    else
      var init := xs[..|xs| - 1];
      assert xs == init + [xs[|xs| - 1]];
      SetInsert(CollectSorted(init), xs[|xs| - 1])
  }
}
