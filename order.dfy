/** The order Python's `list.sort()` puts strings in: `a <= b` on `str` compares
    code points from the left, and a proper prefix comes before the longer string. */
module Order {
  import opened Strings

  /** Python's `a <= b` on `str`. */
  predicate LessEq(a: string, b: string) {
    a == [] || (b != [] && (a[0] < b[0] || (a[0] == b[0] && LessEq(a[1..], b[1..]))))
  }

  /** Ascending order: every earlier element is `<=` every later one. */
  predicate Sorted(s: seq<string>) {
    forall i, j :: 0 <= i < j < |s| ==> LessEq(s[i], s[j])
  }

  /** `a` and `b` agree before position `k`, where `a` holds the smaller code point. */
  predicate FirstDifferenceBelow(a: string, b: string, k: int) {
    0 <= k < |a| && k < |b| && a[..k] == b[..k] && a[k] < b[k]
  }

  /** Dropping a common first character moves the first difference one place left. */
  lemma FirstDifferenceShift(a: string, b: string, k: int)
    requires a != [] && b != [] && a[0] == b[0] && 0 < k
    ensures FirstDifferenceBelow(a, b, k) <==> FirstDifferenceBelow(a[1..], b[1..], k - 1)
  {
    if k <= |a| && k <= |b| {
      assert a[..k] == [a[0]] + a[1..][..k - 1];
      assert b[..k] == [b[0]] + b[1..][..k - 1];
      if a[..k] == b[..k] {
        assert a[1..][..k - 1] == a[..k][1..] == b[..k][1..] == b[1..][..k - 1];
      }
      if k < |a| && k < |b| {
        assert a[1..][k - 1] == a[k] && b[1..][k - 1] == b[k];
      }
    }
  }

  /** Dropping a common first character keeps one string a prefix of the other. */
  lemma PrefixShift(a: string, b: string)
    requires a != [] && b != []
    ensures IsPrefix(a, b) <==> a[0] == b[0] && IsPrefix(a[1..], b[1..])
  {
    if |a| <= |b| {
      assert a == [a[0]] + a[1..];
      assert b[..|a|] == [b[0]] + b[1..][..|a| - 1];
    }
  }

  /** Reference reading of the order: `a` is a prefix of `b`, or the first
      position where they differ holds a smaller code point in `a`. */
  lemma {:induction false} LessEqIffFirstDifference(a: string, b: string)
    ensures LessEq(a, b) <==> IsPrefix(a, b) || exists k :: FirstDifferenceBelow(a, b, k)
  {
    if a != [] && b != [] {
      PrefixShift(a, b);
      if a[0] < b[0] {
        assert FirstDifferenceBelow(a, b, 0);
      } else if a[0] == b[0] {
        LessEqIffFirstDifference(a[1..], b[1..]);
        if exists k :: FirstDifferenceBelow(a, b, k) {
          var k :| FirstDifferenceBelow(a, b, k);
          FirstDifferenceShift(a, b, k);
        }
        if exists k :: FirstDifferenceBelow(a[1..], b[1..], k) {
          var k :| FirstDifferenceBelow(a[1..], b[1..], k);
          FirstDifferenceShift(a, b, k + 1);
        }
      }
    }
  }

  lemma {:induction false} Reflexive(a: string)
    ensures LessEq(a, a)
  {
    if a != [] {
      Reflexive(a[1..]);
    }
  }

  lemma {:induction false} Antisymmetric(a: string, b: string)
    requires LessEq(a, b) && LessEq(b, a)
    ensures a == b
  {
    if a != [] && b != [] {
      Antisymmetric(a[1..], b[1..]);
      assert a == [a[0]] + a[1..] && b == [b[0]] + b[1..];
    }
  }

  lemma {:induction false} Transitive(a: string, b: string, c: string)
    requires LessEq(a, b) && LessEq(b, c)
    ensures LessEq(a, c)
  {
    if a != [] && b != [] && c != [] && a[0] == b[0] == c[0] {
      Transitive(a[1..], b[1..], c[1..]);
    }
  }

  lemma {:induction false} Total(a: string, b: string)
    ensures LessEq(a, b) || LessEq(b, a)
  {
    if a != [] && b != [] && a[0] == b[0] {
      Total(a[1..], b[1..]);
    }
  }

  /** The first element of an ascending sequence is `<=` every element of it. */
  lemma SortedHeadLeast(s: seq<string>, x: string)
    requires Sorted(s) && x in s
    ensures LessEq(s[0], x)
  {
    var i :| 0 <= i < |s| && s[i] == x;
    if i == 0 {
      Reflexive(x);
    }
  }

  /** Removing the first element of two equal multisets with equal heads keeps them equal. */
  lemma SameTail(s: seq<string>, t: seq<string>)
    requires s != [] && t != [] && s[0] == t[0]
    requires multiset(s) == multiset(t)
    ensures multiset(s[1..]) == multiset(t[1..])
  {
    assert s == [s[0]] + s[1..] && t == [t[0]] + t[1..];
    assert multiset(s[1..]) == multiset(s) - multiset{s[0]};
    assert multiset(t[1..]) == multiset(t) - multiset{t[0]};
  }

  /** Two ascending arrangements of the same strings are the same sequence:
      sorting leaves nothing to chance, whatever order the input came in. */
  lemma {:induction false} SortedUnique(s: seq<string>, t: seq<string>)
    requires Sorted(s) && Sorted(t)
    requires multiset(s) == multiset(t)
    ensures s == t
    decreases |s|
  {
    if s == [] {
      assert |multiset(t)| == 0;
    } else {
      assert s[0] in multiset(t);
      assert t[0] in multiset(s);
      SortedHeadLeast(s, t[0]);
      SortedHeadLeast(t, s[0]);
      Antisymmetric(s[0], t[0]);
      SameTail(s, t);
      assert Sorted(s[1..]) && Sorted(t[1..]) by {
        forall i, j | 0 <= i < j < |s| - 1 ensures LessEq(s[1..][i], s[1..][j]) {
          assert s[1..][i] == s[i + 1] && s[1..][j] == s[j + 1];
        }
        forall i, j | 0 <= i < j < |t| - 1 ensures LessEq(t[1..][i], t[1..][j]) {
          assert t[1..][i] == t[i + 1] && t[1..][j] == t[j + 1];
        }
      }
      SortedUnique(s[1..], t[1..]);
      assert s == [s[0]] + s[1..] && t == [t[0]] + t[1..];
    }
  }
}
