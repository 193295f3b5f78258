/**
  The order Python's `sorted` uses on `str`: lexicographic by code point, a
  proper prefix before any of its extensions. A Dafny `char` is a Unicode
  scalar value, so comparing two `char`s compares code points.

  `sorted(s)` on a set of strings is modelled by `SortedStrings`, proved equal
  to `SortedSeq(s)`, the one strictly increasing sequence holding exactly the
  elements of `s`.
*/
module StringOrder {

  /** Strict lexicographic order on strings. */
  predicate Less(a: string, b: string)
  {
    if a == [] then b != []
    else if b == [] then false
    else a[0] < b[0] || (a[0] == b[0] && Less(a[1..], b[1..]))
  }

  lemma {:induction false} LessIrreflexive(a: string)
    ensures !Less(a, a)
  {
    if a != [] {
      LessIrreflexive(a[1..]);
    }
  }

  lemma {:induction false} LessTransitive(a: string, b: string, c: string)
    requires Less(a, b) && Less(b, c)
    ensures Less(a, c)
  {
    if a != [] && b != [] && c != [] && a[0] == b[0] && b[0] == c[0] {
      LessTransitive(a[1..], b[1..], c[1..]);
    }
  }

  lemma {:induction false} LessTotal(a: string, b: string)
    ensures a == b || Less(a, b) || Less(b, a)
  {
    if a != [] && b != [] && a[0] == b[0] {
      LessTotal(a[1..], b[1..]);
      if a[1..] == b[1..] {
        assert a == [a[0]] + a[1..] && b == [b[0]] + b[1..];
      }
    }
  }

  lemma LessAsymmetric(a: string, b: string)
    requires Less(a, b)
    ensures !Less(b, a)
  {
    if Less(b, a) {
      LessTransitive(a, b, a);
      LessIrreflexive(a);
    }
  }

  /** Whenever `a < c`, any `b` lies above `a` or below `c`. */
  lemma LessSplit(a: string, b: string, c: string)
    requires Less(a, c)
    ensures Less(a, b) || Less(b, c)
  {
    LessTotal(a, b);
    if Less(b, a) {
      LessTransitive(b, a, c);
    }
  }

  /** Strictly increasing: sorted and free of duplicates. */
  ghost predicate StrictlySorted(s: seq<string>)
  {
    forall i, j :: 0 <= i < j < |s| ==> Less(s[i], s[j])
  }

  function Elems(s: seq<string>): set<string>
  {
    set x | x in s
  }

  lemma ElemsConcat(a: seq<string>, b: seq<string>)
    ensures Elems(a + b) == Elems(a) + Elems(b)
  {
  }

  predicate IsLeast(m: string, s: set<string>)
  {
    m in s && forall y :: y in s && y != m ==> Less(m, y)
  }

  lemma {:induction false} LeastExists(s: set<string>)
    requires s != {}
    ensures exists m :: IsLeast(m, s)
    decreases |s|
  {
    var x :| x in s;
    if s != {x} {
      LeastExists(s - {x});
      var m :| IsLeast(m, s - {x});
      LessTotal(x, m);
      if Less(x, m) {
        forall y | y in s && y != x
          ensures Less(x, y)
        {
          if y != m {
            LessTransitive(x, m, y);
          }
        }
        assert IsLeast(x, s);
      } else {
        assert IsLeast(m, s);
      }
    } else {
      assert IsLeast(x, s);
    }
  }

  /** A strictly increasing sequence has no repeated element, so its
      length is the size of its element set. */
  lemma {:induction false} StrictlySortedCard(s: seq<string>)
    requires StrictlySorted(s)
    ensures |Elems(s)| == |s|
  {
    if s != [] {
      StrictlySortedCard(s[1..]);
      LessIrreflexive(s[0]);
      assert Elems(s) == {s[0]} + Elems(s[1..]);
      assert s[0] !in Elems(s[1..]);
    }
  }

  /** Putting the least element of `s` in front of the sorted rest of `s`
      sorts `s`. */
  lemma ConsLeast(m: string, t: seq<string>, s: set<string>)
    requires IsLeast(m, s) && StrictlySorted(t) && Elems(t) == s - {m}
    ensures StrictlySorted([m] + t) && Elems([m] + t) == s
  {
    ElemsConcat([m], t);
    forall j | 0 < j < |[m] + t|
      ensures Less(([m] + t)[0], ([m] + t)[j])
    {
      assert ([m] + t)[j] == t[j - 1] && t[j - 1] in Elems(t);
    }
  }

  /** The sorted form of a set: its least element, then the sorted form of
      the rest. */
  ghost function SortedSeq(s: set<string>): seq<string>
    decreases |s|
  {
    if s == {} then []
    else
      LeastExists(s);
      var m :| IsLeast(m, s);
      [m] + SortedSeq(s - {m})
  }

  /** The sorted form of a set is strictly increasing, holds exactly the
      set's elements, and is as long as the set is large. */
  lemma {:induction false} SortedSeqProperties(s: set<string>)
    ensures var r := SortedSeq(s); StrictlySorted(r) && Elems(r) == s && |r| == |s|
    decreases |s|
  {
    if s != {} {
      LeastExists(s);
      var m := SortedSeq(s)[0];
      assert IsLeast(m, s) && SortedSeq(s) == [m] + SortedSeq(s - {m});
      SortedSeqProperties(s - {m});
      ConsLeast(m, SortedSeq(s - {m}), s);
    }
  }

  /** Two strictly increasing sequences with the same elements are equal:
      the sorted form of a set is unique. */
  lemma {:induction false} StrictlySortedUnique(a: seq<string>, b: seq<string>)
    requires StrictlySorted(a) && StrictlySorted(b) && Elems(a) == Elems(b)
    ensures a == b
  {
    StrictlySortedCard(a);
    StrictlySortedCard(b);
    if a != [] {
      assert a[0] == b[0] by {
        assert b[0] in Elems(a) && a[0] in Elems(b);
        if a[0] != b[0] {
          var k :| 0 <= k < |a| && a[k] == b[0];
          var j :| 0 <= j < |b| && b[j] == a[0];
          assert Less(a[0], b[0]) && Less(b[0], a[0]);
          LessAsymmetric(a[0], b[0]);
        }
      }
      StrictlySortedDrop(a);
      StrictlySortedDrop(b);
      StrictlySortedUnique(a[1..], b[1..]);
      assert a == [a[0]] + a[1..] && b == [b[0]] + b[1..];
    }
  }

  /** Removing the head of a strictly increasing sequence removes exactly
      that element from its element set. */
  lemma StrictlySortedDrop(a: seq<string>)
    requires a != [] && StrictlySorted(a)
    ensures StrictlySorted(a[1..]) && Elems(a[1..]) == Elems(a) - {a[0]}
  {
    LessIrreflexive(a[0]);
    assert a == [a[0]] + a[1..];
    assert a[0] !in a[1..];
  }

  /** Python's `sorted` applied to a set of strings. */
  method SortedStrings(s: set<string>) returns (r: seq<string>)
    ensures r == SortedSeq(s)
  {
    r := [];
    var rest := s;
    while rest != {}
      invariant StrictlySorted(r)
      invariant Elems(r) !! rest && Elems(r) + rest == s
      invariant forall i, y :: 0 <= i < |r| && y in rest ==> Less(r[i], y)
      decreases |rest|
    {
      LeastExists(rest);
      var m :| IsLeast(m, rest);
      r := r + [m];
      rest := rest - {m};
    }
    SortedSeqProperties(s);
    StrictlySortedUnique(r, SortedSeq(s));
  }
}
