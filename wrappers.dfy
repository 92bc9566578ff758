/** Small helper datatypes and sequence utilities shared by the dashboard model. */
module Wrappers {

  datatype Option<T> = None | Some(value: T)

  /** No element occurs twice. */
  predicate Distinct<T(==)>(s: seq<T>)
  {
    forall i, j :: 0 <= i < j < |s| ==> s[i] != s[j]
  }

  /** `sub` keeps some of the elements of `s`, in their order in `s`. */
  predicate Subsequence<T(==)>(sub: seq<T>, s: seq<T>)
    decreases |s|
  {
    if sub == [] then true
    else if s == [] then false
    else if sub[0] == s[0] then Subsequence(sub[1..], s[1..])
    else Subsequence(sub, s[1..])
  }

  lemma {:induction false} SubsequenceMembers<T>(sub: seq<T>, s: seq<T>)
    requires Subsequence(sub, s)
    ensures forall x :: x in sub ==> x in s
    decreases |s|
  {
    if sub != [] && s != [] {
      if sub[0] == s[0] {
        SubsequenceMembers(sub[1..], s[1..]);
        assert forall x :: x in sub ==> x == sub[0] || x in sub[1..];
      } else {
        SubsequenceMembers(sub, s[1..]);
      }
    }
  }

  /** Every sequence is a subsequence of itself. */
  lemma {:induction false} SubsequenceRefl<T>(xs: seq<T>)
    ensures Subsequence(xs, xs)
  {
    if xs != [] {
      SubsequenceRefl(xs[1..]);
    }
  }

  /** A subsequence is no longer than the sequence it is drawn from. */
  lemma {:induction false} SubsequenceLength<T>(sub: seq<T>, s: seq<T>)
    requires Subsequence(sub, s)
    ensures |sub| <= |s|
    decreases |s|
  {
    if sub != [] {
      if sub[0] == s[0] {
        SubsequenceLength(sub[1..], s[1..]);
      } else {
        SubsequenceLength(sub, s[1..]);
      }
    }
  }

  /** Appending the same element to both sides, or to the longer one only, keeps a subsequence. */
  lemma {:induction false} SubsequenceSnoc<T>(sub: seq<T>, s: seq<T>, x: T)
    requires Subsequence(sub, s)
    ensures Subsequence(sub, s + [x])
    ensures Subsequence(sub + [x], s + [x])
    decreases |s|
  {
    if s == [] {
      assert sub == [];
      assert [x][1..] == [];
    } else {
      assert (s + [x])[1..] == s[1..] + [x];
      if sub == [] {
        SubsequenceSnoc(sub, s[1..], x);
      } else if sub[0] == s[0] {
        SubsequenceSnoc(sub[1..], s[1..], x);
        assert (sub + [x])[1..] == sub[1..] + [x];
      } else {
        SubsequenceSnoc(sub, s[1..], x);
      }
    }
  }

  /** Putting an element in front of the longer side keeps a subsequence. */
  lemma {:induction false} SubsequenceCons<T>(sub: seq<T>, y: T, s: seq<T>)
    requires Subsequence(sub, s)
    ensures Subsequence(sub, [y] + s)
    decreases |s|, 1
  {
    assert ([y] + s)[1..] == s;
    if sub != [] && sub[0] == y {
      SubsequenceDropHead(sub, s);
    }
  }

  /** Dropping the first element of a subsequence keeps a subsequence. */
  lemma {:induction false} SubsequenceDropHead<T>(sub: seq<T>, s: seq<T>)
    requires sub != [] && Subsequence(sub, s)
    ensures Subsequence(sub[1..], s)
    decreases |s|, 0
  {
    assert s == [s[0]] + s[1..];
    if sub[0] == s[0] {
      SubsequenceCons(sub[1..], s[0], s[1..]);
    } else {
      SubsequenceDropHead(sub, s[1..]);
      SubsequenceCons(sub[1..], s[0], s[1..]);
    }
  }

  /** A subsequence of a subsequence of `s` is a subsequence of `s`. */
  lemma {:induction false} SubsequenceTrans<T>(a: seq<T>, b: seq<T>, c: seq<T>)
    requires Subsequence(a, b) && Subsequence(b, c)
    ensures Subsequence(a, c)
    decreases |c|
  {
    if a != [] {
      assert c == [c[0]] + c[1..];
      if b[0] != c[0] {
        SubsequenceTrans(a, b, c[1..]);
        SubsequenceCons(a, c[0], c[1..]);
      } else if a[0] == b[0] {
        SubsequenceTrans(a[1..], b[1..], c[1..]);
      } else {
        SubsequenceTrans(a, b[1..], c[1..]);
        SubsequenceCons(a, c[0], c[1..]);
      }
    }
  }

  /** A non-empty sequence is its prefix followed by its last element. */
  lemma SnocFacts<T>(s: seq<T>)
    requires s != []
    ensures forall x :: x in s <==> x in s[..|s| - 1] || x == s[|s| - 1]
    ensures Distinct(s) ==> Distinct(s[..|s| - 1]) && s[|s| - 1] !in s[..|s| - 1]
  {
  }

  /** Putting a new element in front keeps a sequence repetition-free. */
  lemma DistinctCons<T>(x: T, s: seq<T>)
    requires Distinct(s) && x !in s
    ensures Distinct([x] + s)
  {
  }

  /** Appending a new element keeps a sequence repetition-free. */
  lemma DistinctSnoc<T>(s: seq<T>, x: T)
    requires Distinct(s) && x !in s
    ensures Distinct(s + [x])
  {
  }

  /** A set holding the elements of a distinct sequence has as many members as the sequence. */
  lemma {:induction false} DistinctCard<T>(s: seq<T>)
    requires Distinct(s)
    ensures |set x | x in s| == |s|
  {
    if s != [] {
      var t := s[..|s| - 1];
      assert Distinct(t);
      DistinctCard(t);
      assert s == t + [s[|s| - 1]];
      assert (set x | x in s) == (set x | x in t) + {s[|s| - 1]};
      assert s[|s| - 1] !in t;
    }
  }

  /** Cardinality is monotone under inclusion. */
  lemma SubsetCard<T>(a: set<T>, b: set<T>)
    requires a <= b
    ensures |a| <= |b|
  {
    assert b == a + (b - a);
  }
}
