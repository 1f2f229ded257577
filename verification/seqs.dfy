/** Sequence and string helpers: order-preserving filtering, Python's `str.join`,
    and the splitting that undoes a join. */
module Seqs {

  /** The elements `x` of `s` with `p(x) == keep`, in their original order and with
      repetitions kept, as a Python list comprehension with an `if` clause produces them. */
  function Filter<T>(s: seq<T>, p: T -> bool, keep: bool): (r: seq<T>)
    ensures |r| <= |s|
  {
    if |s| == 0 then []
    else (if p(s[0]) == keep then [s[0]] else []) + Filter(s[1..], p, keep)
  }

  /** An element is kept iff it occurs in `s` and `p` gives it the wanted value. */
  lemma {:induction false} FilterMembership<T>(s: seq<T>, p: T -> bool, keep: bool, x: T)
    ensures x in Filter(s, p, keep) <==> x in s && p(x) == keep
  {
    if |s| > 0 {
      FilterMembership(s[1..], p, keep, x);
      assert s == [s[0]] + s[1..];
    }
  }

  /** Nothing is kept when no element has the wanted value. */
  lemma {:induction false} FilterNoneKept<T>(s: seq<T>, p: T -> bool, keep: bool)
    requires forall i :: 0 <= i < |s| ==> p(s[i]) != keep
    ensures Filter(s, p, keep) == []
  {
    if |s| > 0 {
      FilterNoneKept(s[1..], p, keep);
    }
  }

  /** Everything is kept when every element has the wanted value. */
  lemma {:induction false} FilterAllKept<T>(s: seq<T>, p: T -> bool, keep: bool)
    requires forall i :: 0 <= i < |s| ==> p(s[i]) == keep
    ensures Filter(s, p, keep) == s
  {
    if |s| > 0 {
      FilterAllKept(s[1..], p, keep);
      assert [s[0]] + s[1..] == s;
    }
  }

  /** When `a` occurs exactly once in `s` and is the only element with the wanted
      value, filtering keeps `a` alone, wherever it sits in `s`. */
  lemma {:induction false} FilterSingle<T>(s: seq<T>, p: T -> bool, keep: bool, a: T)
    requires multiset(s)[a] == 1 && p(a) == keep
    requires forall i :: 0 <= i < |s| && p(s[i]) == keep ==> s[i] == a
    ensures Filter(s, p, keep) == [a]
  {
    assert a in multiset(s);
    assert s == [s[0]] + s[1..];
    if s[0] == a {
      assert multiset(s[1..])[a] == 0;
      forall i | 0 <= i < |s[1..]|
        ensures p(s[1..][i]) != keep
      {
        assert s[1..][i] in multiset(s[1..]);
        assert s[1..][i] == s[i + 1];
      }
      FilterNoneKept(s[1..], p, keep);
    } else {
      FilterSingle(s[1..], p, keep, a);
    }
  }

  /** Filtering distributes over concatenation, so the relative order of kept elements
      is the order of the input. */
  lemma {:induction false} FilterAppend<T>(s: seq<T>, t: seq<T>, p: T -> bool, keep: bool)
    ensures Filter(s + t, p, keep) == Filter(s, p, keep) + Filter(t, p, keep)
  {
    if |s| == 0 {
      assert s + t == t;
    } else {
      var head := if p(s[0]) == keep then [s[0]] else [];
      assert (s + t)[0] == s[0];
      assert (s + t)[1..] == s[1..] + t;
      assert Filter(s + t, p, keep) == head + Filter(s[1..] + t, p, keep);
      FilterAppend(s[1..], t, p, keep);
      assert head + (Filter(s[1..], p, keep) + Filter(t, p, keep))
             == (head + Filter(s[1..], p, keep)) + Filter(t, p, keep);
    }
  }

  /** Appending one element keeps it at the end exactly when `p` gives it the wanted value. */
  lemma FilterSnoc<T>(s: seq<T>, x: T, p: T -> bool, keep: bool)
    ensures Filter(s + [x], p, keep) == Filter(s, p, keep) + (if p(x) == keep then [x] else [])
  {
    FilterAppend(s, [x], p, keep);
    assert [x][1..] == [];
  }

  /** Keeping by `p` and keeping by its negation split `s` without loss or duplication. */
  lemma {:induction false} FilterPartition<T>(s: seq<T>, p: T -> bool)
    ensures multiset(Filter(s, p, true)) + multiset(Filter(s, p, false)) == multiset(s)
    ensures |Filter(s, p, true)| + |Filter(s, p, false)| == |s|
  {
    if |s| > 0 {
      FilterPartition(s[1..], p);
      assert s == [s[0]] + s[1..];
    }
  }

  /** Two predicates that agree on every element of `s` filter it identically. */
  lemma {:induction false} FilterCongruent<T>(s: seq<T>, p: T -> bool, q: T -> bool, keep: bool)
    requires forall i :: 0 <= i < |s| ==> p(s[i]) == q(s[i])
    ensures Filter(s, p, keep) == Filter(s, q, keep)
  {
    if |s| > 0 {
      FilterCongruent(s[1..], p, q, keep);
    }
  }

  /** Python's `sep.join(xs)`: the elements of `xs` with `sep` between neighbours. */
  function Join(xs: seq<string>, sep: string): (r: string)
    ensures |xs| == 0 ==> r == ""
    ensures |xs| > 0 ==> xs[0] <= r
    ensures |xs| > 0 ==> |r| >= |xs[0]| + (|xs| - 1) * |sep|
  {
    if |xs| == 0 then ""
    else if |xs| == 1 then xs[0]
    else xs[0] + sep + Join(xs[1..], sep)
  }

  /** `sep` occurs in `s` starting at index `i`. */
  predicate OccursAt(s: string, sep: string, i: int)
  {
    0 <= i && i + |sep| <= |s| && s[i..i + |sep|] == sep
  }

  ghost predicate Contains(s: string, sep: string)
  {
    exists i :: OccursAt(s, sep, i)
  }

  /** Python's `s.split(sep)` for a non-empty separator: the pieces between the
      left-to-right, non-overlapping occurrences of `sep`. */
  function Split(s: string, sep: string): (r: seq<string>)
    requires |sep| > 0
    ensures |r| >= 1
    decreases |s|
  {
    if |s| < |sep| then [s]
    else if s[..|sep|] == sep then [""] + Split(s[|sep|..], sep)
    else
      var rest := Split(s[1..], sep);
      [[s[0]] + rest[0]] + rest[1..]
  }

  /** The separator the report places between affected transfers. */
  const ListSeparator := ", "

  lemma {:induction false} SplitWithoutSeparator(e: string)
    requires !Contains(e, ListSeparator)
    ensures Split(e, ListSeparator) == [e]
  {
    if |e| >= |ListSeparator| {
      assert !OccursAt(e, ListSeparator, 0);
      forall i | OccursAt(e[1..], ListSeparator, i)
        ensures false
      {
        assert e[1..][i..i + 2] == e[i + 1..i + 3];
        assert OccursAt(e, ListSeparator, i + 1);
      }
      SplitWithoutSeparator(e[1..]);
      assert [e[0]] + e[1..] == e;
    }
  }

  /** A piece free of `", "` followed by a separator is split off as one piece. */
  lemma {:induction false} SplitLeadingPiece(e: string, t: string)
    requires !Contains(e, ListSeparator)
    requires |t| >= 2 && t[..2] == ListSeparator
    ensures Split(e + t, ListSeparator) == [e] + Split(t[2..], ListSeparator)
  {
    var s := e + t;
    if |e| == 0 {
      assert s == t;
    } else {
      if |e| >= 2 {
        assert !OccursAt(e, ListSeparator, 0);
        assert s[..2] == e[..2];
      } else {
        assert s[1] == t[0] == ',';
      }
      assert s[..2] != ListSeparator;
      forall i | OccursAt(e[1..], ListSeparator, i)
        ensures false
      {
        assert e[1..][i..i + 2] == e[i + 1..i + 3];
        assert OccursAt(e, ListSeparator, i + 1);
      }
      assert s[1..] == e[1..] + t;
      SplitLeadingPiece(e[1..], t);
      assert [e[0]] + e[1..] == e;
    }
  }

  /** Splitting at `", "` undoes joining with `", "` when no piece contains the separator. */
  lemma {:induction false} SplitJoin(xs: seq<string>)
    requires |xs| >= 1
    requires forall i :: 0 <= i < |xs| ==> !Contains(xs[i], ListSeparator)
    ensures Split(Join(xs, ListSeparator), ListSeparator) == xs
  {
    if |xs| == 1 {
      SplitWithoutSeparator(xs[0]);
    } else {
      var t := ListSeparator + Join(xs[1..], ListSeparator);
      assert Join(xs, ListSeparator) == xs[0] + t;
      assert t[..2] == ListSeparator && t[2..] == Join(xs[1..], ListSeparator);
      SplitLeadingPiece(xs[0], t);
      SplitJoin(xs[1..]);
      assert [xs[0]] + xs[1..] == xs;
    }
  }
}
