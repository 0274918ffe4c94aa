/** Runs of equal state: grouping a list of (state, amount) pairs into maximal runs.
    Both directions of the IR traffic are specified through this grouping. */
module Runs {
  datatype Run = Run(space: bool, amount: nat)

  /** Adds one pair at the end: it joins the last run or starts a new one. */
  function Extend(acc: seq<Run>, r: Run): seq<Run> {
    if acc != [] && acc[|acc| - 1].space == r.space
    then acc[|acc| - 1 := Run(r.space, acc[|acc| - 1].amount + r.amount)]
    else acc + [r]
  }

  /** Adds a list of pairs, left to right. */
  function Append(acc: seq<Run>, rs: seq<Run>): seq<Run> {
    if rs == [] then acc else Extend(Append(acc, rs[..|rs| - 1]), rs[|rs| - 1])
  }

  /** The maximal runs of a list of pairs. */
  function Group(rs: seq<Run>): seq<Run> {
    Append([], rs)
  }

  lemma Assoc<T>(a: seq<T>, b: seq<T>, c: seq<T>)
    ensures a + b + c == a + (b + c)
  {
  }

  ghost predicate Alternating(rs: seq<Run>) {
    forall i | 0 < i < |rs| :: rs[i].space != rs[i - 1].space
  }

  lemma {:induction false} AppendAlternates(acc: seq<Run>, rs: seq<Run>)
    requires Alternating(acc)
    ensures Alternating(Append(acc, rs))
    ensures |acc| <= |Append(acc, rs)| <= |acc| + |rs|
    ensures rs != [] ==> Append(acc, rs) != [] && Append(acc, rs)[|Append(acc, rs)| - 1].space == rs[|rs| - 1].space
  {
    if rs != [] {
      AppendAlternates(acc, rs[..|rs| - 1]);
    }
  }

  lemma {:induction false} AppendConcat(acc: seq<Run>, a: seq<Run>, b: seq<Run>)
    ensures Append(acc, a + b) == Append(Append(acc, a), b)
    decreases |b|
  {
    if b == [] {
      assert a + b == a;
    } else {
      AppendConcat(acc, a, b[..|b| - 1]);
      assert (a + b)[..|a + b| - 1] == a + b[..|b| - 1];
    }
  }

  /** Grouping first and appending after is the same as appending directly. */
  lemma {:induction false} AppendGroup(acc: seq<Run>, b: seq<Run>)
    ensures Append(acc, Group(b)) == Append(acc, b)
    decreases |b|
  {
    if b != [] {
      var init, r := b[..|b| - 1], b[|b| - 1];
      AppendGroup(acc, init);
      AppendExtend(acc, Group(init), r);
    }
  }

  lemma AppendExtend(acc: seq<Run>, g: seq<Run>, r: Run)
    ensures Append(acc, Extend(g, r)) == Extend(Append(acc, g), r)
  {
    var e := Extend(g, r);
    if g != [] && g[|g| - 1].space == r.space {
      assert e[..|e| - 1] == g[..|g| - 1];
    } else {
      assert e[..|e| - 1] == g;
    }
  }

  /** The runs of a concatenation are the runs of the parts, joined at the seam. */
  lemma GroupConcat(a: seq<Run>, b: seq<Run>)
    ensures Group(a + b) == Append(Group(a), Group(b))
  {
    AppendConcat([], a, b);
    AppendGroup(Group(a), b);
  }

  /** An alternating list is its own grouping. */
  lemma {:induction false} GroupAlternating(rs: seq<Run>)
    requires Alternating(rs)
    ensures Group(rs) == rs
  {
    if rs != [] {
      GroupAlternating(rs[..|rs| - 1]);
    }
  }
}
