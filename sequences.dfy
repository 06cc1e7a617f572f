/**
  The filter-and-map loop shared by the scripts: walk a list, turn each
  element into at most one output element, and append it.
 */
module Sequences {
  import opened Options

  /** What the loop appends for one element. */
  function Used<R>(r: Option<R>): seq<R> {
    match r
    case Some(x) => [x]
    case None => []
  }

  /** The outputs of f over xs, in order, skipping the elements f maps to
      None. */
  function Collect<T, R>(xs: seq<T>, f: T -> Option<R>): seq<R> {
    if xs == [] then [] else Collect(xs[..|xs| - 1], f) + Used(f(xs[|xs| - 1]))
  }

  /** Each element contributes at most one output. */
  lemma {:induction false} CollectLength<T, R>(xs: seq<T>, f: T -> Option<R>)
    ensures |Collect(xs, f)| <= |xs|
  {
    if xs != [] {
      CollectLength(xs[..|xs| - 1], f);
    }
  }

  /** Elements are handled independently: the outputs of a concatenation are
      the outputs of its parts, in order. */
  lemma {:induction false} CollectConcat<T, R>(a: seq<T>, b: seq<T>, f: T -> Option<R>)
    ensures Collect(a + b, f) == Collect(a, f) + Collect(b, f)
  {
    if b == [] {
      assert a + b == a;
    } else {
      var ab, last := a + b, b[|b| - 1];
      CollectConcat(a, b[..|b| - 1], f);
      assert ab[..|ab| - 1] == a + b[..|b| - 1] && ab[|ab| - 1] == last;
      calc {
        Collect(ab, f);
        Collect(a + b[..|b| - 1], f) + Used(f(last));
        (Collect(a, f) + Collect(b[..|b| - 1], f)) + Used(f(last));
        Collect(a, f) + (Collect(b[..|b| - 1], f) + Used(f(last)));
      }
    }
  }

  /** An output is there exactly when some element produces it. */
  lemma CollectMembers<T, R>(xs: seq<T>, f: T -> Option<R>, y: R)
    ensures y in Collect(xs, f) <==> exists i :: 0 <= i < |xs| && f(xs[i]) == Some(y)
  {
    if y in Collect(xs, f) {
      CollectMemberFrom(xs, f, y);
    } else {
      forall i | 0 <= i < |xs| ensures f(xs[i]) != Some(y) {
        if f(xs[i]).Some? {
          CollectMemberOf(xs, f, i);
        }
      }
    }
  }

  /** Every output is produced by some element. */
  lemma {:induction false} CollectMemberFrom<T, R>(xs: seq<T>, f: T -> Option<R>, y: R)
    requires y in Collect(xs, f)
    ensures exists i :: 0 <= i < |xs| && f(xs[i]) == Some(y)
  {
    var init, last := xs[..|xs| - 1], xs[|xs| - 1];
    if y in Collect(init, f) {
      CollectMemberFrom(init, f, y);
      var i :| 0 <= i < |init| && f(init[i]) == Some(y);
      assert xs[i] == init[i];
    } else {
      assert f(xs[|xs| - 1]) == Some(y);
    }
  }

  /** Every element that produces an output has it in the result. */
  lemma {:induction false} CollectMemberOf<T, R>(xs: seq<T>, f: T -> Option<R>, i: nat)
    requires i < |xs| && f(xs[i]).Some?
    ensures f(xs[i]).value in Collect(xs, f)
  {
    var init := xs[..|xs| - 1];
    if i < |init| {
      assert init[i] == xs[i];
      CollectMemberOf(init, f, i);
    }
  }

  /** When every element produces an output, Collect is a plain map. */
  lemma {:induction false} CollectAll<T, R>(xs: seq<T>, f: T -> Option<R>)
    requires forall i :: 0 <= i < |xs| ==> f(xs[i]).Some?
    ensures |Collect(xs, f)| == |xs|
    ensures forall i :: 0 <= i < |xs| ==> Collect(xs, f)[i] == f(xs[i]).value
  {
    if xs != [] {
      var init := xs[..|xs| - 1];
      CollectAll(init, f);
    }
  }
}
