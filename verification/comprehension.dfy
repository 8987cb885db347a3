/**
  Python's filtering list comprehension `[f(x) for x in xs if keep(x)]`,
  the shape of the line selection (app.py:63), of the cell cleaning
  (app.py:73) and of the row loop (app.py:71-75), and the facts about it the
  extractor's properties rest on: which inputs reach the output, where they
  land, and that the relative order of the input is kept.
 */
module Comprehension {

  /** `[f(x) for x in xs if keep(x)]`. */
  function Comprehend<A, B>(xs: seq<A>, keep: A -> bool, f: A -> B): (ys: seq<B>)
    ensures |ys| <= |xs|
    ensures forall k :: 0 <= k < |ys| ==>
              exists i :: 0 <= i < |xs| && keep(xs[i]) && ys[k] == f(xs[i])
    decreases |xs|
  {
    if |xs| == 0 then []
    else
      var rest := Comprehend(xs[1..], keep, f);
      var head := if keep(xs[0]) then [f(xs[0])] else [];
      var ys := head + rest;
      forall k | 0 <= k < |ys|
        ensures exists i :: 0 <= i < |xs| && keep(xs[i]) && ys[k] == f(xs[i])
      {
        if k < |head| {
          assert keep(xs[0]) && ys[k] == f(xs[0]);
        } else {
          assert ys[k] == rest[k - |head|];
          var i :| 0 <= i < |xs[1..]| && keep(xs[1..][i]) && rest[k - |head|] == f(xs[1..][i]);
          assert xs[1..][i] == xs[i + 1];
        }
      }
      ys
  }

  /** The input that output `k` comes from. */
  lemma {:induction false} ComprehendSource<A, B>(xs: seq<A>, keep: A -> bool, f: A -> B, k: nat) returns (i: nat)
    requires k < |Comprehend(xs, keep, f)|
    ensures i < |xs| && keep(xs[i]) && Comprehend(xs, keep, f)[k] == f(xs[i])
    decreases |xs|
  {
    var head := if keep(xs[0]) then [f(xs[0])] else [];
    assert Comprehend(xs, keep, f) == head + Comprehend(xs[1..], keep, f);
    if k < |head| {
      i := 0;
    } else {
      var j := ComprehendSource(xs[1..], keep, f, k - |head|);
      i := j + 1;
    }
  }

  /** The number of elements of `xs` that satisfy `keep`. */
  function Count<A>(xs: seq<A>, keep: A -> bool): nat
    decreases |xs|
  {
    if |xs| == 0 then 0
    else (if keep(xs[0]) then 1 else 0) + Count(xs[1..], keep)
  }

  /** One step of the comprehension: the first element, then the rest. */
  lemma ComprehendCons<A, B>(x: A, xs: seq<A>, keep: A -> bool, f: A -> B)
    ensures Comprehend([x] + xs, keep, f) == (if keep(x) then [f(x)] else []) + Comprehend(xs, keep, f)
  {
    assert ([x] + xs)[1..] == xs;
  }

  /** The comprehension distributes over concatenation: the outputs for an
      earlier part of the input all come before those for a later part. */
  lemma {:induction false} ComprehendAppend<A, B>(xs: seq<A>, ys: seq<A>, keep: A -> bool, f: A -> B)
    ensures Comprehend(xs + ys, keep, f) == Comprehend(xs, keep, f) + Comprehend(ys, keep, f)
    decreases |xs|
  {
    if |xs| > 0 {
      assert (xs + ys)[1..] == xs[1..] + ys;
      ComprehendAppend(xs[1..], ys, keep, f);
    } else {
      assert xs + ys == ys;
    }
  }

  /** One output per kept input. */
  lemma {:induction false} ComprehendCount<A, B>(xs: seq<A>, keep: A -> bool, f: A -> B)
    ensures |Comprehend(xs, keep, f)| == Count(xs, keep)
    decreases |xs|
  {
    if |xs| > 0 {
      ComprehendCount(xs[1..], keep, f);
    }
  }

  /** The kept element `xs[i]` is mapped to the output position given by the
      number of outputs of the elements before it. */
  lemma ComprehendIndex<A, B>(xs: seq<A>, keep: A -> bool, f: A -> B, i: nat)
    requires i < |xs| && keep(xs[i])
    ensures |Comprehend(xs[..i], keep, f)| < |Comprehend(xs, keep, f)|
    ensures Comprehend(xs, keep, f)[|Comprehend(xs[..i], keep, f)|] == f(xs[i])
  {
    assert xs == xs[..i] + xs[i..];
    ComprehendAppend(xs[..i], xs[i..], keep, f);
    assert xs[i..][0] == xs[i];
  }

  /** Kept elements keep their relative order in the output. */
  lemma ComprehendOrder<A, B>(xs: seq<A>, keep: A -> bool, f: A -> B, i: nat, j: nat)
    requires i < j <= |xs| && keep(xs[i])
    ensures |Comprehend(xs[..i], keep, f)| < |Comprehend(xs[..j], keep, f)|
  {
    assert xs[..j] == xs[..i] + xs[i..j];
    ComprehendAppend(xs[..i], xs[i..j], keep, f);
    assert xs[i..j][0] == xs[i];
    assert xs[i..j] == [xs[i]] + xs[i + 1..j];
    ComprehendAppend([xs[i]], xs[i + 1..j], keep, f);
  }

  /** A value is in the output exactly when it is `f` of some kept input. */
  lemma ComprehendMember<A, B>(xs: seq<A>, keep: A -> bool, f: A -> B, y: B)
    ensures y in Comprehend(xs, keep, f) <==> exists i :: 0 <= i < |xs| && keep(xs[i]) && y == f(xs[i])
  {
    if exists i :: 0 <= i < |xs| && keep(xs[i]) && y == f(xs[i]) {
      var i :| 0 <= i < |xs| && keep(xs[i]) && y == f(xs[i]);
      ComprehendIndex(xs, keep, f, i);
    }
  }

  /** The output is empty exactly when no input is kept. */
  lemma ComprehendEmpty<A, B>(xs: seq<A>, keep: A -> bool, f: A -> B)
    ensures Comprehend(xs, keep, f) == [] <==> forall i :: 0 <= i < |xs| ==> !keep(xs[i])
  {
    if exists i :: 0 <= i < |xs| && keep(xs[i]) {
      var i :| 0 <= i < |xs| && keep(xs[i]);
      ComprehendIndex(xs, keep, f, i);
    }
  }

  /** When every element is kept and `f` leaves it as it is, the comprehension is the identity. */
  lemma {:induction false} ComprehendIdentity<A>(xs: seq<A>, keep: A -> bool, f: A -> A)
    requires forall i :: 0 <= i < |xs| ==> keep(xs[i]) && f(xs[i]) == xs[i]
    ensures Comprehend(xs, keep, f) == xs
    decreases |xs|
  {
    if |xs| > 0 {
      ComprehendIdentity(xs[1..], keep, f);
      assert [xs[0]] + xs[1..] == xs;
    }
  }
}
