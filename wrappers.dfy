/** Failure-carrying wrappers shared by every module of the model. */
module Wrappers {

  /** A value that may be missing (JavaScript `undefined`/`null`). */
  datatype Option<+T> = None | Some(value: T)

  /** The outcome of an operation that can throw: `Err` carries the reason. */
  datatype Result<+T, +E> = Ok(value: T) | Err(error: E)

  /** The values that are present, in order. */
  function Present<T>(xs: seq<Option<T>>): seq<T> {
    if xs == [] then []
    else (if xs[0].Some? then [xs[0].value] else []) + Present(xs[1..])
  }

  /** How many values are present. */
  function CountPresent<T>(xs: seq<Option<T>>): (n: nat)
    ensures n <= |xs|
  {
    if xs == [] then 0 else (if xs[0].Some? then 1 else 0) + CountPresent(xs[1..])
  }

  lemma {:induction false} PresentAppend<T>(a: seq<Option<T>>, b: seq<Option<T>>)
    ensures Present(a + b) == Present(a) + Present(b)
  {
    if a == [] {
      assert a + b == b;
    } else {
      var head := if a[0].Some? then [a[0].value] else [];
      calc {
        Present(a + b);
      == { assert (a + b)[0] == a[0] && (a + b)[1..] == a[1..] + b; }
        head + Present(a[1..] + b);
      == { PresentAppend(a[1..], b); }
        head + (Present(a[1..]) + Present(b));
      }
    }
  }

  /** One more element: the present values so far, then that element's value when it is present. */
  lemma PresentSnoc<T>(xs: seq<Option<T>>, i: nat)
    requires i < |xs|
    ensures Present(xs[..i + 1]) == Present(xs[..i]) + (if xs[i].Some? then [xs[i].value] else [])
  {
    assert xs[..i + 1] == xs[..i] + [xs[i]];
    PresentAppend(xs[..i], [xs[i]]);
    assert [xs[i]][1..] == [];
  }

  lemma {:induction false} PresentCount<T>(xs: seq<Option<T>>)
    ensures |Present(xs)| == CountPresent(xs)
  {
    if xs != [] {
      PresentCount(xs[1..]);
    }
  }

  /** Two lists present at the same positions have the same count. */
  lemma {:induction false} SameCount<S, T>(xs: seq<Option<S>>, ys: seq<Option<T>>)
    requires |xs| == |ys| && forall i :: 0 <= i < |xs| ==> (xs[i].Some? <==> ys[i].Some?)
    ensures CountPresent(xs) == CountPresent(ys)
  {
    if xs != [] {
      SameCount(xs[1..], ys[1..]);
    }
  }

  /** A missing value contributes nothing. */
  lemma PresentDrop<T>(xs: seq<Option<T>>, i: nat)
    requires i < |xs| && xs[i].None?
    ensures Present(xs) == Present(xs[..i] + xs[i + 1..])
  {
    assert xs == (xs[..i] + [xs[i]]) + xs[i + 1..];
    PresentAppend(xs[..i] + [xs[i]], xs[i + 1..]);
    PresentAppend(xs[..i], [xs[i]]);
    PresentAppend(xs[..i], xs[i + 1..]);
    assert Present([xs[i]]) == [];
  }

  /** With every value present, nothing is dropped. */
  lemma {:induction false} AllPresent<T>(xs: seq<Option<T>>)
    requires forall i :: 0 <= i < |xs| ==> xs[i].Some?
    ensures |Present(xs)| == |xs| && forall i :: 0 <= i < |xs| ==> Present(xs)[i] == xs[i].value
  {
    if xs != [] {
      AllPresent(xs[1..]);
    }
  }

  /** Where a present value came from. */
  lemma {:induction false} PresentMember<T>(xs: seq<Option<T>>, x: T)
    requires x in Present(xs)
    ensures exists i :: 0 <= i < |xs| && xs[i] == Some(x)
  {
    var head := if xs[0].Some? then [xs[0].value] else [];
    if x !in head {
      PresentMember(xs[1..], x);
      var i :| 0 <= i < |xs[1..]| && xs[1..][i] == Some(x);
      assert xs[i + 1] == Some(x);
    }
  }

  /** The lists one after the other (`push(...xs)` for each list in turn). */
  function Concat<T>(xss: seq<seq<T>>): seq<T> {
    if xss == [] then [] else xss[0] + Concat(xss[1..])
  }

  lemma {:induction false} ConcatAppend<T>(a: seq<seq<T>>, b: seq<seq<T>>)
    ensures Concat(a + b) == Concat(a) + Concat(b)
  {
    if a == [] {
      assert a + b == b;
    } else {
      calc {
        Concat(a + b);
      == { assert (a + b)[0] == a[0] && (a + b)[1..] == a[1..] + b; }
        a[0] + Concat(a[1..] + b);
      == { ConcatAppend(a[1..], b); }
        a[0] + (Concat(a[1..]) + Concat(b));
      }
    }
  }

  /** Every element of the concatenation comes from one of the lists. */
  lemma {:induction false} ConcatMember<T>(xss: seq<seq<T>>, x: T)
    requires x in Concat(xss)
    ensures exists i :: 0 <= i < |xss| && x in xss[i]
  {
    if x !in xss[0] {
      ConcatMember(xss[1..], x);
      var i :| 0 <= i < |xss[1..]| && x in xss[1..][i];
      assert xss[i + 1] == xss[1..][i];
    }
  }
}
