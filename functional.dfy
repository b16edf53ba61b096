/** The small combinators of lib/utility/functional.ts: a conditional that
    takes its branches as thunks, a null-guarded application, and a map that
    drops the empty options. JavaScript's `null` and `undefined` are kept
    apart, because `block` treats them differently. */
module Functional {
  import opened Documents

  /** A JavaScript value that may be `null` or `undefined`. */
  datatype Nullable<+T> = Null | Undefined | Defined(value: T)

  /** How a call ends: with a value, or with a TypeError from calling
      something that is not a function. */
  datatype Outcome<+W> = Returns(value: Nullable<W>) | ThrowsTypeError

  /** `ifblock(condition).let(_do, _else)`: `_do()` exactly when the
      condition is strictly `true`, `_else()` for anything else. */
  function IfBlock<W>(condition: Nullable<bool>, doBranch: () -> W, elseBranch: () -> W): (r: W)
    ensures condition == Defined(true) ==> r == doBranch()
    ensures condition != Defined(true) ==> r == elseBranch()
  {
    match condition
    case Defined(true) => doBranch()
    case _ => elseBranch()
  }

  /** `block(func, _else)(value)`: `func(value)` for a present value; for
      `null` or `undefined`, `_else()` unless `_else` is exactly `null`,
      in which case `null`. An omitted `_else` is `undefined`, passes the
      `!== null` test and is then called, which throws. */
  function Block<T, W>(func: T -> W, els: Nullable<() -> W>, value: Nullable<T>): (r: Outcome<W>)
    ensures value.Defined? ==> r == Returns(Defined(func(value.value)))
    ensures !value.Defined? && els.Defined? ==> r == Returns(Defined(els.value()))
    ensures !value.Defined? && els.Null? ==> r == Returns(Null)
    ensures r.ThrowsTypeError? <==> !value.Defined? && els.Undefined?
  {
    match value
    case Defined(v) => Returns(Defined(func(v)))
    case _ =>
      match els
      case Defined(e) => Returns(Defined(e()))
      case Null => Returns(Null)
      case Undefined => ThrowsTypeError
  }

  // ---------------------------------------------------------------------
  // mapNotNone, stage by stage as the source chains them.

  function MapSeq<T, U>(f: T -> U, xs: seq<T>): (r: seq<U>)
    ensures |r| == |xs|
    ensures forall i :: 0 <= i < |xs| ==> r[i] == f(xs[i])
  {
    if xs == [] then [] else [f(xs[0])] + MapSeq(f, xs[1..])
  }

  /** `.filter(e => e.isDefined)` */
  function KeepDefined<W>(os: seq<Option<W>>): (r: seq<Option<W>>)
    ensures |r| <= |os|
    ensures forall i :: 0 <= i < |r| ==> r[i].Some?
  {
    if os == [] then []
    else if os[0].Some? then [os[0]] + KeepDefined(os[1..])
    else KeepDefined(os[1..])
  }

  /** `.map(e => e.getOrElse(null))` over options that are all defined. */
  function Unwrap<W>(os: seq<Option<W>>): (r: seq<W>)
    requires forall i :: 0 <= i < |os| ==> os[i].Some?
    ensures |r| == |os|
    ensures forall i :: 0 <= i < |os| ==> r[i] == os[i].value
  {
    if os == [] then [] else [os[0].value] + Unwrap(os[1..])
  }

  /** `mapNotNone(func)(array)` */
  function MapNotNone<T, W>(f: T -> Option<W>, xs: seq<T>): (r: seq<W>)
    ensures |r| <= |xs|
  {
    Unwrap(KeepDefined(MapSeq(f, xs)))
  }

  /** The contents of the defined results of `f` over `xs`, in input order,
      gathered in one pass: the reference the pipeline is compared with. */
  function Collect<T, W>(f: T -> Option<W>, xs: seq<T>): seq<W>
  {
    if xs == [] then []
    else match f(xs[0])
      case Some(w) => [w] + Collect(f, xs[1..])
      case None => Collect(f, xs[1..])
  }

  /** How many elements of `xs` `f` maps to a defined option. */
  function CountDefined<T, W>(f: T -> Option<W>, xs: seq<T>): (n: nat)
    ensures n <= |xs|
  {
    if xs == [] then 0 else (if f(xs[0]).Some? then 1 else 0) + CountDefined(f, xs[1..])
  }

  /** The map-filter-unwrap pipeline gathers exactly the defined results in
      input order. */
  lemma {:induction false} MapNotNoneIsCollect<T, W>(f: T -> Option<W>, xs: seq<T>)
    ensures MapNotNone(f, xs) == Collect(f, xs)
  {
    if xs != [] {
      MapNotNoneIsCollect(f, xs[1..]);
      var os := MapSeq(f, xs);
      assert os[1..] == MapSeq(f, xs[1..]);
      if f(xs[0]).Some? {
        assert KeepDefined(os) == [os[0]] + KeepDefined(os[1..]);
        assert Unwrap(KeepDefined(os)) == [os[0].value] + Unwrap(KeepDefined(os[1..])) by {
          assert KeepDefined(os)[1..] == KeepDefined(os[1..]);
        }
      } else {
        assert KeepDefined(os) == KeepDefined(os[1..]);
      }
    }
  }

  /** The result is as long as the number of defined results, hence never
      longer than the input. */
  lemma {:induction false} CollectLength<T, W>(f: T -> Option<W>, xs: seq<T>)
    ensures |Collect(f, xs)| == CountDefined(f, xs) <= |xs|
  {
    if xs != [] {
      CollectLength(f, xs[1..]);
    }
  }

  /** `w` is in the result exactly when some element of `xs` maps to `Some(w)`. */
  lemma {:induction false} CollectMembers<T, W>(f: T -> Option<W>, xs: seq<T>, w: W)
    ensures w in Collect(f, xs) <==> exists i :: 0 <= i < |xs| && f(xs[i]) == Some(w)
  {
    if xs != [] {
      CollectMembers(f, xs[1..], w);
      if w in Collect(f, xs) && !(f(xs[0]) == Some(w)) {
        var i :| 0 <= i < |xs[1..]| && f(xs[1..][i]) == Some(w);
        assert f(xs[i + 1]) == Some(w);
      }
      if exists i :: 0 <= i < |xs| && f(xs[i]) == Some(w) {
        var i :| 0 <= i < |xs| && f(xs[i]) == Some(w);
        if i > 0 {
          assert f(xs[1..][i - 1]) == Some(w);
        }
      }
    }
  }

  /** `mapNotNone` collects in input order, keeps every defined result and
      nothing else, and its length counts the defined results. */
  lemma MapNotNoneSpec<T, W>(f: T -> Option<W>, xs: seq<T>)
    ensures |MapNotNone(f, xs)| == CountDefined(f, xs) <= |xs|
    ensures forall w :: w in MapNotNone(f, xs) <==> exists i :: 0 <= i < |xs| && f(xs[i]) == Some(w)
  {
    MapNotNoneIsCollect(f, xs);
    CollectLength(f, xs);
    forall w ensures w in MapNotNone(f, xs) <==> exists i :: 0 <= i < |xs| && f(xs[i]) == Some(w) {
      CollectMembers(f, xs, w);
    }
  }
}
