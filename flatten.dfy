/**
 * `_pushFlat` (recursive flattening into a shared result array) and
 * `_flatMap` (forEach-collected callback results, flattened one level).
 */
module Flatten {
  import opened JsValues
  import Traversal

  /** How many levels of nesting are still to be opened. */
  datatype Depth = Finite(n: nat) | Infinite

  /** The first argument of `_pushFlat`, as far as the model follows it. */
  datatype DepthArg = Omitted | InfinityArg | Number(n: int)

  const Two32: int := 0x1_0000_0000

  /** The depth `_pushFlat` works with: unbounded for `Infinity`, otherwise
      the argument shifted right by zero bits, unsigned. That shift maps
      `undefined` to 0, so an omitted depth opens no level at all, and it
      wraps a negative depth to a huge one. */
  function DepthOf(arg: DepthArg): (d: Depth)
    ensures arg.Omitted? ==> d == Finite(0)
    ensures arg.InfinityArg? <==> d.Infinite?
    ensures d.Finite? ==> d.n < Two32
    ensures arg.Number? && 0 <= arg.n < Two32 ==> d == Finite(arg.n)
    ensures arg.Number? && -Two32 <= arg.n < 0 ==> d == Finite(arg.n + Two32)
  {
    match arg
    case Omitted => Finite(0)
    case InfinityArg => Infinite
    case Number(n) => Finite(n % Two32)
  }

  /** `deep > 0` */
  predicate Opens(d: Depth) {
    d.Infinite? || d.n > 0
  }

  /** `deep - 1`, with `Infinity - 1 == Infinity`. */
  function Lower(d: Depth): Depth
    requires Opens(d)
  {
    if d.Infinite? then Infinite else Finite(d.n - 1)
  }

  /** What one element contributes to the result: nothing for a hole, the
      flattened contents of an array while a level may still be opened, and
      the element itself otherwise. */
  function FlatElem(v: Value, d: Depth): seq<Value>
    decreases v, 1
  {
    match v
    case Undef => []
    case Arr(t) => if Opens(d) then Flat(t, Lower(d)) else [v]
    case _ => [v]
  }

  /** The elements `_pushFlat` appends, in order, for array `s` at depth `d`. */
  function Flat(s: seq<Value>, d: Depth): seq<Value>
    decreases s, 0
  {
    if s == [] then [] else FlatElem(s[0], d) + Flat(s[1..], d)
  }

  /** The elements of `s` other than holes, in order. */
  function Defined(s: seq<Value>): seq<Value> {
    if s == [] then [] else (if s[0] == Undef then [] else [s[0]]) + Defined(s[1..])
  }

  /** How deeply arrays are nested inside `s`. */
  function NestDepth(s: seq<Value>): nat
    decreases s, 0
  {
    if s == [] then 0
    else
      var h := NestDepthElem(s[0]);
      var t := NestDepth(s[1..]);
      if h < t then t else h
  }

  function NestDepthElem(v: Value): nat
    decreases v, 1
  {
    if v.Arr? then 1 + NestDepth(v.elems) else 0
  }

  // ----- properties of the specification -----

  lemma {:induction false} FlatAppend(a: seq<Value>, b: seq<Value>, d: Depth)
    ensures Flat(a + b, d) == Flat(a, d) + Flat(b, d)
  {
    if a == [] {
      assert a + b == b;
    } else {
      assert (a + b)[1..] == a[1..] + b;
      FlatAppend(a[1..], b, d);
    }
  }

  /** Depth 0 (what an omitted argument gives) keeps every element that is
      not a hole, in order and unchanged; an array without holes comes back
      equal to itself. */
  lemma {:induction false} FlatZeroKeepsElements(s: seq<Value>)
    ensures Flat(s, Finite(0)) == Defined(s)
    ensures (forall i :: 0 <= i < |s| ==> s[i] != Undef) ==> Flat(s, Finite(0)) == s
  {
    if s != [] {
      FlatZeroKeepsElements(s[1..]);
      assert s == [s[0]] + s[1..];
    }
  }

  /** With unbounded depth the result holds no array and no hole. */
  lemma {:induction false} FlatInfiniteLeaves(s: seq<Value>)
    ensures forall k :: 0 <= k < |Flat(s, Infinite)| ==>
      !Flat(s, Infinite)[k].Arr? && Flat(s, Infinite)[k] != Undef
    decreases s
  {
    if s != [] {
      FlatInfiniteLeaves(s[1..]);
      var head := FlatElem(s[0], Infinite);
      if s[0].Arr? {
        FlatInfiniteLeaves(s[0].elems);
        assert head == Flat(s[0].elems, Infinite);
      }
      assert forall k :: 0 <= k < |head| ==> !head[k].Arr? && head[k] != Undef;
      assert Flat(s, Infinite) == head + Flat(s[1..], Infinite);
    }
  }

  /** A finite depth at least the nesting depth flattens as far as unbounded depth. */
  lemma {:induction false} FlatDeepEnough(s: seq<Value>, n: nat)
    requires NestDepth(s) <= n
    ensures Flat(s, Finite(n)) == Flat(s, Infinite)
    decreases s
  {
    if s != [] {
      FlatDeepEnough(s[1..], n);
      if s[0].Arr? {
        FlatDeepEnough(s[0].elems, n - 1);
      }
    }
  }

  /** Holes never reach the result, so dropping them first changes nothing. */
  lemma {:induction false} FlatIgnoresHoles(s: seq<Value>, d: Depth)
    ensures Flat(Defined(s), d) == Flat(s, d)
  {
    if s != [] {
      FlatIgnoresHoles(s[1..], d);
      var h := if s[0] == Undef then [] else [s[0]];
      FlatAppend(h, Defined(s[1..]), d);
      if s[0] != Undef {
        assert Flat(h, d) == FlatElem(s[0], d) + Flat([], d);
      }
    }
  }

  /** Depth k + 1 opens exactly one level more than depth k: flattening one
      level and then k more levels is flattening k + 1 levels. */
  lemma {:induction false} FlatOneThenMore(s: seq<Value>, k: nat)
    ensures Flat(Flat(s, Finite(1)), Finite(k)) == Flat(s, Finite(k + 1))
  {
    if s != [] {
      FlatOneThenMore(s[1..], k);
      FlatAppend(FlatElem(s[0], Finite(1)), Flat(s[1..], Finite(1)), Finite(k));
      match s[0]
      case Undef =>
      case Arr(t) =>
        FlatZeroKeepsElements(t);
        FlatIgnoresHoles(t, Finite(k));
      case _ =>
        assert Flat([s[0]], Finite(k)) == FlatElem(s[0], Finite(k)) + Flat([], Finite(k));
    }
  }

  /** Extending the prefix by one element appends what that element contributes. */
  lemma FlatPrefixStep(arr: seq<Value>, i: nat, d: Depth)
    requires i < |arr|
    ensures Flat(arr[..i + 1], d) == Flat(arr[..i], d) + FlatElem(arr[i], d)
  {
    FlatAppend(arr[..i], [arr[i]], d);
    assert arr[..i + 1] == arr[..i] + [arr[i]];
    assert Flat([arr[i]], d) == FlatElem(arr[i], d) + Flat([], d);
  }

  // ----- the routines -----

  /** The inner recursive function `_` of `_pushFlat`: walks `arr` with the
      native `forEach` (holes skipped), recursing into an array element while
      `deep > 0` and otherwise pushing the element onto the shared `newArr`. */
  method FlattenInto(newArr: seq<Value>, arr: seq<Value>, deep: Depth) returns (out: seq<Value>)
    ensures out == newArr + Flat(arr, deep)
    decreases arr
  {
    out := newArr;
    for i := 0 to |arr|
      invariant out == newArr + Flat(arr[..i], deep)
    {
      var elem := arr[i];
      FlatPrefixStep(arr, i, deep);
      if elem == Undef {
        continue;
      }
      if elem.Arr? && Opens(deep) {
        out := FlattenInto(out, elem.elems, Lower(deep));
      } else {
        out := out + [elem];
      }
    }
    assert arr[..|arr|] == arr;
  }

  /** `_pushFlat(depth)`: TypeError for a `null`/`undefined` receiver, when
      the walk calls its `forEach`; otherwise a new array holding the
      elements of the receiver flattened to the depth the argument converts
      to. */
  method PushFlat(receiver: Receiver, depth: DepthArg) returns (r: Result<seq<Value>>)
    ensures receiver.Nullish() <==> r == Err(TypeError)
    ensures receiver.Elems? ==> r == Ok(Flat(receiver.elems, DepthOf(depth)))
    ensures receiver.Elems? && depth.Omitted? ==> r == Ok(Defined(receiver.elems))
    ensures receiver.Elems? && depth.InfinityArg? ==>
      r.Ok? && forall k :: 0 <= k < |r.value| ==> !r.value[k].Arr? && r.value[k] != Undef
  {
    if receiver.Nullish() {
      return Err(TypeError);
    }
    var s := receiver.elems;
    var deep := DepthOf(depth);
    var newArr := FlattenInto([], s, deep);
    assert [] + Flat(s, deep) == Flat(s, deep);
    FlatZeroKeepsElements(s);
    FlatInfiniteLeaves(s);
    r := Ok(newArr);
  }

  /** `_flatMap`: TypeError for a `null`/`undefined` receiver, when its
      length is read; otherwise the callback's results at the indices
      `_forEach` visits, collected in order and then flattened one level by
      the native `flat()`. */
  method FlatMap(receiver: Receiver, f: Callback) returns (r: Result<seq<Value>>)
    ensures receiver.Nullish() <==> r == Err(TypeError)
    ensures receiver.Elems? ==>
      r == Ok(Flat(Traversal.ResultsBelow(receiver.elems, f, |receiver.elems|), Finite(1)))
  {
    if receiver.Nullish() {
      return Err(TypeError);
    }
    var collected, visited := Traversal.ForEach(receiver, f);
    var newArr := collected.value;
    var flat := FlattenInto([], newArr, Finite(1));
    assert [] + Flat(newArr, Finite(1)) == Flat(newArr, Finite(1));
    r := Ok(flat);
  }

  // ----- worked examples -----

  /** `[1, [2, [3, [4]], 5]]` flattened one level and without bound. */
  lemma NestedExample()
    ensures var s := [Num(1), Arr([Num(2), Arr([Num(3), Arr([Num(4)])]), Num(5)])];
      && Flat(s, Finite(1)) == [Num(1), Num(2), Arr([Num(3), Arr([Num(4)])]), Num(5)]
      && Flat(s, Infinite) == [Num(1), Num(2), Num(3), Num(4), Num(5)]
  {
    var a4 := Arr([Num(4)]);
    var a3 := Arr([Num(3), a4]);
    var inner := [Num(2), a3, Num(5)];
    var s := [Num(1), Arr(inner)];
    FlatAppend([Num(1)], [Arr(inner)], Finite(1));
    assert s == [Num(1)] + [Arr(inner)];
    assert Flat([Arr(inner)], Finite(1)) == Flat(inner, Finite(0)) + Flat([], Finite(1));
    FlatZeroKeepsElements(inner);
    assert Flat([Num(4)], Infinite) == [Num(4)];
    FlatAppend([Num(3)], [a4], Infinite);
    assert [Num(3), a4] == [Num(3)] + [a4];
    assert Flat([a4], Infinite) == FlatElem(a4, Infinite) + Flat([], Infinite);
    assert Flat([Num(3), a4], Infinite) == [Num(3), Num(4)];
    FlatAppend([Num(2)], [a3, Num(5)], Infinite);
    FlatAppend([a3], [Num(5)], Infinite);
    assert inner == [Num(2)] + ([a3] + [Num(5)]);
    assert Flat([a3], Infinite) == FlatElem(a3, Infinite) + Flat([], Infinite);
    assert Flat(inner, Infinite) == [Num(2), Num(3), Num(4), Num(5)];
    FlatAppend([Num(1)], [Arr(inner)], Infinite);
    assert Flat([Arr(inner)], Infinite) == FlatElem(Arr(inner), Infinite) + Flat([], Infinite);
  }
}
