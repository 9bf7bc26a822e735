/**
 * The traversal and search routines: `_forEach`, `_every`, `_some`, the two
 * `_reduce` definitions, `_find`, `_findIndex` and the overriding `includes`.
 * Each is a loop over the indices below the length read at entry; callbacks
 * are pure functions, so a routine is determined by its arguments.
 */
module Traversal {
  import opened JsValues

  // ----- forEach -----

  /** The indices below `n` whose element is not `undefined`, ascending:
      the indices `_forEach` hands to its callback. */
  function DefinedBelow(s: seq<Value>, n: nat): seq<nat>
    requires n <= |s|
  {
    if n == 0 then []
    else DefinedBelow(s, n - 1) + (if s[n - 1] != Undef then [n - 1] else [])
  }

  /** The callback's results at the indices of `DefinedBelow(s, n)`, in order. */
  function ResultsBelow(s: seq<Value>, f: Callback, n: nat): seq<Value>
    requires n <= |s|
  {
    if n == 0 then []
    else ResultsBelow(s, f, n - 1) + (if s[n - 1] != Undef then [f(s[n - 1], n - 1, s)] else [])
  }

  /** `DefinedBelow` lists exactly the defined indices below `n`, strictly ascending. */
  lemma {:induction false} DefinedBelowExact(s: seq<Value>, n: nat)
    requires n <= |s|
    ensures forall k :: 0 <= k < |DefinedBelow(s, n)| ==> DefinedBelow(s, n)[k] < n
    ensures forall i :: 0 <= i < n ==> (i in DefinedBelow(s, n) <==> s[i] != Undef)
    ensures forall j, k :: 0 <= j < k < |DefinedBelow(s, n)| ==> DefinedBelow(s, n)[j] < DefinedBelow(s, n)[k]
  {
    if n > 0 {
      DefinedBelowExact(s, n - 1);
    }
  }

  /** The k-th result is the callback applied at the k-th visited index. */
  lemma {:induction false} ResultsMatchVisits(s: seq<Value>, f: Callback, n: nat)
    requires n <= |s|
    ensures |ResultsBelow(s, f, n)| == |DefinedBelow(s, n)|
    ensures forall k :: 0 <= k < |DefinedBelow(s, n)| ==>
      DefinedBelow(s, n)[k] < |s| &&
      ResultsBelow(s, f, n)[k] == f(s[DefinedBelow(s, n)[k]], DefinedBelow(s, n)[k], s)
  {
    if n > 0 {
      ResultsMatchVisits(s, f, n - 1);
      DefinedBelowExact(s, n - 1);
    }
  }

  /** `_forEach`: TypeError for a `null`/`undefined` receiver, when its
      length is read. Otherwise calls the callback at every index below the
      length whose element is not `undefined`, in ascending order; `visited`
      and the result record the indices and the callback's results, call by
      call. */
  method ForEach(receiver: Receiver, f: Callback) returns (r: Result<seq<Value>>, visited: seq<nat>)
    ensures receiver.Nullish() <==> r == Err(TypeError)
    ensures receiver.Nullish() ==> visited == []
    ensures receiver.Elems? ==>
      var s := receiver.elems;
      && visited == DefinedBelow(s, |s|)
      && r == Ok(ResultsBelow(s, f, |s|))
      && (forall i :: 0 <= i < |s| ==> (i in visited <==> s[i] != Undef))
      && (forall j, k :: 0 <= j < k < |visited| ==> visited[j] < visited[k])
  {
    if receiver.Nullish() {
      return Err(TypeError), [];
    }
    var s := receiver.elems;
    var len := |s|;
    var results := [];
    visited := [];
    for i := 0 to len
      invariant visited == DefinedBelow(s, i)
      invariant results == ResultsBelow(s, f, i)
    {
      if s[i] == Undef {
        continue;
      }
      visited := visited + [i];
      results := results + [f(s[i], i, s)];
    }
    DefinedBelowExact(s, len);
    r := Ok(results);
  }

  // ----- the first index where the callback gives a wanted truth value -----

  /** The least index `j >= from` at which the callback's result has
      truthiness `want`, or -1 when there is none. */
  function FirstIndex(s: seq<Value>, f: Callback, want: bool, from: nat): (r: int)
    ensures r == -1 || from <= r < |s|
    ensures r == -1 <==> forall j :: from <= j < |s| ==> Truthy(f(s[j], j, s)) != want
    ensures r != -1 ==> Truthy(f(s[r], r, s)) == want
    ensures r != -1 ==> forall j :: from <= j < r ==> Truthy(f(s[j], j, s)) != want
    decreases |s| - from
  {
    if from >= |s| then -1
    else if Truthy(f(s[from], from, s)) == want then from
    else FirstIndex(s, f, want, from + 1)
  }

  // ----- every / some -----

  /** `_every`: TypeError for a `null`/`undefined` receiver. Otherwise true
      iff the callback is truthy at every index below the length, `undefined`
      elements included. It stops at the first falsy result: `calls` counts
      the callback invocations. */
  method Every(receiver: Receiver, f: Callback) returns (r: Result<bool>, ghost calls: nat)
    ensures receiver.Nullish() <==> r == Err(TypeError)
    ensures receiver.Nullish() ==> calls == 0
    ensures receiver.Elems? ==>
      var s := receiver.elems;
      && r.Ok?
      && (r.value <==> forall i :: 0 <= i < |s| ==> Truthy(f(s[i], i, s)))
      && (r.value ==> calls == |s|)
      && (!r.value ==> calls == FirstIndex(s, f, false, 0) + 1)
      && (|s| == 0 ==> r.value)
  {
    calls := 0;
    if receiver.Nullish() {
      return Err(TypeError), calls;
    }
    var s := receiver.elems;
    var len := |s|;
    var b := true;
    var i := 0;
    while i < len
      invariant 0 <= i <= len
      invariant calls == i
      invariant forall j :: 0 <= j < i ==> Truthy(f(s[j], j, s))
    {
      var result := f(s[i], i, s);
      calls := calls + 1;
      if !Truthy(result) {
        b := false;
        break;
      }
      i := i + 1;
    }
    r := Ok(b);
  }

  /** `_some`: TypeError for a `null`/`undefined` receiver. Otherwise true
      iff the callback is truthy at some index below the length. It stops at
      the first truthy result: `calls` counts the callback invocations. */
  method Some(receiver: Receiver, f: Callback) returns (r: Result<bool>, ghost calls: nat)
    ensures receiver.Nullish() <==> r == Err(TypeError)
    ensures receiver.Nullish() ==> calls == 0
    ensures receiver.Elems? ==>
      var s := receiver.elems;
      && r.Ok?
      && (r.value <==> exists i :: 0 <= i < |s| && Truthy(f(s[i], i, s)))
      && (r.value ==> calls == FirstIndex(s, f, true, 0) + 1)
      && (!r.value ==> calls == |s|)
      && (|s| == 0 ==> !r.value)
  {
    calls := 0;
    if receiver.Nullish() {
      return Err(TypeError), calls;
    }
    var s := receiver.elems;
    var len := |s|;
    var b := false;
    var i := 0;
    while i < len
      invariant 0 <= i <= len
      invariant calls == i
      invariant forall j :: 0 <= j < i ==> !Truthy(f(s[j], j, s))
    {
      var result := f(s[i], i, s);
      calls := calls + 1;
      if Truthy(result) {
        b := true;
        break;
      }
      i := i + 1;
    }
    r := Ok(b);
  }

  /** The callback whose results have the opposite truthiness. */
  function Negation(f: Callback): Callback {
    (v: Value, i: nat, a: seq<Value>) => Bool(!Truthy(f(v, i, a)))
  }

  /** `every(f)` is false exactly when `some(x => !f(x))` is true, and both
      stop after the same number of calls. */
  lemma EveryIsNotSomeNegation(s: seq<Value>, f: Callback)
    ensures FirstIndex(s, f, false, 0) == FirstIndex(s, Negation(f), true, 0)
    ensures (forall i :: 0 <= i < |s| ==> Truthy(f(s[i], i, s)))
        <==> !(exists i :: 0 <= i < |s| && Truthy(Negation(f)(s[i], i, s)))
  {
  }

  // ----- reduce -----

  /** A reducer `(accumulator, element, index, array) => accumulator`. */
  type Reducer = (Value, Value, nat, seq<Value>) -> Value

  /** The accumulator after the steps at indices 0 .. n-1, in that order. */
  function FoldUp(f: Reducer, seed: Value, s: seq<Value>, n: nat): Value
    requires n <= |s|
  {
    if n == 0 then seed else f(FoldUp(f, seed, s, n - 1), s[n - 1], n - 1, s)
  }

  /** The accumulator after the steps at indices |s|-1 down to lo, in that order. */
  function FoldDown(f: Reducer, seed: Value, s: seq<Value>, lo: nat): Value
    requires lo <= |s|
    decreases |s| - lo
  {
    if lo == |s| then seed else f(FoldDown(f, seed, s, lo + 1), s[lo], lo, s)
  }

  /** The first `_reduce` definition (overwritten by the second): TypeError
      for a `null`/`undefined` receiver; otherwise a left fold from the seed
      over indices 0 .. len-1, no element skipped. */
  method ReduceLeft(receiver: Receiver, f: Reducer, seed: Value) returns (r: Result<Value>)
    ensures receiver.Nullish() <==> r == Err(TypeError)
    ensures receiver.Elems? ==> r == Ok(FoldUp(f, seed, receiver.elems, |receiver.elems|))
    ensures receiver.Elems? && receiver.elems == [] ==> r == Ok(seed)
  {
    if receiver.Nullish() {
      return Err(TypeError);
    }
    var s := receiver.elems;
    var len := |s|;
    var acc := seed;
    for i := 0 to len
      invariant acc == FoldUp(f, seed, s, i)
    {
      acc := f(acc, s[i], i, s);
    }
    r := Ok(acc);
  }

  /** `_reduce` as finally defined: TypeError for a `null`/`undefined`
      receiver; otherwise a fold from the seed over indices len-1 down to 0,
      no element skipped. */
  method Reduce(receiver: Receiver, f: Reducer, seed: Value) returns (r: Result<Value>)
    ensures receiver.Nullish() <==> r == Err(TypeError)
    ensures receiver.Elems? ==> r == Ok(FoldDown(f, seed, receiver.elems, 0))
    ensures receiver.Elems? && receiver.elems == [] ==> r == Ok(seed)
  {
    if receiver.Nullish() {
      return Err(TypeError);
    }
    var s := receiver.elems;
    var len := |s|;
    var acc := seed;
    var i := len - 1;
    while i >= 0
      invariant -1 <= i < len
      invariant acc == FoldDown(f, seed, s, i + 1)
    {
      acc := f(acc, s[i], i, s);
      i := i - 1;
    }
    r := Ok(acc);
  }

  /** The reducer that sees the reversed array's step `j` as step
      `|s| - 1 - j` of `s`. */
  function Mirrored(f: Reducer, s: seq<Value>): Reducer {
    (acc, e, j, a) => f(acc, e, if j < |s| then |s| - 1 - j else 0, s)
  }

  /** Folding `s` down from `lo` is folding up, over the first `|s| - lo`
      elements of the reversed array `r`, a reducer `g` whose step `j` is
      step `|s| - 1 - j` of `f`. */
  lemma {:induction false} FoldDownAsFoldUp(f: Reducer, g: Reducer, seed: Value, s: seq<Value>, r: seq<Value>, lo: nat)
    requires lo <= |s| && |r| == |s|
    requires forall k :: 0 <= k < |s| ==> r[k] == s[|s| - 1 - k]
    requires forall acc, e, j: nat, a :: j < |s| ==> g(acc, e, j, a) == f(acc, e, |s| - 1 - j, s)
    ensures FoldDown(f, seed, s, lo) == FoldUp(g, seed, r, |s| - lo)
    decreases |s| - lo
  {
    if lo < |s| {
      FoldDownAsFoldUp(f, g, seed, s, r, lo + 1);
      assert r[|s| - lo - 1] == s[lo];
    }
  }

  /** The effective `_reduce` is the overwritten left fold run over the
      reversed array (with indices mirrored): for a reducer that ignores the
      index, a non-commutative one sees the elements back to front. */
  lemma FoldDownIsFoldUpOfReversed(f: Reducer, seed: Value, s: seq<Value>)
    ensures FoldDown(f, seed, s, 0) == FoldUp(Mirrored(f, s), seed, Reversed(s), |s|)
  {
    FoldDownAsFoldUp(f, Mirrored(f, s), seed, s, Reversed(s), 0);
  }

  // ----- find / findIndex -----

  /** `_findIndex`: TypeError for a `null`/`undefined` receiver or a
      non-function callback; otherwise the least index below the length
      (undefined elements included) where the callback is truthy, or -1. */
  method FindIndex(receiver: Receiver, callback: Callable) returns (r: Result<int>)
    ensures r.Err? <==> receiver.Nullish() || callback.NotFunction?
    ensures r.Err? ==> r.error == TypeError
    ensures r.Ok? ==> r.value == FirstIndex(receiver.elems, callback.f, true, 0)
  {
    if receiver.Nullish() {
      return Err(TypeError);
    }
    if callback.NotFunction? {
      return Err(TypeError);
    }
    var obj, f := receiver.elems, callback.f;
    var len := |obj|;
    for i := 0 to len
      invariant forall j :: 0 <= j < i ==> !Truthy(f(obj[j], j, obj))
    {
      if Truthy(f(obj[i], i, obj)) {
        return Ok(i);
      }
    }
    return Ok(-1);
  }

  /** `_find`: the element at the index `_findIndex` reports, or `undefined`
      when there is none; the same TypeErrors. */
  method Find(receiver: Receiver, callback: Callable) returns (r: Result<Value>)
    ensures r.Err? <==> receiver.Nullish() || callback.NotFunction?
    ensures r.Err? ==> r.error == TypeError
    ensures r.Ok? ==>
      var k := FirstIndex(receiver.elems, callback.f, true, 0);
      r.value == if k == -1 then Undef else receiver.elems[k]
  {
    if receiver.Nullish() {
      return Err(TypeError);
    }
    if callback.NotFunction? {
      return Err(TypeError);
    }
    var obj, f := receiver.elems, callback.f;
    var len := |obj|;
    for i := 0 to len
      invariant forall j :: 0 <= j < i ==> !Truthy(f(obj[j], j, obj))
    {
      if Truthy(f(obj[i], i, obj)) {
        return Ok(obj[i]);
      }
    }
    return Ok(Undef);
  }

  // ----- includes -----

  /** `obj[k]` for any integer `k`: `undefined` outside the elements. */
  function At(s: seq<Value>, k: int): Value {
    if 0 <= k < |s| then s[k] else Undef
  }

  /** `v` is an element at some index from `from` (at least 0) on. */
  predicate OccursFrom(s: seq<Value>, v: Value, from: int) {
    exists i :: 0 <= i < |s| && from <= i && s[i] == v
  }

  /** What the overriding `includes` gives back: a boolean, or the TypeError
      object it returns (not throws) for a `null` receiver. */
  datatype Answer = Found(b: bool) | ErrorObject(error: Error)

  /** The overriding `includes(value, fromIndex)`. A `null` receiver gets a
      TypeError object back; an `undefined` one is boxed to an object
      without a length, so every comparison with that length is false and
      the answer is false. An omitted `fromIndex` makes the loop guard
      `undefined < len` false, so the answer is false. A negative one is not
      adjusted (the `Math.max` result is dropped): the scan starts at that
      index, where `obj[k]` is `undefined`. Elements are compared with
      `===`, modelled as equality of values. */
  method Includes(receiver: Receiver, value: Value, fromIndex: Option<int>) returns (r: Answer)
    ensures receiver.NullThis? <==> r == ErrorObject(TypeError)
    ensures receiver.UndefinedThis? ==> r == Found(false)
    ensures receiver.Elems? && fromIndex.None? ==> r == Found(false)
    ensures receiver.Elems? && fromIndex.Some? && fromIndex.value >= |receiver.elems| ==> r == Found(false)
    ensures receiver.Elems? && fromIndex.Some? ==>
      var s, k := receiver.elems, fromIndex.value;
      r.Found? && (r.b <==> (k < 0 && value == Undef) || OccursFrom(s, value, k))
  {
    if receiver.NullThis? {
      return ErrorObject(TypeError);
    }
    if receiver.UndefinedThis? {
      return Found(false);
    }
    var s := receiver.elems;
    var len := |s|;
    if fromIndex.None? {
      return Found(false);
    }
    var k := fromIndex.value;
    if k >= len {
      return Found(false);
    }
    ghost var start := k;
    while k < len
      invariant start <= k <= len
      invariant forall j :: start <= j < k ==> At(s, j) != value
      decreases len - k
    {
      if At(s, k) == value {
        return Found(true);
      }
      k := k + 1;
    }
    if start < 0 {
      assert At(s, start) == Undef;
    }
    forall i | 0 <= i < |s| && start <= i ensures s[i] != value {
      assert At(s, i) == s[i];
    }
    return Found(false);
  }

  /** The strict-equality test `x => x === v` as a callback. */
  function EqualTo(v: Value): Callback {
    (x, i, a) => Bool(x == v)
  }

  /** `includes(v, 0)` holds iff `findIndex(x => x === v)` is not -1. */
  lemma OccursIffFindIndex(s: seq<Value>, v: Value)
    ensures OccursFrom(s, v, 0) <==> FirstIndex(s, EqualTo(v), true, 0) != -1
  {
    var k := FirstIndex(s, EqualTo(v), true, 0);
    if OccursFrom(s, v, 0) {
      var i :| 0 <= i < |s| && 0 <= i && s[i] == v;
      assert Truthy(EqualTo(v)(s[i], i, s));
    }
    if k != -1 {
      assert Truthy(EqualTo(v)(s[k], k, s));
    }
  }
}
