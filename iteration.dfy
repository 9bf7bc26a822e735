/**
 * The hand-made iterator `generate(arr)` and the generator methods
 * `_entries`, `_values` and `_keys`, each modelled by the finite sequence
 * it yields when run to the end.
 */
module Iteration {
  import opened JsValues

  /** The object `{ value, done }` that `next()` returns. */
  datatype IterResult = IterResult(value: Value, done: bool)

  /** The result of call number `k + 1` of `next()`: the element at the
      counter, which is then advanced, and `done` computed from the advanced
      counter. */
  function Step(arr: seq<Value>, k: nat): IterResult {
    IterResult(if k < |arr| then arr[k] else Undef, !(k + 1 < |arr|))
  }

  /** The results of the first `n` calls of `next()`. */
  function Steps(arr: seq<Value>, n: nat): seq<IterResult> {
    if n == 0 then [] else Steps(arr, n - 1) + [Step(arr, n - 1)]
  }

  /** Over a non-empty array, the first `|arr|` calls yield the elements in
      order, and only the last of them (the one yielding the last element)
      already reports `done`; every later call yields `undefined`, done. On
      an empty array the first call already reports `done`. */
  lemma {:induction false} StepsOverArray(arr: seq<Value>, n: nat)
    ensures |Steps(arr, n)| == n
    ensures forall k :: 0 <= k < n && k < |arr| ==> Steps(arr, n)[k].value == arr[k]
    ensures forall k :: 0 <= k < n ==> (Steps(arr, n)[k].done <==> k + 1 >= |arr|)
    ensures forall k :: |arr| <= k < n ==> Steps(arr, n)[k] == IterResult(Undef, true)
  {
    if n > 0 {
      StepsOverArray(arr, n - 1);
      assert Steps(arr, n)[n - 1] == Step(arr, n - 1);
      assert forall k :: 0 <= k < n - 1 ==> Steps(arr, n)[k] == Steps(arr, n - 1)[k];
    }
  }

  /** The object `generate(arr)` returns: a closure over the counter `newInx`. */
  class ArrayIterator {
    const arr: seq<Value>
    var newInx: nat
    /** What `next()` has returned so far. */
    ghost var history: seq<IterResult>

    ghost predicate Valid()
      reads this
    {
      history == Steps(arr, newInx)
    }

    /** `generate(arr)` */
    constructor Generate(arr: seq<Value>)
      ensures Valid()
      ensures this.arr == arr && newInx == 0 && history == []
    {
      this.arr := arr;
      newInx := 0;
      history := [];
    }

    /** `next()`: the element at the counter (`undefined` past the end), and
        `done` once the advanced counter has reached the length. */
    method Next() returns (r: IterResult)
      requires Valid()
      modifies this
      ensures Valid()
      ensures newInx == old(newInx) + 1
      ensures r.value == if old(newInx) < |arr| then arr[old(newInx)] else Undef
      ensures r.done <==> newInx >= |arr|
      ensures history == old(history) + [r]
    {
      r := IterResult(if newInx < |arr| then arr[newInx] else Undef, false);
      newInx := newInx + 1;
      r := r.(done := if newInx < |arr| then false else true);
      history := history + [r];
    }
  }

  /** Draining a fresh iterator over `[x]`: the single call already says done. */
  method DrainSingleton(x: Value) returns (first: IterResult, second: IterResult)
    ensures first == IterResult(x, true)
    ensures second == IterResult(Undef, true)
  {
    var it := new ArrayIterator.Generate([x]);
    first := it.Next();
    second := it.Next();
  }

  /** `_values`: TypeError for a `null` receiver; otherwise every element
      below the length read at the start, holes included, in order. */
  method Values(receiver: Receiver) returns (r: Result<seq<Value>>)
    ensures receiver.Nullish() <==> r == Err(TypeError)
    ensures receiver.Elems? ==> r == Ok(receiver.elems)
  {
    if receiver.Nullish() {
      return Err(TypeError);
    }
    var arr := receiver.elems;
    var len := |arr|;
    var yielded := [];
    for i := 0 to len
      invariant yielded == arr[..i]
    {
      yielded := yielded + [arr[i]];
    }
    assert arr[..len] == arr;
    return Ok(yielded);
  }

  /** `_keys`: TypeError for a `null` receiver; otherwise the indices
      0 .. len-1 for the length read at the start. */
  method Keys(receiver: Receiver) returns (r: Result<seq<nat>>)
    ensures receiver.Nullish() <==> r == Err(TypeError)
    ensures receiver.Elems? ==> r.Ok? && |r.value| == |receiver.elems|
    ensures receiver.Elems? ==> forall k :: 0 <= k < |r.value| ==> r.value[k] == k
  {
    if receiver.Nullish() {
      return Err(TypeError);
    }
    var len := |receiver.elems|;
    var yielded: seq<nat> := [];
    var i := 0;
    while i < len
      invariant 0 <= i <= len
      invariant |yielded| == i
      invariant forall k :: 0 <= k < i ==> yielded[k] == k
    {
      yielded := yielded + [i];
      i := i + 1;
    }
    return Ok(yielded);
  }

  /** `_entries`: the pairs `[i, this[i]]` for `i` below `this.length`, which
      is read again before every step; the array does not change while it is
      iterated here, so the pairs cover exactly its elements. A `null`
      receiver fails with TypeError when `this.length` is read. */
  method Entries(receiver: Receiver) returns (r: Result<seq<(nat, Value)>>)
    ensures receiver.Nullish() <==> r == Err(TypeError)
    ensures receiver.Elems? ==> r.Ok? && |r.value| == |receiver.elems|
    ensures receiver.Elems? ==> forall k :: 0 <= k < |r.value| ==> r.value[k] == (k, receiver.elems[k])
  {
    if receiver.Nullish() {
      return Err(TypeError);
    }
    var self := receiver.elems;
    var yielded: seq<(nat, Value)> := [];
    var i := 0;
    while i < |self|
      invariant 0 <= i <= |self|
      invariant |yielded| == i
      invariant forall k :: 0 <= k < i ==> yielded[k] == (k, self[k])
    {
      yielded := yielded + [(i, self[i])];
      i := i + 1;
    }
    return Ok(yielded);
  }
}
