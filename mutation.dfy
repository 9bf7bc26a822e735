/**
 * The routines that change the receiver in place: `_push`, `_unshift`,
 * `_shift`, `_pop` and `_fill`. The receiver is an object whose element
 * list the routines replace.
 */
module Mutation {
  import opened JsValues

  /** A JavaScript array object: its elements, holes read as `undefined`. */
  class JsArray {
    var elems: seq<Value>

    constructor (elems: seq<Value>)
      ensures this.elems == elems
    {
      this.elems := elems;
    }

    /** `_push(...args)`: stores each argument, in order, at the index equal
        to the current length; returns the new length. */
    method Push(args: seq<Value>) returns (newLength: nat)
      modifies this
      ensures elems == old(elems) + args
      ensures newLength == |old(elems)| + |args|
    {
      var len := |args|;
      for i := 0 to len
        invariant elems == old(elems) + args[..i]
      {
        elems := elems + [args[i]];
        assert args[..i + 1] == args[..i] + [args[i]];
      }
      assert args[..len] == args;
      newLength := |elems|;
    }

    /** `_unshift(...args)`: one `splice(0, 0, arg)` per argument, so the
        last argument ends up first; returns the new length. */
    method Unshift(args: seq<Value>) returns (newLength: nat)
      modifies this
      ensures elems == Reversed(args) + old(elems)
      ensures newLength == |old(elems)| + |args|
    {
      var len := |args|;
      for i := 0 to len
        invariant elems == Reversed(args[..i]) + old(elems)
      {
        ReversedSnoc(args[..i], args[i]);
        assert args[..i + 1] == args[..i] + [args[i]];
        elems := [args[i]] + elems;
      }
      assert args[..len] == args;
      newLength := |elems|;
    }

    /** `_shift()`: removes the first slot (nothing on an empty array) and
        returns `undefined` when that slot read as `undefined`, otherwise the
        new length, never the removed element. */
    method Shift() returns (r: Value)
      modifies this
      ensures old(elems) == [] ==> elems == [] && r == Undef
      ensures old(elems) != [] ==> elems == old(elems)[1..]
      ensures old(elems) != [] ==>
        r == if old(elems)[0] == Undef then Undef else Num(|old(elems)| - 1)
    {
      if elems == [] || elems[0] == Undef {
        if elems != [] {
          elems := elems[1..];
        }
        return Undef;
      }
      elems := elems[1..];
      return Num(|elems|);
    }

    /** `_pop()`: `undefined` and no change on an empty array; otherwise
        removes the last slot (a hole included) and returns it. */
    method Pop() returns (r: Value)
      modifies this
      ensures old(elems) == [] ==> elems == [] && r == Undef
      ensures old(elems) != [] ==>
        elems == old(elems)[..|old(elems)| - 1] && r == old(elems)[|old(elems)| - 1]
    {
      var len := |elems|;
      if len <= 0 {
        return Undef;
      }
      r := elems[len - 1];
      elems := elems[..len - 1];
    }
  }

  /** Popping a non-empty array and pushing the popped value back restores it. */
  method PopThenPush(a: JsArray) returns (newLength: nat)
    requires a.elems != []
    modifies a
    ensures a.elems == old(a.elems)
    ensures newLength == |old(a.elems)|
  {
    var x := a.Pop();
    newLength := a.Push([x]);
  }

  // ----- fill -----

  /** `this[k] = v` for an index `k`: a write past the end lengthens the
      array, and the slots skipped over become holes. */
  function SetIndex(s: seq<Value>, k: nat, v: Value): (r: seq<Value>)
    ensures |r| == if k < |s| then |s| else k + 1
    ensures r[k] == v
    ensures forall i :: 0 <= i < |r| && i != k ==> r[i] == if i < |s| then s[i] else Undef
  {
    if k < |s| then s[k := v] else s + seq(k - |s|, _ => Undef) + [v]
  }

  /** The elements after `_fill` has run its loop over the bounds `lo` up to
      `hi`: the element slots in `[max(lo, 0), hi)` hold `v` (writes to
      negative keys are not element writes), the array has grown to `hi`
      if the loop went past its end, and nothing else changed. */
  function Filled(s: seq<Value>, v: Value, lo: int, hi: int): (r: seq<Value>)
  {
    var from := if lo < 0 then 0 else lo;
    var n := if from < hi && hi > |s| then hi else |s|;
    seq(n, i requires 0 <= i < n => if from <= i < hi then v else if i < |s| then s[i] else Undef)
  }

  /** A bound after `_fill`'s normalisation: the default when omitted, and a
      negative one shifted by the free global `length` (a ReferenceError
      when no such global exists). */
  function Bound(b: Option<int>, default: int, ambientLength: Option<int>): (r: Result<int>)
    ensures r.Err? <==> ambientLength.None? && (b.None? ==> default < 0) && (b.Some? ==> b.value < 0)
    ensures r.Err? ==> r.error == ReferenceError
    ensures b.None? && default >= 0 ==> r == Ok(default)
    ensures b.Some? && b.value >= 0 ==> r == Ok(b.value)
    ensures b.Some? && b.value < 0 && ambientLength.Some? ==> r == Ok(b.value + ambientLength.value)
  {
    var x := if b.None? then default else b.value;
    if x >= 0 then Ok(x)
    else if ambientLength.None? then Err(ReferenceError)
    else Ok(x + ambientLength.value)
  }

  lemma FillStep(s: seq<Value>, v: Value, lo: int, k: int)
    requires (if lo < 0 then 0 else lo) <= k || k < 0
    ensures k >= 0 ==> SetIndex(Filled(s, v, lo, k), k, v) == Filled(s, v, lo, k + 1)
    ensures k < 0 ==> Filled(s, v, lo, k) == Filled(s, v, lo, k + 1)
  {
    if k >= 0 {
      var before, after := Filled(s, v, lo, k), Filled(s, v, lo, k + 1);
      var written := SetIndex(before, k, v);
      assert |written| == |after|;
      forall i | 0 <= i < |written| ensures written[i] == after[i] {
        if i != k && i < |before| {
          assert written[i] == before[i];
        }
      }
    } else {
      assert Filled(s, v, lo, k) == s;
    }
  }

  /** `_fill(value, start, end)`: TypeError for a `null`/`undefined`
      receiver. Otherwise an omitted `start` is 0 and an omitted `end` the
      length; negative bounds are shifted by the global `length`, not by the
      array's; `end` is never clamped to the length. Writes `value` at every
      key from `start` up to `end` and returns the same array. */
  method Fill(a: JsArray?, value: Value, start: Option<int>, end: Option<int>,
              ambientLength: Option<int>) returns (r: Result<JsArray>)
    modifies a
    ensures a == null ==> r == Err(TypeError)
    ensures a != null ==>
      var lo, hi := Bound(start, 0, ambientLength), Bound(end, |old(a.elems)|, ambientLength);
      if lo.Err? || hi.Err? then r == Err(ReferenceError) && a.elems == old(a.elems)
      else r.Ok? && r.value == a && a.elems == Filled(old(a.elems), value, lo.value, hi.value)
  {
    if a == null {
      return Err(TypeError);
    }
    var len := |a.elems|;
    var lo := Bound(start, 0, ambientLength);
    var hi := Bound(end, len, ambientLength);
    if lo.Err? || hi.Err? {
      return Err(ReferenceError);
    }
    var k, stop := lo.value, hi.value;
    ghost var s, from := a.elems, k;
    assert a.elems == Filled(s, value, from, from);
    while k < stop
      invariant from <= k
      invariant k <= stop || k == from
      invariant a.elems == Filled(s, value, from, k)
      decreases stop - k
    {
      FillStep(s, value, from, k);
      if k >= 0 {
        a.elems := SetIndex(a.elems, k, value);
      }
      k := k + 1;
    }
    if from < stop {
      assert k == stop;
    }
    return Ok(a);
  }

  /** Within the array (`0 <= start`, `end <= len`) fill sets exactly the
      slots of `[start, end)`, keeps the length and every other slot, and
      leaves the array as it was when `start >= end`. */
  lemma FillWithinBounds(s: seq<Value>, v: Value, lo: int, hi: int)
    requires 0 <= lo && hi <= |s|
    ensures |Filled(s, v, lo, hi)| == |s|
    ensures forall i :: 0 <= i < |s| ==> Filled(s, v, lo, hi)[i] == if lo <= i < hi then v else s[i]
    ensures lo >= hi ==> Filled(s, v, lo, hi) == s
  {
  }

  /** An `end` past the length grows the array to `end`: the slots between
      the old length and `start` become holes. */
  lemma FillPastEnd(s: seq<Value>, v: Value, lo: int, hi: int)
    requires 0 <= lo < hi && |s| < hi
    ensures |Filled(s, v, lo, hi)| == hi
    ensures forall i :: |s| <= i < lo ==> Filled(s, v, lo, hi)[i] == Undef
    ensures forall i :: lo <= i < hi ==> Filled(s, v, lo, hi)[i] == v
  {
  }
}
