# Hand-written `Array.prototype` methods, modelled in Dafny

The repository re-implements a dozen of JavaScript's array methods by hand
(`_forEach`, `_every`, `_some`, `_reduce`, `_find`, `_findIndex`, `includes`,
`_push`, `_unshift`, `_shift`, `_pop`, `_fill`, the iterators `generate`,
`_entries`, `_values`, `_keys`, and the flatteners `_pushFlat` and
`_flatMap`). This project models those routines as they are written, and
proves what each of them computes.

- `values.dfy` (module `JsValues`): JavaScript values (`Undef`, `Null`,
  `Bool`, integer `Num`, `Str`, `Arr`), truthiness, the `TypeError` and
  `ReferenceError` outcomes, receivers (`null`, `undefined` or an array), and
  callbacks as pure functions `(element, index, array) -> result`.
- `traversal.dfy` (module `Traversal`): the index loops `_forEach`,
  `_every`, `_some`, both definitions of `_reduce`, `_find`, `_findIndex`
  and `includes`. Each is a method with a loop, proved against a
  specification function (`DefinedBelow`, `FirstIndex`, `FoldUp`,
  `FoldDown`).
- `flatten.dfy` (module `Flatten`): the depth conversion of `_pushFlat`,
  the specification `Flat`, the recursive walk that appends to a shared
  result (`FlattenInto`), `_pushFlat` and `_flatMap`, and the laws of
  flattening.
- `iteration.dfy` (module `Iteration`): `generate` as a class holding its
  counter, and `_values`, `_keys`, `_entries` as loops that collect what the
  generators yield.
- `mutation.dfy` (module `Mutation`): the array object as a class whose
  element list `_push`, `_unshift`, `_shift` and `_pop` replace, and `_fill`.

## Where the code departs from its comments, and the model follows the code

- `_reduce` is assigned twice (lines 179 and 199). The second assignment
  wins, so the effective `_reduce` folds from the last index down to 0. The
  model keeps both: `ReduceLeft` is the overwritten definition, `Reduce` the
  effective one. `FoldDownIsFoldUpOfReversed` relates the two.
- The comment at lines 12-19 lists `forEach`, `some`, `every`, `map`,
  `reduce` and `filter` as skipping the holes of a sparse array, and lines
  21-24 list `find` and `findIndex` as visiting them. In the code only
  `_forEach` (line 41) skips them: `_every`, `_some` and both `_reduce`
  loops call the callback on `undefined` elements too, against that
  comment. `_find` and `_findIndex` visit them, as the comment says.
- `_pushFlat` computes its depth as `arguments[0] >>> 0`. An omitted depth
  therefore opens no level, not the one level the comment at 543 says. A
  negative depth wraps to a value near 2^32 and flattens, where the comment
  at 546 says it does nothing (`DepthOf`).
- `_fill` shifts a negative bound by the free identifier `length`, not by
  the array's length (lines 290-291). In a browser that is the global
  `window.length`; elsewhere reading it is a ReferenceError. The model
  passes that global as the parameter `ambientLength`, `None` when it does
  not exist. `end` is never clamped (293-296), so the loop can write past
  the end and grow the array.
- `_shift` returns `undefined` when the first slot reads as `undefined`.
  Otherwise it returns the new length, never the removed element.
- `_unshift` does one `splice(0, 0, x)` per argument, so the arguments end
  up at the front in reverse order.
- `includes` with `fromIndex` omitted always answers false: the loop guard
  `undefined < len` is false. For a negative `fromIndex`, the `Math.max`
  result at line 676 is dropped. The scan starts at the negative index,
  where `obj[k]` reads `undefined`, and then walks on through the elements.
- `_pop` on an array whose last slot is a hole removes that slot and
  returns `undefined` (`splice(len - 1, 1)` at line 496). The comment at
  line 483 says it deletes and returns the second-to-last element instead.
- The call of `generate`'s `next()` that yields the last element already
  reports `done: true`, because `done` is computed after the counter moves.

Receivers follow strict-mode `this`: `null` and `undefined` are not replaced
by the global object. This is the reading under which the `this === null`
checks in the source can fire. Every routine that reads the receiver's
`length` or calls a method on it then throws TypeError for both; `includes`
alone tells them apart, returning a TypeError object for `null` and false for
`undefined`.

## Model

| member | source | states |
|---|---|---|
| Traversal.DefinedBelowExact | rewrite_array_methods.js:40-43 | the indices `_forEach` visits are exactly those below the length whose element is not `undefined`, strictly ascending |
| Traversal.ResultsMatchVisits | rewrite_array_methods.js:40-45 | the k-th recorded callback result is the callback applied to the element, index and array of the k-th visited index |
| Traversal.ForEach | rewrite_array_methods.js:35-46 | TypeError on a null/undefined receiver; otherwise the callback is called exactly at the indices whose element is not `undefined`, in ascending order, and the results are recorded in call order |
| Traversal.FirstIndex | rewrite_array_methods.js:372-376 | the result is the least index at or after `from` where the callback's result has the wanted truthiness, or -1 exactly when there is none |
| Traversal.Every | rewrite_array_methods.js:121-136 | TypeError on a null/undefined receiver; otherwise true iff the callback is truthy at every index below the length, `undefined` elements included; true on an empty array; the calls made stop right after the first falsy one |
| Traversal.Some | rewrite_array_methods.js:145-160 | TypeError on a null/undefined receiver; otherwise true iff the callback is truthy at some index below the length; false on an empty array; the calls made stop right after the first truthy one |
| Traversal.EveryIsNotSomeNegation | rewrite_array_methods.js:127-157 | `every(f)` is false exactly when `some(x => !f(x))` is true, and both stop at the same index |
| Traversal.ReduceLeft | rewrite_array_methods.js:179-189 | TypeError on a null/undefined receiver; otherwise the overwritten first `_reduce` folds from the seed over indices 0 to len-1, and returns the seed on an empty array |
| Traversal.Reduce | rewrite_array_methods.js:199-209 | TypeError on a null/undefined receiver; otherwise the effective `_reduce` folds from the seed over indices len-1 down to 0, and returns the seed on an empty array |
| Traversal.FoldDownAsFoldUp | rewrite_array_methods.js:183-205 | folding down from index lo equals folding up the first len - lo elements of the reversed array with a reducer whose step j is step len-1-j of the original |
| Traversal.FoldDownIsFoldUpOfReversed | rewrite_array_methods.js:183-205 | the effective `_reduce` equals the overwritten left fold run over the reversed array with mirrored indices, so an order-sensitive callback sees the elements back to front |
| Traversal.FindIndex | rewrite_array_methods.js:361-379 | TypeError iff the receiver is null/undefined or the callback is not a function; otherwise the least index where the callback is truthy, or -1 |
| Traversal.Find | rewrite_array_methods.js:328-346 | the same TypeErrors as `_findIndex`; otherwise the element at the index `_findIndex` returns, or `undefined` when it returns -1 |
| Traversal.Includes | rewrite_array_methods.js:664-687 | a TypeError object returned for a null receiver, false for an undefined one; otherwise false when `fromIndex` is omitted or at least the length, and else true iff the value occurs at an index at or after `fromIndex`, or `fromIndex` is negative and the value is `undefined` |
| Traversal.OccursIffFindIndex | rewrite_array_methods.js:679-684 | the value occurs in the array iff `findIndex(x => x === value)` is not -1 |
| Flatten.DepthOf | rewrite_array_methods.js:553 | an omitted depth becomes 0, `Infinity` becomes unbounded, a depth in [0, 2^32) is kept, and a negative depth down to -2^32 becomes depth + 2^32 |
| Flatten.FlatZeroKeepsElements | rewrite_array_methods.js:556-565 | at depth 0 the result is the array's non-hole elements, unchanged and in order; an array without holes comes back equal to itself |
| Flatten.FlatInfiniteLeaves | rewrite_array_methods.js:556-565 | at unbounded depth the result contains no array and no hole |
| Flatten.FlatDeepEnough | rewrite_array_methods.js:556-565 | any finite depth at least the nesting depth of the input gives the same result as unbounded depth |
| Flatten.FlatIgnoresHoles | rewrite_array_methods.js:558-563 | removing the holes first does not change the flattened result |
| Flatten.FlatOneThenMore | rewrite_array_methods.js:559-560 | flattening one level and then k levels equals flattening k + 1 levels |
| Flatten.FlattenInto | rewrite_array_methods.js:556-565 | the recursive walk leaves the shared result array extended by exactly the flattening of its argument at the given depth |
| Flatten.PushFlat | rewrite_array_methods.js:551-568 | TypeError on a null/undefined receiver; otherwise `_pushFlat` returns the flattening at the converted depth; an omitted depth yields the non-hole elements, `Infinity` yields no nested array |
| Flatten.FlatMap | rewrite_array_methods.js:608-619 | TypeError on a null/undefined receiver; otherwise `_flatMap` is the one-level flattening of the callback results at the non-`undefined` indices, in order |
| Flatten.NestedExample | rewrite_array_methods.js:551-568 | `[1, [2, [3, [4]], 5]]` flattens to `[1, 2, [3, [4]], 5]` at depth 1 and to `[1, 2, 3, 4, 5]` unbounded |
| Iteration.StepsOverArray | rewrite_array_methods.js:225-229 | the first len calls of `next()` yield the elements in order; `done` is true exactly from the call that yields the last element on; later calls yield `undefined`, done |
| Iteration.ArrayIterator.Generate | rewrite_array_methods.js:222-224 | a fresh iterator over the array with counter 0 and no calls made |
| Iteration.ArrayIterator.Next | rewrite_array_methods.js:225-230 | `next()` returns the element at the counter (or `undefined`), advances the counter, and reports `done` iff the advanced counter reaches the length |
| Iteration.DrainSingleton | rewrite_array_methods.js:222-232 | on a one-element array the first call already returns the element with `done: true`, the second returns `undefined` with `done: true` |
| Iteration.Values | rewrite_array_methods.js:389-399 | TypeError on a null receiver; otherwise yields every element below the length, holes included, in order |
| Iteration.Keys | rewrite_array_methods.js:409-421 | TypeError on a null receiver; otherwise yields the indices 0 to len-1 |
| Iteration.Entries | rewrite_array_methods.js:243-247 | yields the pair `[i, this[i]]` for every index below the length, in order |
| Mutation.JsArray.Push | rewrite_array_methods.js:428-436 | appends the arguments in order after the unchanged prefix and returns old length + k |
| Mutation.JsArray.Unshift | rewrite_array_methods.js:446-454 | places the arguments at the front in reverse order before the unchanged old elements and returns old length + k |
| Mutation.JsArray.Shift | rewrite_array_methods.js:464-475 | removes the first slot (nothing on an empty array); returns `undefined` when it read as `undefined`, else the new length |
| Mutation.JsArray.Pop | rewrite_array_methods.js:486-498 | on an empty array returns `undefined` and changes nothing; otherwise removes and returns the last slot, so a trailing hole is removed and `undefined` returned |
| Mutation.PopThenPush | rewrite_array_methods.js:492-497 | popping a non-empty array and pushing the popped value back restores its contents and length |
| Mutation.SetIndex | rewrite_array_methods.js:294 | writing index k sets slot k and keeps every other slot; a write past the end grows the array to k + 1 with holes in between |
| Mutation.Bound | rewrite_array_methods.js:279-291 | an omitted bound takes its default, a non-negative one is kept, a negative one is shifted by the global `length`, and a ReferenceError arises exactly when that global is needed and absent |
| Mutation.Fill | rewrite_array_methods.js:273-299 | TypeError on a null receiver; ReferenceError when a negative bound needs the absent global; otherwise writes the value at every index of the normalised range, grows the array when the range passes the end, and returns the same array |
| Mutation.FillWithinBounds | rewrite_array_methods.js:293-296 | with 0 <= start and end <= len, fill sets exactly the slots of [start, end), keeps the length and every other slot, and changes nothing when start >= end |
| Mutation.FillPastEnd | rewrite_array_methods.js:293-296 | with end past the length, the array grows to end, slots between the old length and start become holes, and [start, end) holds the value |

## Left out

- `_filter` and `_map`: both `return` inside their loop after the first callback (lines 78 and 108), and `_filter` calls `utils.deepClone`, which is not part of this model.
- `_stackFlat`: its leaf branch spreads a non-array value (line 582), which throws for numbers, so it computes no flattening.
- `_toString` (a wrapper over the native `join`), the empty `_isArray`, and `concat` and `Array.from`, which exist only as comments.
- The default callback receiver (`arguments[1] || window`): callbacks are pure functions and take no receiver.
- Callbacks that change the array during a traversal, and the lazy, suspended running of the generators: each generator is modelled by the whole sequence it yields. `_entries` re-reads `this.length` at every step, which only matters when the array changes while it is iterated.
- Holes and stored `undefined` are one value, `Undef`. The native `forEach` inside `_pushFlat` and the native `flat()` inside `_flatMap` skip holes but keep a stored `undefined`; the model drops `Undef` in both.
- Flatten.FlatMap: a callback result that is `undefined` is dropped by the model, whereas the native `flat()` keeps a stored `undefined`.
- Traversal.Includes: `===` between two arrays compares identity in JavaScript; the model compares array values structurally.
- Traversal.Every: a non-function callback throws TypeError natively at the first call, in `_every`, `_some`, `_reduce`, `_forEach` and `_flatMap` alike; these routines take a callable callback.
- Numbers are integers: NaN, fractions and the coercion of non-numeric arguments (`Number(start)`, `Number(end)`, `>>> 0` of a string or `-Infinity`) are not modelled.
- The array-index limit of 2^32 - 1 is not modelled: `_fill` past that limit would set ordinary properties.
- The `this === null` checks of `_pop` and `_shift` are not modelled: the class methods always have an object receiver.
- Iteration.ArrayIterator.Generate: the iterator keeps its own copy of the array, so changes made to the array after `generate(arr)` are not seen.
