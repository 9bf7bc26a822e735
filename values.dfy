/**
 * The JavaScript values the re-implemented `Array.prototype` methods work on,
 * the error kinds they raise, and the shapes of the callbacks they invoke.
 */
module JsValues {

  /** A JavaScript value as seen by the array routines. Numbers are integers
      (no NaN, no fractions); `Undef` stands both for `undefined` and for a
      hole of a sparse array. */
  datatype Value =
    | Undef
    | Null
    | Bool(b: bool)
    | Num(n: int)
    | Str(s: string)
    | Arr(elems: seq<Value>)

  /** ToBoolean (section 7.1.2 of ECMA-262) on the values above. */
  predicate Truthy(v: Value) {
    match v
    case Undef => false
    case Null => false
    case Bool(b) => b
    case Num(n) => n != 0
    case Str(s) => s != ""
    case Arr(_) => true
  }

  /** The error objects the routines throw. */
  datatype Error = TypeError | ReferenceError

  datatype Option<T> = None | Some(value: T)

  /** Either the routine's return value or the error it throws. */
  datatype Result<T> = Ok(value: T) | Err(error: Error)

  /** The receiver `this` of a call: `null`, `undefined` (strict mode, so
      neither is replaced by the global object), or an array with the given
      elements. */
  datatype Receiver = NullThis | UndefinedThis | Elems(elems: seq<Value>)
  {
    /** Reading a property of such a receiver throws TypeError. */
    predicate Nullish() {
      !Elems?
    }
  }

  /** A callback `(element, index, array) => result` without a receiver. */
  type Callback = (Value, nat, seq<Value>) -> Value

  /** The callback argument of `find`/`findIndex`, which check `typeof`. */
  datatype Callable = Fn(f: Callback) | NotFunction

  /** The sequence read back to front. */
  function Reversed<T>(s: seq<T>): (r: seq<T>)
    ensures |r| == |s|
    ensures forall k :: 0 <= k < |s| ==> r[k] == s[|s| - 1 - k]
  {
    seq(|s|, k requires 0 <= k < |s| => s[|s| - 1 - k])
  }

  lemma ReversedSnoc<T>(t: seq<T>, x: T)
    ensures Reversed(t + [x]) == [x] + Reversed(t)
  {
    var lhs, rhs := Reversed(t + [x]), [x] + Reversed(t);
    assert |lhs| == |rhs|;
    forall k | 0 <= k < |lhs| ensures lhs[k] == rhs[k] {
      if k > 0 {
        assert rhs[k] == Reversed(t)[k - 1];
      }
    }
  }
}
