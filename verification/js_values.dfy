/** Small wrapper used for lookups that may miss. */
module Options {
  datatype Option<+T> = None | Some(value: T)
}

/**
 The JavaScript values the relay handles: whatever `JSON.parse` produces,
 plus `undefined` (the value of a missing property).
 */
module JsValues {

  datatype Value =
    | Undefined
    | Null
    | Bool(b: bool)
    | Num(x: real)        // a finite number; JSON text has no NaN, and an out-of-range literal is not modelled
    | Str(s: string)
    | Arr(items: seq<Value>)
    | Obj(props: map<string, Value>)

  /** Primitives compare by value; arrays and objects by reference. */
  predicate IsPrimitive(v: Value) {
    !(v.Arr? || v.Obj?)
  }

  /** Reading a property of one of these throws a TypeError. */
  predicate IsNullish(v: Value) {
    v.Undefined? || v.Null?
  }

  /**
   JavaScript's ToBoolean, restricted to values JSON can produce: the falsy
   ones are exactly `undefined`, `null`, `false`, `0` and `""`.
   */
  function Truthy(v: Value): (r: bool)
    ensures !r <==> v in {Undefined, Null, Bool(false), Num(0.0), Str("")}
  {
    match v
    case Undefined => false
    case Null => false
    case Bool(b) => b
    case Num(x) => x != 0.0
    case Str(s) => s != ""
    case Arr(_) => true
    case Obj(_) => true
  }

  /**
   The property read `v.key`. JSON values carry only own properties, and
   none of the names the server reads is inherited by a primitive or an
   array, so only an object can supply one.
   */
  function Property(v: Value, key: string): Value
    requires !IsNullish(v)
  {
    if v.Obj? && key in v.props then v.props[key] else Undefined
  }

  /**
   A value as it sits in memory: `cell` identifies the heap cell of an array
   or object, and means nothing for a primitive.
   */
  datatype Key = Key(v: Value, cell: nat)

  /**
   SameValueZero, the key equality of a JavaScript `Map`: primitives are
   compared by value (JSON has no NaN, and 0 and -0 are the same real),
   arrays and objects by identity.
   */
  predicate SameValueZero(a: Key, b: Key) {
    if IsPrimitive(a.v) || IsPrimitive(b.v) then a.v == b.v else a.cell == b.cell
  }

  /**
   SameValueZero between a key already stored and a key just taken from a
   freshly parsed message. A parsed array or object is a new reference,
   identical to nothing stored.
   */
  function SameKey(stored: Value, probe: Value): bool
  {
    IsPrimitive(probe) && stored == probe
  }

  /**
   Converting `v` to a string, as a template literal `${v}` does, throws a
   TypeError. For an object, an own `toString` property that is not a
   function is skipped, and the inherited `valueOf` returns the object
   itself, which is not a primitive. An array joins its elements, so it
   throws when an element does. Primitives always convert.
   */
  predicate StringifyThrows(v: Value)
    decreases v
  {
    match v
    case Obj(props) => "toString" in props
    case Arr(items) => exists i :: 0 <= i < |items| && StringifyThrows(items[i])
    case _ => false
  }

  /**
   `SameKey` is SameValueZero on the values in memory, provided the probe,
   when it is an array or object, lives in a cell the stored key does not:
   which holds for every key taken from a message parsed after the stored
   key was set.
   */
  lemma SameKeyIsSameValueZero(stored: Key, probe: Key)
    requires !IsPrimitive(probe.v) ==> probe.cell != stored.cell
    ensures SameKey(stored.v, probe.v) <==> SameValueZero(stored, probe)
  {
  }

  /** Only arrays and objects can fail to convert to a string. */
  lemma StringifyThrowsOnlyOnReferences(v: Value)
    ensures StringifyThrows(v) ==> !IsPrimitive(v)
  {
  }

  /**
   An object with its own `toString` fails to convert, and so does an array
   holding one; an object with only its own `valueOf` converts.
   */
  lemma StringifyThrowsExamples()
    ensures StringifyThrows(Obj(map["toString" := Num(0.0)]))
    ensures StringifyThrows(Arr([Null, Obj(map["toString" := Str("x")])]))
    ensures !StringifyThrows(Obj(map["valueOf" := Num(0.0)]))
  {
    assert Arr([Null, Obj(map["toString" := Str("x")])]).items[1] == Obj(map["toString" := Str("x")]);
  }
}
