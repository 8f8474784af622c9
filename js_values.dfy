/** The few JavaScript value semantics the orchestrator relies on: what a
    property lookup on an object literal yields, truthiness, `a || b`, and
    `Array.prototype.indexOf` with its strict equality. */
module JsValues {

  /** A JavaScript value as far as this model needs one. `Inherited(key)` is
      the member `key` that every object literal inherits from
      Object.prototype (a function, or Object.prototype itself for
      `__proto__`); it is truthy and never strictly equal to a string. */
  datatype JsValue = Undefined | Null | Str(s: string) | Inherited(key: string)

  /** The own properties of Object.prototype (ECMAScript 2017, including the
      legacy accessors of its Annex B). */
  const ObjectPrototypeKeys: set<string> := {
    "constructor", "hasOwnProperty", "isPrototypeOf", "propertyIsEnumerable",
    "toLocaleString", "toString", "valueOf", "__proto__",
    "__defineGetter__", "__defineSetter__", "__lookupGetter__", "__lookupSetter__"
  }

  /** JavaScript truthiness: undefined, null and "" are falsy. */
  predicate Truthy(v: JsValue) {
    match v
    case Undefined => false
    case Null => false
    case Str(s) => s != ""
    case Inherited(_) => true
  }

  /** `a || b`: it yields one of its operands, never a new value; a falsy
      left operand gives the right one (so `undefined || null` is null); and
      the result is truthy exactly when either operand is. When `b` is falsy,
      as the `null` at the end of a `|| null` fallback is, these fix the
      result completely: `a` if it is truthy, `b` otherwise. */
  function Or(a: JsValue, b: JsValue): (r: JsValue)
    ensures r == a || r == b
    ensures !Truthy(a) ==> r == b
    ensures Truthy(r) <==> Truthy(a) || Truthy(b)
  {
    if Truthy(a) then a else b
  }

  /** `obj[key]` for an object literal whose own string-valued properties are
      `table`: an own property first, then the prototype chain, else undefined. */
  function Lookup(table: map<string, string>, key: string): (r: JsValue)
  {
    if key in table then Str(table[key])
    else if key in ObjectPrototypeKeys then Inherited(key)
    else Undefined
  }

  /** `names.indexOf(v)` on an array of strings: the first index whose
      element is strictly equal to `v`, or -1. */
  function IndexOf(names: seq<string>, v: JsValue): (r: int)
    ensures -1 <= r < |names|
    ensures r == -1 <==> forall j :: 0 <= j < |names| ==> Str(names[j]) != v
    ensures 0 <= r ==> Str(names[r]) == v && forall j :: 0 <= j < r ==> Str(names[j]) != v
    decreases |names|
  {
    if |names| == 0 then -1
    else if Str(names[0]) == v then 0
    else
      var k := IndexOf(names[1..], v);
      if k == -1 then -1 else k + 1
  }

  /** indexOf finds something exactly when `v` is a string held in `names`;
      any value of another type is never found. */
  lemma IndexOfFound(names: seq<string>, v: JsValue)
    ensures IndexOf(names, v) != -1 <==> v.Str? && v.s in names
  {
    if v.Str? && v.s in names {
      var j :| 0 <= j < |names| && names[j] == v.s;
      assert Str(names[j]) == v;
    }
  }
}
