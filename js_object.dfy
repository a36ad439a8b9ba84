/**
 * Reading a property of an object literal used as a lookup table:
 * `table[key]` finds the literal's own properties, but also the names
 * every such object inherits from `Object.prototype`.
 */
module JsObject {
  /** The property names an object literal inherits from `Object.prototype`. */
  const PrototypeKeys: set<string> := {
    "constructor", "hasOwnProperty", "isPrototypeOf", "propertyIsEnumerable",
    "toString", "toLocaleString", "valueOf", "__proto__",
    "__defineGetter__", "__defineSetter__", "__lookupGetter__", "__lookupSetter__"
  }

  /** What `table[key]` yields: an own string value, an inherited object or function, or `undefined`. */
  datatype Property = Own(value: string) | Inherited(name: string) | Missing

  /** `table[key]` on an object literal whose own properties are `table`. */
  function Get(table: map<string, string>, key: string): (p: Property)
    ensures p.Own? <==> key in table
    ensures p.Inherited? ==> p.name == key && key in PrototypeKeys
  {
    if key in table then Own(table[key])
    else if key in PrototypeKeys then Inherited(key)
    else Missing
  }

  /** The truthiness of the value read. */
  predicate Truthy(p: Property) {
    match p
    case Own(v) => v != ""
    case Inherited(_) => true
    case Missing => false
  }

  /**
   * The value read, converted to a string by concatenation: an inherited
   * method prints as native code (in the form V8 gives it), `constructor`
   * is the `Object` function and `__proto__` is `Object.prototype`.
   */
  function Text(p: Property): string {
    match p
    case Own(v) => v
    case Inherited(name) =>
      if name == "__proto__" then "[object Object]"
      else if name == "constructor" then "function Object() { [native code] }"
      else "function " + name + "() { [native code] }"
    case Missing => "undefined"
  }

  /** Away from the inherited names, reading the table is plain map lookup. */
  lemma GetOwnOnly(table: map<string, string>, key: string)
    requires key !in PrototypeKeys
    ensures Truthy(Get(table, key)) <==> key in table && table[key] != ""
    ensures key in table ==> Text(Get(table, key)) == table[key]
  {
  }
}
