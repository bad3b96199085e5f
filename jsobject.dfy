/**
 * Property lookup `obj[key]` on a JavaScript object literal such as `{}` or
 * `{ js: "javascript", ... }`. Such an object inherits from `Object.prototype`, so
 * a key it does not own can still find a (truthy) inherited member.
 */
module JsObject {

  /** The members every object literal inherits from `Object.prototype`: all are
      functions except `__proto__`, which yields the prototype object. Each is truthy. */
  const InheritedKeys: set<string> := {
    "constructor", "__defineGetter__", "__defineSetter__", "hasOwnProperty",
    "__lookupGetter__", "__lookupSetter__", "isPrototypeOf", "propertyIsEnumerable",
    "toString", "valueOf", "__proto__", "toLocaleString"
  }

  /** What `obj[key]` evaluates to: an own entry, an inherited member, or `undefined`. */
  datatype Lookup<V> = Own(value: V) | Inherited(key: string) | Undefined

  /** `obj[key]` for an object literal whose own entries are `own`. */
  function Get<V>(own: map<string, V>, key: string): (r: Lookup<V>)
    ensures r.Own? <==> key in own
    ensures r.Own? ==> r.value == own[key]
    ensures r.Inherited? <==> key !in own && key in InheritedKeys
    ensures r.Undefined? <==> key !in own && key !in InheritedKeys
  {
    if key in own then Own(own[key])
    else if key in InheritedKeys then Inherited(key)
    else Undefined
  }
}
