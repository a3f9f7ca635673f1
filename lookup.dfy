/** `getEnv` in `index.js`: a lookup in the process environment with a default and a
    warning when the result is `null`. */
module Lookup {
  import opened Wrappers

  /** The value returned (`None` is `null`) and whether the warning was emitted. */
  datatype LookupResult = LookupResult(value: Option<string>, warned: bool)

  /** The value of `key` in `store` if present, otherwise `defaultValue`; the warning is
      emitted exactly when the value returned is `null`, that is, when the key is missing
      and no non-null default was given. */
  function GetEnv(store: map<string, string>, key: string, defaultValue: Option<string>): (r: LookupResult)
    ensures key in store ==> r.value == Some(store[key])
    ensures key !in store ==> r.value == defaultValue
    ensures r.warned <==> key !in store && defaultValue == None
  {
    var value := if key in store then Some(store[key]) else defaultValue;
    LookupResult(value, value == None)
  }

  /** With the default argument omitted (it is `null`), a missing key gives `null` with a
      warning and a present key gives its value without one. */
  lemma GetEnvWithoutDefault(store: map<string, string>, key: string)
    ensures key !in store ==> GetEnv(store, key, None) == LookupResult(None, true)
    ensures key in store ==> GetEnv(store, key, None) == LookupResult(Some(store[key]), false)
  {
  }
}
