/**
 * Android's `SharedPreferences`, as the application uses them: named
 * namespaces (`context.getSharedPreferences(name, MODE_PRIVATE)`), each a
 * map from string keys to string values.
 */
module Prefs {
  import opened Wrappers

  type Namespace = map<string, string>

  /** Every namespace of the application, by name; a name never opened reads as empty. */
  type Store = map<string, Namespace>

  /** `getSharedPreferences(name)`: the namespace of that name, empty when nothing was ever written to it. */
  function Open(s: Store, name: string): Namespace {
    if name in s then s[name] else map[]
  }

  /** `getString(key, null)`. */
  function GetString(s: Store, name: string, key: string): Option<string> {
    var ns := Open(s, name);
    if key in ns then Some(ns[key]) else None
  }

  /** `contains(key)`. */
  predicate Contains(s: Store, name: string, key: string) {
    key in Open(s, name)
  }

  /** `edit().putString(key, value)` once the edit reaches the in-memory namespace. */
  function PutString(s: Store, name: string, key: string, value: string): (r: Store)
    ensures GetString(r, name, key) == Some(value)
    ensures forall k :: k != key ==> GetString(r, name, k) == GetString(s, name, k)
    ensures forall n :: n != name ==> Open(r, n) == Open(s, n)
  {
    s[name := Open(s, name)[key := value]]
  }

  /** `edit().remove(key)` once the edit reaches the in-memory namespace. */
  function Remove(s: Store, name: string, key: string): (r: Store)
    ensures GetString(r, name, key) == None
    ensures forall k :: k != key ==> GetString(r, name, k) == GetString(s, name, k)
    ensures forall n :: n != name ==> Open(r, n) == Open(s, n)
  {
    s[name := Open(s, name) - {key}]
  }

  /** Two stores agree on a namespace. */
  predicate SameNamespace(s: Store, t: Store, name: string) {
    Open(s, name) == Open(t, name)
  }
}
