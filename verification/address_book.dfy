/** The contact record (`roomdb/AddressBook.kt`), one row of `AddressBookTable`. */
module Contacts {
  import opened Wrappers

  /**
   * All five columns are nullable; `id` is the primary key (a Kotlin
   * `Long`), generated by the table when it is `null` on insert. Equality
   * is structural over the five fields, as for a Kotlin data class.
   */
  datatype AddressBook = AddressBook(id: Option<int>, name: Option<string>, email: Option<string>,
                                     phoneNumber: Option<string>, isActive: Option<bool>)

  /** The primary constructor with every argument left at its default. */
  const Unset: AddressBook := AddressBook(None, None, None, None, None)

  /**
   * The three-argument constructor used by the edit screen: a new contact,
   * without an id yet, marked active.
   */
  function NewContact(name: string, email: string, phoneNumber: string): (r: AddressBook)
    ensures r.id == None && r.isActive == Some(true)
    ensures r.name == Some(name) && r.email == Some(email) && r.phoneNumber == Some(phoneNumber)
  {
    AddressBook(None, Some(name), Some(email), Some(phoneNumber), Some(true))
  }
}

/**
 * `ORDER BY name` in SQLite: `NULL` sorts first, then text under the
 * default BINARY collation, which compares the UTF-8 bytes and so orders
 * strings by code point, a proper prefix first.
 */
module NameOrder {
  import opened Wrappers
  import opened Contacts

  predicate StrLe(a: string, b: string) {
    a == [] || (b != [] && (a[0] < b[0] || (a[0] == b[0] && StrLe(a[1..], b[1..]))))
  }

  lemma {:induction false} StrLeTotal(a: string, b: string)
    ensures StrLe(a, b) || StrLe(b, a)
    decreases |a|
  {
    if a != [] && b != [] && a[0] == b[0] {
      StrLeTotal(a[1..], b[1..]);
    }
  }

  lemma {:induction false} StrLeTransitive(a: string, b: string, c: string)
    requires StrLe(a, b) && StrLe(b, c)
    ensures StrLe(a, c)
    decreases |a|
  {
    if a != [] && a[0] == b[0] && b[0] == c[0] {
      StrLeTransitive(a[1..], b[1..], c[1..]);
    }
  }

  /** The order of the `name` column. */
  predicate NameLe(a: Option<string>, b: Option<string>) {
    a.None? || (b.Some? && StrLe(a.value, b.value))
  }

  lemma NameLeTotal(a: Option<string>, b: Option<string>)
    ensures NameLe(a, b) || NameLe(b, a)
  {
    if a.Some? && b.Some? {
      StrLeTotal(a.value, b.value);
    }
  }

  lemma NameLeTransitive(a: Option<string>, b: Option<string>, c: Option<string>)
    requires NameLe(a, b) && NameLe(b, c)
    ensures NameLe(a, c)
  {
    if a.Some? {
      StrLeTransitive(a.value, b.value, c.value);
    }
  }

  /** Rows in non-decreasing `name` order. */
  predicate SortedByName(s: seq<AddressBook>) {
    forall i, j :: 0 <= i < j < |s| ==> NameLe(s[i].name, s[j].name)
  }

  /** Putting a row no later than the head of a sorted list in front keeps it sorted. */
  lemma SortedCons(x: AddressBook, s: seq<AddressBook>)
    requires SortedByName(s)
    requires s == [] || NameLe(x.name, s[0].name)
    ensures SortedByName([x] + s)
  {
    var r := [x] + s;
    forall i, j | 0 <= i < j < |r| ensures NameLe(r[i].name, r[j].name) {
      if i == 0 {
        assert r[j] == s[j - 1];
        if j > 1 {
          NameLeTransitive(x.name, s[0].name, s[j - 1].name);
        }
      } else {
        assert r[i] == s[i - 1] && r[j] == s[j - 1];
      }
    }
  }

  /** One step of insertion sort: places `x` into the sorted list `s`. */
  function InsertByName(x: AddressBook, s: seq<AddressBook>): (r: seq<AddressBook>)
    requires SortedByName(s)
    ensures SortedByName(r)
    ensures multiset(r) == multiset(s) + multiset{x}
    ensures r[0] == x || (s != [] && r[0] == s[0])
  {
    if s == [] then [x]
    else if NameLe(x.name, s[0].name) then
      SortedCons(x, s);
      [x] + s
    else
      var tail := InsertByName(x, s[1..]);
      NameLeTotal(x.name, s[0].name);
      assert s == [s[0]] + s[1..];
      SortedCons(s[0], tail);
      [s[0]] + tail
  }

  /** Rows in `ORDER BY name` order: a sorted permutation of the input. */
  function SortByName(s: seq<AddressBook>): (r: seq<AddressBook>)
    ensures SortedByName(r)
    ensures multiset(r) == multiset(s)
  {
    if s == [] then []
    else
      assert s == [s[0]] + s[1..];
      InsertByName(s[0], SortByName(s[1..]))
  }
}
