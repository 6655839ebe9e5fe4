/**
 * `AddressBookTable` and the statements of `roomdb/AddressBookDao.kt`.
 * The table maps each primary key to its row; `sequence` is SQLite's
 * AUTOINCREMENT counter for the table (`sqlite_sequence`), the largest id
 * the table has ever held. Room emits AUTOINCREMENT for
 * `@PrimaryKey(autoGenerate = true)`, so a generated id is one past that
 * counter and an id is never handed out twice, even after a delete or a
 * clear.
 */
module AddressBookDao {
  import opened Wrappers
  import opened Contacts
  import opened NameOrder

  datatype Table = Table(rows: map<int, AddressBook>, sequence: int)

  /** Every row is stored under its own id, and no id exceeds the counter. */
  predicate Valid(t: Table) {
    forall k :: k in t.rows ==> t.rows[k].id == Some(k) && k <= t.sequence
  }

  /** A freshly created database file. */
  const Empty: Table := Table(map[], 0)

  /** The key a row is written under: its own id, or the next generated one. */
  function KeyFor(t: Table, r: AddressBook): int {
    r.id.GetOr(t.sequence + 1)
  }

  /**
   * `@Insert(onConflict = REPLACE)`: a row whose id is taken replaces the
   * row with that id; a row with a `null` id gets an id that no row holds.
   * Every other row is left as it was.
   */
  function Insert(t: Table, r: AddressBook): (u: Table)
    requires Valid(t)
    ensures Valid(u)
    ensures var k := KeyFor(t, r);
            && k in u.rows && u.rows[k] == r.(id := Some(k))
            && (r.id.None? ==> k !in t.rows)
            && u.rows.Keys == t.rows.Keys + {k}
            && (forall j :: j in t.rows && j != k ==> u.rows[j] == t.rows[j])
            && u.sequence == (if k > t.sequence then k else t.sequence)
    ensures r.id.None? ==> |u.rows| == |t.rows| + 1 && u.sequence == t.sequence + 1
  {
    var k := KeyFor(t, r);
    Table(t.rows[k := r.(id := Some(k))], if k > t.sequence then k else t.sequence)
  }

  /**
   * `@Update`: `UPDATE … WHERE id = :id`. Only the row with the record's id
   * changes, to the record; no row matches a missing or `null` id.
   */
  function Update(t: Table, r: AddressBook): (u: Table)
    requires Valid(t)
    ensures Valid(u)
    ensures u.rows.Keys == t.rows.Keys && u.sequence == t.sequence
    ensures forall j :: j in t.rows ==> u.rows[j] == (if r.id == Some(j) then r else t.rows[j])
  {
    if r.id.Some? && r.id.value in t.rows then Table(t.rows[r.id.value := r], t.sequence) else t
  }

  /** `DELETE FROM AddressBookTable WHERE id = :id`: removes that row, if there is one. */
  function DeleteById(t: Table, id: int): (u: Table)
    requires Valid(t)
    ensures Valid(u)
    ensures u.rows.Keys == t.rows.Keys - {id} && u.sequence == t.sequence
    ensures forall j :: j in u.rows ==> u.rows[j] == t.rows[j]
  {
    Table(t.rows - {id}, t.sequence)
  }

  /**
   * `@Delete`: deletes by primary key only, so the record's other fields
   * play no part; a `null` id matches no row.
   */
  function Delete(t: Table, r: AddressBook): (u: Table)
    requires Valid(t)
    ensures Valid(u)
    ensures u.rows.Keys == (if r.id.Some? then t.rows.Keys - {r.id.value} else t.rows.Keys)
    ensures forall j :: j in u.rows ==> u.rows[j] == t.rows[j]
    ensures u.sequence == t.sequence
  {
    if r.id.Some? then DeleteById(t, r.id.value) else t
  }

  /** `DELETE FROM AddressBookTable`: no rows; the AUTOINCREMENT counter survives. */
  function Clear(t: Table): (u: Table)
    requires Valid(t)
    ensures Valid(u) && u.rows == map[] && u.sequence == t.sequence
  {
    Table(map[], t.sequence)
  }

  /** `r` holds every row of `t` exactly once and nothing else, in any order. */
  ghost predicate HoldsRows(t: Table, r: seq<AddressBook>) {
    && |r| == |t.rows|
    && (forall i :: 0 <= i < |r| ==> r[i].id.Some? && r[i].id.value in t.rows && t.rows[r[i].id.value] == r[i])
    && (forall i, j :: 0 <= i < j < |r| ==> r[i].id != r[j].id)
    && (forall k :: k in t.rows ==> t.rows[k] in r)
  }

  /**
   * What `SELECT * FROM AddressBookTable ORDER BY name` may return for `t`:
   * every row exactly once, in non-decreasing name order. SQLite leaves the
   * order of rows with equal names open.
   */
  ghost predicate Listing(t: Table, r: seq<AddressBook>) {
    SortedByName(r) && HoldsRows(t, r)
  }

  /** Reads every row of the table once, in no particular order. */
  method CollectRows(t: Table) returns (acc: seq<AddressBook>)
    requires Valid(t)
    ensures HoldsRows(t, acc)
  {
    acc := [];
    var left := t.rows.Keys;
    while left != {}
      invariant left <= t.rows.Keys
      invariant |acc| + |left| == |t.rows|
      invariant forall i :: 0 <= i < |acc| ==>
                  acc[i].id.Some? && acc[i].id.value in t.rows && acc[i].id.value !in left
                  && t.rows[acc[i].id.value] == acc[i]
      invariant forall i, j :: 0 <= i < j < |acc| ==> acc[i].id != acc[j].id
      invariant forall k :: k in t.rows && k !in left ==> t.rows[k] in acc
      decreases left
    {
      Inhabited(left);
      var k :| k in left;
      acc := acc + [t.rows[k]];
      left := left - {k};
    }
  }

  /** A non-empty key set has a member. */
  lemma Inhabited(s: set<int>)
    ensures s != {} ==> exists k :: k in s
  {
    if forall k :: k !in s {
      assert s == {};
    }
  }

  /** `getAllAddressBook()`: the rows, collected and put in `name` order. */
  method GetAll(t: Table) returns (r: seq<AddressBook>)
    requires Valid(t)
    ensures Listing(t, r)
  {
    var acc := CollectRows(t);
    r := SortByName(acc);
    PermutationHoldsRows(t, acc, r);
  }

  /** Reordering a list that holds every row once still holds every row once. */
  lemma PermutationHoldsRows(t: Table, a: seq<AddressBook>, b: seq<AddressBook>)
    requires HoldsRows(t, a) && multiset(a) == multiset(b)
    ensures HoldsRows(t, b)
  {
    forall i | 0 <= i < |b|
      ensures b[i].id.Some? && b[i].id.value in t.rows && t.rows[b[i].id.value] == b[i]
    {
      assert b[i] in multiset(a);
      var p :| 0 <= p < |a| && a[p] == b[i];
    }
    forall k | k in t.rows ensures t.rows[k] in b {
      var p :| 0 <= p < |a| && a[p] == t.rows[k];
      assert a[p] in multiset(b);
    }
    assert |b| == |a| by {
      assert |multiset(b)| == |multiset(a)|;
    }
    DistinctIds(a, b);
  }

  /** A permutation of rows with pairwise distinct ids has pairwise distinct ids. */
  lemma DistinctIds(a: seq<AddressBook>, b: seq<AddressBook>)
    requires multiset(a) == multiset(b)
    requires forall i, j :: 0 <= i < j < |a| ==> a[i].id != a[j].id
    ensures forall i, j :: 0 <= i < j < |b| ==> b[i].id != b[j].id
  {
    forall i, j | 0 <= i < j < |b| ensures b[i].id != b[j].id {
      if b[i].id == b[j].id {
        assert b[i] in multiset(a) && b[j] in multiset(a);
        var p :| 0 <= p < |a| && a[p] == b[i];
        var q :| 0 <= q < |a| && a[q] == b[j];
        if p == q {
          CountAtLeastTwo(b, i, j);
          CountAtMostOne(a, b[i]);
        }
      }
    }
  }

  /** In a list with pairwise distinct ids no row occurs twice. */
  lemma {:induction false} CountAtMostOne(a: seq<AddressBook>, x: AddressBook)
    requires forall i, j :: 0 <= i < j < |a| ==> a[i].id != a[j].id
    ensures multiset(a)[x] <= 1
  {
    if a != [] {
      var init := a[..|a| - 1];
      assert a == init + [a[|a| - 1]];
      CountAtMostOne(init, x);
      if a[|a| - 1] == x {
        assert x !in init by {
          forall i | 0 <= i < |init| ensures init[i] != x {
            assert init[i].id != a[|a| - 1].id;
          }
        }
      }
    }
  }

  /** A row equal at two positions occurs at least twice. */
  lemma CountAtLeastTwo(b: seq<AddressBook>, i: int, j: int)
    requires 0 <= i < j < |b| && b[i] == b[j]
    ensures multiset(b)[b[i]] >= 2
  {
    assert b == b[..i] + [b[i]] + b[i+1..j] + [b[j]] + b[j+1..];
  }

  /** After an insert the listing holds the inserted row under its key. */
  lemma InsertListed(t: Table, x: AddressBook, r: seq<AddressBook>)
    requires Valid(t) && Listing(Insert(t, x), r)
    ensures x.(id := Some(KeyFor(t, x))) in r
  {
  }

  /** After a delete the listing holds no row with that id, and every other row. */
  lemma DeleteListed(t: Table, x: AddressBook, r: seq<AddressBook>)
    requires Valid(t) && x.id.Some? && Listing(Delete(t, x), r)
    ensures forall i :: 0 <= i < |r| ==> r[i].id != x.id
    ensures forall k :: k in t.rows && Some(k) != x.id ==> t.rows[k] in r
  {
  }

  /** After an update the listing shows the new fields under the same id. */
  lemma UpdateListed(t: Table, x: AddressBook, r: seq<AddressBook>)
    requires Valid(t) && x.id.Some? && x.id.value in t.rows && Listing(Update(t, x), r)
    ensures x in r
    ensures forall i :: 0 <= i < |r| && r[i].id == x.id ==> r[i] == x
  {
    var u := Update(t, x);
    var k := x.id.value;
    assert k in u.rows && u.rows[k] == x;
    assert forall j :: j in u.rows ==> u.rows[j] in r;
    assert u.rows[k] in r;
  }
}
