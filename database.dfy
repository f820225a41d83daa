/** The SQLite file behind the service: its two tables, the statements the
    routes run against them, and what the promise wrappers hand back
    (the statement's lastID/changes, the first row or undefined, the row list). */
module Database {
  import opened Wrappers
  import opened Schema
  import opened Ordering

  /** What `runAsync` resolves with: the statement object's `lastID` and `changes`. */
  datatype RunResult = RunResult(lastID: int, changes: nat)

  /** Why a statement is rejected (`runAsync` rejects with the error). */
  datatype StoreError =
    | ConstraintFailed  // the CHECK on `shows.category`
    | Full              // AUTOINCREMENT has already handed out the largest rowid

  /** The content of a database file. */
  datatype Contents = Contents(shows: Table, seqShows: int, users: seq<User>)

  ghost predicate ContentsOk(c: Contents) {
    0 <= c.seqShows <= MaxRowId && ShowsOk(c.shows, c.seqShows) && UsersOk(c.users)
  }

  /** The two `CREATE TABLE IF NOT EXISTS` statements run at start-up on the file
      found on disk (None: a new file, so neither table exists yet). */
  function CreateTablesIfNotExists(existing: Option<Contents>): (c: Contents)
    ensures existing.Some? ==> c == existing.value
    ensures existing.None? ==> c.shows == map[] && c.users == [] && c.seqShows == 0
  {
    match existing
    case Some(c) => c
    case None => Contents(map[], 0, [])
  }

  /** Running the start-up statements a second time changes nothing. */
  lemma CreateTablesIdempotent(existing: Option<Contents>)
    ensures CreateTablesIfNotExists(Some(CreateTablesIfNotExists(existing))) == CreateTablesIfNotExists(existing)
  {
  }

  /** `getAsync` on `SELECT * FROM shows WHERE id = ?`: the row, or undefined. */
  function Lookup(t: Table, id: int): Option<Show> {
    if id in t then Some(t[id]) else None
  }

  /** The row the INSERT of a valid row adds under `id`. */
  function InsertRow(t: Table, id: int, title: string, description: string, category: string, image: Option<string>): (r: Table)
    ensures r.Keys == t.Keys + {id}
    ensures Lookup(r, id) == Some(Show(id, title, description, category, image))
    ensures forall k :: k in t && k != id ==> r[k] == t[k]
  {
    t[id := Show(id, title, description, category, image)]
  }

  /** `UPDATE shows SET title = ?, description = ?, category = ?, image = COALESCE(?, image)
      WHERE id = ?`: the new table and the number of rows changed. */
  function UpdateRow(t: Table, id: int, title: string, description: string, category: string, image: Option<string>): (r: (Table, nat))
    ensures r.1 == 1 <==> id in t
    ensures r.1 == 0 <==> id !in t
    ensures r.1 == 0 ==> r.0 == t
    ensures r.0.Keys == t.Keys
    ensures forall k :: k in t && k != id ==> r.0[k] == t[k]
    ensures id in t ==> r.0[id].id == id && r.0[id].title == title && r.0[id].description == description
                        && r.0[id].category == category
                        && r.0[id].image == (if image.Some? then image else t[id].image)
  {
    if id in t then
      (t[id := Show(id, title, description, category, image.OrElse(t[id].image))], 1)
    else
      (t, 0)
  }

  /** `DELETE FROM shows WHERE id = ?`: the new table and the number of rows removed. */
  function DeleteRow(t: Table, id: int): (r: (Table, nat))
    ensures r.0.Keys == t.Keys - {id}
    ensures forall k :: k in r.0 ==> r.0[k] == t[k]
    ensures r.1 == (if id in t then 1 else 0)
  {
    if id in t then (t - {id}, 1) else (t, 0)
  }

  /** Deleting an id a second time removes nothing. */
  lemma DeleteRowTwice(t: Table, id: int)
    ensures DeleteRow(DeleteRow(t, id).0, id).1 == 0
    ensures DeleteRow(DeleteRow(t, id).0, id).0 == DeleteRow(t, id).0
  {
  }

  /** The rows with a key in 1..n-1, in ascending key order (a scan by rowid). */
  function RowsBelow(t: Table, n: int): seq<Show>
    decreases n
  {
    if n <= 1 then [] else RowsBelow(t, n - 1) + (if n - 1 in t then [t[n - 1]] else [])
  }

  /** Each row of the table with a key below `n` occurs in the scan exactly once,
      and nothing else occurs in it. */
  lemma {:induction false} RowsBelowCount(t: Table, n: int)
    requires forall k :: k in t ==> t[k].id == k
    ensures forall s :: multiset(RowsBelow(t, n))[s] == if 1 <= s.id < n && s.id in t && t[s.id] == s then 1 else 0
    decreases n
  {
    if n > 1 {
      RowsBelowCount(t, n - 1);
      var extra := if n - 1 in t then [t[n - 1]] else [];
      assert RowsBelow(t, n) == RowsBelow(t, n - 1) + extra;
      forall s
        ensures multiset(RowsBelow(t, n))[s] == if 1 <= s.id < n && s.id in t && t[s.id] == s then 1 else 0
      {
        assert multiset(RowsBelow(t, n))[s] == multiset(RowsBelow(t, n - 1))[s] + multiset(extra)[s];
      }
    }
  }

  /** The rows of `s` whose category is `c`, in the order of `s`. */
  function OfCategory(s: seq<Show>, c: string): seq<Show>
    decreases |s|
  {
    if s == [] then [] else (if s[0].category == c then [s[0]] else []) + OfCategory(s[1..], c)
  }

  lemma {:induction false} OfCategoryCount(s: seq<Show>, c: string)
    ensures forall x :: multiset(OfCategory(s, c))[x] == if x.category == c then multiset(s)[x] else 0
    decreases |s|
  {
    if s != [] {
      OfCategoryCount(s[1..], c);
      assert s == [s[0]] + s[1..];
      var head := if s[0].category == c then [s[0]] else [];
      forall x
        ensures multiset(OfCategory(s, c))[x] == if x.category == c then multiset(s)[x] else 0
      {
        assert multiset(OfCategory(s, c))[x] == multiset(head)[x] + multiset(OfCategory(s[1..], c))[x];
        assert multiset(s)[x] == multiset([s[0]])[x] + multiset(s[1..])[x];
      }
    }
  }

  /** `allAsync` on `SELECT * FROM shows ORDER BY title`. */
  function SelectAll(t: Table, n: int): seq<Show> {
    SortByTitle(RowsBelow(t, n))
  }

  /** `allAsync` on `SELECT * FROM shows WHERE category = ? ORDER BY title`. */
  function SelectByCategory(t: Table, n: int, c: string): seq<Show> {
    SortByTitle(OfCategory(RowsBelow(t, n), c))
  }

  /** The full listing is in title order and holds every stored row exactly once. */
  lemma SelectAllSpec(t: Table, seqMax: int)
    requires ShowsOk(t, seqMax)
    ensures SortedByTitle(SelectAll(t, seqMax + 1))
    ensures forall s :: multiset(SelectAll(t, seqMax + 1))[s] == if s.id in t && t[s.id] == s then 1 else 0
  {
    SortByTitleSpec(RowsBelow(t, seqMax + 1));
    RowsBelowCount(t, seqMax + 1);
  }

  /** The category listing is in title order and holds exactly the stored rows of
      that category, once each; for a value outside the enumeration it is empty. */
  lemma SelectByCategorySpec(t: Table, seqMax: int, c: string)
    requires ShowsOk(t, seqMax)
    ensures SortedByTitle(SelectByCategory(t, seqMax + 1, c))
    ensures forall s :: multiset(SelectByCategory(t, seqMax + 1, c))[s] ==
                        if s.category == c && s.id in t && t[s.id] == s then 1 else 0
    ensures !IsCategory(c) ==> SelectByCategory(t, seqMax + 1, c) == []
  {
    var rows := RowsBelow(t, seqMax + 1);
    SortByTitleSpec(OfCategory(rows, c));
    RowsBelowCount(t, seqMax + 1);
    OfCategoryCount(rows, c);
    var r := SelectByCategory(t, seqMax + 1, c);
    if !IsCategory(c) {
      assert multiset(r) == multiset{};
    }
  }

  /** The database file: the `shows` rows, the AUTOINCREMENT counter kept for
      `shows` in sqlite_sequence, the connection's last inserted rowid, and the
      `users` rows, which nothing in the service writes. */
  class Store {
    var shows: Table
    var seqShows: int
    var lastInsertRowid: int
    const users: seq<User>

    /** The schema's constraints. */
    ghost predicate Valid()
      reads this
    {
      ContentsOk(Contents(shows, seqShows, users))
    }

    /** Opens the file and runs the start-up CREATE TABLE statements. */
    constructor Open(existing: Option<Contents>)
      requires existing.Some? ==> ContentsOk(existing.value)
      ensures Valid()
      ensures Contents(shows, seqShows, users) == CreateTablesIfNotExists(existing)
      ensures lastInsertRowid == 0
    {
      var c := CreateTablesIfNotExists(existing);
      shows := c.shows;
      seqShows := c.seqShows;
      users := c.users;
      lastInsertRowid := 0;
    }

    /** `INSERT INTO shows (title, description, category, image) VALUES (?, ?, ?, ?)`. */
    method Insert(title: string, description: string, category: string, image: Option<string>)
      returns (r: Result<RunResult, StoreError>)
      requires Valid()
      modifies this
      ensures Valid()
      ensures old(seqShows) == MaxRowId ==> r == Failure(Full)
      ensures old(seqShows) < MaxRowId && !IsCategory(category) ==> r == Failure(ConstraintFailed)
      ensures old(seqShows) < MaxRowId && IsCategory(category) ==> r.Success?
      ensures r.Failure? ==> unchanged(this)
      ensures r.Success? ==>
        var id := old(seqShows) + 1;
        && r.value == RunResult(id, 1)
        && shows == InsertRow(old(shows), id, title, description, category, image)
        && seqShows == id && lastInsertRowid == id
      // the new id is above every id handed out before, so deleted ids are never reused
      ensures r.Success? ==> forall k :: k in old(shows) ==> k < r.value.lastID
    {
      if seqShows == MaxRowId {
        return Failure(Full);
      }
      if !IsCategory(category) {
        return Failure(ConstraintFailed);
      }
      var id := seqShows + 1;
      shows := InsertRow(shows, id, title, description, category, image);
      seqShows := id;
      lastInsertRowid := id;
      r := Success(RunResult(id, 1));
    }

    /** The UPDATE statement of `UpdateRow`. */
    method Update(id: int, title: string, description: string, category: string, image: Option<string>)
      returns (r: Result<RunResult, StoreError>)
      requires Valid()
      modifies this
      ensures Valid()
      ensures r.Failure? <==> id in old(shows) && !IsCategory(category)
      ensures r.Failure? ==> r.error == ConstraintFailed && unchanged(this)
      ensures r.Success? ==>
        && r.value == RunResult(old(lastInsertRowid), UpdateRow(old(shows), id, title, description, category, image).1)
        && shows == UpdateRow(old(shows), id, title, description, category, image).0
      ensures seqShows == old(seqShows) && lastInsertRowid == old(lastInsertRowid)
    {
      if id in shows && !IsCategory(category) {
        return Failure(ConstraintFailed);
      }
      var (t, changes) := UpdateRow(shows, id, title, description, category, image);
      shows := t;
      r := Success(RunResult(lastInsertRowid, changes));
    }

    /** The DELETE statement of `DeleteRow`. */
    method Delete(id: int) returns (r: RunResult)
      requires Valid()
      modifies this
      ensures Valid()
      ensures shows == DeleteRow(old(shows), id).0
      ensures r == RunResult(old(lastInsertRowid), DeleteRow(old(shows), id).1)
      ensures seqShows == old(seqShows) && lastInsertRowid == old(lastInsertRowid)
    {
      var (t, changes) := DeleteRow(shows, id);
      shows := t;
      r := RunResult(lastInsertRowid, changes);
    }
  }
}
