/** The rows of the two tables of the store and the constraints their
    CREATE TABLE statements declare. */
module Schema {
  import opened Wrappers

  /** The values the CHECK constraint on `shows.category` admits. */
  const Categories: seq<string> := ["movie", "anime", "serie"]

  predicate IsCategory(c: string) {
    c in Categories
  }

  /** The largest rowid SQLite can hand out (a signed 64-bit integer). */
  const MaxRowId: int := 0x7FFF_FFFF_FFFF_FFFF

  /** A row of `shows`; `image` is the nullable column. */
  datatype Show = Show(id: int, title: string, description: string, category: string, image: Option<string>)

  /** A row of `users`; `createdAt` is the CURRENT_TIMESTAMP recorded at insert. */
  datatype User = User(id: int, email: string, password: string, createdAt: int)

  /** The `shows` table, keyed by its INTEGER PRIMARY KEY. */
  type Table = map<int, Show>

  /** Constraints of `shows` given the AUTOINCREMENT counter `seqMax` (the largest
      id ever handed out): the key is the row's id and lies in 1..seqMax, and the
      category passes the CHECK constraint. Title and description are never NULL
      because a `string` always holds a value. */
  ghost predicate ShowsOk(t: Table, seqMax: int) {
    forall k :: k in t ==> t[k].id == k && 1 <= k <= seqMax && IsCategory(t[k].category)
  }

  /** Constraints of `users`: ids (AUTOINCREMENT, from 1) and emails (UNIQUE) are
      distinct between rows. */
  ghost predicate UsersOk(users: seq<User>) {
    && (forall i :: 0 <= i < |users| ==> users[i].id >= 1)
    && (forall i, j :: 0 <= i < j < |users| ==> users[i].email != users[j].email && users[i].id != users[j].id)
  }
}
