/** The database the handlers share (the `account` and `image` tables created in
    src/_migrations.py), reached through one SQLite connection.

    Rows are maps keyed by their primary key, so a key is unique by construction; an
    INSERT of a key already present fails as SQLite's UNIQUE constraint does. The
    `foreign_keys` pragma is off on a fresh connection and switched on by the schema
    script; while it is on, an image row must name an existing account. */
module Tables {
  import opened Wrappers

  type AccountId = string
  type ImageId = string

  /** A row of `image`: `name` is nullable, every other column is NOT NULL. */
  datatype Image = Image(
    name: Option<string>,
    uploadedAt: int,
    requireSignedUrls: bool,
    draft: bool,
    accountId: AccountId)

  /** The constraint an INSERT violated (SQLite raises IntegrityError for both). */
  datatype DbError = UniqueConstraintFailed | ForeignKeyConstraintFailed

  /** The tables the schema script creates. */
  const SchemaTables: set<string> := {"account", "variant", "image", "video"}

  /** What a database file holds when it is opened. */
  datatype Snapshot = Snapshot(
    tables: set<string>,
    accounts: map<AccountId, string>,
    images: map<ImageId, Image>)

  const EmptyDatabase := Snapshot({}, map[], map[])

  /** What `aiosqlite.connect(name)` opens: ":memory:" is a new empty database; a file
      name opens what that file holds, or an empty database if there is no such file. */
  function OpenedDatabase(name: string, files: map<string, Snapshot>): Snapshot {
    if name != ":memory:" && name in files then files[name] else EmptyDatabase
  }

  /** Every image row names an existing account. */
  ghost predicate ForeignKeysHold(accounts: map<AccountId, string>, images: map<ImageId, Image>) {
    forall id :: id in images ==> images[id].accountId in accounts
  }

  /** A row is a draft exactly while its name is NULL. */
  ghost predicate NamedWhenPublished(images: map<ImageId, Image>) {
    forall id :: id in images ==> (images[id].draft <==> images[id].name.None?)
  }

  /** `INSERT INTO image ... VALUES (id, ...)`: rejected when the key is taken or, with
      foreign keys on, when the account does not exist; otherwise exactly one row more. */
  function InsertImage(accounts: map<AccountId, string>, images: map<ImageId, Image>,
                       foreignKeys: bool, id: ImageId, row: Image): (r: Result<map<ImageId, Image>, DbError>)
    ensures id in images ==> r == Failure(UniqueConstraintFailed)
    ensures id !in images && foreignKeys && row.accountId !in accounts ==>
              r == Failure(ForeignKeyConstraintFailed)
    ensures r.Success? <==> id !in images && (foreignKeys ==> row.accountId in accounts)
    ensures r.Success? ==> r.value.Keys == images.Keys + {id} && r.value[id] == row
    ensures r.Success? ==> forall k :: k in images ==> r.value[k] == images[k]
  {
    if id in images then Failure(UniqueConstraintFailed)
    else if foreignKeys && row.accountId !in accounts then Failure(ForeignKeyConstraintFailed)
    else Success(images[id := row])
  }

  /** `UPDATE image SET draft = 0, name = ? WHERE image_id = ?`: the row, if any, becomes
      published under `name`; no other row changes and none appears. */
  function Publish(images: map<ImageId, Image>, id: ImageId, name: string): (r: map<ImageId, Image>)
    ensures r.Keys == images.Keys
    ensures id in images ==> r[id] == images[id].(draft := false, name := Some(name))
    ensures forall k :: k in images && k != id ==> r[k] == images[k]
  {
    if id in images then images[id := images[id].(draft := false, name := Some(name))] else images
  }

  /** `SELECT * FROM image WHERE image_id = ? AND draft = 1` finds a row. */
  predicate IsDraft(images: map<ImageId, Image>, id: ImageId) {
    id in images && images[id].draft
  }

  /** `SELECT name FROM image WHERE image_id = ? AND account_id = ? AND draft = 0`: the
      `name` column of the matching row, or no row. */
  function SelectPublishedName(images: map<ImageId, Image>, id: ImageId, account: AccountId): (r: Option<Option<string>>)
    ensures r.Some? <==> id in images && images[id].accountId == account && !images[id].draft
    ensures r.Some? ==> r.value == images[id].name
  {
    if id in images && images[id].accountId == account && !images[id].draft then Some(images[id].name)
    else None
  }

  /** A draft is invisible to every account. */
  lemma DraftIsNeverSelected(images: map<ImageId, Image>, id: ImageId, account: AccountId)
    requires IsDraft(images, id)
    ensures SelectPublishedName(images, id, account) == None
  {
  }

  /** An image is visible to its own account only: a row found for `account` belongs to it. */
  lemma SelectionIsScopedToAccount(images: map<ImageId, Image>, id: ImageId, a: AccountId, b: AccountId)
    requires SelectPublishedName(images, id, a).Some?
    requires a != b
    ensures SelectPublishedName(images, id, b) == None
  {
  }

  /** Publishing ends the draft, so the draft check that guards it fails the second time. */
  lemma NoDoubleFinalisation(images: map<ImageId, Image>, id: ImageId, name: string)
    requires IsDraft(images, id)
    ensures !IsDraft(Publish(images, id, name), id)
    ensures Publish(images, id, name)[id].name == Some(name)
  {
  }

  /** The table invariants survive an accepted insert with foreign keys on, when the new
      row is a draft without a name or a published row with one. */
  lemma InsertKeepsInvariants(accounts: map<AccountId, string>, images: map<ImageId, Image>,
                              id: ImageId, row: Image)
    requires ForeignKeysHold(accounts, images) && NamedWhenPublished(images)
    requires row.draft <==> row.name.None?
    requires InsertImage(accounts, images, true, id, row).Success?
    ensures ForeignKeysHold(accounts, InsertImage(accounts, images, true, id, row).value)
    ensures NamedWhenPublished(InsertImage(accounts, images, true, id, row).value)
  {
  }

  /** Publishing keeps both table invariants. */
  lemma PublishKeepsInvariants(accounts: map<AccountId, string>, images: map<ImageId, Image>,
                               id: ImageId, name: string)
    requires ForeignKeysHold(accounts, images) && NamedWhenPublished(images)
    ensures ForeignKeysHold(accounts, Publish(images, id, name))
    ensures NamedWhenPublished(Publish(images, id, name))
  {
  }

  /** The connection's view of the database. */
  class Connection {
    var tables: set<string>
    var accounts: map<AccountId, string>
    var images: map<ImageId, Image>
    var foreignKeys: bool

    /** Both table invariants hold. */
    ghost predicate Consistent()
      reads this
    {
      ForeignKeysHold(accounts, images) && NamedWhenPublished(images)
    }

    /** `aiosqlite.connect(name)`, with foreign keys off, as SQLite's default. */
    constructor Connect(name: string, files: map<string, Snapshot>)
      ensures var s := OpenedDatabase(name, files);
        tables == s.tables && accounts == s.accounts && images == s.images
      ensures !foreignKeys
    {
      var s := OpenedDatabase(name, files);
      tables, accounts, images := s.tables, s.accounts, s.images;
      foreignKeys := false;
    }
  }
}
