/** The legacy IndexedDB database `bookmarks_thumbs` (src/lib/indexeddb.ts):
    a `thumbnails` object store keyed by the record's `id`, a separate
    `handles` object store keyed by `key`, and a memoised connection. */
module IndexedDb {
  import opened Base
  import opened Blobs

  const DbName: string := "bookmarks_thumbs"
  const DbVersion: nat := 1

  /** A stored capture. `blob` is `None` for the placeholders backup import
      writes (`blob: null`); `filename` is the extra field those placeholders
      carry. */
  datatype ThumbnailRecord = ThumbnailRecord(
    id: string,
    url: string,
    mime: string,
    blob: Option<Blob>,
    updatedAt: int,
    width: int,
    height: int,
    sizeBytes: int,
    filename: Option<string>)

  /** An opaque directory capability returned by the directory picker. */
  datatype DirectoryHandle = DirectoryHandle(token: nat)

  datatype HandleRecord = HandleRecord(key: string, handle: DirectoryHandle, lastUsed: int)

  /** A database connection, identified by an opaque number. */
  datatype Connection = Connection(serial: nat)

  datatype Db = Db(
    connection: Option<Connection>,
    thumbnails: map<string, ThumbnailRecord>,
    handles: map<string, HandleRecord>)

  const Empty: Db := Db(None, map[], map[])

  /** Each store holds a record under the record's own key path. */
  ghost predicate Valid(db: Db) {
    && (forall id :: id in db.thumbnails ==> db.thumbnails[id].id == id)
    && (forall k :: k in db.handles ==> db.handles[k].key == k)
  }

  lemma EmptyValid()
    ensures Valid(Empty)
  {
  }

  /** `open()`: an existing connection is returned as is; otherwise
      `attempt` is the outcome of `indexedDB.open`, kept on success. */
  function Open(db: Db, attempt: Result<Connection>): (r: (Db, Result<Connection>))
    ensures db.connection.Some? ==> r.0 == db && r.1 == Success(db.connection.value)
    ensures db.connection.None? ==> r.1 == attempt
    ensures db.connection.None? && attempt.Success? ==> r.0.connection == Some(attempt.value)
    ensures r.0.thumbnails == db.thumbnails && r.0.handles == db.handles
    ensures r.1.Success? ==> r.0.connection == Some(r.1.value)
  {
    match db.connection
    case Some(c) => (db, Success(c))
    case None =>
      match attempt
      case Success(c) => (db.(connection := Some(c)), Success(c))
      case Failure(e) => (db, Failure(e))
  }

  /** Once a connection exists, a second `open` returns it whatever the
      second attempt would have produced. */
  lemma OpenMemoised(db: Db, first: Result<Connection>, second: Result<Connection>)
    requires first.Success?
    ensures var (db1, c1) := Open(db, first);
            Open(db1, second) == (db1, c1)
  {
  }

  function GetThumbnail(db: Db, id: string): Option<ThumbnailRecord> {
    if id in db.thumbnails then Some(db.thumbnails[id]) else None
  }

  /** `store.put(record)` on the key path `id`: insert or replace. */
  function PutThumbnail(db: Db, r: ThumbnailRecord): (db': Db)
    ensures GetThumbnail(db', r.id) == Some(r)
    ensures forall id :: id != r.id ==> GetThumbnail(db', id) == GetThumbnail(db, id)
    ensures db'.handles == db.handles && db'.connection == db.connection
    ensures Valid(db) ==> Valid(db')
  {
    db.(thumbnails := db.thumbnails[r.id := r])
  }

  function DeleteThumbnail(db: Db, id: string): (db': Db)
    ensures GetThumbnail(db', id) == None
    ensures forall other :: other != id ==> GetThumbnail(db', other) == GetThumbnail(db, other)
    ensures db'.handles == db.handles && db'.connection == db.connection
    ensures Valid(db) ==> Valid(db')
  {
    db.(thumbnails := db.thumbnails - {id})
  }

  function GetHandle(db: Db, key: string): Option<HandleRecord> {
    if key in db.handles then Some(db.handles[key]) else None
  }

  function PutHandle(db: Db, h: HandleRecord): (db': Db)
    ensures GetHandle(db', h.key) == Some(h)
    ensures forall k :: k != h.key ==> GetHandle(db', k) == GetHandle(db, k)
    ensures db'.thumbnails == db.thumbnails && db'.connection == db.connection
    ensures Valid(db) ==> Valid(db')
  {
    db.(handles := db.handles[h.key := h])
  }

  /** Putting a thumbnail and reading it back gives the record put, and a
      later put under the same id replaces it. */
  lemma PutGetThumbnail(db: Db, r: ThumbnailRecord, r2: ThumbnailRecord)
    requires r2.id == r.id
    ensures GetThumbnail(PutThumbnail(db, r), r.id) == Some(r)
    ensures GetThumbnail(PutThumbnail(PutThumbnail(db, r), r2), r.id) == Some(r2)
    ensures PutThumbnail(PutThumbnail(db, r), r2) == PutThumbnail(db, r2)
  {
  }

  /** The two object stores are independent: handle writes leave every
      thumbnail lookup alone and thumbnail writes leave every handle lookup
      alone. */
  lemma StoresDisjoint(db: Db, r: ThumbnailRecord, h: HandleRecord, id: string, key: string)
    ensures GetThumbnail(PutHandle(db, h), id) == GetThumbnail(db, id)
    ensures GetHandle(PutThumbnail(db, r), key) == GetHandle(db, key)
    ensures GetHandle(DeleteThumbnail(db, id), key) == GetHandle(db, key)
  {
  }

  /** `getAll()` on the thumbnails store. The store's key order is not
      modelled: the records come in some order, each exactly once. */
  method GetAllThumbnails(db: Db) returns (all: seq<ThumbnailRecord>)
    requires Valid(db)
    ensures forall i :: 0 <= i < |all| ==> GetThumbnail(db, all[i].id) == Some(all[i])
    ensures forall id :: id in db.thumbnails ==> exists i :: 0 <= i < |all| && all[i].id == id
    ensures forall i, j :: 0 <= i < j < |all| ==> all[i].id != all[j].id
    ensures |all| == |db.thumbnails|
  {
    all := [];
    var remaining := db.thumbnails.Keys;
    while remaining != {}
      invariant remaining <= db.thumbnails.Keys
      invariant forall i :: 0 <= i < |all| ==> all[i].id in db.thumbnails && db.thumbnails[all[i].id] == all[i]
      invariant forall i :: 0 <= i < |all| ==> all[i].id !in remaining
      invariant forall id :: id in db.thumbnails && id !in remaining ==> exists i :: 0 <= i < |all| && all[i].id == id
      invariant forall i, j :: 0 <= i < j < |all| ==> all[i].id != all[j].id
      invariant |all| + |remaining| == |db.thumbnails|
      decreases |remaining|
    {
      var id :| id in remaining;
      var before := all;
      all := all + [db.thumbnails[id]];
      remaining := remaining - {id};
      assert all[|all| - 1].id == id;
      assert forall i :: 0 <= i < |before| ==> all[i] == before[i];
    }
  }
}
