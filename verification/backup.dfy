/** The lightweight backup (src/lib/backup_manager.ts): a document of the
    synchronised settings and the ids, URLs and filenames of the legacy
    database's thumbnails, without image data; and its additive import,
    which inserts image-less placeholders for ids not yet stored. */
module Backup {
  import opened Base
  import IndexedDb

  const BackupVersion: nat := 1
  const PlaceholderMime: string := "image/webp"

  /** The synchronised settings area, as a map from keys to JSON values. */
  type Settings = map<string, string>

  /** One backed-up thumbnail. The export always writes an empty title. */
  datatype BackupItem = BackupItem(id: string, url: string, filename: Option<string>, title: string)

  datatype BackupDocument = BackupDocument(
    version: nat,
    timestamp: nat,
    settings: Settings,
    thumbnails: seq<BackupItem>)

  /** What `JSON.parse` makes of an imported file: an error, or a document
      whose `settings` may be absent and whose `thumbnails` may be absent or
      not an array (both `None`). */
  datatype ParsedBackup =
    | Unparsable(message: string)
    | Parsed(settings: Option<Settings>, thumbnails: Option<seq<BackupItem>>)

  /** The backup form of one stored record. */
  function ToItem(t: IndexedDb.ThumbnailRecord): (item: BackupItem)
    ensures item.id == t.id && item.url == t.url && item.filename == t.filename
    ensures item.title == ""
  {
    BackupItem(t.id, t.url, t.filename, "")
  }

  /** `createBackup()`: one item per stored thumbnail, each exactly once. */
  method CreateBackup(settings: Settings, db: IndexedDb.Db, now: nat) returns (doc: BackupDocument)
    requires IndexedDb.Valid(db)
    ensures doc.version == BackupVersion && doc.timestamp == now && doc.settings == settings
    ensures |doc.thumbnails| == |db.thumbnails|
    ensures forall i :: 0 <= i < |doc.thumbnails| ==>
              doc.thumbnails[i].id in db.thumbnails && doc.thumbnails[i] == ToItem(db.thumbnails[doc.thumbnails[i].id])
    ensures forall id :: id in db.thumbnails ==> exists i :: 0 <= i < |doc.thumbnails| && doc.thumbnails[i].id == id
    ensures forall i, j :: 0 <= i < j < |doc.thumbnails| ==> doc.thumbnails[i].id != doc.thumbnails[j].id
  {
    var all := IndexedDb.GetAllThumbnails(db);
    var items := seq(|all|, i requires 0 <= i < |all| => ToItem(all[i]));
    doc := BackupDocument(BackupVersion, now, settings, items);
    forall id | id in db.thumbnails
      ensures exists i :: 0 <= i < |items| && items[i].id == id
    {
      var i :| 0 <= i < |all| && all[i].id == id;
      assert items[i].id == id;
    }
  }

  /** The placeholder imported for an item: no image, the assumed type,
      zero dimensions, and the item's filename. */
  function Placeholder(item: BackupItem, now: nat): (r: IndexedDb.ThumbnailRecord)
    ensures r.id == item.id && r.url == item.url && r.filename == item.filename
    ensures r.blob.None? && r.mime == PlaceholderMime
    ensures r.width == 0 && r.height == 0 && r.sizeBytes == 0 && r.updatedAt == now
  {
    IndexedDb.ThumbnailRecord(item.id, item.url, PlaceholderMime, None, now, 0, 0, 0, item.filename)
  }

  /** The ids an item list mentions. */
  function IdsOf(items: seq<BackupItem>): set<string> {
    set i | 0 <= i < |items| :: items[i].id
  }

  /** The reference semantics of the import loop: each item in turn, a
      placeholder put only when its id is absent; the second component
      counts the puts. */
  function ImportItems(db: IndexedDb.Db, items: seq<BackupItem>, now: nat): (r: (IndexedDb.Db, nat))
    decreases |items|
  {
    if |items| == 0 then (db, 0)
    else
      var item := items[0];
      if IndexedDb.GetThumbnail(db, item.id).Some? then ImportItems(db, items[1..], now)
      else
        var rest := ImportItems(IndexedDb.PutThumbnail(db, Placeholder(item, now)), items[1..], now);
        (rest.0, rest.1 + 1)
  }

  lemma IdsOfCons(items: seq<BackupItem>)
    requires |items| > 0
    ensures IdsOf(items) == {items[0].id} + IdsOf(items[1..])
  {
    forall id | id in IdsOf(items)
      ensures id in {items[0].id} + IdsOf(items[1..])
    {
      var i :| 0 <= i < |items| && items[i].id == id;
      if i > 0 {
        assert items[1..][i - 1].id == id;
      }
    }
  }

  /** Import never overwrites: every record stored before is stored after,
      unchanged; the only new keys are the items' ids; and the other two
      stores of the database are untouched. */
  lemma {:induction false} ImportNeverOverwrites(db: IndexedDb.Db, items: seq<BackupItem>, now: nat)
    ensures var r := ImportItems(db, items, now).0;
            && (forall id :: id in db.thumbnails ==> IndexedDb.GetThumbnail(r, id) == IndexedDb.GetThumbnail(db, id))
            && r.thumbnails.Keys == db.thumbnails.Keys + IdsOf(items)
            && r.handles == db.handles
    decreases |items|
  {
    if |items| > 0 {
      IdsOfCons(items);
      var item := items[0];
      if IndexedDb.GetThumbnail(db, item.id).Some? {
        ImportNeverOverwrites(db, items[1..], now);
      } else {
        var db1 := IndexedDb.PutThumbnail(db, Placeholder(item, now));
        ImportNeverOverwrites(db1, items[1..], now);
        assert db1.thumbnails.Keys == db.thumbnails.Keys + {item.id};
      }
    }
  }

  /** Every id the import adds holds the placeholder of some item with that
      id (the first one, as later duplicates find it present). */
  lemma {:induction false} ImportedArePlaceholders(db: IndexedDb.Db, items: seq<BackupItem>, now: nat)
    ensures var r := ImportItems(db, items, now).0;
            forall id :: id in r.thumbnails && id !in db.thumbnails ==>
              exists i :: 0 <= i < |items| && items[i].id == id && r.thumbnails[id] == Placeholder(items[i], now)
    decreases |items|
  {
    if |items| > 0 {
      var item := items[0];
      var r := ImportItems(db, items, now).0;
      if IndexedDb.GetThumbnail(db, item.id).Some? {
        ImportedArePlaceholders(db, items[1..], now);
        forall id | id in r.thumbnails && id !in db.thumbnails
          ensures exists i :: 0 <= i < |items| && items[i].id == id && r.thumbnails[id] == Placeholder(items[i], now)
        {
          var k :| 0 <= k < |items[1..]| && items[1..][k].id == id && r.thumbnails[id] == Placeholder(items[1..][k], now);
          assert items[k + 1] == items[1..][k];
        }
      } else {
        var db1 := IndexedDb.PutThumbnail(db, Placeholder(item, now));
        ImportedArePlaceholders(db1, items[1..], now);
        ImportNeverOverwrites(db1, items[1..], now);
        forall id | id in r.thumbnails && id !in db.thumbnails
          ensures exists i :: 0 <= i < |items| && items[i].id == id && r.thumbnails[id] == Placeholder(items[i], now)
        {
          if id == item.id {
            assert IndexedDb.GetThumbnail(r, id) == IndexedDb.GetThumbnail(db1, id);
            assert items[0].id == id && r.thumbnails[id] == Placeholder(items[0], now);
          } else {
            var k :| 0 <= k < |items[1..]| && items[1..][k].id == id && r.thumbnails[id] == Placeholder(items[1..][k], now);
            assert items[k + 1] == items[1..][k];
          }
        }
      }
    }
  }

  lemma DiffOfStored(x: string, rest: set<string>, stored: set<string>)
    requires x in stored
    ensures ({x} + rest) - stored == rest - stored
  {
  }

  lemma DiffOfNew(x: string, rest: set<string>, stored: set<string>)
    requires x !in stored
    ensures |({x} + rest) - stored| == 1 + |rest - (stored + {x})|
  {
    assert ({x} + rest) - stored == {x} + (rest - (stored + {x}));
  }

  /** The count is the number of distinct ids in the file that were not
      stored before: a duplicate id is counted once, a stored id not at all. */
  lemma {:induction false} ImportCount(db: IndexedDb.Db, items: seq<BackupItem>, now: nat)
    ensures ImportItems(db, items, now).1 == |IdsOf(items) - db.thumbnails.Keys|
    decreases |items|
  {
    if |items| == 0 {
      assert IdsOf(items) == {};
    } else {
      IdsOfCons(items);
      var item := items[0];
      var stored := db.thumbnails.Keys;
      var later := IdsOf(items[1..]);
      if item.id in stored {
        assert ImportItems(db, items, now) == ImportItems(db, items[1..], now);
        ImportCount(db, items[1..], now);
        DiffOfStored(item.id, later, stored);
      } else {
        var db1 := IndexedDb.PutThumbnail(db, Placeholder(item, now));
        assert ImportItems(db, items, now).1 == ImportItems(db1, items[1..], now).1 + 1;
        ImportCount(db1, items[1..], now);
        assert db1.thumbnails.Keys == stored + {item.id};
        DiffOfNew(item.id, later, stored);
      }
    }
  }

  datatype Imported = Imported(settings: Settings, db: IndexedDb.Db, count: nat)

  /** `importBackup(file)`: a parse error is rethrown; settings are merged
      into the synchronised area only when present; the thumbnails, when
      they form an array, are imported additively. */
  method ImportBackup(sync: Settings, db: IndexedDb.Db, file: ParsedBackup, now: nat) returns (r: Result<Imported>)
    ensures file.Unparsable? <==> r.Failure?
    ensures file.Unparsable? ==> r.error == file.message
    ensures r.Success? && file.settings.None? ==> r.value.settings == sync
    ensures r.Success? && file.settings.Some? ==> r.value.settings == sync + file.settings.value
    ensures r.Success? && file.thumbnails.None? ==> r.value.db == db && r.value.count == 0
    ensures r.Success? && file.thumbnails.Some? ==>
              (r.value.db, r.value.count) == ImportItems(db, file.thumbnails.value, now)
  {
    match file {
      case Unparsable(message) =>
        r := Failure(message);
      case Parsed(settings, thumbnails) =>
        var sync' := if settings.Some? then sync + settings.value else sync;
        var current := db;
        var count := 0;
        if thumbnails.Some? {
          var items := thumbnails.value;
          var i := 0;
          while i < |items|
            invariant 0 <= i <= |items|
            invariant var rest := ImportItems(current, items[i..], now);
                      ImportItems(db, items, now) == (rest.0, count + rest.1)
            decreases |items| - i
          {
            assert items[i..][0] == items[i] && items[i..][1..] == items[i + 1..];
            if IndexedDb.GetThumbnail(current, items[i].id).None? {
              current := IndexedDb.PutThumbnail(current, Placeholder(items[i], now));
              count := count + 1;
            }
            i := i + 1;
          }
          assert items[i..] == [];
        }
        r := Success(Imported(sync', current, count));
    }
  }

  /** A backup's ids are exactly the stored ids. */
  lemma BackupIds(db: IndexedDb.Db, items: seq<BackupItem>)
    requires forall i :: 0 <= i < |items| ==> items[i].id in db.thumbnails && items[i] == ToItem(db.thumbnails[items[i].id])
    requires forall id :: id in db.thumbnails ==> exists i :: 0 <= i < |items| && items[i].id == id
    ensures IdsOf(items) == db.thumbnails.Keys
  {
    forall id | id in db.thumbnails
      ensures id in IdsOf(items)
    {
      var i :| 0 <= i < |items| && items[i].id == id;
    }
  }

  /** Restoring a backup into an empty database brings back one placeholder
      per backed-up record, with its URL and filename, and counts them all. */
  lemma RestoreIntoEmpty(db: IndexedDb.Db, items: seq<BackupItem>, now: nat)
    requires forall i :: 0 <= i < |items| ==> items[i].id in db.thumbnails && items[i] == ToItem(db.thumbnails[items[i].id])
    requires forall id :: id in db.thumbnails ==> exists i :: 0 <= i < |items| && items[i].id == id
    ensures ImportItems(IndexedDb.Empty, items, now).0.thumbnails.Keys == db.thumbnails.Keys
    ensures ImportItems(IndexedDb.Empty, items, now).1 == |db.thumbnails|
    ensures var r := ImportItems(IndexedDb.Empty, items, now).0;
            forall id :: id in r.thumbnails ==>
              && r.thumbnails[id].url == db.thumbnails[id].url
              && r.thumbnails[id].filename == db.thumbnails[id].filename
              && r.thumbnails[id].blob.None?
  {
    var r := ImportItems(IndexedDb.Empty, items, now).0;
    BackupIds(db, items);
    ImportNeverOverwrites(IndexedDb.Empty, items, now);
    ImportCount(IndexedDb.Empty, items, now);
    assert IdsOf(items) - IndexedDb.Empty.thumbnails.Keys == db.thumbnails.Keys;
    ImportedArePlaceholders(IndexedDb.Empty, items, now);
    forall id | id in r.thumbnails
      ensures r.thumbnails[id].url == db.thumbnails[id].url
      ensures r.thumbnails[id].filename == db.thumbnails[id].filename
      ensures r.thumbnails[id].blob.None?
    {
      assert id !in IndexedDb.Empty.thumbnails;
      var i :| 0 <= i < |items| && items[i].id == id && r.thumbnails[id] == Placeholder(items[i], now);
      assert items[i] == ToItem(db.thumbnails[id]);
    }
  }

  /** Importing into a database that already holds every id changes
      nothing and counts nothing. */
  lemma ReimportIsNoOp(db: IndexedDb.Db, items: seq<BackupItem>, now: nat)
    requires forall i :: 0 <= i < |items| ==> items[i].id in db.thumbnails
    ensures ImportItems(db, items, now).1 == 0
    ensures ImportItems(db, items, now).0.thumbnails == db.thumbnails
  {
    ImportNeverOverwrites(db, items, now);
    ImportCount(db, items, now);
    assert IdsOf(items) - db.thumbnails.Keys == {};
    var r := ImportItems(db, items, now).0;
    assert forall id :: id in r.thumbnails ==> IndexedDb.GetThumbnail(r, id) == IndexedDb.GetThumbnail(db, id);
  }
}
