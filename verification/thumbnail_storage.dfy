/** The newer thumbnail store (src/lib/thumbnail_storage.ts). It keeps each
    record in the shared local area under `thumb_` + id, with the image as a
    data URL, and on a miss it migrates a record forward from the legacy
    IndexedDB store. */
module ThumbnailStorage {
  import opened Base
  import opened Text
  import opened Blobs
  import IndexedDb
  import StorageIndex

  type ThumbnailRecord = IndexedDb.ThumbnailRecord
  type Area = StorageIndex.Area

  const Prefix: string := "thumb_"

  /** The area key of the record with id `id`. */
  function Key(id: string): (k: string)
    ensures StartsWith(k, Prefix)
    ensures k[|Prefix|..] == id
  {
    Prefix + id
  }

  lemma KeyInjective(a: string, b: string)
    requires Key(a) == Key(b)
    ensures a == b
  {
    assert a == Key(a)[|Prefix|..];
  }

  /** A record whose blob survives the data-URL round trip: no blob, or a
      blob whose type has the `type/subtype` shape and no comma. */
  predicate ImageRoundTrips(r: ThumbnailRecord) {
    r.blob.None? || (ParsableMime(r.blob.value.mime) && NoComma(r.blob.value.mime))
  }

  /** The stored form: the record without its blob, the blob (when there
      is one) as a data URL. */
  function ToStored(r: ThumbnailRecord): StorageIndex.StoredThumbnail {
    StorageIndex.StoredThumbnail(
      r.id, r.url, r.mime, r.updatedAt, r.width, r.height, r.sizeBytes, r.filename,
      if r.blob.Some? then Some(ReadAsDataUrl(r.blob.value)) else None)
  }

  /** What a stored entry reads back as. A non-empty data URL is fetched back
      into a blob, and a failed fetch rejects; otherwise the record comes
      back without image data. */
  function FromStored(s: StorageIndex.StoredThumbnail): Result<ThumbnailRecord> {
    var noImage := IndexedDb.ThumbnailRecord(
      s.id, s.url, s.mime, None, s.updatedAt, s.width, s.height, s.sizeBytes, s.filename);
    if s.base64.Some? && s.base64.value != "" then
      match FetchDataUrl(s.base64.value)
      case None => Failure("Failed to fetch")
      case Some(b) => Success(noImage.(blob := Some(b)))
    else Success(noImage)
  }

  /** The unchecked cast of whatever sits under a `thumb_` key. A metadata
      record there (one whose id itself starts with `thumb_`) has no image
      and none of the thumbnail's own fields; those are read as empty. */
  function AsStored(v: StorageIndex.LocalValue): StorageIndex.StoredThumbnail {
    match v
    case ThumbEntry(t) => t
    case MetaEntry(m) => StorageIndex.StoredThumbnail(m.id, m.url, "", 0, 0, 0, 0, None, None)
  }

  /** Storing and reading back loses nothing: the metadata fields are
      copied and the image bytes come back through base64. */
  lemma StoredRoundTrip(r: ThumbnailRecord)
    requires ImageRoundTrips(r)
    ensures FromStored(ToStored(r)) == Success(r)
  {
    if r.blob.Some? {
      FetchReadRoundTrip(r.blob.value);
    }
  }

  /** A record put without image data reads back with no image. */
  lemma NoImageReadsBackEmpty(r: ThumbnailRecord)
    requires r.blob.None?
    ensures FromStored(ToStored(r)).Success?
    ensures FromStored(ToStored(r)).value.blob.None?
  {
  }

  /** `putThumbnail(record)`: one write to the shared area. */
  function PutThumbnail(area: Area, r: ThumbnailRecord): (area': Area)
    ensures StorageIndex.Get(area', Key(r.id)) == Some(StorageIndex.ThumbEntry(ToStored(r)))
    ensures forall k :: k != Key(r.id) ==> StorageIndex.Get(area', k) == StorageIndex.Get(area, k)
  {
    area[Key(r.id) := StorageIndex.ThumbEntry(ToStored(r))]
  }

  /** Outcome of `getThumbnail`: the stores afterwards, the result (a
      rejected promise is `Failure`), and whether the legacy store was read. */
  datatype Lookup = Lookup(
    area: Area,
    legacy: IndexedDb.Db,
    found: Result<Option<ThumbnailRecord>>,
    consultedLegacy: bool)

  /** `getThumbnail(id)`. `legacyReadable` is false when reading the
      legacy database throws; `migrationWritable` is false when the
      migrating write to the shared area rejects (a full area, a failing
      FileReader). Both errors are caught by the same handler, which
      swallows them and answers with no record. */
  function GetThumbnail(area: Area, legacy: IndexedDb.Db, id: string, legacyReadable: bool, migrationWritable: bool): (l: Lookup)
    ensures l.legacy == legacy
    ensures Key(id) in area ==> !l.consultedLegacy && l.area == area
    ensures Key(id) !in area ==> l.consultedLegacy && l.found.Success?
    ensures l.found.Success? && l.found.value.Some? && Key(id) !in area ==>
              legacyReadable && migrationWritable && IndexedDb.GetThumbnail(legacy, id) == l.found.value
    ensures Key(id) !in area && !legacyReadable ==> l.found == Success(None) && l.area == area
    ensures Key(id) !in area && legacyReadable && IndexedDb.GetThumbnail(legacy, id).None? ==>
              l.found == Success(None) && l.area == area
    ensures Key(id) !in area && legacyReadable && IndexedDb.GetThumbnail(legacy, id).Some? ==>
              var rec := IndexedDb.GetThumbnail(legacy, id).value;
              if migrationWritable then l.found == Success(Some(rec)) && l.area == PutThumbnail(area, rec)
              else l.found == Success(None) && l.area == area
  {
    var key := Key(id);
    if key in area then
      var found := match FromStored(AsStored(area[key]))
        case Success(t) => Success(Some(t))
        case Failure(e) => Failure(e);
      Lookup(area, legacy, found, false)
    else if !legacyReadable then Lookup(area, legacy, Success(None), true)
    else
      match IndexedDb.GetThumbnail(legacy, id)
      case None => Lookup(area, legacy, Success(None), true)
      case Some(rec) =>
        if migrationWritable then Lookup(PutThumbnail(area, rec), legacy, Success(Some(rec)), true)
        else Lookup(area, legacy, Success(None), true)
  }

  /** Put then get returns the record put, without reading the legacy
      store, whatever that store holds. */
  lemma PutGetRoundTrip(area: Area, legacy: IndexedDb.Db, r: ThumbnailRecord, legacyReadable: bool, migrationWritable: bool)
    requires ImageRoundTrips(r)
    ensures var l := GetThumbnail(PutThumbnail(area, r), legacy, r.id, legacyReadable, migrationWritable);
            l.found == Success(Some(r)) && !l.consultedLegacy
  {
    StoredRoundTrip(r);
  }

  /** On a hit in the shared area the answer does not depend on the legacy
      store or on whether it can be read. */
  lemma HitIgnoresLegacy(area: Area, legacy1: IndexedDb.Db, legacy2: IndexedDb.Db, id: string, ok1: bool, ok2: bool, w1: bool, w2: bool)
    requires Key(id) in area
    ensures GetThumbnail(area, legacy1, id, ok1, w1).found == GetThumbnail(area, legacy2, id, ok2, w2).found
  {
  }

  /** Lazy migration: a record only the legacy store holds is returned on
      the first read and written to the shared area before it is returned. */
  lemma LazyMigration(area: Area, legacy: IndexedDb.Db, id: string)
    requires Key(id) !in area
    requires IndexedDb.GetThumbnail(legacy, id).Some?
    ensures var first := GetThumbnail(area, legacy, id, true, true);
            var rec := IndexedDb.GetThumbnail(legacy, id).value;
            && first.found == Success(Some(rec))
            && first.consultedLegacy
            && StorageIndex.Get(first.area, Key(rec.id)) == Some(StorageIndex.ThumbEntry(ToStored(rec)))
  {
  }

  /** A rejected migration write is swallowed: the read answers with no
      record and the shared area is left as it was, so a later read with a
      working shared area finds the record in the legacy store and
      migrates it then. */
  lemma FailedMigrationRetried(area: Area, legacy: IndexedDb.Db, id: string)
    requires Key(id) !in area
    requires IndexedDb.GetThumbnail(legacy, id).Some?
    ensures var first := GetThumbnail(area, legacy, id, true, false);
            var second := GetThumbnail(first.area, legacy, id, true, true);
            && first.found == Success(None)
            && first.area == area
            && second.consultedLegacy
            && second.found == Success(Some(IndexedDb.GetThumbnail(legacy, id).value))
  {
  }

  /** After a migration, a second read is served from the shared area,
      with the same record, even if the legacy store has since lost it or
      become unreadable. */
  lemma SecondReadServedFromArea(area: Area, legacy: IndexedDb.Db, later: IndexedDb.Db, id: string, laterReadable: bool, laterWritable: bool)
    requires IndexedDb.Valid(legacy)
    requires Key(id) !in area
    requires IndexedDb.GetThumbnail(legacy, id).Some?
    requires ImageRoundTrips(IndexedDb.GetThumbnail(legacy, id).value)
    ensures var first := GetThumbnail(area, legacy, id, true, true);
            var second := GetThumbnail(first.area, later, id, laterReadable, laterWritable);
            && !second.consultedLegacy
            && second.found == first.found
  {
    StoredRoundTrip(IndexedDb.GetThumbnail(legacy, id).value);
  }

  /** `deleteThumbnail(id)`: removes the shared entry, then tries the legacy
      delete, whose failure (`legacyWritable` false) is ignored. */
  function DeleteThumbnail(area: Area, legacy: IndexedDb.Db, id: string, legacyWritable: bool): (r: (Area, IndexedDb.Db))
    ensures StorageIndex.Get(r.0, Key(id)) == None
    ensures forall k :: k != Key(id) ==> StorageIndex.Get(r.0, k) == StorageIndex.Get(area, k)
    ensures legacyWritable ==> IndexedDb.GetThumbnail(r.1, id) == None
    ensures forall other :: other != id ==> IndexedDb.GetThumbnail(r.1, other) == IndexedDb.GetThumbnail(legacy, other)
    ensures !legacyWritable ==> r.1 == legacy
  {
    (StorageIndex.Remove(area, Key(id)), if legacyWritable then IndexedDb.DeleteThumbnail(legacy, id) else legacy)
  }

  /** After a delete with a writable legacy store, a read finds nothing. */
  lemma DeleteThenGet(area: Area, legacy: IndexedDb.Db, id: string, legacyReadable: bool, migrationWritable: bool)
    ensures var (a, l) := DeleteThumbnail(area, legacy, id, true);
            GetThumbnail(a, l, id, legacyReadable, migrationWritable).found == Success(None)
  {
  }

  /** `getAllThumbnails()`: the records stored under prefixed keys of the
      shared area, in the area's iteration order (not modelled); the
      legacy store is not read, so legacy-only records are absent. The
      promise rejects if any stored data URL does not fetch. `keys` names
      the area key each record was read from. */
  method GetAllThumbnails(area: Area) returns (r: Result<seq<ThumbnailRecord>>, ghost keys: seq<string>)
    ensures r.Success? <==> forall k :: k in area && StartsWith(k, Prefix) ==> FromStored(AsStored(area[k])).Success?
    ensures r.Success? ==> |r.value| == |keys|
    ensures r.Success? ==> forall i :: 0 <= i < |keys| ==>
              keys[i] in area && StartsWith(keys[i], Prefix) && FromStored(AsStored(area[keys[i]])) == Success(r.value[i])
    ensures r.Success? ==> forall k :: k in area && StartsWith(k, Prefix) ==> k in keys
    ensures forall i, j :: 0 <= i < j < |keys| ==> keys[i] != keys[j]
  {
    var all: seq<ThumbnailRecord> := [];
    keys := [];
    var remaining := area.Keys;
    while remaining != {}
      invariant remaining <= area.Keys
      invariant |all| == |keys|
      invariant forall i :: 0 <= i < |keys| ==>
                  keys[i] in area && keys[i] !in remaining && StartsWith(keys[i], Prefix)
                  && FromStored(AsStored(area[keys[i]])) == Success(all[i])
      invariant forall k :: k in area && k !in remaining && StartsWith(k, Prefix) ==> k in keys
      invariant forall k :: k in area && k !in remaining && StartsWith(k, Prefix) ==> FromStored(AsStored(area[k])).Success?
      invariant forall i, j :: 0 <= i < j < |keys| ==> keys[i] != keys[j]
      decreases |remaining|
    {
      var k :| k in remaining;
      remaining := remaining - {k};
      if StartsWith(k, Prefix) {
        match FromStored(AsStored(area[k])) {
          case Failure(e) =>
            r := Failure(e);
            return;
          case Success(t) =>
            all := all + [t];
            keys := keys + [k];
        }
      }
    }
    r := Success(all);
  }

  /** The shared key space: a thumbnail put is visible to the metadata
      index's `getAll` under its prefixed key. */
  lemma IndexGetAllSeesThumbnails(area: Area, r: ThumbnailRecord)
    ensures var all := StorageIndex.GetAll(PutThumbnail(area, r));
            Key(r.id) in all && all[Key(r.id)] == StorageIndex.ThumbEntry(ToStored(r))
  {
  }

  /** The shared key space: the metadata index's `clear` wipes the
      thumbnail store too, so a later read falls back to the legacy
      store. */
  lemma IndexClearWipesThumbnails(area: Area, legacy: IndexedDb.Db, id: string, ok: bool, writable: bool)
    ensures var l := GetThumbnail(StorageIndex.Clear(area), legacy, id, ok, writable);
            l.consultedLegacy && (!ok ==> l.found == Success(None))
  {
  }
}
