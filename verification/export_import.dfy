/** The full export and import (src/lib/export_import.ts): a JSON document
    of metadata entries that have image data, each carrying its image as the
    base64 payload of a data URL, and an import that overwrites the newer
    thumbnail store and the metadata index item by item. */
module ExportImport {
  import opened Base
  import opened Text
  import opened Blobs
  import Base64
  import IndexedDb
  import StorageIndex
  import ThumbnailStorage

  type Area = StorageIndex.Area
  type ThumbnailRecord = IndexedDb.ThumbnailRecord

  const ExportVersion: nat := 1
  const InvalidFormat: string := "Invalid export file format"
  /** The dimensions import writes, whatever the image. */
  const ImportWidth: int := 600
  const ImportHeight: int := 400
  /** How a missing `mime` prints inside the template literal. */
  const MissingMime: string := "undefined"

  /** One exported bookmark: the fields import reads. */
  datatype ExportItem = ExportItem(
    id: string,
    url: string,
    title: Option<string>,
    lastCaptureAt: Option<int>,
    thumbnailBase64: Option<string>,
    mime: Option<string>)

  datatype ExportDocument = ExportDocument(version: nat, timestamp: nat, bookmarks: seq<ExportItem>)

  // ---------------------------------------------------------------------
  // The shape of the shared area

  /** Every entry sits under the key its writer uses: a metadata record
      under its id, which never carries the thumbnail prefix, and a
      thumbnail under the prefixed id. */
  predicate WellKeyed(area: Area) {
    forall k :: k in area ==>
      match area[k]
      case MetaEntry(m) => k == m.id && !StartsWith(m.id, ThumbnailStorage.Prefix)
      case ThumbEntry(t) => k == ThumbnailStorage.Key(t.id)
  }

  /** Both writers keep the area well keyed. */
  lemma WritersKeepWellKeyed(area: Area, m: StorageIndex.MetadataRecord, r: ThumbnailRecord)
    requires WellKeyed(area)
    ensures !StartsWith(m.id, ThumbnailStorage.Prefix) ==> WellKeyed(StorageIndex.Set(area, m))
    ensures WellKeyed(ThumbnailStorage.PutThumbnail(area, r))
  {
    var a := ThumbnailStorage.PutThumbnail(area, r);
    forall k | k in a
      ensures match a[k]
              case MetaEntry(m) => k == m.id && !StartsWith(m.id, ThumbnailStorage.Prefix)
              case ThumbEntry(t) => k == ThumbnailStorage.Key(t.id)
    {
      if k != ThumbnailStorage.Key(r.id) {
        assert StorageIndex.Get(a, k) == StorageIndex.Get(area, k);
      }
    }
  }

  /** The `id` field every stored value carries. */
  function IdOf(v: StorageIndex.LocalValue): string {
    match v
    case MetaEntry(m) => m.id
    case ThumbEntry(t) => t.id
  }

  /** Every prefixed entry reads back (no stored data URL fails to fetch). */
  predicate AllFetch(area: Area) {
    forall k :: k in area && StartsWith(k, ThumbnailStorage.Prefix) ==>
      ThumbnailStorage.FromStored(ThumbnailStorage.AsStored(area[k])).Success?
  }

  /** The record the thumbnail store holds for `id`, read back. */
  function StoredAt(area: Area, id: string): Option<ThumbnailRecord> {
    var key := ThumbnailStorage.Key(id);
    if key in area && area[key].ThumbEntry? then
      match ThumbnailStorage.FromStored(area[key].thumb)
      case Success(r) => Some(r)
      case Failure(_) => None
    else None
  }

  /** The record for `id` when it has image data. */
  function ImageOf(area: Area, id: string): (r: Option<ThumbnailRecord>)
    ensures r.Some? ==> r.value.blob.Some? && r.value.id == id
  {
    match StoredAt(area, id)
    case Some(t) =>
      if t.blob.Some? && t.id == id then Some(t) else None
    case None => None
  }

  lemma FromStoredKeepsId(s: StorageIndex.StoredThumbnail)
    requires ThumbnailStorage.FromStored(s).Success?
    ensures ThumbnailStorage.FromStored(s).value.id == s.id
  {
  }

  /** `thumbnails.find(t => t.id === id)`. */
  function Find(thumbs: seq<ThumbnailRecord>, id: string): (r: Option<ThumbnailRecord>)
    ensures r.Some? ==> r.value.id == id && exists i :: 0 <= i < |thumbs| && thumbs[i] == r.value
    ensures r.None? ==> forall i :: 0 <= i < |thumbs| ==> thumbs[i].id != id
    decreases |thumbs|
  {
    if |thumbs| == 0 then None
    else if thumbs[0].id == id then Some(thumbs[0])
    else
      var r := Find(thumbs[1..], id);
      if r.Some? then
        var i :| 0 <= i < |thumbs[1..]| && thumbs[1..][i] == r.value;
        assert thumbs[i + 1] == r.value;
        r
      else r
  }

  /** In a well-keyed area, looking an id up in the thumbnail store's
      listing finds exactly the record stored under the prefixed id. */
  lemma FindIsStoredAt(area: Area, thumbs: seq<ThumbnailRecord>, keys: seq<string>, id: string)
    requires WellKeyed(area)
    requires |thumbs| == |keys|
    requires forall i :: 0 <= i < |keys| ==>
               keys[i] in area && StartsWith(keys[i], ThumbnailStorage.Prefix)
               && ThumbnailStorage.FromStored(ThumbnailStorage.AsStored(area[keys[i]])) == Success(thumbs[i])
    requires forall k :: k in area && StartsWith(k, ThumbnailStorage.Prefix) ==> k in keys
    ensures Find(thumbs, id) == StoredAt(area, id)
  {
    var key := ThumbnailStorage.Key(id);
    if StoredAt(area, id).Some? {
      var t := area[key].thumb;
      ThumbnailStorage.KeyInjective(t.id, id);
      assert key in keys;
      var i :| 0 <= i < |keys| && keys[i] == key;
      FromStoredKeepsId(t);
      assert thumbs[i].id == id;
    }
    var found := Find(thumbs, id);
    if found.Some? {
      var i :| 0 <= i < |thumbs| && thumbs[i] == found.value;
      var k := keys[i];
      assert area[k].ThumbEntry?;
      var t := area[k].thumb;
      FromStoredKeepsId(t);
      assert k == key;
    }
  }

  // ---------------------------------------------------------------------
  // Export

  /** The exported item for a stored value and the image found for its id:
      the value's fields (`...meta`) plus the payload and the record's type.
      A thumbnail entry has neither title nor capture time. */
  function ItemFor(v: StorageIndex.LocalValue, image: ThumbnailRecord): (item: ExportItem)
    requires image.blob.Some?
    ensures item.id == IdOf(v)
    ensures item.thumbnailBase64 == SecondField(ReadAsDataUrl(image.blob.value)) && item.mime == Some(image.mime)
    ensures v.MetaEntry? ==> item.url == v.meta.url && item.title == v.meta.title && item.lastCaptureAt == v.meta.lastCaptureAt
    ensures v.ThumbEntry? ==> item.title.None? && item.lastCaptureAt.None?
  {
    var payload := SecondField(ReadAsDataUrl(image.blob.value));
    match v
    case MetaEntry(m) => ExportItem(m.id, m.url, m.title, m.lastCaptureAt, payload, Some(image.mime))
    case ThumbEntry(t) => ExportItem(t.id, t.url, None, None, payload, Some(image.mime))
  }

  /** The keys the export emits an item for: every key whose value's id has
      an image, or with `metadataOnly`, only the metadata records among them. */
  predicate Selected(area: Area, k: string, metadataOnly: bool)
    requires k in area
  {
    (metadataOnly ==> area[k].MetaEntry?) && ImageOf(area, IdOf(area[k])).Some?
  }

  /** The export loop over `for (const key in metadata)`, given the
      thumbnail store's listing. */
  method CollectItems(area: Area, thumbs: seq<ThumbnailRecord>, metadataOnly: bool) returns (items: seq<ExportItem>, ghost keys: seq<string>)
    requires forall id :: Find(thumbs, id) == StoredAt(area, id)
    ensures |items| == |keys|
    ensures forall i :: 0 <= i < |keys| ==>
              keys[i] in area && Selected(area, keys[i], metadataOnly)
              && items[i] == ItemFor(area[keys[i]], ImageOf(area, IdOf(area[keys[i]])).value)
    ensures forall k :: k in area && Selected(area, k, metadataOnly) ==> k in keys
    ensures forall i, j :: 0 <= i < j < |keys| ==> keys[i] != keys[j]
  {
    var metadata := StorageIndex.GetAll(area);
    items := [];
    keys := [];
    var remaining := metadata.Keys;
    while remaining != {}
      invariant remaining <= area.Keys
      invariant |items| == |keys|
      invariant forall i :: 0 <= i < |keys| ==>
                  keys[i] in area && keys[i] !in remaining && Selected(area, keys[i], metadataOnly)
                  && items[i] == ItemFor(area[keys[i]], ImageOf(area, IdOf(area[keys[i]])).value)
      invariant forall k :: k in area && k !in remaining && Selected(area, k, metadataOnly) ==> k in keys
      invariant forall i, j :: 0 <= i < j < |keys| ==> keys[i] != keys[j]
      decreases |remaining|
    {
      var key :| key in remaining;
      remaining := remaining - {key};
      var meta := metadata[key];
      var thumb := Find(thumbs, IdOf(meta));
      if thumb.Some? && thumb.value.blob.Some? && (!metadataOnly || meta.MetaEntry?) {
        assert ImageOf(area, IdOf(meta)) == thumb;
        items := items + [ItemFor(meta, thumb.value)];
        keys := keys + [key];
      }
    }
  }

  /** `exportAllThumbnails()` as written: the loop runs over every key of the
      shared area, so each stored thumbnail with an image is exported as a
      bookmark of its own besides its metadata record. The promise rejects
      when a stored image does not fetch. */
  method ExportAllAsWritten(area: Area, now: nat) returns (r: Result<ExportDocument>, ghost keys: seq<string>)
    requires WellKeyed(area)
    ensures r.Success? <==> AllFetch(area)
    ensures r.Success? ==> r.value.version == ExportVersion && r.value.timestamp == now && |r.value.bookmarks| == |keys|
    ensures r.Success? ==> forall i :: 0 <= i < |keys| ==>
              keys[i] in area && Selected(area, keys[i], false)
              && r.value.bookmarks[i] == ItemFor(area[keys[i]], ImageOf(area, IdOf(area[keys[i]])).value)
    ensures r.Success? ==> forall k :: k in area && Selected(area, k, false) ==> k in keys
  {
    var listed, listedKeys := ThumbnailStorage.GetAllThumbnails(area);
    keys := [];
    if listed.Failure? {
      r := Failure(listed.error);
      return;
    }
    forall id | true
      ensures Find(listed.value, id) == StoredAt(area, id)
    {
      FindIsStoredAt(area, listed.value, listedKeys, id);
    }
    var items;
    items, keys := CollectItems(area, listed.value, false);
    r := Success(ExportDocument(ExportVersion, now, items));
  }

  /** `exportAllThumbnails()` as evidently intended: one item per metadata
      record whose id has an image, so item ids are distinct. */
  method ExportAll(area: Area, now: nat) returns (r: Result<ExportDocument>, ghost keys: seq<string>)
    requires WellKeyed(area)
    ensures r.Success? <==> AllFetch(area)
    ensures r.Success? ==> r.value.version == ExportVersion && r.value.timestamp == now && |r.value.bookmarks| == |keys|
    ensures r.Success? ==> forall i :: 0 <= i < |keys| ==>
              keys[i] in area && area[keys[i]].MetaEntry? && ImageOf(area, keys[i]).Some?
              && r.value.bookmarks[i] == ItemFor(area[keys[i]], ImageOf(area, keys[i]).value)
    ensures r.Success? ==> forall k :: k in area && area[k].MetaEntry? ==> (k in keys <==> ImageOf(area, k).Some?)
    ensures r.Success? ==> forall i, j :: 0 <= i < j < |keys| ==> r.value.bookmarks[i].id != r.value.bookmarks[j].id
  {
    var listed, listedKeys := ThumbnailStorage.GetAllThumbnails(area);
    keys := [];
    if listed.Failure? {
      r := Failure(listed.error);
      return;
    }
    forall id | true
      ensures Find(listed.value, id) == StoredAt(area, id)
    {
      FindIsStoredAt(area, listed.value, listedKeys, id);
    }
    var items;
    items, keys := CollectItems(area, listed.value, true);
    r := Success(ExportDocument(ExportVersion, now, items));
  }

  /** The discrepancy: a thumbnail put with an image is selected by the
      as-written export under its prefixed key, as an item without a title
      for the same id, while the corrected export does not select it. */
  lemma AsWrittenExportsThumbnailEntries(area: Area, r: ThumbnailRecord)
    requires WellKeyed(area)
    requires r.blob.Some? && ThumbnailStorage.ImageRoundTrips(r)
    ensures var a := ThumbnailStorage.PutThumbnail(area, r);
            var k := ThumbnailStorage.Key(r.id);
            && k in a
            && Selected(a, k, false)
            && !Selected(a, k, true)
            && ItemFor(a[k], ImageOf(a, r.id).value).id == r.id
            && ItemFor(a[k], ImageOf(a, r.id).value).title.None?
  {
    ThumbnailStorage.StoredRoundTrip(r);
  }

  // ---------------------------------------------------------------------
  // Import

  /** What `JSON.parse` makes of an imported file; `bookmarks` is `None`
      when missing or not an array. */
  datatype ParsedExport = ExportUnparsable(message: string) | ExportParsed(bookmarks: Option<seq<ExportItem>>)

  datatype ImportWrite = ThumbnailPut(id: string) | MetadataSet(id: string)

  /** The area after an import, the writes done, and the error that ended
      it, if any. */
  datatype ImportRun = ImportRun(area: Area, writes: seq<ImportWrite>, error: Option<string>)

  /** `if (item.thumbnailBase64)`: present and non-empty. */
  predicate HasPayload(item: ExportItem) {
    item.thumbnailBase64.Some? && item.thumbnailBase64.value != ""
  }

  /** `base64ToBlob(base64, mime)`: fetch of the re-prefixed data URL. */
  function Base64ToBlob(payload: string, mime: Option<string>): Option<Blob> {
    FetchDataUrl(DataUrl(mime.GetOr(MissingMime), payload))
  }

  /** An item without a `mime` is re-prefixed as `data:undefined;base64,`;
      `fetch` cannot parse that type and reports the text default instead. */
  lemma MissingMimeFetchesAsText(payload: string, bytes: seq<Byte>)
    requires payload == Base64.Encode(bytes)
    ensures Base64ToBlob(payload, None) == Some(Blob(FetchDefaultMime, bytes))
  {
    assert NoComma(MissingMime);
    assert FetchedMime(MissingMime) == FetchDefaultMime by {
      assert forall j :: 0 <= j < |MissingMime| ==> MissingMime[j] != '/';
    }
    FetchDataUrlOfEncoded(MissingMime, bytes);
  }

  /** The thumbnail import writes for an item. */
  function ImportedThumbnail(item: ExportItem, blob: Blob, now: nat): (t: ThumbnailRecord)
    ensures t.id == item.id && t.url == item.url && t.blob == Some(blob) && t.filename.None?
    ensures item.mime.Some? ==> t.mime == item.mime.value
    ensures item.mime.None? ==> t.mime == ""
    ensures t.width == ImportWidth && t.height == ImportHeight && t.sizeBytes == |blob.bytes|
    ensures item.lastCaptureAt.Some? && item.lastCaptureAt.value != 0 ==> t.updatedAt == item.lastCaptureAt.value
    ensures item.lastCaptureAt.None? || item.lastCaptureAt.value == 0 ==> t.updatedAt == now
  {
    var updatedAt := if item.lastCaptureAt.Some? && item.lastCaptureAt.value != 0 then item.lastCaptureAt.value else now;
    IndexedDb.ThumbnailRecord(item.id, item.url, item.mime.GetOr(""), Some(blob), updatedAt, ImportWidth, ImportHeight, |blob.bytes|, None)
  }

  /** The metadata import writes for an item. */
  function ImportedMetadata(item: ExportItem): (m: StorageIndex.MetadataRecord)
    ensures m.id == item.id && m.url == item.url && m.title == item.title
    ensures m.status == StorageIndex.SavedIndexedDb && m.lastCaptureAt == item.lastCaptureAt
  {
    StorageIndex.MetadataRecord(item.id, item.url, item.title, StorageIndex.SavedIndexedDb, item.lastCaptureAt, None)
  }

  /** The writes of a run come in pairs: a thumbnail put, then the metadata
      set for the same id. */
  predicate Paired(ws: seq<ImportWrite>)
    decreases |ws|
  {
    |ws| == 0 || (|ws| >= 2 && ws[0].ThumbnailPut? && ws[1] == MetadataSet(ws[0].id) && Paired(ws[2..]))
  }

  /** The import loop from a given item on. */
  function ImportFrom(area: Area, items: seq<ExportItem>, now: nat): (r: ImportRun)
    ensures Paired(r.writes)
    ensures r.writes == [] ==> r.area == area
    decreases |items|
  {
    if |items| == 0 then ImportRun(area, [], None)
    else
      var item := items[0];
      if !HasPayload(item) then ImportFrom(area, items[1..], now)
      else match Base64ToBlob(item.thumbnailBase64.value, item.mime)
        case None => ImportRun(area, [], Some("Failed to fetch"))
        case Some(blob) =>
          var a1 := ThumbnailStorage.PutThumbnail(area, ImportedThumbnail(item, blob, now));
          var a2 := StorageIndex.Set(a1, ImportedMetadata(item));
          var rest := ImportFrom(a2, items[1..], now);
          assert ([ThumbnailPut(item.id), MetadataSet(item.id)] + rest.writes)[2..] == rest.writes;
          ImportRun(rest.area, [ThumbnailPut(item.id), MetadataSet(item.id)] + rest.writes, rest.error)
  }

  /** `importData(file)`. A parsed list is imported up to the first item
      whose payload does not fetch; every metadata id then holds the record
      of the last item written for it, or what it held before. */
  function ImportData(area: Area, file: ParsedExport, now: nat): (r: ImportRun)
    ensures file.ExportUnparsable? ==> r == ImportRun(area, [], Some(file.message))
    ensures file.ExportParsed? && file.bookmarks.None? ==> r == ImportRun(area, [], Some(InvalidFormat))
    ensures Paired(r.writes)
    ensures file.ExportParsed? && file.bookmarks.Some? ==>
              var done := Reached(file.bookmarks.value);
              && (r.error.None? <==> done == file.bookmarks.value)
              && r.writes == WritesOf(done)
              && forall id :: !StartsWith(id, ThumbnailStorage.Prefix) ==>
                   StorageIndex.Get(r.area, id) == MetadataAfter(area, done, id)
  {
    match file
    case ExportUnparsable(message) => ImportRun(area, [], Some(message))
    case ExportParsed(bookmarks) =>
      match bookmarks
      case None => ImportRun(area, [], Some(InvalidFormat))
      case Some(items) =>
        ImportOutcome(area, items, now);
        ImportMetadata(area, items, now);
        ImportFrom(area, items, now)
  }

  // ---------------------------------------------------------------------
  // What an import leaves, over any list of items

  /** An item whose image and metadata are written: it has a payload and
      the payload fetches. */
  predicate Written(item: ExportItem) {
    HasPayload(item) && Base64ToBlob(item.thumbnailBase64.value, item.mime).Some?
  }

  /** An item that ends the import: its payload does not fetch, and the
      rejected fetch propagates out of the loop. */
  predicate Aborts(item: ExportItem) {
    HasPayload(item) && Base64ToBlob(item.thumbnailBase64.value, item.mime).None?
  }

  /** The items the loop gets through: those before the first that aborts. */
  function Reached(items: seq<ExportItem>): (done: seq<ExportItem>)
    ensures |done| <= |items| && done == items[..|done|]
    ensures forall i :: 0 <= i < |done| ==> !Aborts(done[i])
    ensures |done| < |items| ==> Aborts(items[|done|])
    decreases |items|
  {
    if |items| == 0 || Aborts(items[0]) then []
    else [items[0]] + Reached(items[1..])
  }

  /** The writes made for `items`, when none aborts: a thumbnail put and a
      metadata set for each written item, in list order. */
  function WritesOf(items: seq<ExportItem>): (ws: seq<ImportWrite>)
    ensures Paired(ws)
    decreases |items|
  {
    if |items| == 0 then []
    else
      var rest := WritesOf(items[1..]);
      if Written(items[0]) then
        assert ([ThumbnailPut(items[0].id), MetadataSet(items[0].id)] + rest)[2..] == rest;
        [ThumbnailPut(items[0].id), MetadataSet(items[0].id)] + rest
      else rest
  }

  /** The items an import writes, in list order: those with a payload
      that fetches. */
  function WrittenItems(items: seq<ExportItem>): (ws: seq<ExportItem>)
    ensures |ws| <= |items|
    ensures forall i :: 0 <= i < |ws| ==> Written(ws[i])
    decreases |items|
  {
    if |items| == 0 then []
    else (if Written(items[0]) then [items[0]] else []) + WrittenItems(items[1..])
  }

  /** The position of the last item of `items` with id `id`. */
  function LastWithId(items: seq<ExportItem>, id: string): (r: Option<nat>)
    ensures r.Some? ==> r.value < |items| && items[r.value].id == id
    ensures r.Some? ==> forall j :: r.value < j < |items| ==> items[j].id != id
    ensures r.None? ==> forall j :: 0 <= j < |items| ==> items[j].id != id
    decreases |items|
  {
    if |items| == 0 then None
    else match LastWithId(items[1..], id)
      case Some(i) => Some(i + 1)
      case None => if items[0].id == id then Some(0) else None
  }

  /** The decoded image of a written item. */
  function BlobOf(item: ExportItem): Blob
    requires Written(item)
  {
    Base64ToBlob(item.thumbnailBase64.value, item.mime).value
  }

  /** What metadata id `id` holds after `done` was imported into `area`. */
  function MetadataAfter(area: Area, done: seq<ExportItem>, id: string): Option<StorageIndex.LocalValue> {
    var ws := WrittenItems(done);
    match LastWithId(ws, id)
    case Some(i) => Some(StorageIndex.MetaEntry(ImportedMetadata(ws[i])))
    case None => StorageIndex.Get(area, id)
  }

  /** What the thumbnail key of `id` holds after `done` was imported into
      `area`, at the clock reading `now`. */
  function ThumbnailAfter(area: Area, done: seq<ExportItem>, id: string, now: nat): Option<StorageIndex.LocalValue> {
    var ws := WrittenItems(done);
    match LastWithId(ws, id)
    case Some(i) => Some(StorageIndex.ThumbEntry(ThumbnailStorage.ToStored(ImportedThumbnail(ws[i], BlobOf(ws[i]), now))))
    case None => StorageIndex.Get(area, ThumbnailStorage.Key(id))
  }

  /** The area after one written item: its thumbnail, then its metadata. */
  function ImportOne(area: Area, item: ExportItem, now: nat): Area
    requires Written(item)
  {
    StorageIndex.Set(ThumbnailStorage.PutThumbnail(area, ImportedThumbnail(item, BlobOf(item), now)), ImportedMetadata(item))
  }

  /** One step of the loop on an item that is written. */
  lemma ImportStep(area: Area, items: seq<ExportItem>, now: nat)
    requires |items| > 0 && Written(items[0])
    ensures var rest := ImportFrom(ImportOne(area, items[0], now), items[1..], now);
            ImportFrom(area, items, now) == ImportRun(rest.area, [ThumbnailPut(items[0].id), MetadataSet(items[0].id)] + rest.writes, rest.error)
  {
  }

  /** The import ends without error exactly when no item aborts it; it
      fails with the fetch's message otherwise; and its writes are those of
      the items before the aborting one. */
  lemma {:induction false} ImportOutcome(area: Area, items: seq<ExportItem>, now: nat)
    ensures var r := ImportFrom(area, items, now);
            && (r.error.None? <==> Reached(items) == items)
            && (r.error.Some? ==> r.error == Some("Failed to fetch"))
            && r.writes == WritesOf(Reached(items))
    decreases |items|
  {
    if |items| > 0 && !Aborts(items[0]) {
      var x := items[0];
      assert ([x] + Reached(items[1..]))[1..] == Reached(items[1..]);
      if Written(x) {
        ImportOutcome(ImportOne(area, x, now), items[1..], now);
        ImportStep(area, items, now);
      } else {
        ImportOutcome(area, items[1..], now);
      }
      if Reached(items[1..]) == items[1..] {
        assert Reached(items) == [x] + items[1..] == items;
      }
    }
  }

  /** The written items of a list with one more item in front. */
  lemma WrittenItemsCons(x: ExportItem, done: seq<ExportItem>)
    ensures WrittenItems([x] + done) == (if Written(x) then [x] else []) + WrittenItems(done)
  {
    assert ([x] + done)[1..] == done;
  }

  /** The last position of an id in a list with one more item in front. */
  lemma LastWithIdCons(x: ExportItem, ws: seq<ExportItem>, id: string)
    ensures LastWithId([x] + ws, id) ==
              match LastWithId(ws, id)
              case Some(i) => Some(i + 1)
              case None => if x.id == id then Some(0) else None
  {
    assert ([x] + ws)[1..] == ws;
  }

  /** Importing one more item in front: a written item is applied first,
      any other changes nothing. */
  lemma MetadataAfterCons(area: Area, x: ExportItem, done: seq<ExportItem>, id: string, now: nat)
    requires !StartsWith(id, ThumbnailStorage.Prefix)
    ensures Written(x) ==> MetadataAfter(area, [x] + done, id) == MetadataAfter(ImportOne(area, x, now), done, id)
    ensures !Written(x) ==> MetadataAfter(area, [x] + done, id) == MetadataAfter(area, done, id)
  {
    WrittenItemsCons(x, done);
    if Written(x) {
      var ws := WrittenItems(done);
      LastWithIdCons(x, ws, id);
      match LastWithId(ws, id)
      case Some(i) =>
        assert ([x] + ws)[i + 1] == ws[i];
      case None =>
        if id != x.id {
          assert id != ThumbnailStorage.Key(x.id);
          var a1 := ThumbnailStorage.PutThumbnail(area, ImportedThumbnail(x, BlobOf(x), now));
          assert StorageIndex.Get(a1, id) == StorageIndex.Get(area, id);
        }
    } else {
      assert [] + WrittenItems(done) == WrittenItems(done);
    }
  }

  /** An id outside the thumbnail prefix ends up with the metadata of the
      last item written for it before any abort, or keeps its old value
      when there is none. */
  lemma {:induction false} ImportMetadataAt(area: Area, items: seq<ExportItem>, now: nat, id: string)
    requires !StartsWith(id, ThumbnailStorage.Prefix)
    ensures StorageIndex.Get(ImportFrom(area, items, now).area, id) == MetadataAfter(area, Reached(items), id)
    decreases |items|
  {
    if |items| > 0 && !Aborts(items[0]) {
      var x := items[0];
      assert Reached(items) == [x] + Reached(items[1..]);
      MetadataAfterCons(area, x, Reached(items[1..]), id, now);
      if Written(x) {
        ImportMetadataAt(ImportOne(area, x, now), items[1..], now, id);
        ImportStep(area, items, now);
      } else {
        ImportMetadataAt(area, items[1..], now, id);
      }
    }
  }

  /** The metadata half, for every id at once. */
  lemma ImportMetadata(area: Area, items: seq<ExportItem>, now: nat)
    ensures var r := ImportFrom(area, items, now);
            forall id :: !StartsWith(id, ThumbnailStorage.Prefix) ==>
              StorageIndex.Get(r.area, id) == MetadataAfter(area, Reached(items), id)
  {
    forall id | !StartsWith(id, ThumbnailStorage.Prefix)
      ensures StorageIndex.Get(ImportFrom(area, items, now).area, id) == MetadataAfter(area, Reached(items), id)
    {
      ImportMetadataAt(area, items, now, id);
    }
  }

  /** No written item of `done` has the thumbnail key of `id` as its own
      id, so no metadata set lands on that key. */
  predicate KeyUnclaimed(done: seq<ExportItem>, id: string) {
    forall j :: 0 <= j < |done| && Written(done[j]) ==> done[j].id != ThumbnailStorage.Key(id)
  }

  /** The thumbnail counterpart of MetadataAfterCons. */
  lemma ThumbnailAfterCons(area: Area, x: ExportItem, done: seq<ExportItem>, id: string, now: nat)
    requires Written(x) ==> x.id != ThumbnailStorage.Key(id)
    ensures Written(x) ==> ThumbnailAfter(area, [x] + done, id, now) == ThumbnailAfter(ImportOne(area, x, now), done, id, now)
    ensures !Written(x) ==> ThumbnailAfter(area, [x] + done, id, now) == ThumbnailAfter(area, done, id, now)
  {
    WrittenItemsCons(x, done);
    if Written(x) {
      var ws := WrittenItems(done);
      LastWithIdCons(x, ws, id);
      match LastWithId(ws, id)
      case Some(i) =>
        assert ([x] + ws)[i + 1] == ws[i];
      case None =>
        if id != x.id && ThumbnailStorage.Key(id) == ThumbnailStorage.Key(x.id) {
          ThumbnailStorage.KeyInjective(id, x.id);
        }
    } else {
      assert [] + WrittenItems(done) == WrittenItems(done);
    }
  }

  /** The thumbnail key of `id` ends up with the image of the last item
      written for `id` before any abort, or keeps its old value, when no
      written item's own id is that key. */
  lemma {:induction false} ImportThumbnailAt(area: Area, items: seq<ExportItem>, now: nat, id: string)
    requires KeyUnclaimed(Reached(items), id)
    ensures StorageIndex.Get(ImportFrom(area, items, now).area, ThumbnailStorage.Key(id)) == ThumbnailAfter(area, Reached(items), id, now)
    decreases |items|
  {
    if |items| > 0 && !Aborts(items[0]) {
      var x := items[0];
      var done := Reached(items);
      assert done == [x] + Reached(items[1..]);
      assert KeyUnclaimed(Reached(items[1..]), id) by {
        forall j | 0 <= j < |Reached(items[1..])|
          ensures Reached(items[1..])[j] == done[j + 1]
        {
        }
      }
      assert Written(x) ==> x.id != ThumbnailStorage.Key(id) by {
        assert x == done[0];
      }
      ThumbnailAfterCons(area, x, Reached(items[1..]), id, now);
      if Written(x) {
        ImportThumbnailAt(ImportOne(area, x, now), items[1..], now, id);
        ImportStep(area, items, now);
      } else {
        ImportThumbnailAt(area, items[1..], now, id);
      }
    }
  }

  /** The thumbnail half, for every id whose key no written item claims. */
  lemma ImportThumbnails(area: Area, items: seq<ExportItem>, now: nat)
    ensures var r := ImportFrom(area, items, now);
            forall id :: KeyUnclaimed(Reached(items), id) ==>
              StorageIndex.Get(r.area, ThumbnailStorage.Key(id)) == ThumbnailAfter(area, Reached(items), id, now)
  {
    forall id | KeyUnclaimed(Reached(items), id)
      ensures StorageIndex.Get(ImportFrom(area, items, now).area, ThumbnailStorage.Key(id)) == ThumbnailAfter(area, Reached(items), id, now)
    {
      ImportThumbnailAt(area, items, now, id);
    }
  }

  /** In a paired trace every metadata write directly follows the thumbnail
      write for the same id. */
  lemma {:induction false} ThumbnailBeforeMetadata(ws: seq<ImportWrite>)
    requires Paired(ws)
    ensures forall j :: 0 <= j < |ws| && ws[j].MetadataSet? ==> 0 < j && ws[j - 1] == ThumbnailPut(ws[j].id)
    decreases |ws|
  {
    if |ws| > 0 {
      ThumbnailBeforeMetadata(ws[2..]);
      forall j | 2 <= j < |ws| && ws[j].MetadataSet?
        ensures ws[j - 1] == ThumbnailPut(ws[j].id)
      {
        assert ws[j] == ws[2..][j - 2];
        if j - 2 == 0 {
          assert false;
        } else {
          assert ws[j - 1] == ws[2..][j - 3];
        }
      }
    }
  }

  /** Items without a payload are skipped and change nothing. */
  lemma SkipsItemsWithoutPayload(area: Area, item: ExportItem, rest: seq<ExportItem>, now: nat)
    requires !HasPayload(item)
    ensures ImportFrom(area, [item] + rest, now) == ImportFrom(area, rest, now)
  {
    assert ([item] + rest)[1..] == rest;
  }

  /** Importing one item with a payload overwrites both stores: the
      thumbnail reads back with the fixed dimensions and the decoded image,
      and the metadata says `saved_indexeddb`. */
  lemma ImportOneItem(area: Area, legacy: IndexedDb.Db, item: ExportItem, now: nat, readable: bool, writable: bool)
    requires HasPayload(item)
    requires Base64ToBlob(item.thumbnailBase64.value, item.mime).Some?
    ensures var blob := Base64ToBlob(item.thumbnailBase64.value, item.mime).value;
            var r := ImportFrom(area, [item], now);
            && r.error.None?
            && r.writes == [ThumbnailPut(item.id), MetadataSet(item.id)]
            && StorageIndex.Get(r.area, item.id) == Some(StorageIndex.MetaEntry(ImportedMetadata(item)))
            && ThumbnailStorage.GetThumbnail(r.area, legacy, item.id, readable, writable).found == Success(Some(ImportedThumbnail(item, blob, now)))
  {
    var blob := Base64ToBlob(item.thumbnailBase64.value, item.mime).value;
    var t := ImportedThumbnail(item, blob, now);
    var a1 := ThumbnailStorage.PutThumbnail(area, t);
    var a2 := StorageIndex.Set(a1, ImportedMetadata(item));
    assert ThumbnailStorage.ImageRoundTrips(t);
    ThumbnailStorage.PutGetRoundTrip(area, legacy, t, readable, writable);
    assert ThumbnailStorage.Key(item.id) != item.id by {
      assert |ThumbnailStorage.Key(item.id)| != |item.id|;
    }
    assert StorageIndex.Get(a2, ThumbnailStorage.Key(item.id)) == StorageIndex.Get(a1, ThumbnailStorage.Key(item.id));
    assert ([item])[1..] == [];
  }

  /** The image bytes survive export and import: the exported payload,
      re-prefixed with the exported type, fetches back to the stored bytes. */
  lemma ExportedImageRoundTrips(area: Area, id: string)
    requires ImageOf(area, id).Some?
    requires NoComma(ImageOf(area, id).value.mime)
    ensures var image := ImageOf(area, id).value;
            var item := ItemFor(StorageIndex.MetaEntry(StorageIndex.MetadataRecord(id, "", None, StorageIndex.StatusNone, None, None)), image);
            && item.thumbnailBase64.Some?
            && Base64ToBlob(item.thumbnailBase64.value, item.mime) == Some(Blob(FetchedMime(image.mime), image.blob.value.bytes))
  {
    var image := ImageOf(area, id).value;
    var blob := image.blob.value;
    var readMime := if blob.mime == "" then OctetStream else blob.mime;
    assert NoComma(OctetStream);
    SecondFieldOfDataUrl(readMime, blob.bytes);
    FetchDataUrlOfEncoded(image.mime, blob.bytes);
  }

  /** The discrepancy's consequence: when the item exported for a thumbnail
      entry is imported after the item of its metadata record, the record
      loses its title and capture time. */
  lemma ThumbnailItemClearsTitle(area: Area, metaItem: ExportItem, thumbItem: ExportItem, now: nat)
    requires metaItem.id == thumbItem.id
    requires thumbItem.title.None? && thumbItem.lastCaptureAt.None?
    requires HasPayload(metaItem) && Base64ToBlob(metaItem.thumbnailBase64.value, metaItem.mime).Some?
    requires HasPayload(thumbItem) && Base64ToBlob(thumbItem.thumbnailBase64.value, thumbItem.mime).Some?
    ensures var r := ImportFrom(area, [metaItem, thumbItem], now);
            && StorageIndex.Get(r.area, metaItem.id).Some?
            && StorageIndex.Get(r.area, metaItem.id).value.MetaEntry?
            && StorageIndex.Get(r.area, metaItem.id).value.meta.title.None?
            && StorageIndex.Get(r.area, metaItem.id).value.meta.lastCaptureAt.None?
  {
    var blob := Base64ToBlob(metaItem.thumbnailBase64.value, metaItem.mime).value;
    var a1 := ThumbnailStorage.PutThumbnail(area, ImportedThumbnail(metaItem, blob, now));
    var a2 := StorageIndex.Set(a1, ImportedMetadata(metaItem));
    ImportFromCons(area, [metaItem, thumbItem], now);
    assert [metaItem, thumbItem][1..] == [thumbItem];
    ImportOneItem(a2, IndexedDb.Empty, thumbItem, now, true, true);
  }

  /** One step of the import loop on an item with a payload that fetches. */
  lemma ImportFromCons(area: Area, items: seq<ExportItem>, now: nat)
    requires |items| > 0 && HasPayload(items[0])
    requires Base64ToBlob(items[0].thumbnailBase64.value, items[0].mime).Some?
    ensures var blob := Base64ToBlob(items[0].thumbnailBase64.value, items[0].mime).value;
            var a1 := ThumbnailStorage.PutThumbnail(area, ImportedThumbnail(items[0], blob, now));
            var a2 := StorageIndex.Set(a1, ImportedMetadata(items[0]));
            ImportFrom(area, items, now).area == ImportFrom(a2, items[1..], now).area
  {
  }
}
