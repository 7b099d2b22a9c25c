/** The extension's local key-value area (`chrome.storage.local`) and the
    metadata index over it (src/lib/storage_index.ts). The area is ONE key
    space shared with the thumbnail store, which keeps its entries there
    under `thumb_`-prefixed keys; the index neither knows nor filters them. */
module StorageIndex {
  import opened Base

  /** The five statuses a metadata record can carry. */
  datatype ThumbnailStatus = StatusNone | Pending | SavedIndexedDb | SavedDisk | StatusError

  /** Metadata of one bookmark. `title` is optional because import copies it
      from a file that may lack it. */
  datatype MetadataRecord = MetadataRecord(
    id: string,
    url: string,
    title: Option<string>,
    status: ThumbnailStatus,
    lastCaptureAt: Option<int>,
    error: Option<string>)

  /** A thumbnail as the thumbnail store keeps it in the area: every field
      of the record except the blob, plus the blob as a data URL. */
  datatype StoredThumbnail = StoredThumbnail(
    id: string,
    url: string,
    mime: string,
    updatedAt: int,
    width: int,
    height: int,
    sizeBytes: int,
    filename: Option<string>,
    base64: Option<string>)

  /** What a key of the shared area can hold. */
  datatype LocalValue = MetaEntry(meta: MetadataRecord) | ThumbEntry(thumb: StoredThumbnail)

  type Area = map<string, LocalValue>

  function Get(area: Area, id: string): Option<LocalValue> {
    if id in area then Some(area[id]) else None
  }

  /** `getAll()`: the whole area, whatever wrote it. */
  function GetAll(area: Area): (all: map<string, LocalValue>)
    ensures forall k :: Get(area, k).Some? <==> k in all
    ensures forall k :: k in all ==> Get(area, k) == Some(all[k])
  {
    area
  }

  /** `set(record)`: last writer wins, keyed by the record's id. */
  function Set(area: Area, r: MetadataRecord): (area': Area)
    ensures Get(area', r.id) == Some(MetaEntry(r))
    ensures forall k :: k != r.id ==> Get(area', k) == Get(area, k)
  {
    area[r.id := MetaEntry(r)]
  }

  function Remove(area: Area, id: string): (area': Area)
    ensures Get(area', id) == None
    ensures forall k :: k != id ==> Get(area', k) == Get(area, k)
  {
    area - {id}
  }

  /** `clear()`: every key goes, the thumbnail store's included. */
  function Clear(area: Area): (area': Area)
    ensures forall k :: Get(area', k) == None
  {
    map[]
  }

  /** A second `set` under the same id replaces the first; `set` is
      idempotent. */
  lemma SetLastWriterWins(area: Area, r1: MetadataRecord, r2: MetadataRecord)
    requires r1.id == r2.id
    ensures Set(Set(area, r1), r2) == Set(area, r2)
    ensures Set(Set(area, r2), r2) == Set(area, r2)
  {
  }

  /** `set` then `remove` of the same id leaves the other keys as they were. */
  lemma SetRemove(area: Area, r: MetadataRecord)
    ensures Remove(Set(area, r), r.id) == Remove(area, r.id)
  {
  }
}
