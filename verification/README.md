# Bookmark thumbnails: a Dafny model of the capture and storage core

This project models the core of a browser extension that captures a screenshot
of a bookmarked page, shrinks it to a thumbnail and stores it. Every browser API
becomes an input: the outcome of a capture call, a permission answer, a load
event list, a clock reading. Each store becomes an immutable map. The model
covers the following parts.

- **Stores.**
  - `IndexedDb` is the legacy database. It has a thumbnails store keyed by `id` and a handles store keyed by `key`, and it memoises its connection.
  - `StorageIndex` is the metadata index over the local key-value area.
  - `ThumbnailStorage` is the newer thumbnail store. It keeps records under `thumb_` + id in that same area. On a miss it migrates a record lazily from the legacy database.
  - The index and the thumbnail store share one key space (`StorageIndex.Area`). So the index's `getAll` sees thumbnail entries, and its `clear` wipes them.
- **Data URLs.** `Base64` is a real RFC 4648 codec with a proved round trip. `Blobs` builds data URLs with it and parses them back. Together they stand for `FileReader.readAsDataURL` and `fetch(dataUrl)`.
- **Directory access (`FsAccess`).**
  - Choosing a directory fills a single `default` slot.
  - Permission checking is a query/request ladder.
  - Restoring the handle, writing a file, and readiness.
- **Capture (`Capture`).**
  - The capture strategy order: forced-active, then direct visible, then background.
  - The visible and background capture outcomes, with their 5000 ms and 10000 ms timeouts.
  - The resize dimension arithmetic, with `Math.round` computed exactly on integers.
- **Service worker (`ServiceWorker`).**
  - Message dispatch.
  - The capture handler: write order, the storage-tier choice, and the on-disk filename.
  - The sequential batch loop with its load wait.
  - The auto-capture guard on bookmark creation.
- **Backup (`Backup`).** Creating a backup, and the additive backup import with its count.
- **Export and import (`ExportImport`).** Export selection, import validation, the order of writes, and the base64 prefix strip and restore.
- **Popup (`Popup`).** The popup's queued/loading/shown URL sets, driven by runtime messages and by the batch, resume and stop actions, plus status-gated thumbnail loading.

The batch loop and the list-producing operations are methods with loop
invariants. Each of these methods is proved equal to, or complete with respect
to, a recursive reference definition.

## Model

| member | source | states |
|---|---|---|
| IndexedDb.Open | src/lib/indexeddb.ts:26-48 | An existing connection is returned unchanged; otherwise the open attempt's outcome is returned and, on success, remembered; the stores are untouched |
| IndexedDb.OpenMemoised | src/lib/indexeddb.ts:26-36 | After one successful open, a second open returns the same connection whatever a new attempt would give |
| IndexedDb.PutThumbnail | src/lib/indexeddb.ts:50-59 | The record is readable under its id, every other id reads as before, and the handles store is unchanged |
| IndexedDb.DeleteThumbnail | src/lib/indexeddb.ts:72-81 | The id reads as absent afterwards and every other id reads as before |
| IndexedDb.PutHandle | src/lib/indexeddb.ts:83-92 | The handle is readable under its key, replacing any earlier one; other keys and the thumbnails store are unchanged |
| IndexedDb.PutGetThumbnail | src/lib/indexeddb.ts:50-70 | Put then get returns the record; a second put with the same id replaces it, as if only the second put happened |
| IndexedDb.StoresDisjoint | src/lib/indexeddb.ts:83-103 | Handle writes never change a thumbnail read, and thumbnail writes and deletes never change a handle read |
| IndexedDb.GetAllThumbnails | src/lib/indexeddb.ts:105-114 | The result is exactly the stored records: each one is what its id reads as, every stored id appears, and no id appears twice |
| StorageIndex.GetAll | src/lib/storage_index.ts:18-20 | The result holds exactly the keys a single get finds, with the same values, thumbnail entries included |
| StorageIndex.Set | src/lib/storage_index.ts:22-24 | The record reads back under its id; every other key is unchanged |
| StorageIndex.Remove | src/lib/storage_index.ts:26-28 | The id reads as absent; every other key is unchanged |
| StorageIndex.Clear | src/lib/storage_index.ts:30-32 | Every key reads as absent afterwards |
| StorageIndex.SetLastWriterWins | src/lib/storage_index.ts:22-24 | Two sets of the same id leave the area as if only the second happened; repeating a set changes nothing |
| StorageIndex.SetRemove | src/lib/storage_index.ts:22-28 | Removing an id after setting it leaves the area as removing it alone would |
| ThumbnailStorage.Key | src/lib/thumbnail_storage.ts:9-13 | The key starts with `thumb_` and the rest of it is the id |
| ThumbnailStorage.KeyInjective | src/lib/thumbnail_storage.ts:11-13 | Distinct ids have distinct keys |
| ThumbnailStorage.StoredRoundTrip | src/lib/thumbnail_storage.ts:29-58 | Converting a record to its stored data-URL form and reading it back gives the same record, image bytes included |
| ThumbnailStorage.NoImageReadsBackEmpty | src/lib/thumbnail_storage.ts:60-65 | A record put without image data reads back successfully with no image |
| ThumbnailStorage.PutThumbnail | src/lib/thumbnail_storage.ts:29-43 | The stored form is written under the prefixed key; every other key of the shared area is unchanged |
| ThumbnailStorage.GetThumbnail | src/lib/thumbnail_storage.ts:45-82 | The legacy database is consulted only on a miss. On a miss a record is found only when the legacy read and the migrating write both succeed, and then it is the legacy record and the area gains it under the prefixed key; a failed legacy read, a missing legacy record or a rejected migrating write yields absent and leaves the area unchanged |
| ThumbnailStorage.FailedMigrationRetried | src/lib/thumbnail_storage.ts:70-81 | A rejected migrating write answers with no record and leaves the area as it was, so a later read with a working shared area migrates and returns the legacy record |
| ThumbnailStorage.PutGetRoundTrip | src/lib/thumbnail_storage.ts:29-58 | Put then get returns the record put, without consulting the legacy database |
| ThumbnailStorage.HitIgnoresLegacy | src/lib/thumbnail_storage.ts:50-66 | On a hit the answer does not depend on the legacy database or on whether it can be read |
| ThumbnailStorage.LazyMigration | src/lib/thumbnail_storage.ts:68-76 | A record only the legacy database holds is returned and written to the shared area under its prefixed key |
| ThumbnailStorage.SecondReadServedFromArea | src/lib/thumbnail_storage.ts:68-76 | After a migration a second read returns the same record from the shared area, even if the legacy database has since changed or become unreadable |
| ThumbnailStorage.DeleteThumbnail | src/lib/thumbnail_storage.ts:84-92 | The shared entry is gone and other keys are unchanged; the legacy record is deleted when that store is writable, and a failure there leaves it as it was |
| ThumbnailStorage.DeleteThenGet | src/lib/thumbnail_storage.ts:84-92 | After a delete in both stores, a read finds nothing |
| ThumbnailStorage.GetAllThumbnails | src/lib/thumbnail_storage.ts:94-122 | Succeeds exactly when every prefixed entry reads back; returns one record per prefixed key, each the read-back of its entry, covering all prefixed keys, without repetition; legacy-only records are absent |
| ThumbnailStorage.IndexGetAllSeesThumbnails | src/lib/storage_index.ts:18-20 | A thumbnail put is visible to the metadata index's getAll under its prefixed key |
| ThumbnailStorage.IndexClearWipesThumbnails | src/lib/storage_index.ts:30-32 | After the index's clear, a thumbnail read misses the shared area and falls back to the legacy database |
| Base64.DecodeEncode | src/lib/thumbnail_storage.ts:15-27 | Decoding the base64 text of any byte sequence gives the bytes back |
| Base64.EncodeHasNoComma | src/lib/export_import.ts:86-98 | Base64 text never contains a comma, so it is whole after the data-URL prefix is cut at the first comma |
| Blobs.ReadAsDataUrl | src/lib/thumbnail_storage.ts:15-22 | A blob's data URL starts with `data:` and is longer than its fixed prefix |
| Blobs.FetchDataUrl | src/lib/thumbnail_storage.ts:24-27 | A data URL that fetches starts with `data:`; the fetched type has no comma and has the `type/subtype` shape, because a header type without it is replaced |
| Blobs.FetchedMime | src/lib/export_import.ts:100-103 | A header type with a slash is kept; any other, the empty type and `undefined` included, becomes text/plain;charset=US-ASCII; either way the result has a slash |
| Blobs.FetchReadRoundTrip | src/lib/thumbnail_storage.ts:15-27 | Fetching a blob's data URL gives the same blob back when its type has the `type/subtype` shape and no comma |
| Blobs.SecondFieldOfDataUrl | src/lib/export_import.ts:86-98 | The text after the first comma of a base64 data URL is exactly its base64 payload |
| Blobs.FetchDataUrlOfEncoded | src/lib/export_import.ts:100-103 | Re-prefixing a base64 payload with `data:<mime>;base64,` fetches back the original bytes |
| FsAccess.ChooseDirectory | src/lib/fsaccess.ts:6-28 | A missing picker fails with 'File System Access API not supported'; a pick is held and stored under `default` with the clock, leaving other handle slots and the thumbnails alone; AbortError is swallowed; any other error is rethrown |
| FsAccess.SingleSlot | src/lib/fsaccess.ts:12-22 | A second pick replaces the first in the single `default` slot |
| FsAccess.VerifyPermission | src/lib/fsaccess.ts:41-59 | A granted query answers true with no request; otherwise one request follows and its answer decides; readwrite mode is asked for exactly when requested |
| FsAccess.PermissionLadder | src/lib/fsaccess.ts:50-58 | Permission is granted exactly when the query or the request is granted |
| FsAccess.RestoreHandle | src/lib/fsaccess.ts:30-39 | With no `default` record the answer is false and nothing changes; otherwise the stored handle is held and the answer is the permission check's |
| FsAccess.WriteFile | src/lib/fsaccess.ts:61-72 | With no handle it fails with 'No directory selected' and the disk is unchanged. A rejection by `getFileHandle` leaves the disk unchanged. A rejection by `createWritable`, `write` or `close` propagates and leaves the created file behind, empty when it is new. On success the file holds the blob's bytes. No other file ever changes |
| FsAccess.FailedWriteLeavesEmptyFile | src/lib/fsaccess.ts:66-71 | A write to a new name that fails after the file handle was obtained leaves a zero-byte file of that name; a failure before it leaves the disk as it was |
| FsAccess.ReadyAndWrites | src/lib/fsaccess.ts:61-76 | A write can succeed exactly when a handle is held; restoring a stored handle makes the helper ready, whatever the permission answer |
| Capture.CaptureVisibleTab | src/lib/capture.ts:76-89 | Succeeds exactly with the captured data URL; a timeout fails with 'Capture timed out after 5000ms' |
| Capture.CaptureBackgroundTab | src/lib/capture.ts:91-115 | Succeeds exactly on a response marked success, with its data URL; otherwise fails with the response's error or 'Unknown capture error'; a timeout fails with the 10000 ms message |
| Capture.Capture | src/lib/capture.ts:10-68 | A failed tab lookup fails the capture with that error and tries nothing; a success comes from some tried strategy |
| Capture.StrategyOrder | src/lib/capture.ts:27-63 | One to three strategies are tried, always in the order forced, direct, background, and the capture's result is the last one tried |
| Capture.ForcedPathChoice | src/lib/capture.ts:28-52 | The forced path is tried exactly when active-tab capture is requested and the tab has a window; its failure falls through to the standard choice |
| Capture.ForcedPathRestores | src/lib/capture.ts:28-48 | A successful forced capture activates the target, then re-activates the previously active tab only when it exists and differs from the target |
| Capture.DirectPathChoice | src/lib/capture.ts:15-62 | Direct capture is tried only for an active tab in a focused, unminimised window, never when the window lookup failed, and its failure falls through to background capture |
| Capture.BackgroundLastResort | src/lib/capture.ts:63-67 | A failed capture has reached background capture and fails with its error |
| Capture.ScaledHeight | src/lib/capture.ts:140-141 | The height is the integer nearest to targetWidth times height over width, halves rounded up |
| Capture.ScaledHeightNearest | src/lib/capture.ts:140-141 | No other integer satisfies that nearest-integer bound |
| Capture.ResizeOffscreen | src/lib/capture.ts:131-169 | Succeeds exactly when decoding, the 2d context and encoding succeed; width is the target, height the rounded scaled height, the blob is webp with the encoded bytes, sizeBytes its length, and the data URL fetches back to the blob |
| Capture.ResizeDom | src/lib/capture.ts:171-214 | Same success condition and dimensions as the offscreen path, failing with 'Could not get 2d context' or 'Canvas toBlob failed' |
| Capture.ResizePathsAgree | src/lib/capture.ts:117-129 | Both rendering paths give the same width, height, blob and size for the same image and bytes |
| ServiceWorker.SanitizeChar | src/sw.ts:145 | ASCII letters and digits are kept; every other character becomes '_' |
| ServiceWorker.Sanitize | src/sw.ts:145 | Sanitising keeps the length |
| ServiceWorker.SanitizePointwise | src/sw.ts:145 | Each character of the sanitised title is the sanitised title character at that position |
| ServiceWorker.FileStem | src/sw.ts:145 | The stem has 1 to 50 characters, all letters, digits or '_'; an absent or empty title gives 'untitled'; otherwise the stem is the sanitised title cut to 50 characters |
| ServiceWorker.FilenameCharacters | src/sw.ts:145 | The filename is the stem, '_', the decimal timestamp and '.webp', and uses only letters, digits, '_' and '.' |
| ServiceWorker.TimestampRoundTrip | src/sw.ts:145 | The timestamp can be read back from the filename, after its last '_' |
| ServiceWorker.FilenamesDistinct | src/sw.ts:145 | Captures of the same title at different times get different filenames |
| ServiceWorker.SaveToDisk | src/sw.ts:139-152 | Status is saved_disk exactly when a stored handle is read, permission is granted without the permission call throwing, and the write succeeds; the file then holds the image and no other file changes. Otherwise the status is saved_indexeddb with no write recorded. The held directory changes only once the stored handle is read, and is kept even when the permission call then throws. The disk is unchanged unless the write was attempted; a write rejected after the file handle was obtained leaves the created file |
| ServiceWorker.MetadataFor | src/sw.ts:155-161 | Id and url are the tab's url, the title defaults to 'Untitled', and the status and capture time are as given |
| ServiceWorker.HandleCapture | src/sw.ts:115-168 | Succeeds exactly when the shot, the resize, the tab and both store writes succeed, and otherwise rejects with the first failing step's own error, rethrown unchanged: the shot's error or timeout, the resize error, 'No active tab found', or the thumbnail or metadata write's rejection; nothing is written before the tab check; after a metadata rejection the thumbnail stays stored and the metadata is untouched; the thumbnail is written first and the metadata last; the reply carries the tab's url |
| ServiceWorker.StoreCapture | src/sw.ts:125-163 | Once the shot is resized and the tab usable, the capture succeeds exactly when both store writes do; a rejected thumbnail write writes nothing and rejects with its error; a rejected metadata write rejects with its error and keeps the thumbnail and the disk step's helper state and disk, with the metadata untouched; the thumbnail comes first and the metadata last; the reply carries the tab's url and the resized data URL |
| ServiceWorker.CaptureStored | src/sw.ts:127-161 | After a successful capture the legacy database holds the resized image at width 600, and the metadata index holds a record for the url whose status is saved_disk exactly when the disk was reachable and saved_indexeddb otherwise |
| ServiceWorker.DiskTierWritesFile | src/sw.ts:139-161 | When the disk is reachable the writes are thumbnail, file, metadata, and the file holds the image under the sanitised filename |
| ServiceWorker.StreamFailureLeavesEmptyFile | src/sw.ts:139-161 | A file write rejected after the file handle was obtained does not fail the capture: the writes are thumbnail then metadata, the metadata status is saved_indexeddb, and a new file name is left on disk as an empty file |
| ServiceWorker.MetadataFailureKeepsWrites | src/sw.ts:127-167 | A rejected metadata write fails the capture with that rejection, and nothing is rolled back: the thumbnail stays in the legacy store, the file written on the disk tier stays with the image, and the metadata area is as before |
| ServiceWorker.AwaitLoad | src/sw.ts:50-64 | The wait ends at the first 'complete' update for the tab, or after 15000 ms when there is none; it never fails |
| ServiceWorker.ProcessUrl | src/sw.ts:42-87 | A rejected creation or a tab without an id is skipped after the create; the tab is activated after the load wait; the capture runs only after activation; the tab is closed only after a successful capture; a failure ends this URL only |
| ServiceWorker.CloseOnlyAfterCapture | src/sw.ts:76-85 | A tab is closed only when the capture succeeded; when the capture fails the tab is left open |
| ServiceWorker.ProcessUrlCreatesOne | src/sw.ts:45 | Each URL's run creates exactly one tab, for that URL |
| ServiceWorker.RunBatch | src/sw.ts:38-90 | One outcome per URL, whatever fails |
| ServiceWorker.BatchInOrder | src/sw.ts:41-88 | Tabs are created for the URLs strictly in list order, one each |
| ServiceWorker.ProcessBatchCapture | src/sw.ts:38-90 | The loop matches the reference batch: one outcome per URL, and tabs are created in list order |
| ServiceWorker.OnMessage | src/sw.ts:15-36 | The channel is always kept open; a capture message replies with exactly the handler's resolved value, or with an error carrying the rejection's message; a batch message runs the batch with no reply; a ping replies ok; other types change nothing |
| ServiceWorker.StopIsIgnored | src/sw.ts:15-36 | STOP_CAPTURE has no handler: it changes nothing and gets no reply |
| ServiceWorker.OnBookmarkCreated | src/sw.ts:93-108 | A capture runs exactly when the bookmark has a url equal to the active tab's url; otherwise nothing changes |
| ServiceWorker.AutoCaptureGuard | src/sw.ts:94-99 | A bookmark whose url differs from the active tab's never triggers a capture |
| Backup.ToItem | src/lib/backup_manager.ts:37-42 | A backup item keeps the record's id, url and filename, with an empty title and no image |
| Backup.CreateBackup | src/lib/backup_manager.ts:27-52 | Version 1 with the clock and the settings, and exactly one item per stored thumbnail, without repetition |
| Backup.Placeholder | src/lib/backup_manager.ts:82-92 | A placeholder has the item's id, url and filename, no image, type image/webp, zero width, height and size, and the import's clock reading as updatedAt |
| Backup.ImportNeverOverwrites | src/lib/backup_manager.ts:78-95 | Every record stored before the import is unchanged after it |
| Backup.ImportedArePlaceholders | src/lib/backup_manager.ts:78-95 | Every record the import adds is the placeholder of an item with that id, and ids not in the file are not added |
| Backup.ImportCount | src/lib/backup_manager.ts:63-95 | The count is the number of distinct ids in the file that were not already stored, so a duplicate id is counted once |
| Backup.ImportBackup | src/lib/backup_manager.ts:54-102 | A parse error fails with its message; settings are merged only when present; a missing thumbnail list gives count 0 and no change; otherwise the insert loop matches the reference import |
| Backup.RestoreIntoEmpty | src/lib/backup_manager.ts:37-95 | Importing a backup into an empty database restores every id with its url and filename but no image, and counts them all |
| Backup.ReimportIsNoOp | src/lib/backup_manager.ts:78-95 | Importing items whose ids are all stored changes nothing and counts 0 |
| ExportImport.WritersKeepWellKeyed | src/lib/thumbnail_storage.ts:42 | Both writers keep metadata under the record's own id and thumbnails under the prefixed id |
| ExportImport.FromStoredKeepsId | src/lib/thumbnail_storage.ts:53-58 | A thumbnail read back from the shared area keeps the id it was stored with |
| ExportImport.ImageOf | src/lib/export_import.ts:30-32 | A thumbnail chosen for export has image data and the wanted id |
| ExportImport.Find | src/lib/export_import.ts:30 | `find` returns a listed record with the wanted id, or reports that none is listed |
| ExportImport.FindIsStoredAt | src/lib/export_import.ts:12-30 | Searching the listed thumbnails by id gives exactly the thumbnail stored under that id's prefixed key |
| ExportImport.ItemFor | src/lib/export_import.ts:32-39 | An export item carries the entry's fields, the image as base64 without its data-URL prefix, and the thumbnail's type |
| ExportImport.CollectItems | src/lib/export_import.ts:28-40 | One item per selected key with an image, each built from its entry and image, none repeated |
| ExportImport.ExportAllAsWritten | src/lib/export_import.ts:11-50 | The export as written: fails exactly when a stored thumbnail does not read back; has version 1; includes every key of the area, thumbnail entries too, that has an image |
| ExportImport.ExportAll | src/lib/export_import.ts:11-50 | Has version 1 and includes a metadata entry exactly when a thumbnail with the same id has image data; ids are not repeated |
| ExportImport.AsWrittenExportsThumbnailEntries | src/lib/export_import.ts:28-40 | A stored thumbnail's own entry is selected by the as-written export and yields an item with that id and no title |
| ExportImport.ImportedThumbnail | src/lib/export_import.ts:64-73 | The imported thumbnail has the item's id and url, the item's mime (empty when missing), the fetched image, no filename, width 600, height 400, and updatedAt from lastCaptureAt or the clock |
| ExportImport.ImportedMetadata | src/lib/export_import.ts:75-81 | Imported metadata has the item's id, url, title and capture time, with status saved_indexeddb |
| ExportImport.ImportFrom | src/lib/export_import.ts:60-83 | Every metadata write follows the thumbnail write for the same id; no writes leave the area unchanged |
| ExportImport.ImportData | src/lib/export_import.ts:52-84 | A parse error fails with its message; a missing bookmarks list fails with 'Invalid export file format'. For a parsed list, the import ends without error exactly when no payload fails to fetch. Its writes are a thumbnail and metadata pair for each item with a payload before the first that fails. Every id outside the thumbnail prefix then holds the metadata of the last such item with that id, or its old value |
| ExportImport.ThumbnailBeforeMetadata | src/lib/export_import.ts:64-81 | Each metadata write is immediately preceded by the thumbnail write for the same id |
| ExportImport.SkipsItemsWithoutPayload | src/lib/export_import.ts:61 | An item without base64 is skipped and changes nothing |
| ExportImport.ImportOneItem | src/lib/export_import.ts:61-82 | Importing one item overwrites whatever was stored: its metadata and its thumbnail read back as the imported ones |
| ExportImport.MissingMimeFetchesAsText | src/lib/export_import.ts:100-103 | An item without a mime is fetched from `data:undefined;base64,…` and comes back with the bytes and the type text/plain;charset=US-ASCII |
| ExportImport.Reached | src/lib/export_import.ts:60-63 | The items the loop gets through are the longest prefix in which no payload fails to fetch; the next item, if any, is one whose fetch fails |
| ExportImport.WrittenItems | src/lib/export_import.ts:60-83 | Every item the loop writes has a payload that fetches, and there are never more of them than the list holds |
| ExportImport.LastWithId | src/lib/export_import.ts:60-83 | The position found for an id holds an item with that id and no later item has it; none is found only when no item has it (the last write under an id is the one that stays) |
| ExportImport.ImportOutcome | src/lib/export_import.ts:60-83 | Over any item list, the import ends without error exactly when no payload fails to fetch, and otherwise with 'Failed to fetch'; its writes are a thumbnail and metadata pair for each item with a payload before the failing one |
| ExportImport.ImportMetadataAt | src/lib/export_import.ts:60-83 | Over any item list, an id outside the thumbnail prefix ends up with the metadata built from the last item written for it before any failure, or keeps its old value when there is none |
| ExportImport.ImportMetadata | src/lib/export_import.ts:60-83 | The same for every such id at once |
| ExportImport.ImportThumbnailAt | src/lib/export_import.ts:60-83 | Over any item list, the thumbnail key of an id ends up with the stored thumbnail built from the last item written for that id, or keeps its old value. This holds whenever no written item's own id is that key |
| ExportImport.ImportThumbnails | src/lib/export_import.ts:60-83 | The same for every such id at once |
| ExportImport.ExportedImageRoundTrips | src/lib/export_import.ts:86-103 | The exported base64, re-prefixed with the exported type, fetches back the stored image bytes |
| ExportImport.ThumbnailItemClearsTitle | src/lib/export_import.ts:75-81 | Importing a title-less item after an item with the same id leaves that id's metadata with no title and no capture time |
| Popup.OnMessage | src/popup/App.tsx:76-115 | CAPTURE_STARTED moves the url from queued to loading; THUMBNAIL_UPDATED shows it and removes it from loading only when a stored image is found; CAPTURE_FAILED removes it from loading only; anything else, or a missing url, changes nothing |
| Popup.TriggerBatch | src/popup/App.tsx:184-191 | Every url is added to queued and BATCH_CAPTURE is sent with the same list |
| Popup.Stop | src/popup/App.tsx:219-223 | Queued and loading are cleared, then STOP_CAPTURE is sent |
| Popup.ResumeUrls | src/popup/App.tsx:206-211 | Resume asks only for non-empty urls whose thumbnail is not shown |
| Popup.ResumeUrlsComplete | src/popup/App.tsx:206-211 | A url is asked for exactly when some bookmark has it, it is non-empty and its thumbnail is not shown |
| Popup.Resume | src/popup/App.tsx:204-217 | Sends a batch of the missing urls, or nothing at all when none is missing |
| Popup.ResumeSkipsShown | src/popup/App.tsx:206-216 | A shown thumbnail's url is never in a resume batch |
| Popup.LoadThumbs | src/popup/App.tsx:44-69 | A bookmark's thumbnail is shown exactly when its metadata status is saved_indexeddb or saved_disk and the legacy database holds an image for it |
| Popup.LoadExisting | src/popup/App.tsx:121-163 | The shown set becomes exactly the old one plus every non-empty folder url whose legacy record has an image, whatever its metadata says; queued and loading are unchanged; the missing list has only urls without an image that are neither loading nor queued |
| Popup.MissingUrls | src/popup/App.tsx:143-151 | Missing urls have no stored image, are neither loading nor queued, and are no more than the bookmarks |
| Popup.MissingUrlsComplete | src/popup/App.tsx:143-151 | A url is listed as missing exactly when some bookmark of the folder has it, it is non-empty, it has no stored image, and it is neither loading nor queued |
| Popup.LoadsRace | src/popup/App.tsx:44-163 | The two folder loads disagree on a stored image whose metadata status does not allow it: the status-gated load leaves it out, the other load shows it, so which one settles last decides whether it is shown |
| Popup.CaptureLifecycle | src/popup/App.tsx:77-104 | A batch-queued url moves to loading when its capture starts, and is shown, neither queued nor loading, once its stored thumbnail is announced |
| Popup.FailureAndStop | src/popup/App.tsx:105-111 | A started capture that fails leaves the url neither queued nor loading; stopping afterwards clears loading |

## Left out

- Browser plumbing is replaced by inputs and outcomes. This covers tabs, windows, scripting, runtime messaging, the storage areas, IndexedDB requests, the File System Access API and `setTimeout`. Durations are labels (`5000`, `10000`, `15000`, `2000`, `500`, `100`), not time.
- Storage-area, IndexedDB-open and IndexedDB-request failures are not modelled where the code does not handle them. The exceptions are the legacy read, the migrating write (`migrationWritable`) and the legacy delete in the thumbnail store, the writes in the capture handler, the handle read in the capture handler (`HandleEnv.handleReadable`) and its permission call (`HandleEnv.permissionFailure`, which throws after the handle was taken).
- Pixel work is out: decoding, drawing, the webp encoder and its 0.8 quality, html2canvas in src/content/capture.ts, and the popup's object URLs. Images are byte sequences; decoded images are their dimensions.
- Capture.ScaledHeight: `Math.round` of a floating-point quotient is computed exactly on integers. Float rounding at half-way points that cannot be represented is not modelled.
- Blobs.FetchDataUrl: only base64 data URLs are parsed, and the payload must be strict RFC 4648 base64. The browser's data-URL processing is more lenient: it strips whitespace, accepts missing `=` padding and percent-decodes the payload. A hand-edited export the browser accepts can therefore fail with 'Failed to fetch' in the model. A header type is kept when it contains a slash and otherwise becomes `text/plain;charset=US-ASCII`. The browser's full MIME parse is not modelled: token characters, empty type or subtype halves, lower-casing and parameter normalisation.
- ThumbnailStorage.StoredRoundTrip: the round trip requires a blob type with the `type/subtype` shape and no comma. Other types are not guaranteed to survive the data-URL round trip.
- ServiceWorker.FileStem: titles are sequences of Unicode scalar values. The source's regular expression and `substring` count UTF-16 code units, so a character outside the Basic Multilingual Plane becomes one '_' here and two in the source.
- The key iteration order of `getAll` and `Object.entries` is not modelled. The thumbnail store, the export loop and the backup are stated as sets of items, without order.
- ExportImport.ExportAll and ExportImport.ExportAllAsWritten: stated for a well-keyed area. In such an area metadata sits under its own id, which never starts with `thumb_`, and thumbnails sit under the prefixed id. Both writers keep this; a metadata id starting with `thumb_` is outside the model.
- ExportImport.ItemFor: the spread of unknown extra fields of a metadata record into the export item is not modelled. Fields are the declared ones.
- ExportImport.ImportedThumbnail: the record's mime is the item's mime. A missing one is stored as "" instead of `undefined`.
- Backup.ImportItems: one clock reading `now` stands for every `Date.now()` of one import.
- ExportImport.ImportFrom: one clock reading `now` stands for the per-item `Date.now()` fallback of `updatedAt` (src/lib/export_import.ts:69). Items imported at different instants get the same fallback time here.
- Backup settings are a map from strings to strings; the values of the synchronised settings area are opaque.
- Items with a missing `id` and a `urls` field that is not an array are not modelled. JSON parsing is an input that either fails with a message or gives typed data.
- src/lib/storage_manager.ts (quota percentages and byte formatting, floating point) is not part of this model.
- src/lib/error_generator.ts (canvas drawing and text measurement) is not part of this model.
- UI and tooling are not part of this model: src/components/*, src/popup/components/*, JSX rendering, the website, the icon script and the build config.
- The service worker has no STOP_CAPTURE handler, no in-flight guard, no tab reuse, no status broadcasts to the popup, and no directory reconciliation. The model has none either. `ServiceWorker.StopIsIgnored` states the first.
- ServiceWorker.OnMessage and ServiceWorker.ProcessBatchCapture: the batch runs to completion inside the handler. In the source `processBatchCapture` is started without being awaited (src/sw.ts:27). A second batch, or a capture request that then captures whatever tab is active, can interleave with it at every await. That concurrency is not modelled.
- Popup.LoadThumbs and Popup.LoadExisting: both run on every folder change (src/popup/App.tsx:44-69 and src/popup/App.tsx:121-163) with no order between them. Each is modelled as one step; their interleaving, and a THUMBNAIL_UPDATED message arriving between them, are not. `Popup.LoadsRace` states how the two orders differ.
- The worker's install and toolbar-click listeners only log or open a page; they are not modelled.

## Findings

| source | as written | input that shows it | evidently intended | confidence | as-written member | corrected member |
|---|---|---|---|---|---|---|
| src/lib/export_import.ts:28-40 | The export loop walks every key of the metadata index's `getAll`. That area also holds the `thumb_` entries of the thumbnail store, so a thumbnail entry is exported as a bookmark of its own, without title or capture time. | Metadata `X` plus a thumbnail with an image stored under `thumb_X`. The export holds two items with id `X`, one untitled. Importing the untitled one after the other leaves `X`'s metadata with no title. | Only metadata records are exported, each once | medium, not executed | ExportImport.ExportAllAsWritten, ExportImport.AsWrittenExportsThumbnailEntries, ExportImport.ThumbnailItemClearsTitle | ExportImport.ExportAll |
