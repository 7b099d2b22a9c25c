/** The directory helper (src/lib/fsaccess.ts): one remembered directory
    handle, persisted in the legacy database's handles store under the single
    key `default`, a permission ladder over the browser's permission oracle,
    and file writes into the held directory. */
module FsAccess {
  import opened Base
  import opened Blobs
  import IndexedDb

  const DefaultKey: string := "default"
  const NotSupported: string := "File System Access API not supported"
  const NoDirectory: string := "No directory selected"
  const AbortErrorName: string := "AbortError"

  type DirectoryHandle = IndexedDb.DirectoryHandle

  /** The helper's in-memory state: the handle it holds, if any. */
  datatype FsState = FsState(directory: Option<DirectoryHandle>)

  /** What `showDirectoryPicker` does: it is absent, it returns a handle, or
      it throws an error with a name and a message. */
  datatype PickerOutcome = PickerMissing | Picked(handle: DirectoryHandle) | PickerThrew(name: string, message: string)

  /** `chooseDirectory()`, given the picker's behaviour and the clock. */
  function ChooseDirectory(fs: FsState, db: IndexedDb.Db, picker: PickerOutcome, now: int): (r: Result<(FsState, IndexedDb.Db)>)
    ensures picker.PickerMissing? ==> r == Failure(NotSupported)
    ensures picker.Picked? ==> r.Success?
    ensures picker.Picked? ==> r.value.0.directory == Some(picker.handle)
    ensures picker.Picked? ==> IndexedDb.GetHandle(r.value.1, DefaultKey) == Some(IndexedDb.HandleRecord(DefaultKey, picker.handle, now))
    ensures picker.Picked? ==> forall k :: k != DefaultKey ==> IndexedDb.GetHandle(r.value.1, k) == IndexedDb.GetHandle(db, k)
    ensures r.Success? ==> r.value.1.thumbnails == db.thumbnails
    ensures picker.PickerThrew? && picker.name == AbortErrorName ==> r == Success((fs, db))
    ensures picker.PickerThrew? && picker.name != AbortErrorName ==> r == Failure(picker.message)
  {
    match picker
    case PickerMissing => Failure(NotSupported)
    case Picked(h) => Success((FsState(Some(h)), IndexedDb.PutHandle(db, IndexedDb.HandleRecord(DefaultKey, h, now))))
    case PickerThrew(name, message) =>
      if name == AbortErrorName then Success((fs, db)) else Failure(message)
  }

  /** Picking twice keeps only the second handle: there is a single slot. */
  lemma SingleSlot(fs: FsState, db: IndexedDb.Db, h1: DirectoryHandle, h2: DirectoryHandle, t1: int, t2: int)
    ensures var first := ChooseDirectory(fs, db, Picked(h1), t1).value;
            var second := ChooseDirectory(first.0, first.1, Picked(h2), t2).value;
            && second.0.directory == Some(h2)
            && IndexedDb.GetHandle(second.1, DefaultKey).value.handle == h2
            && second.1.handles.Keys == db.handles.Keys + {DefaultKey}
  {
  }

  datatype PermissionState = Granted | Denied | Prompt

  /** The permission descriptor: `mode: 'readwrite'` or no mode. */
  datatype Mode = ReadOnly | ReadWrite

  /** One call on the permission oracle. */
  datatype PermissionCall = Query(mode: Mode) | Request(mode: Mode)

  datatype PermissionCheck = PermissionCheck(granted: bool, calls: seq<PermissionCall>)

  /** `verifyPermission(handle, readWrite)`: `query` is what
      `queryPermission` answers and `request` what `requestPermission`
      would answer. */
  function VerifyPermission(readWrite: bool, query: PermissionState, request: PermissionState): (c: PermissionCheck)
    ensures query == Granted ==> c.granted && |c.calls| == 1
    ensures query != Granted ==> |c.calls| == 2 && c.calls[1].Request? && (c.granted <==> request == Granted)
    ensures 1 <= |c.calls| && c.calls[0].Query?
    ensures forall i :: 0 <= i < |c.calls| ==> (c.calls[i].mode == ReadWrite <==> readWrite)
  {
    var mode := if readWrite then ReadWrite else ReadOnly;
    if query == Granted then PermissionCheck(true, [Query(mode)])
    else if request == Granted then PermissionCheck(true, [Query(mode), Request(mode)])
    else PermissionCheck(false, [Query(mode), Request(mode)])
  }

  /** The user is prompted (a request is made) exactly when the query does
      not already grant, and permission holds when either step grants. */
  lemma PermissionLadder(readWrite: bool, query: PermissionState, request: PermissionState)
    ensures var c := VerifyPermission(readWrite, query, request);
            && (c.granted <==> query == Granted || request == Granted)
            && ((exists i :: 0 <= i < |c.calls| && c.calls[i].Request?) <==> query != Granted)
  {
    var c := VerifyPermission(readWrite, query, request);
    if query != Granted {
      assert c.calls[1].Request?;
    }
  }

  /** `restoreHandle()`: false when nothing is stored under `default`;
      otherwise the stored handle becomes the held one (even if permission
      is then refused) and the answer is the permission check's. */
  function RestoreHandle(fs: FsState, db: IndexedDb.Db, query: PermissionState, request: PermissionState): (r: (FsState, bool))
    ensures IndexedDb.GetHandle(db, DefaultKey).None? ==> r == (fs, false)
    ensures IndexedDb.GetHandle(db, DefaultKey).Some? ==>
              && r.0.directory == Some(IndexedDb.GetHandle(db, DefaultKey).value.handle)
              && (r.1 <==> query == Granted || request == Granted)
  {
    match IndexedDb.GetHandle(db, DefaultKey)
    case None => (fs, false)
    case Some(record) => (FsState(Some(record.handle)), VerifyPermission(true, query, request).granted)
  }

  /** A file in a directory. */
  datatype FileKey = FileKey(directory: DirectoryHandle, name: string)

  /** The files on disk, as far as the extension writes them. */
  type Disk = map<FileKey, seq<Byte>>

  /** Where `writeFile` can be rejected: by `getFileHandle`, before the
      entry exists, or by `createWritable`, `write` or `close`, after
      `getFileHandle(name, {create: true})` has already created it. */
  datatype WriteFailure = OpenRejected(message: string) | StreamRejected(message: string)

  /** The disk after a write attempt, and the attempt's error, if any. */
  datatype WriteRun = WriteRun(disk: Disk, error: Option<string>)

  /** What `getFileHandle(name, {create: true})` leaves behind: a new,
      empty file, or the existing one as it was. */
  function Created(disk: Disk, file: FileKey): (c: Disk)
    ensures file in c
    ensures file in disk ==> c == disk
    ensures file !in disk ==> c == disk[file := []]
  {
    if file in disk then disk else disk[file := []]
  }

  /** `writeFile(name, blob)`. `failure` is the rejection of one of the
      four awaited calls, if any; a rejection after the file handle was
      obtained leaves the created (possibly empty) file in place. */
  function WriteFile(fs: FsState, disk: Disk, name: string, blob: Blob, failure: Option<WriteFailure>): (r: WriteRun)
    ensures fs.directory.None? ==> r == WriteRun(disk, Some(NoDirectory))
    ensures fs.directory.Some? && failure.Some? ==> r.error == Some(failure.value.message)
    ensures r.error.None? <==> fs.directory.Some? && failure.None?
    ensures failure.Some? && failure.value.OpenRejected? ==> r.disk == disk
    ensures fs.directory.Some? && failure.Some? && failure.value.StreamRejected? ==>
              r.disk == Created(disk, FileKey(fs.directory.value, name))
    ensures r.error.None? ==> r.disk == disk[FileKey(fs.directory.value, name) := blob.bytes]
  {
    match fs.directory
    case None => WriteRun(disk, Some(NoDirectory))
    case Some(dir) =>
      var file := FileKey(dir, name);
      match failure
      case Some(OpenRejected(message)) => WriteRun(disk, Some(message))
      case Some(StreamRejected(message)) => WriteRun(Created(disk, file), Some(message))
      case None => WriteRun(disk[file := blob.bytes], None)
  }

  /** Whatever happens, a write touches no file but the one it names: every
      other file keeps its presence and its bytes. */
  lemma WriteTouchesOneFile(fs: FsState, disk: Disk, name: string, blob: Blob, failure: Option<WriteFailure>)
    requires fs.directory.Some?
    ensures var r := WriteFile(fs, disk, name, blob, failure);
            var file := FileKey(fs.directory.value, name);
            && (forall k :: k != file ==> (k in r.disk <==> k in disk))
            && (forall k :: k in disk && k != file ==> r.disk[k] == disk[k])
            && (file in r.disk ==> r.disk[file] == blob.bytes || r.disk[file] == [] || (file in disk && r.disk[file] == disk[file]))
  {
  }

  /** A write into a fresh name that fails after the handle was obtained
      leaves a zero-byte file of that name; a failure before it leaves the
      disk as it was. */
  lemma FailedWriteLeavesEmptyFile(dir: DirectoryHandle, disk: Disk, name: string, blob: Blob, message: string)
    requires FileKey(dir, name) !in disk
    ensures var r := WriteFile(FsState(Some(dir)), disk, name, blob, Some(StreamRejected(message)));
            && r.error == Some(message)
            && FileKey(dir, name) in r.disk && r.disk[FileKey(dir, name)] == []
            && r.disk.Keys == disk.Keys + {FileKey(dir, name)}
    ensures WriteFile(FsState(Some(dir)), disk, name, blob, Some(OpenRejected(message))) == WriteRun(disk, Some(message))
  {
  }

  /** `isReady`. */
  function IsReady(fs: FsState): bool {
    fs.directory.Some?
  }

  /** A write succeeds only when the helper is ready; and after a restore
      that finds a stored handle the helper is ready even if permission was
      refused. */
  lemma ReadyAndWrites(fs: FsState, db: IndexedDb.Db, disk: Disk, name: string, blob: Blob, query: PermissionState, request: PermissionState)
    ensures WriteFile(fs, disk, name, blob, None).error.None? <==> IsReady(fs)
    ensures IndexedDb.GetHandle(db, DefaultKey).Some? ==> IsReady(RestoreHandle(fs, db, query, request).0)
  {
  }
}
