/** The service worker (src/sw.ts): message dispatch, the capture handler
    that stores a screenshot in the legacy database, on disk when a
    directory is available, and in the metadata index; the sequential batch
    loop; and the auto-capture on bookmark creation. Every browser call is
    an input describing what that call does. */
module ServiceWorker {
  import opened Base
  import opened Text
  import opened Blobs
  import IndexedDb
  import StorageIndex
  import FsAccess
  import Capture

  /** The width every capture is resized to. */
  const CaptureWidth: nat := 600
  /** The fallback that ends the wait for a tab to load. */
  const LoadTimeoutMs: nat := 15000
  /** The pause after loading, for rendering. */
  const RenderSettleMs: nat := 2000
  /** The pause after activating the tab. */
  const SwitchSettleMs: nat := 500
  /** The longest sanitised title kept in a filename. */
  const StemLimit: nat := 50
  const NoActiveTab: string := "No active tab found"
  const UntitledStem: string := "untitled"
  const UntitledTitle: string := "Untitled"
  const FileExtension: string := ".webp"
  const LoadComplete: string := "complete"

  // ---------------------------------------------------------------------
  // Filenames

  /** One character of `replace(/[^a-z0-9]/gi, '_')`. */
  function SanitizeChar(c: char): (d: char)
    ensures IsAsciiAlnum(d) || d == '_'
    ensures IsAsciiAlnum(c) ==> d == c
    ensures !IsAsciiAlnum(c) ==> d == '_'
  {
    if IsAsciiAlnum(c) then c else '_'
  }

  /** The whole replacement: one character out for each character in. */
  function Sanitize(s: string): (r: string)
    ensures |r| == |s|
    decreases |s|
  {
    if |s| == 0 then [] else [SanitizeChar(s[0])] + Sanitize(s[1..])
  }

  /** The replacement works character by character. */
  lemma {:induction false} SanitizePointwise(s: string)
    ensures forall i :: 0 <= i < |s| ==> Sanitize(s)[i] == SanitizeChar(s[i])
    decreases |s|
  {
    if |s| > 0 {
      SanitizePointwise(s[1..]);
      assert forall i :: 1 <= i < |s| ==> Sanitize(s)[i] == Sanitize(s[1..])[i - 1];
    }
  }

  /** A character a filename stem may hold. */
  predicate StemChar(c: char) {
    IsAsciiAlnum(c) || c == '_'
  }

  /** `tab.title?.replace(...).substring(0, 50) || 'untitled'`: an absent
      title and an empty one both give `untitled`. */
  function FileStem(title: Option<string>): (stem: string)
    ensures 1 <= |stem| <= StemLimit
    ensures forall i :: 0 <= i < |stem| ==> StemChar(stem[i])
    ensures title.None? || title.value == "" ==> stem == UntitledStem
    ensures title.Some? && title.value != "" ==>
              |stem| == if |title.value| < StemLimit then |title.value| else StemLimit
    ensures title.Some? ==> forall i :: 0 <= i < |stem| && i < |title.value| ==> stem[i] == SanitizeChar(title.value[i])
  {
    if title.None? then UntitledStem
    else
      var clean := Sanitize(title.value);
      SanitizePointwise(title.value);
      var cut := if |clean| < StemLimit then clean else clean[..StemLimit];
      if cut == "" then UntitledStem
      else
        cut
  }

  /** The on-disk filename: stem, `_`, the timestamp, `.webp`. */
  function CaptureFilename(title: Option<string>, now: nat): string {
    FileStem(title) + "_" + Decimal(now) + FileExtension
  }

  /** Reading the timestamp back out of a filename: the digits between the
      last `_` and the `.webp` extension. */
  function TimestampOf(name: string): Option<nat> {
    if |name| < |FileExtension| || name[|name| - |FileExtension|..] != FileExtension then None
    else
      var body := name[..|name| - |FileExtension|];
      match LastIndexOf(body, '_')
      case None => None
      case Some(p) =>
        var digits := body[p + 1..];
        if digits != "" && AllDigits(digits) then Some(ParseDecimal(digits)) else None
  }

  /** A filename consists of stem characters followed by the extension. */
  lemma FilenameCharacters(title: Option<string>, now: nat)
    ensures var name := CaptureFilename(title, now);
            && |FileExtension| < |name|
            && name[|name| - |FileExtension|..] == FileExtension
            && forall i :: 0 <= i < |name| - |FileExtension| ==> StemChar(name[i])
  {
    var stem := FileStem(title);
    var d := Decimal(now);
    var name := CaptureFilename(title, now);
    assert name == stem + "_" + d + FileExtension;
    forall i | 0 <= i < |name| - |FileExtension|
      ensures StemChar(name[i])
    {
      if i < |stem| {
        assert name[i] == stem[i];
      } else if i == |stem| {
        assert name[i] == '_';
      } else {
        assert name[i] == d[i - |stem| - 1];
      }
    }
  }

  /** The timestamp is recoverable from the filename, whatever the title. */
  lemma TimestampRoundTrip(title: Option<string>, now: nat)
    ensures TimestampOf(CaptureFilename(title, now)) == Some(now)
  {
    var stem := FileStem(title);
    var d := Decimal(now);
    var name := CaptureFilename(title, now);
    var body := stem + "_" + d;
    assert name == body + FileExtension;
    assert name[|name| - |FileExtension|..] == FileExtension;
    assert name[..|name| - |FileExtension|] == body;
    assert body[|stem|] == '_';
    assert forall j :: |stem| < j < |body| ==> body[j] == d[j - |stem| - 1];
    var p := LastIndexOf(body, '_');
    assert p.Some?;
    assert p.value == |stem|;
    assert body[p.value + 1..] == d;
    ParseDecimalOfDecimal(now);
  }

  /** Two captures of the same page at different times write different
      files. */
  lemma FilenamesDistinct(title: Option<string>, t1: nat, t2: nat)
    requires t1 != t2
    ensures CaptureFilename(title, t1) != CaptureFilename(title, t2)
  {
    TimestampRoundTrip(title, t1);
    TimestampRoundTrip(title, t2);
  }

  // ---------------------------------------------------------------------
  // The capture handler

  /** The active tab of the current window, as `chrome.tabs.query` reports it. */
  datatype ActiveTab = ActiveTab(id: Option<int>, url: Option<string>, title: Option<string>)

  /** JavaScript truthiness of a tab id: present and non-zero. */
  predicate IdTruthy(id: Option<int>) {
    id.Some? && id.value != 0
  }

  /** `tab && tab.id && tab.url`. */
  predicate UsableTab(tab: Option<ActiveTab>) {
    tab.Some? && IdTruthy(tab.value.id) && tab.value.url.Some? && tab.value.url.value != ""
  }

  /** What each call made by `handleCapture` does. `decoded`, `contextOk`
      and `encoded` drive the resize; `thumbnailFailure` and
      `metadataFailure` are rejections of the two writes; `handleReadable`
      is false when reading the stored directory handle throws;
      `permissionFailure` is true when the permission call throws, after the
      restored handle was already taken; `query` and `request` answer the
      permission calls; `fileFailure` is a rejection of the file write; the
      three times are the readings of `Date.now()`. */
  datatype HandleEnv = HandleEnv(
    shot: Capture.VisibleShot,
    decoded: Result<Capture.Image>,
    contextOk: bool,
    encoded: Result<seq<Byte>>,
    activeTab: Option<ActiveTab>,
    thumbnailFailure: Option<string>,
    handleReadable: bool,
    permissionFailure: bool,
    query: FsAccess.PermissionState,
    request: FsAccess.PermissionState,
    fileFailure: Option<FsAccess.WriteFailure>,
    metadataFailure: Option<string>,
    thumbnailAt: nat,
    fileAt: nat,
    metadataAt: nat)

  /** Everything the worker's writes can reach. */
  datatype World = World(
    legacy: IndexedDb.Db,
    area: StorageIndex.Area,
    fs: FsAccess.FsState,
    disk: FsAccess.Disk)

  /** One completed write, in the order the handler performs them. */
  datatype Write = ThumbnailWrite(id: string) | FileWrite(name: string) | MetadataWrite(id: string)

  /** The value `handleCapture` resolves with. */
  datatype CaptureReply = CaptureReply(success: bool, id: string, dataUrl: string)

  datatype HandleRun = HandleRun(world: World, writes: seq<Write>, result: Result<CaptureReply>)

  /** The disk step's effect: the helper's state, the disk, the status it
      leads to, and the file written, if any. */
  datatype DiskOutcome = DiskOutcome(fs: FsAccess.FsState, disk: FsAccess.Disk, status: StorageIndex.ThumbnailStatus, writes: seq<Write>)

  /** The file write is attempted when a stored handle is read and
      permission is granted without the permission call throwing. */
  predicate WriteAttempted(db: IndexedDb.Db, env: HandleEnv) {
    && env.handleReadable
    && IndexedDb.GetHandle(db, FsAccess.DefaultKey).Some?
    && !env.permissionFailure
    && (env.query == FsAccess.Granted || env.request == FsAccess.Granted)
  }

  /** The disk tier is reached when the file write is attempted and goes
      through. */
  predicate DiskReachable(db: IndexedDb.Db, env: HandleEnv) {
    WriteAttempted(db, env) && env.fileFailure.None?
  }

  /** The file named `name` in the directory stored under the default key. */
  function StoredDirectoryFile(db: IndexedDb.Db, name: string): FsAccess.FileKey
    requires IndexedDb.GetHandle(db, FsAccess.DefaultKey).Some?
  {
    FsAccess.FileKey(IndexedDb.GetHandle(db, FsAccess.DefaultKey).value.handle, name)
  }

  /** The guarded disk step of `handleCapture`: every failure in it is
      caught and leaves the status at `saved_indexeddb`. The helper keeps
      the restored handle once it is read, even when the permission call
      then throws; a write rejected after the file handle was obtained
      leaves the created file behind. `name` is the filename the handler
      builds from the tab's title and the clock. */
  function SaveToDisk(fs: FsAccess.FsState, db: IndexedDb.Db, disk: FsAccess.Disk, env: HandleEnv, name: string, blob: Blob): (o: DiskOutcome)
    ensures o.status == StorageIndex.SavedDisk <==> DiskReachable(db, env)
    ensures o.status != StorageIndex.SavedDisk ==> o.status == StorageIndex.SavedIndexedDb && o.writes == []
    ensures !env.handleReadable || IndexedDb.GetHandle(db, FsAccess.DefaultKey).None? ==> o.fs == fs
    ensures env.handleReadable && IndexedDb.GetHandle(db, FsAccess.DefaultKey).Some? ==>
              o.fs.directory == Some(IndexedDb.GetHandle(db, FsAccess.DefaultKey).value.handle)
    ensures !WriteAttempted(db, env) ==> o.disk == disk
    ensures WriteAttempted(db, env) && env.fileFailure.Some? && env.fileFailure.value.OpenRejected? ==> o.disk == disk
    ensures WriteAttempted(db, env) && env.fileFailure.Some? && env.fileFailure.value.StreamRejected? ==>
              o.disk == FsAccess.Created(disk, StoredDirectoryFile(db, name))
    ensures o.status == StorageIndex.SavedDisk ==>
              var file := StoredDirectoryFile(db, name);
              && o.writes == [FileWrite(name)]
              && o.disk == disk[file := blob.bytes]
  {
    if !env.handleReadable then DiskOutcome(fs, disk, StorageIndex.SavedIndexedDb, [])
    else
      var (fs', hasHandle) := FsAccess.RestoreHandle(fs, db, env.query, env.request);
      if IndexedDb.GetHandle(db, FsAccess.DefaultKey).Some? && env.permissionFailure then
        DiskOutcome(fs', disk, StorageIndex.SavedIndexedDb, [])
      else if !hasHandle then DiskOutcome(fs', disk, StorageIndex.SavedIndexedDb, [])
      else
        var run := FsAccess.WriteFile(fs', disk, name, blob, env.fileFailure);
        if run.error.None? then DiskOutcome(fs', run.disk, StorageIndex.SavedDisk, [FileWrite(name)])
        else DiskOutcome(fs', run.disk, StorageIndex.SavedIndexedDb, [])
  }

  /** The metadata record the handler writes for a tab. */
  function MetadataFor(tab: ActiveTab, status: StorageIndex.ThumbnailStatus, at: nat): (m: StorageIndex.MetadataRecord)
    requires tab.url.Some?
    ensures m.id == tab.url.value && m.url == tab.url.value
    ensures m.title.Some? && m.title.value != ""
    ensures tab.title.Some? && tab.title.value != "" ==> m.title == tab.title
    ensures tab.title.None? || tab.title.value == "" ==> m.title == Some(UntitledTitle)
    ensures m.status == status && m.lastCaptureAt == Some(at) && m.error.None?
  {
    var title := if tab.title.Some? && tab.title.value != "" then tab.title.value else UntitledTitle;
    StorageIndex.MetadataRecord(tab.url.value, tab.url.value, Some(title), status, Some(at), None)
  }

  /** The resize step the worker runs (`OffscreenCanvas` is present there). */
  function Resized(env: HandleEnv): Result<Capture.CaptureResult> {
    Capture.ResizeOffscreen(CaptureWidth, env.decoded, env.contextOk, env.encoded)
  }

  /** The screenshot and the resize both succeed. */
  predicate Shot(env: HandleEnv) {
    Capture.CaptureVisibleTab(env.shot).Success? && Resized(env).Success?
  }

  /** The legacy record the handler stores for a page: keyed by its URL,
      holding the resized webp image. */
  function CapturedThumbnail(id: string, res: Capture.CaptureResult, at: nat): IndexedDb.ThumbnailRecord {
    IndexedDb.ThumbnailRecord(id, id, Capture.WebpMime, Some(res.blob), at, res.width, res.height, res.sizeBytes, None)
  }

  /** The writes of `handleCapture` once the shot is resized and the tab
      is usable: the thumbnail, the guarded disk step, then the metadata. */
  function StoreCapture(w: World, env: HandleEnv, tab: ActiveTab, res: Capture.CaptureResult): (run: HandleRun)
    requires UsableTab(Some(tab))
    ensures run.result.Success? <==> env.thumbnailFailure.None? && env.metadataFailure.None?
    ensures env.thumbnailFailure.Some? ==> run.writes == [] && run.world == w && run.result == Failure(env.thumbnailFailure.value)
    ensures env.thumbnailFailure.None? && env.metadataFailure.Some? ==>
              var d := SaveToDisk(w.fs, IndexedDb.PutThumbnail(w.legacy, CapturedThumbnail(tab.url.value, res, env.thumbnailAt)), w.disk, env, CaptureFilename(tab.title, env.fileAt), res.blob);
              && run.result == Failure(env.metadataFailure.value)
              && IndexedDb.GetThumbnail(run.world.legacy, tab.url.value) == Some(CapturedThumbnail(tab.url.value, res, env.thumbnailAt))
              && run.world.area == w.area
              && run.world.fs == d.fs && run.world.disk == d.disk
    ensures |run.writes| > 0 ==> run.writes[0] == ThumbnailWrite(tab.url.value)
    ensures forall j :: 0 <= j < |run.writes| && run.writes[j].MetadataWrite? ==> 0 < j == |run.writes| - 1
    ensures run.result.Success? ==>
              && 2 <= |run.writes| && run.writes[|run.writes| - 1] == MetadataWrite(tab.url.value)
              && run.result.value == CaptureReply(true, tab.url.value, res.dataUrl)
  {
    var id := tab.url.value;
    var thumb := CapturedThumbnail(id, res, env.thumbnailAt);
    if env.thumbnailFailure.Some? then HandleRun(w, [], Failure(env.thumbnailFailure.value))
    else
      var legacy := IndexedDb.PutThumbnail(w.legacy, thumb);
      var disk := SaveToDisk(w.fs, legacy, w.disk, env, CaptureFilename(tab.title, env.fileAt), res.blob);
      var written := [ThumbnailWrite(id)] + disk.writes;
      assert forall j :: 0 <= j < |written| ==> !written[j].MetadataWrite?;
      if env.metadataFailure.Some? then
        HandleRun(World(legacy, w.area, disk.fs, disk.disk), written, Failure(env.metadataFailure.value))
      else
        var meta := MetadataFor(tab, disk.status, env.metadataAt);
        HandleRun(
          World(legacy, StorageIndex.Set(w.area, meta), disk.fs, disk.disk),
          written + [MetadataWrite(id)],
          Success(CaptureReply(true, id, res.dataUrl)))
  }

  /** `handleCapture()`. */
  function HandleCapture(w: World, env: HandleEnv): (run: HandleRun)
    ensures run.result.Success? <==> Shot(env) && UsableTab(env.activeTab) && env.thumbnailFailure.None? && env.metadataFailure.None?
    ensures !Shot(env) || !UsableTab(env.activeTab) || env.thumbnailFailure.Some? ==> run.writes == [] && run.world == w
    ensures Capture.CaptureVisibleTab(env.shot).Failure? ==> run.result == Failure(Capture.CaptureVisibleTab(env.shot).error)
    ensures Capture.CaptureVisibleTab(env.shot).Success? && Resized(env).Failure? ==> run.result == Failure(Resized(env).error)
    ensures Shot(env) && !UsableTab(env.activeTab) ==> run.result == Failure(NoActiveTab)
    ensures Shot(env) && UsableTab(env.activeTab) && env.thumbnailFailure.Some? ==> run.result == Failure(env.thumbnailFailure.value)
    ensures Shot(env) && UsableTab(env.activeTab) && env.thumbnailFailure.None? && env.metadataFailure.Some? ==>
              && run.result == Failure(env.metadataFailure.value)
              && IndexedDb.GetThumbnail(run.world.legacy, env.activeTab.value.url.value)
                 == Some(CapturedThumbnail(env.activeTab.value.url.value, Resized(env).value, env.thumbnailAt))
              && run.world.area == w.area
    ensures |run.writes| > 0 ==> run.writes[0] == ThumbnailWrite(env.activeTab.value.url.value)
    ensures forall j :: 0 <= j < |run.writes| && run.writes[j].MetadataWrite? ==> 0 < j == |run.writes| - 1
    ensures run.result.Success? ==> 2 <= |run.writes| && run.writes[|run.writes| - 1] == MetadataWrite(run.result.value.id)
    ensures run.result.Success? ==>
              && run.result.value.success
              && run.result.value.id == env.activeTab.value.url.value
              && run.result.value.dataUrl == Resized(env).value.dataUrl
  {
    match Capture.CaptureVisibleTab(env.shot)
    case Failure(e) => HandleRun(w, [], Failure(e))
    case Success(_) =>
      match Resized(env)
      case Failure(e) => HandleRun(w, [], Failure(e))
      case Success(res) =>
        if !UsableTab(env.activeTab) then HandleRun(w, [], Failure(NoActiveTab))
        else StoreCapture(w, env, env.activeTab.value, res)
  }

  /** A successful run of the handler, step by step: the thumbnail put
      (which leaves the stored directory handle alone), the disk step on the
      database it leaves, then the metadata set with the disk step's status. */
  lemma SuccessfulRun(w: World, env: HandleEnv)
    requires HandleCapture(w, env).result.Success?
    ensures var run := HandleCapture(w, env);
            var id := env.activeTab.value.url.value;
            var res := Resized(env).value;
            var legacy := IndexedDb.PutThumbnail(w.legacy, CapturedThumbnail(id, res, env.thumbnailAt));
            var d := SaveToDisk(w.fs, legacy, w.disk, env, CaptureFilename(env.activeTab.value.title, env.fileAt), res.blob);
            && IndexedDb.GetHandle(legacy, FsAccess.DefaultKey) == IndexedDb.GetHandle(w.legacy, FsAccess.DefaultKey)
            && run.world == World(legacy, StorageIndex.Set(w.area, MetadataFor(env.activeTab.value, d.status, env.metadataAt)), d.fs, d.disk)
            && run.writes == [ThumbnailWrite(id)] + d.writes + [MetadataWrite(id)]
  {
    assert HandleCapture(w, env) == StoreCapture(w, env, env.activeTab.value, Resized(env).value);
  }

  /** A successful capture leaves the resized image in the legacy store
      under the page's URL, and a metadata record under the same URL whose
      status is `saved_disk` exactly when the disk tier was reached, and
      `saved_indexeddb` otherwise: a disk failure never fails the capture. */
  lemma CaptureStored(w: World, env: HandleEnv)
    requires HandleCapture(w, env).result.Success?
    ensures var run := HandleCapture(w, env);
            var id := env.activeTab.value.url.value;
            var res := Resized(env).value;
            && IndexedDb.GetThumbnail(run.world.legacy, id).Some?
            && IndexedDb.GetThumbnail(run.world.legacy, id).value.blob == Some(res.blob)
            && IndexedDb.GetThumbnail(run.world.legacy, id).value.width == CaptureWidth
            && StorageIndex.Get(run.world.area, id).Some?
            && StorageIndex.Get(run.world.area, id).value.MetaEntry?
            && var m := StorageIndex.Get(run.world.area, id).value.meta;
            && m.url == id
            && (m.status == StorageIndex.SavedDisk <==> DiskReachable(w.legacy, env))
            && (m.status == StorageIndex.SavedDisk || m.status == StorageIndex.SavedIndexedDb)
  {
    SuccessfulRun(w, env);
  }

  /** The handler's writes with the disk step's writes in the middle, as
      one list. */
  lemma WritesAround(first: Write, middle: seq<Write>, last: Write)
    ensures |middle| == 0 ==> [first] + middle + [last] == [first, last]
    ensures |middle| == 1 ==> [first] + middle + [last] == [first, middle[0], last]
  {
  }

  /** Status `saved_disk` comes with the file on disk holding the image,
      named from the tab's title and the clock. */
  lemma DiskTierWritesFile(w: World, env: HandleEnv)
    requires HandleCapture(w, env).result.Success?
    requires DiskReachable(w.legacy, env)
    ensures var run := HandleCapture(w, env);
            var name := CaptureFilename(env.activeTab.value.title, env.fileAt);
            var dir := IndexedDb.GetHandle(w.legacy, FsAccess.DefaultKey).value.handle;
            && run.writes == [ThumbnailWrite(env.activeTab.value.url.value), FileWrite(name), MetadataWrite(env.activeTab.value.url.value)]
            && FsAccess.FileKey(dir, name) in run.world.disk
            && run.world.disk[FsAccess.FileKey(dir, name)] == Resized(env).value.blob.bytes
  {
    SuccessfulRun(w, env);
    var name := CaptureFilename(env.activeTab.value.title, env.fileAt);
    WritesAround(ThumbnailWrite(env.activeTab.value.url.value), [FileWrite(name)], MetadataWrite(env.activeTab.value.url.value));
  }

  /** A rejected metadata write fails the capture with its own error, but
      nothing is rolled back: the legacy store keeps the thumbnail, the
      file written on the disk tier stays, and the metadata is untouched. */
  lemma MetadataFailureKeepsWrites(w: World, env: HandleEnv)
    requires Shot(env) && UsableTab(env.activeTab)
    requires env.thumbnailFailure.None? && env.metadataFailure.Some?
    requires DiskReachable(w.legacy, env)
    ensures var run := HandleCapture(w, env);
            var id := env.activeTab.value.url.value;
            var name := CaptureFilename(env.activeTab.value.title, env.fileAt);
            var file := StoredDirectoryFile(w.legacy, name);
            && run.result == Failure(env.metadataFailure.value)
            && IndexedDb.GetThumbnail(run.world.legacy, id).Some?
            && run.world.area == w.area
            && file in run.world.disk && run.world.disk[file] == Resized(env).value.blob.bytes
  {
    var res := Resized(env).value;
    var tab := env.activeTab.value;
    var legacy := IndexedDb.PutThumbnail(w.legacy, CapturedThumbnail(tab.url.value, res, env.thumbnailAt));
    assert HandleCapture(w, env) == StoreCapture(w, env, tab, res);
    assert DiskReachable(legacy, env);
    assert StoredDirectoryFile(legacy, CaptureFilename(tab.title, env.fileAt)) == StoredDirectoryFile(w.legacy, CaptureFilename(tab.title, env.fileAt));
  }

  /** A file write rejected after the file handle was obtained does not
      fail the capture: the metadata says `saved_indexeddb`, and a new
      file name is left on disk as an empty file. */
  lemma StreamFailureLeavesEmptyFile(w: World, env: HandleEnv)
    requires HandleCapture(w, env).result.Success?
    requires WriteAttempted(w.legacy, env) && env.fileFailure.Some? && env.fileFailure.value.StreamRejected?
    requires StoredDirectoryFile(w.legacy, CaptureFilename(env.activeTab.value.title, env.fileAt)) !in w.disk
    ensures var run := HandleCapture(w, env);
            var id := env.activeTab.value.url.value;
            var file := StoredDirectoryFile(w.legacy, CaptureFilename(env.activeTab.value.title, env.fileAt));
            && file in run.world.disk && run.world.disk[file] == []
            && run.writes == [ThumbnailWrite(id), MetadataWrite(id)]
            && StorageIndex.Get(run.world.area, id).Some?
            && StorageIndex.Get(run.world.area, id).value.MetaEntry?
            && StorageIndex.Get(run.world.area, id).value.meta.status == StorageIndex.SavedIndexedDb
  {
    SuccessfulRun(w, env);
    var res := Resized(env).value;
    var legacy := IndexedDb.PutThumbnail(w.legacy, CapturedThumbnail(env.activeTab.value.url.value, res, env.thumbnailAt));
    assert StoredDirectoryFile(legacy, CaptureFilename(env.activeTab.value.title, env.fileAt)) == StoredDirectoryFile(w.legacy, CaptureFilename(env.activeTab.value.title, env.fileAt));
    WritesAround(ThumbnailWrite(env.activeTab.value.url.value), [], MetadataWrite(env.activeTab.value.url.value));
  }

  // ---------------------------------------------------------------------
  // The batch loop

  /** One `chrome.tabs.onUpdated` event. */
  datatype TabUpdate = TabUpdate(tabId: int, status: Option<string>)

  predicate Completes(tabId: int, u: TabUpdate) {
    u.tabId == tabId && u.status == Some(LoadComplete)
  }

  /** How the wait for a tab to load ends: at the first completing update,
      or when the fallback timer fires. */
  datatype LoadWait = LoadCompleted(at: nat) | LoadTimedOut(ms: nat)

  /** The load wait, given the updates that arrive before the 15 s timer
      fires. It always resolves and never rejects. */
  function AwaitLoad(tabId: int, updates: seq<TabUpdate>): (r: LoadWait)
    ensures r.LoadCompleted? ==> r.at < |updates| && Completes(tabId, updates[r.at])
    ensures r.LoadCompleted? ==> forall j :: 0 <= j < r.at ==> !Completes(tabId, updates[j])
    ensures r.LoadTimedOut? ==> r.ms == LoadTimeoutMs && forall j :: 0 <= j < |updates| ==> !Completes(tabId, updates[j])
    decreases |updates|
  {
    if |updates| == 0 then LoadTimedOut(LoadTimeoutMs)
    else if Completes(tabId, updates[0]) then LoadCompleted(0)
    else match AwaitLoad(tabId, updates[1..])
      case LoadCompleted(k) => LoadCompleted(k + 1)
      case LoadTimedOut(ms) => LoadTimedOut(ms)
  }

  /** What `chrome.tabs.create` does: reject, or give a tab whose id may be
      missing (`None` also stands for a null tab). */
  datatype TabCreation = CreateRejected(message: string) | Created(id: Option<int>)

  /** What each call made for one URL does. */
  datatype UrlScript = UrlScript(
    creation: TabCreation,
    updates: seq<TabUpdate>,
    activateFailure: Option<string>,
    capture: HandleEnv,
    closeFailure: Option<string>)

  /** How one URL ends; every failure is caught by the loop. */
  datatype UrlOutcome =
    | CreateFailed(message: string)
    | Skipped
    | ActivateFailed(tabId: int, message: string)
    | CaptureFailed(tabId: int, message: string)
    | CloseFailed(tabId: int, message: string)
    | Captured(tabId: int)

  /** The calls made, in order. */
  datatype Step =
    | CreateTab(url: string)
    | WaitForLoad(wait: LoadWait)
    | Sleep(ms: nat)
    | ActivateTab(tabId: int)
    | RunCapture
    | CloseTab(tabId: int)

  datatype UrlRun = UrlRun(world: World, outcome: UrlOutcome, steps: seq<Step>)

  /** The URL's capture ran (whatever its result). */
  predicate CaptureRan(o: UrlOutcome) {
    o.CaptureFailed? || o.CloseFailed? || o.Captured?
  }

  /** A tab the loop created and did not close. */
  predicate LeftOpen(o: UrlOutcome) {
    o.ActivateFailed? || o.CaptureFailed? || o.CloseFailed?
  }

  /** The calls up to and including the activation of the new tab. */
  function Opened(url: string, tabId: int, updates: seq<TabUpdate>): seq<Step> {
    [CreateTab(url), WaitForLoad(AwaitLoad(tabId, updates)), Sleep(RenderSettleMs), ActivateTab(tabId)]
  }

  /** The calls made for one URL, as determined by how it ended. */
  function StepsOf(url: string, o: UrlOutcome, updates: seq<TabUpdate>): seq<Step> {
    match o
    case CreateFailed(_) => [CreateTab(url)]
    case Skipped => [CreateTab(url)]
    case ActivateFailed(t, _) => Opened(url, t, updates)
    case CaptureFailed(t, _) => Opened(url, t, updates) + [Sleep(SwitchSettleMs), RunCapture]
    case CloseFailed(t, _) => Opened(url, t, updates) + [Sleep(SwitchSettleMs), RunCapture, CloseTab(t)]
    case Captured(t) => Opened(url, t, updates) + [Sleep(SwitchSettleMs), RunCapture, CloseTab(t)]
  }

  /** One iteration of the loop body, with its try/catch. */
  function ProcessUrl(w: World, url: string, s: UrlScript): (r: UrlRun)
    ensures r.steps == StepsOf(url, r.outcome, s.updates)
    ensures s.creation.CreateRejected? ==> r.outcome == CreateFailed(s.creation.message)
    ensures s.creation.Created? && !IdTruthy(s.creation.id) ==> r.outcome == Skipped
    ensures r.outcome.ActivateFailed? || CaptureRan(r.outcome) ==>
              s.creation.Created? && IdTruthy(s.creation.id) && r.outcome.tabId == s.creation.id.value
    ensures r.outcome.ActivateFailed? <==> s.creation.Created? && IdTruthy(s.creation.id) && s.activateFailure.Some?
    ensures CaptureRan(r.outcome) ==> r.world == HandleCapture(w, s.capture).world
    ensures !CaptureRan(r.outcome) ==> r.world == w
    ensures r.outcome.CaptureFailed? ==> HandleCapture(w, s.capture).result.Failure?
    ensures r.outcome.Captured? || r.outcome.CloseFailed? ==> HandleCapture(w, s.capture).result.Success?
    ensures r.outcome.Captured? <==> s.creation.Created? && IdTruthy(s.creation.id) && s.activateFailure.None?
                                     && HandleCapture(w, s.capture).result.Success? && s.closeFailure.None?
  {
    match s.creation
    case CreateRejected(m) => UrlRun(w, CreateFailed(m), [CreateTab(url)])
    case Created(id) =>
      if !IdTruthy(id) then UrlRun(w, Skipped, [CreateTab(url)])
      else
        var tabId := id.value;
        var started := Opened(url, tabId, s.updates);
        if s.activateFailure.Some? then UrlRun(w, ActivateFailed(tabId, s.activateFailure.value), started)
        else CaptureAndClose(url, tabId, HandleCapture(w, s.capture), s)
  }

  /** The rest of an iteration once the new tab is active, given the
      capture handler's run: the capture, and the close when the capture
      succeeded. */
  function CaptureAndClose(url: string, tabId: int, run: HandleRun, s: UrlScript): (r: UrlRun)
    ensures CaptureRan(r.outcome) && r.outcome.tabId == tabId
    ensures r.steps == StepsOf(url, r.outcome, s.updates)
    ensures r.world == run.world
    ensures r.outcome.CaptureFailed? <==> run.result.Failure?
    ensures r.outcome.Captured? <==> run.result.Success? && s.closeFailure.None?
  {
    var captured := Opened(url, tabId, s.updates) + [Sleep(SwitchSettleMs), RunCapture];
    if run.result.Failure? then UrlRun(run.world, CaptureFailed(tabId, run.result.error), captured)
    else if s.closeFailure.Some? then UrlRun(run.world, CloseFailed(tabId, s.closeFailure.value), captured + [CloseTab(tabId)])
    else UrlRun(run.world, Captured(tabId), captured + [CloseTab(tabId)])
  }

  /** A close call comes right after the capture, and only in the outcomes
      where the capture succeeded. */
  lemma StepsOfCloses(url: string, o: UrlOutcome, updates: seq<TabUpdate>)
    ensures var steps := StepsOf(url, o, updates);
            forall i :: 0 <= i < |steps| && steps[i].CloseTab? ==>
              (o.Captured? || o.CloseFailed?) && 0 < i && steps[i - 1] == RunCapture
  {
    var steps := StepsOf(url, o, updates);
    if o.Captured? || o.CloseFailed? || o.CaptureFailed? {
      var captured := Opened(url, o.tabId, updates) + [Sleep(SwitchSettleMs), RunCapture];
      assert |captured| == 6 && captured[5] == RunCapture;
      assert forall i :: 0 <= i < 6 ==> !captured[i].CloseTab?;
    } else if o.ActivateFailed? {
      assert forall i :: 0 <= i < |steps| ==> !steps[i].CloseTab?;
    }
  }

  /** A tab is closed only after its capture succeeded: when the capture
      fails the tab is left open and no close is attempted. */
  lemma CloseOnlyAfterCapture(w: World, url: string, s: UrlScript)
    ensures var r := ProcessUrl(w, url, s);
            && (forall i :: 0 <= i < |r.steps| && r.steps[i].CloseTab? ==>
                  HandleCapture(w, s.capture).result.Success? && 0 < i && r.steps[i - 1] == RunCapture)
            && (HandleCapture(w, s.capture).result.Failure? ==> forall i :: 0 <= i < |r.steps| ==> !r.steps[i].CloseTab?)
  {
    var r := ProcessUrl(w, url, s);
    StepsOfCloses(url, r.outcome, s.updates);
  }

  /** The URLs whose tabs the calls create, in call order. */
  function Creations(steps: seq<Step>): seq<string>
    decreases |steps|
  {
    if |steps| == 0 then []
    else (if steps[0].CreateTab? then [steps[0].url] else []) + Creations(steps[1..])
  }

  lemma {:induction false} CreationsAppend(a: seq<Step>, b: seq<Step>)
    ensures Creations(a + b) == Creations(a) + Creations(b)
    decreases |a|
  {
    if |a| > 0 {
      assert (a + b)[0] == a[0];
      assert (a + b)[1..] == a[1..] + b;
      CreationsAppend(a[1..], b);
    } else {
      assert a + b == b;
    }
  }

  lemma {:induction false} CreationsNone(steps: seq<Step>)
    requires forall i :: 0 <= i < |steps| ==> !steps[i].CreateTab?
    ensures Creations(steps) == []
    decreases |steps|
  {
    if |steps| > 0 {
      CreationsNone(steps[1..]);
    }
  }

  /** The calls made for one URL open one tab, and it is the first call. */
  lemma StepsOfShape(url: string, o: UrlOutcome, updates: seq<TabUpdate>)
    ensures var steps := StepsOf(url, o, updates);
            && 1 <= |steps| && steps[0] == CreateTab(url)
            && forall i :: 1 <= i < |steps| ==> !steps[i].CreateTab?
  {
    if !o.CreateFailed? && !o.Skipped? {
      var started := Opened(url, o.tabId, updates);
      assert forall i :: 1 <= i < |started| ==> !started[i].CreateTab?;
    }
  }

  /** Each URL's calls create exactly one tab, for that URL. */
  lemma ProcessUrlCreatesOne(w: World, url: string, s: UrlScript)
    ensures Creations(ProcessUrl(w, url, s).steps) == [url]
  {
    var r := ProcessUrl(w, url, s);
    StepsOfShape(url, r.outcome, s.updates);
    CreationsNone(r.steps[1..]);
  }

  datatype BatchRun = BatchRun(world: World, outcomes: seq<UrlOutcome>, steps: seq<Step>)

  /** The reference semantics of `processBatchCapture`: each URL in turn on
      the world the previous one left. `scripts[i]` describes the calls made
      for `urls[i]`. */
  function RunBatch(w: World, urls: seq<string>, scripts: seq<UrlScript>): (b: BatchRun)
    requires |urls| == |scripts|
    ensures |b.outcomes| == |urls|
    decreases |urls|
  {
    if |urls| == 0 then BatchRun(w, [], [])
    else
      var first := ProcessUrl(w, urls[0], scripts[0]);
      var rest := RunBatch(first.world, urls[1..], scripts[1..]);
      BatchRun(rest.world, [first.outcome] + rest.outcomes, first.steps + rest.steps)
  }

  /** The batch visits the URLs strictly in list order, opening one tab
      each; a failure for one URL does not stop the later ones. */
  lemma {:induction false} BatchInOrder(w: World, urls: seq<string>, scripts: seq<UrlScript>)
    requires |urls| == |scripts|
    ensures Creations(RunBatch(w, urls, scripts).steps) == urls
    decreases |urls|
  {
    if |urls| > 0 {
      var first := ProcessUrl(w, urls[0], scripts[0]);
      ProcessUrlCreatesOne(w, urls[0], scripts[0]);
      BatchInOrder(first.world, urls[1..], scripts[1..]);
      CreationsAppend(first.steps, RunBatch(first.world, urls[1..], scripts[1..]).steps);
      assert urls == [urls[0]] + urls[1..];
    }
  }

  /** Running the batch from position `i` is running URL `i`, then the
      batch from `i + 1`. */
  lemma RunBatchFrom(w: World, urls: seq<string>, scripts: seq<UrlScript>, i: nat)
    requires |urls| == |scripts| && i < |urls|
    ensures var one := ProcessUrl(w, urls[i], scripts[i]);
            var rest := RunBatch(one.world, urls[i + 1..], scripts[i + 1..]);
            RunBatch(w, urls[i..], scripts[i..]) == BatchRun(rest.world, [one.outcome] + rest.outcomes, one.steps + rest.steps)
  {
    assert urls[i..][0] == urls[i] && scripts[i..][0] == scripts[i];
    assert urls[i..][1..] == urls[i + 1..] && scripts[i..][1..] == scripts[i + 1..];
  }

  /** Moving one step's results from the rest of the run to what is done. */
  lemma Regroup<T>(done: seq<T>, step: seq<T>, rest: seq<T>)
    ensures done + (step + rest) == (done + step) + rest
  {
  }

  /** `processBatchCapture(urls)`: a sequential loop over the URLs. */
  method ProcessBatchCapture(w: World, urls: seq<string>, scripts: seq<UrlScript>) returns (b: BatchRun)
    requires |urls| == |scripts|
    ensures b == RunBatch(w, urls, scripts)
    ensures |b.outcomes| == |urls|
    ensures Creations(b.steps) == urls
  {
    var world := w;
    var outcomes: seq<UrlOutcome> := [];
    var steps: seq<Step> := [];
    var i := 0;
    while i < |urls|
      invariant 0 <= i <= |urls|
      invariant var rest := RunBatch(world, urls[i..], scripts[i..]);
                RunBatch(w, urls, scripts) == BatchRun(rest.world, outcomes + rest.outcomes, steps + rest.steps)
      decreases |urls| - i
    {
      var one := ProcessUrl(world, urls[i], scripts[i]);
      ghost var rest := RunBatch(one.world, urls[i + 1..], scripts[i + 1..]);
      RunBatchFrom(world, urls, scripts, i);
      Regroup(outcomes, [one.outcome], rest.outcomes);
      Regroup(steps, one.steps, rest.steps);
      world := one.world;
      outcomes := outcomes + [one.outcome];
      steps := steps + one.steps;
      i := i + 1;
    }
    assert urls[i..] == [] && scripts[i..] == [];
    assert outcomes + [] == outcomes && steps + [] == steps;
    b := BatchRun(world, outcomes, steps);
    BatchInOrder(w, urls, scripts);
  }

  // ---------------------------------------------------------------------
  // Message dispatch and the bookmark listener

  /** A runtime message: its `type`, and the `urls` a batch request carries. */
  datatype Message = Message(kind: string, urls: seq<string>)

  /** What the listener sends back through `sendResponse`. */
  datatype Response = CaptureOk(reply: CaptureReply) | CaptureError(message: string) | PingOk

  datatype Handled = Handled(world: World, response: Option<Response>, keepChannelOpen: bool)

  /** The message listener. A capture request replies with the handler's
      value or its error; a batch request starts the loop and never
      replies; `PING` replies at once; every other type, `STOP_CAPTURE`
      included, does nothing. The listener always keeps the channel open. */
  function OnMessage(w: World, m: Message, env: HandleEnv, scripts: seq<UrlScript>): (h: Handled)
    requires m.kind == "BATCH_CAPTURE" ==> |scripts| == |m.urls|
    ensures h.keepChannelOpen
    ensures m.kind == "CAPTURE_THUMBNAIL" ==>
              h.world == HandleCapture(w, env).world
              && (HandleCapture(w, env).result.Success? ==> h.response == Some(CaptureOk(HandleCapture(w, env).result.value)))
              && (HandleCapture(w, env).result.Failure? ==> h.response == Some(CaptureError(HandleCapture(w, env).result.error)))
    ensures m.kind == "BATCH_CAPTURE" ==> h.response.None? && h.world == RunBatch(w, m.urls, scripts).world
    ensures m.kind == "PING" ==> h == Handled(w, Some(PingOk), true)
    ensures m.kind !in {"CAPTURE_THUMBNAIL", "BATCH_CAPTURE", "PING"} ==> h == Handled(w, None, true)
  {
    if m.kind == "CAPTURE_THUMBNAIL" then
      var run := HandleCapture(w, env);
      var response := match run.result
        case Success(reply) => CaptureOk(reply)
        case Failure(e) => CaptureError(e);
      Handled(run.world, Some(response), true)
    else if m.kind == "BATCH_CAPTURE" then
      Handled(RunBatch(w, m.urls, scripts).world, None, true)
    else if m.kind == "PING" then Handled(w, Some(PingOk), true)
    else Handled(w, None, true)
  }

  /** The popup's stop request has no handler: it changes nothing and gets
      no answer. */
  lemma StopIsIgnored(w: World, urls: seq<string>, env: HandleEnv, scripts: seq<UrlScript>)
    ensures OnMessage(w, Message("STOP_CAPTURE", urls), env, scripts) == Handled(w, None, true)
  {
  }

  /** The bookmark listener's guard: the bookmark has a URL and the active
      tab shows exactly that URL. */
  predicate ShouldAutoCapture(bookmarkUrl: Option<string>, activeTab: Option<ActiveTab>) {
    && bookmarkUrl.Some? && bookmarkUrl.value != ""
    && activeTab.Some? && activeTab.value.url == Some(bookmarkUrl.value)
  }

  /** `bookmarks.onCreated`: captures when the guard holds, and swallows a
      failed capture. */
  function OnBookmarkCreated(w: World, bookmarkUrl: Option<string>, activeTab: Option<ActiveTab>, env: HandleEnv): (w': World)
    ensures !ShouldAutoCapture(bookmarkUrl, activeTab) ==> w' == w
    ensures ShouldAutoCapture(bookmarkUrl, activeTab) ==> w' == HandleCapture(w, env).world
  {
    if ShouldAutoCapture(bookmarkUrl, activeTab) then HandleCapture(w, env).world else w
  }

  /** A bookmark whose URL is not the active tab's is never captured. */
  lemma AutoCaptureGuard(w: World, bookmarkUrl: string, activeTab: ActiveTab, env: HandleEnv)
    requires activeTab.url != Some(bookmarkUrl)
    ensures OnBookmarkCreated(w, Some(bookmarkUrl), Some(activeTab), env) == w
  {
  }
}
