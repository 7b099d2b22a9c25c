/** The popup's capture status tracker (src/popup/App.tsx): the sets of
    queued and loading URLs, driven by runtime messages and the batch, resume
    and stop actions, and the status-gated loading of stored thumbnails for
    the open folder. Rendering is not modelled. */
module Popup {
  import opened Base
  import IndexedDb
  import StorageIndex

  /** The popup's state: URLs queued for capture, URLs being captured, and
      URLs whose thumbnail is shown. */
  datatype State = State(queued: set<string>, loading: set<string>, shown: set<string>)

  /** A runtime message the popup listens for; `url` is `None` when absent. */
  datatype Incoming =
    | CaptureStarted(url: Option<string>)
    | ThumbnailUpdated(url: Option<string>)
    | CaptureFailedMsg(url: Option<string>)
    | OtherMessage

  /** A message the popup sends to the worker. */
  datatype Outgoing = BatchCapture(urls: seq<string>) | StopCapture

  /** A bookmark node of the open folder; folders have no URL. */
  datatype Node = Node(url: Option<string>)

  /** `message.url` is truthy. */
  predicate HasUrl(u: Option<string>) {
    u.Some? && u.value != ""
  }

  /** The legacy store holds a thumbnail with image data for `url`. */
  predicate HasImage(db: IndexedDb.Db, url: string) {
    IndexedDb.GetThumbnail(db, url).Some? && IndexedDb.GetThumbnail(db, url).value.blob.Some?
  }

  /** The message listener. `db` is the legacy store when the update's
      lookup resolves. */
  function OnMessage(s: State, m: Incoming, db: IndexedDb.Db): (s': State)
    ensures m.CaptureStarted? && HasUrl(m.url) ==>
              s'.queued == s.queued - {m.url.value} && s'.loading == s.loading + {m.url.value} && s'.shown == s.shown
    ensures m.ThumbnailUpdated? && HasUrl(m.url) && HasImage(db, m.url.value) ==>
              s'.queued == s.queued && s'.loading == s.loading - {m.url.value} && s'.shown == s.shown + {m.url.value}
    ensures m.ThumbnailUpdated? && HasUrl(m.url) && !HasImage(db, m.url.value) ==> s' == s
    ensures m.CaptureFailedMsg? && HasUrl(m.url) ==>
              s'.queued == s.queued && s'.loading == s.loading - {m.url.value} && s'.shown == s.shown
    ensures m.OtherMessage? || !HasUrl(m.url) ==> s' == s
  {
    match m
    case CaptureStarted(u) =>
      if HasUrl(u) then s.(queued := s.queued - {u.value}, loading := s.loading + {u.value}) else s
    case ThumbnailUpdated(u) =>
      if HasUrl(u) && HasImage(db, u.value) then s.(loading := s.loading - {u.value}, shown := s.shown + {u.value}) else s
    case CaptureFailedMsg(u) =>
      if HasUrl(u) then s.(loading := s.loading - {u.value}) else s
    case OtherMessage => s
  }

  /** The set of a list's elements. */
  function Elements(urls: seq<string>): set<string> {
    set i | 0 <= i < |urls| :: urls[i]
  }

  /** The elements of a concatenation are those of its two parts. */
  lemma ElementsConcat(a: seq<string>, b: seq<string>)
    ensures Elements(a + b) == Elements(a) + Elements(b)
  {
    forall u | u in Elements(a + b)
      ensures u in Elements(a) + Elements(b)
    {
      var i :| 0 <= i < |a + b| && (a + b)[i] == u;
      if i >= |a| {
        assert b[i - |a|] == u;
      }
    }
    forall u | u in Elements(a)
      ensures u in Elements(a + b)
    {
      var i :| 0 <= i < |a| && a[i] == u;
      assert (a + b)[i] == u;
    }
    forall u | u in Elements(b)
      ensures u in Elements(a + b)
    {
      var i :| 0 <= i < |b| && b[i] == u;
      assert (a + b)[|a| + i] == u;
    }
  }

  /** Some bookmark of the folder has the URL `u`. */
  predicate InFolder(children: seq<Node>, u: string) {
    exists i :: 0 <= i < |children| && children[i].url == Some(u)
  }

  /** A folder's URLs are its first bookmark's and those of the rest. */
  lemma InFolderCons(children: seq<Node>, u: string)
    requires |children| > 0
    ensures InFolder(children, u) <==> children[0].url == Some(u) || InFolder(children[1..], u)
  {
    if InFolder(children, u) {
      var i :| 0 <= i < |children| && children[i].url == Some(u);
      if i > 0 {
        assert children[1..][i - 1].url == Some(u);
      }
    }
    if InFolder(children[1..], u) {
      var i :| 0 <= i < |children[1..]| && children[1..][i].url == Some(u);
      assert children[i + 1].url == Some(u);
    }
  }

  /** `handleBatchCaptureTrigger(urls)`: every URL is queued and the same
      list is sent. */
  function TriggerBatch(s: State, urls: seq<string>): (r: (State, seq<Outgoing>))
    ensures r.0.queued == s.queued + Elements(urls)
    ensures r.0.loading == s.loading && r.0.shown == s.shown
    ensures r.1 == [BatchCapture(urls)]
  {
    (s.(queued := s.queued + Elements(urls)), [BatchCapture(urls)])
  }

  /** The stop button: both sets are cleared, then the stop request is sent. */
  function Stop(s: State): (r: (State, seq<Outgoing>))
    ensures r.0.queued == {} && r.0.loading == {} && r.0.shown == s.shown
    ensures r.1 == [StopCapture]
  {
    (s.(queued := {}, loading := {}), [StopCapture])
  }

  /** The URLs the resume button asks for: those of the folder's bookmarks
      whose thumbnail is not shown, in folder order. */
  function ResumeUrls(children: seq<Node>, shown: set<string>): (urls: seq<string>)
    ensures forall i :: 0 <= i < |urls| ==> urls[i] != "" && urls[i] !in shown
    decreases |children|
  {
    if |children| == 0 then []
    else
      var u := children[0].url;
      (if u.Some? && u.value != "" && u.value !in shown then [u.value] else []) + ResumeUrls(children[1..], shown)
  }

  /** A bookmark is asked for exactly when it has a URL not shown. */
  lemma {:induction false} ResumeUrlsComplete(children: seq<Node>, shown: set<string>)
    ensures forall u :: u in Elements(ResumeUrls(children, shown)) <==>
              u != "" && u !in shown && InFolder(children, u)
    decreases |children|
  {
    if |children| > 0 {
      ResumeUrlsComplete(children[1..], shown);
      var rest := ResumeUrls(children[1..], shown);
      var u0 := children[0].url;
      var head: seq<string> := if u0.Some? && u0.value != "" && u0.value !in shown then [u0.value] else [];
      assert ResumeUrls(children, shown) == head + rest;
      ElementsConcat(head, rest);
      forall u
        ensures InFolder(children, u) <==> u0 == Some(u) || InFolder(children[1..], u)
      {
        InFolderCons(children, u);
      }
    }
  }

  /** The resume button: a batch of the missing URLs, or nothing at all
      when none is missing. */
  function Resume(s: State, children: seq<Node>): (r: (State, seq<Outgoing>))
    ensures ResumeUrls(children, s.shown) == [] ==> r == (s, [])
    ensures ResumeUrls(children, s.shown) != [] ==> r == TriggerBatch(s, ResumeUrls(children, s.shown))
  {
    var urls := ResumeUrls(children, s.shown);
    if |urls| > 0 then TriggerBatch(s, urls) else (s, [])
  }

  /** A shown thumbnail is never asked for again by resume. */
  lemma ResumeSkipsShown(s: State, children: seq<Node>, u: string)
    requires u in s.shown
    ensures var sent := Resume(s, children).1;
            forall j :: 0 <= j < |sent| ==> u !in Elements(sent[j].urls)
  {
    var urls := ResumeUrls(children, s.shown);
    assert forall i :: 0 <= i < |urls| ==> urls[i] != u;
  }

  /** The metadata status that allows loading a thumbnail. */
  predicate Loadable(v: StorageIndex.LocalValue) {
    v.MetaEntry? && (v.meta.status == StorageIndex.SavedIndexedDb || v.meta.status == StorageIndex.SavedDisk)
  }

  /** The first thumbnail load for the open folder: a bookmark's thumbnail
      is shown only when its metadata says it was saved and the legacy store
      has its image. The shown set is replaced. */
  function LoadThumbs(children: seq<Node>, area: StorageIndex.Area, db: IndexedDb.Db): (shown: set<string>)
    ensures forall u :: u in shown <==>
              && u != ""
              && (exists i :: 0 <= i < |children| && children[i].url == Some(u))
              && u in area && Loadable(area[u])
              && HasImage(db, u)
  {
    var all := StorageIndex.GetAll(area);
    set i, u | 0 <= i < |children| && children[i].url == Some(u) && u != "" && u in all && Loadable(all[u]) && HasImage(db, u) :: u
  }

  /** The second load for the open folder, which ignores the metadata: the
      thumbnails the legacy store has an image for, merged into the shown
      set, and the URLs still missing that are neither loading nor queued.
      It runs alongside `LoadThumbs`, in no fixed order (`LoadsRace`). */
  function LoadExisting(s: State, children: seq<Node>, db: IndexedDb.Db): (r: (State, seq<string>))
    ensures r.0.queued == s.queued && r.0.loading == s.loading
    ensures s.shown <= r.0.shown
    ensures forall u :: u in r.0.shown <==> u in s.shown || (u != "" && InFolder(children, u) && HasImage(db, u))
    ensures forall u :: u in r.0.shown - s.shown ==> HasImage(db, u)
    ensures forall i :: 0 <= i < |r.1| ==> !HasImage(db, r.1[i]) && r.1[i] !in s.loading && r.1[i] !in s.queued
  {
    var existing := set i | 0 <= i < |children| && children[i].url.Some? && children[i].url.value != ""
                              && HasImage(db, children[i].url.value) :: children[i].url.value;
    assert forall u :: u in existing <==> u != "" && InFolder(children, u) && HasImage(db, u) by {
      forall u | u != "" && InFolder(children, u) && HasImage(db, u)
        ensures u in existing
      {
        var i :| 0 <= i < |children| && children[i].url == Some(u);
        assert children[i].url.value == u;
      }
    }
    (s.(shown := s.shown + existing), MissingUrls(children, db, s.loading, s.queued))
  }

  /** The missing-URL list: bookmarks without a stored image, not loading
      and not queued, in folder order. It is only logged. */
  function MissingUrls(children: seq<Node>, db: IndexedDb.Db, loading: set<string>, queued: set<string>): (urls: seq<string>)
    ensures forall i :: 0 <= i < |urls| ==> !HasImage(db, urls[i]) && urls[i] !in loading && urls[i] !in queued && urls[i] != ""
    ensures |urls| <= |children|
    decreases |children|
  {
    if |children| == 0 then []
    else
      var u := children[0].url;
      var head := if u.Some? && u.value != "" && !HasImage(db, u.value) && u.value !in loading && u.value !in queued then [u.value] else [];
      head + MissingUrls(children[1..], db, loading, queued)
  }

  /** A bookmark is listed as missing exactly when it has a URL with no
      stored image that is neither loading nor queued. */
  lemma {:induction false} MissingUrlsComplete(children: seq<Node>, db: IndexedDb.Db, loading: set<string>, queued: set<string>)
    ensures forall u :: u in Elements(MissingUrls(children, db, loading, queued)) <==>
              u != "" && !HasImage(db, u) && u !in loading && u !in queued && InFolder(children, u)
    decreases |children|
  {
    if |children| > 0 {
      MissingUrlsComplete(children[1..], db, loading, queued);
      var rest := MissingUrls(children[1..], db, loading, queued);
      var u0 := children[0].url;
      var head: seq<string> := if u0.Some? && u0.value != "" && !HasImage(db, u0.value) && u0.value !in loading && u0.value !in queued then [u0.value] else [];
      assert MissingUrls(children, db, loading, queued) == head + rest;
      ElementsConcat(head, rest);
      forall u
        ensures InFolder(children, u) <==> u0 == Some(u) || InFolder(children[1..], u)
      {
        InFolderCons(children, u);
      }
      if |head| == 1 {
        assert head[0] == u0.value;
        assert Elements(head) == {u0.value};
      }
    }
  }

  /** The two folder loads race. When `LoadThumbs` settles first,
      `LoadExisting` then shows a stored image whose metadata does not allow
      it; when `LoadThumbs` settles last, it drops an image `LoadExisting`
      had shown. */
  lemma LoadsRace(s: State, children: seq<Node>, area: StorageIndex.Area, db: IndexedDb.Db, u: string)
    requires u != "" && InFolder(children, u) && HasImage(db, u)
    requires u in area && !Loadable(area[u])
    ensures var gated := LoadThumbs(children, area, db);
            && u !in gated
            && u in LoadExisting(s.(shown := gated), children, db).0.shown
            && u in LoadExisting(s, children, db).0.shown
  {
  }

  /** A URL's expected life: queued by a batch, moved to loading when its
      capture starts, and neither queued nor loading once its thumbnail is
      stored and announced, at which point it is shown. */
  lemma CaptureLifecycle(s: State, u: string, db: IndexedDb.Db)
    requires u != ""
    requires HasImage(db, u)
    ensures var s1 := TriggerBatch(s, [u]).0;
            var s2 := OnMessage(s1, CaptureStarted(Some(u)), db);
            var s3 := OnMessage(s2, ThumbnailUpdated(Some(u)), db);
            && u in s1.queued
            && u !in s2.queued && u in s2.loading
            && u !in s3.queued && u !in s3.loading && u in s3.shown
  {
    assert u in Elements([u]) by {
      assert [u][0] == u;
    }
  }

  /** A failed capture leaves the URL neither loading nor, if it had
      started, queued; stopping clears everything whatever came before. */
  lemma FailureAndStop(s: State, u: string, db: IndexedDb.Db)
    requires u != ""
    ensures var s1 := OnMessage(OnMessage(s, CaptureStarted(Some(u)), db), CaptureFailedMsg(Some(u)), db);
            u !in s1.queued && u !in s1.loading
    ensures Stop(OnMessage(s, CaptureStarted(Some(u)), db)).0.loading == {}
  {
  }
}
