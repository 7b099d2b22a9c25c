/** Screenshot acquisition and resizing (src/lib/capture.ts). Every browser
    call becomes an input describing what that call does: succeed with a
    value, reject with a message, or lose the race against its timer. */
module Capture {
  import opened Base
  import opened Text
  import opened Blobs

  const VisibleTimeoutMs: nat := 5000
  const BackgroundTimeoutMs: nat := 10000
  /** The pause after activating the target tab on the forced path. */
  const ActivationSettleMs: nat := 100
  const UnknownCaptureError: string := "Unknown capture error"
  const NoContext: string := "Could not get 2d context"
  const ToBlobFailed: string := "Canvas toBlob failed"
  const WebpMime: string := "image/webp"

  /** The rejection raised when a capture loses the race against its timer. */
  function TimeoutMessage(ms: nat): string {
    "Capture timed out after " + Decimal(ms) + "ms"
  }

  /** What `chrome.tabs.captureVisibleTab` does within its race. */
  datatype VisibleShot = Shot(dataUrl: string) | ShotError(message: string) | ShotTimedOut

  /** `captureVisibleTab(windowId)`: the data URL, the runtime error, or the
      5000 ms timeout, which is a rejection. */
  function CaptureVisibleTab(shot: VisibleShot): (r: Result<string>)
    ensures shot.Shot? <==> r.Success?
    ensures shot.Shot? ==> r.value == shot.dataUrl
    ensures shot.ShotTimedOut? ==> r == Failure(TimeoutMessage(VisibleTimeoutMs))
  {
    match shot
    case Shot(d) => Success(d)
    case ShotError(m) => Failure(m)
    case ShotTimedOut => Failure(TimeoutMessage(VisibleTimeoutMs))
  }

  /** The content script's reply to `CAPTURE_TAB`. */
  datatype BackgroundResponse = BackgroundResponse(success: bool, dataUrl: string, error: Option<string>)

  /** What the in-page capture does within its race: script injection or
      messaging fails, a reply (possibly none) arrives, or the timer wins. */
  datatype BackgroundShot =
    | InjectFailed(message: string)
    | SendFailed(message: string)
    | Responded(response: Option<BackgroundResponse>)
    | BackgroundTimedOut

  /** `captureBackgroundTab(tabId)`. */
  function CaptureBackgroundTab(b: BackgroundShot): (r: Result<string>)
    ensures r.Success? <==> b.Responded? && b.response.Some? && b.response.value.success
    ensures r.Success? ==> r.value == b.response.value.dataUrl
    ensures b.Responded? && !r.Success? && (b.response.None? || b.response.value.error.None? || b.response.value.error.value == "") ==>
              r == Failure(UnknownCaptureError)
    ensures b.Responded? && !r.Success? && b.response.Some? && b.response.value.error.Some? && b.response.value.error.value != "" ==>
              r == Failure(b.response.value.error.value)
    ensures b.BackgroundTimedOut? ==> r == Failure(TimeoutMessage(BackgroundTimeoutMs))
  {
    match b
    case InjectFailed(m) => Failure(m)
    case SendFailed(m) => Failure(m)
    case BackgroundTimedOut => Failure(TimeoutMessage(BackgroundTimeoutMs))
    case Responded(response) =>
      if response.Some? && response.value.success then Success(response.value.dataUrl)
      else if response.Some? && response.value.error.Some? && response.value.error.value != "" then
        Failure(response.value.error.value)
      else Failure(UnknownCaptureError)
  }

  /** The target tab as `chrome.tabs.get` reports it. A window id of 0
      counts as absent, as it does in the source's truthiness tests. */
  datatype TabInfo = TabInfo(active: bool, windowId: Option<int>)

  predicate HasWindow(t: TabInfo) {
    t.windowId.Some? && t.windowId.value != 0
  }

  datatype WindowInfo = WindowInfo(minimized: bool, focused: bool)

  /** Everything the browser does during one `capture` call. */
  datatype CaptureEnv = CaptureEnv(
    tab: Result<TabInfo>,               // chrome.tabs.get
    window: Option<WindowInfo>,         // chrome.windows.get; None when it throws
    currentActive: Result<Option<int>>, // id of the window's active tab, from chrome.tabs.query
    activateFailure: Option<string>,    // chrome.tabs.update on the target
    forcedShot: VisibleShot,            // capture on the forced path
    restoreFailure: Option<string>,     // chrome.tabs.update back to the original tab
    directShot: VisibleShot,            // capture on the direct path
    background: BackgroundShot)         // in-page capture

  datatype Strategy = Forced | Direct | Background

  /** The strategies tried, in order, the tabs activated (`tabs.update`
      with `active: true`), in order, and the result. */
  datatype CaptureRun = CaptureRun(result: Result<string>, tried: seq<Strategy>, activated: seq<int>)

  /** The window flags the choice uses; a failed or skipped window lookup
      leaves both false. */
  function WindowFlags(tab: TabInfo, window: Option<WindowInfo>): WindowInfo {
    if HasWindow(tab) && window.Some? then window.value else WindowInfo(false, false)
  }

  predicate DirectEligible(tab: TabInfo, window: Option<WindowInfo>) {
    var w := WindowFlags(tab, window);
    tab.active && !w.minimized && w.focused
  }

  /** The forced path: remember the active tab, activate the target,
      capture, restore the original tab if it differs. Any rejection along
      the way yields `Failure` (the caller falls through). */
  function ForcedAttempt(tabId: int, env: CaptureEnv): (r: (Result<string>, seq<int>))
    ensures r.0.Success? ==> CaptureVisibleTab(env.forcedShot) == r.0
  {
    match env.currentActive
    case Failure(e) => (Failure(e), [])
    case Success(original) =>
      if env.activateFailure.Some? then (Failure(env.activateFailure.value), [tabId])
      else
        match CaptureVisibleTab(env.forcedShot)
        case Failure(e) => (Failure(e), [tabId])
        case Success(dataUrl) =>
          if original.Some? && original.value != 0 && original.value != tabId then
            if env.restoreFailure.Some? then (Failure(env.restoreFailure.value), [tabId, original.value])
            else (Success(dataUrl), [tabId, original.value])
          else (Success(dataUrl), [tabId])
  }

  /** The direct and background paths, after the forced path was skipped
      or failed. */
  function StandardAttempt(tab: TabInfo, env: CaptureEnv): (r: (Result<string>, seq<Strategy>)) {
    if DirectEligible(tab, env.window) then
      match CaptureVisibleTab(env.directShot)
      case Success(d) => (Success(d), [Direct])
      case Failure(_) => (CaptureBackgroundTab(env.background), [Direct, Background])
    else (CaptureBackgroundTab(env.background), [Background])
  }

  /** `capture(tabId, { useActiveTabCapture })`. */
  function Capture(tabId: int, useActiveTabCapture: bool, env: CaptureEnv): (run: CaptureRun)
    ensures env.tab.Failure? ==> run == CaptureRun(Failure(env.tab.error), [], [])
    ensures run.result.Success? ==> |run.tried| >= 1
  {
    match env.tab
    case Failure(e) => CaptureRun(Failure(e), [], [])
    case Success(tab) =>
      if useActiveTabCapture && HasWindow(tab) then
        var (forced, activated) := ForcedAttempt(tabId, env);
        if forced.Success? then CaptureRun(forced, [Forced], activated)
        else
          var (res, tried) := StandardAttempt(tab, env);
          CaptureRun(res, [Forced] + tried, activated)
      else
        var (res, tried) := StandardAttempt(tab, env);
        CaptureRun(res, tried, [])
  }

  /** The strategies are tried in the fixed order forced, direct,
      background, each at most once, and the last one tried decides the
      result. */
  lemma StrategyOrder(tabId: int, useActive: bool, env: CaptureEnv)
    requires env.tab.Success?
    ensures var run := Capture(tabId, useActive, env);
            && 1 <= |run.tried| <= 3
            && (forall i, j :: 0 <= i < j < |run.tried| ==> Rank(run.tried[i]) < Rank(run.tried[j]))
            && (run.tried[|run.tried| - 1] == Background ==> run.result == CaptureBackgroundTab(env.background))
            && (run.tried[|run.tried| - 1] == Direct ==> run.result == CaptureVisibleTab(env.directShot))
            && (run.tried[|run.tried| - 1] == Forced ==> run.result.Success? && run.result == CaptureVisibleTab(env.forcedShot))
  {
  }

  function Rank(s: Strategy): nat {
    match s
    case Forced => 0
    case Direct => 1
    case Background => 2
  }

  /** The forced path is tried exactly when it is requested and the tab has
      a window; its failure falls through instead of failing the capture. */
  lemma ForcedPathChoice(tabId: int, useActive: bool, env: CaptureEnv)
    requires env.tab.Success?
    ensures var run := Capture(tabId, useActive, env);
            (Forced in run.tried <==> useActive && HasWindow(env.tab.value))
    ensures var run := Capture(tabId, useActive, env);
            Forced in run.tried && ForcedAttempt(tabId, env).0.Failure? ==>
              |run.tried| >= 2 && run.result == StandardAttempt(env.tab.value, env).0
  {
  }

  /** On success the forced path activates the target and then restores the
      previously active tab only when that is a different tab. */
  lemma ForcedPathRestores(tabId: int, env: CaptureEnv, original: Option<int>)
    requires env.tab.Success? && HasWindow(env.tab.value)
    requires env.currentActive == Success(original)
    requires Capture(tabId, true, env).tried == [Forced]
    ensures var run := Capture(tabId, true, env);
            run.activated ==
              if original.Some? && original.value != 0 && original.value != tabId then [tabId, original.value] else [tabId]
  {
  }

  /** The direct path is tried only for an active tab in a focused, not
      minimised window, and never when the window lookup failed; its
      failure falls through to the background path. */
  lemma DirectPathChoice(tabId: int, useActive: bool, env: CaptureEnv)
    requires env.tab.Success?
    ensures var run := Capture(tabId, useActive, env);
            Direct in run.tried ==>
              env.tab.value.active && HasWindow(env.tab.value) && env.window.Some?
              && !env.window.value.minimized && env.window.value.focused
    ensures var run := Capture(tabId, useActive, env);
            env.window.None? ==> Direct !in run.tried
    ensures var run := Capture(tabId, useActive, env);
            Direct in run.tried && CaptureVisibleTab(env.directShot).Failure? ==>
              Background in run.tried && run.result == CaptureBackgroundTab(env.background)
  {
  }

  /** The background path is the last resort: when it is reached its result,
      failure included, is the capture's result. */
  lemma BackgroundLastResort(tabId: int, useActive: bool, env: CaptureEnv)
    requires env.tab.Success?
    ensures var run := Capture(tabId, useActive, env);
            run.result.Failure? ==> Background in run.tried && run.result == CaptureBackgroundTab(env.background)
  {
  }

  /** The dimensions of a decoded source image. */
  datatype Bitmap = Bitmap(width: nat, height: nat)

  /** What a decoder yields: image decoders never produce a zero-width
      bitmap. */
  type Image = b: Bitmap | b.width > 0 witness Bitmap(1, 1)

  /** `Math.round(targetWidth * (height / width))`, in exact arithmetic:
      halves round up. */
  function ScaledHeight(targetWidth: nat, b: Bitmap): (h: nat)
    requires b.width > 0
    ensures 2 * b.width * h <= 2 * targetWidth * b.height + b.width < 2 * b.width * (h + 1)
  {
    var num := 2 * targetWidth * b.height + b.width;
    var den := 2 * b.width;
    assert den * (num / den) <= num < den * (num / den + 1);
    num / den
  }

  /** The height is the unique integer nearest the exact aspect-ratio
      height, rounding halves up. */
  lemma ScaledHeightNearest(targetWidth: nat, b: Bitmap, h: nat)
    requires b.width > 0
    requires 2 * b.width * h <= 2 * targetWidth * b.height + b.width < 2 * b.width * (h + 1)
    ensures h == ScaledHeight(targetWidth, b)
  {
    var s := ScaledHeight(targetWidth, b);
    CancelFactor(2 * b.width, h, s + 1);
    CancelFactor(2 * b.width, s, h + 1);
  }

  lemma CancelFactor(a: int, x: int, y: int)
    requires a > 0 && a * x < a * y
    ensures x < y
  {
  }

  /** The resized image: the blob, its data URL, and its dimensions. */
  datatype CaptureResult = CaptureResult(blob: Blob, dataUrl: string, width: nat, height: nat, sizeBytes: nat)

  /** The service-worker path (`OffscreenCanvas`). `decoded` is
      `createImageBitmap` of the fetched data URL, `encoded` what
      `convertToBlob` produces at the requested quality. */
  function ResizeOffscreen(targetWidth: nat, decoded: Result<Image>, contextOk: bool, encoded: Result<seq<Byte>>): (r: Result<CaptureResult>)
    ensures r.Success? <==> decoded.Success? && contextOk && encoded.Success?
    ensures decoded.Success? && !contextOk ==> r == Failure(NoContext)
    ensures r.Success? ==> r.value.width == targetWidth && r.value.height == ScaledHeight(targetWidth, decoded.value)
    ensures r.Success? ==> r.value.blob == Blob(WebpMime, encoded.value) && r.value.sizeBytes == |r.value.blob.bytes|
    ensures r.Success? ==> FetchDataUrl(r.value.dataUrl) == Some(r.value.blob)
  {
    match decoded
    case Failure(e) => Failure(e)
    case Success(bitmap) =>
      if !contextOk then Failure(NoContext)
      else match encoded
        case Failure(e) => Failure(e)
        case Success(bytes) =>
          var blob := Blob(WebpMime, bytes);
          FetchReadRoundTrip(blob);
          Success(CaptureResult(blob, ReadAsDataUrl(blob), targetWidth, ScaledHeight(targetWidth, bitmap), |bytes|))
  }

  /** The page path (an `<img>` and a `<canvas>`). `encoded` is what
      `toBlob` hands its callback (`None` for null) and `canvasDataUrl`
      what `toDataURL` returns. */
  function ResizeDom(targetWidth: nat, decoded: Result<Image>, contextOk: bool, encoded: Option<seq<Byte>>, canvasDataUrl: string): (r: Result<CaptureResult>)
    ensures r.Success? <==> decoded.Success? && contextOk && encoded.Some?
    ensures decoded.Success? && !contextOk ==> r == Failure(NoContext)
    ensures decoded.Success? && contextOk && encoded.None? ==> r == Failure(ToBlobFailed)
    ensures r.Success? ==> r.value.width == targetWidth && r.value.height == ScaledHeight(targetWidth, decoded.value)
    ensures r.Success? ==> r.value.blob == Blob(WebpMime, encoded.value) && r.value.sizeBytes == |r.value.blob.bytes|
  {
    match decoded
    case Failure(e) => Failure(e)
    case Success(bitmap) =>
      if !contextOk then Failure(NoContext)
      else match encoded
        case None => Failure(ToBlobFailed)
        case Some(bytes) =>
          Success(CaptureResult(Blob(WebpMime, bytes), canvasDataUrl, targetWidth, ScaledHeight(targetWidth, bitmap), |bytes|))
  }

  /** Both rendering paths give the same dimensions and the same blob for
      the same decoded image and encoder output. */
  lemma ResizePathsAgree(targetWidth: nat, b: Image, bytes: seq<Byte>, canvasDataUrl: string)
    ensures var off := ResizeOffscreen(targetWidth, Success(b), true, Success(bytes));
            var dom := ResizeDom(targetWidth, Success(b), true, Some(bytes), canvasDataUrl);
            && off.Success? && dom.Success?
            && off.value.width == dom.value.width
            && off.value.height == dom.value.height
            && off.value.blob == dom.value.blob
            && off.value.sizeBytes == dom.value.sizeBytes
  {
  }
}
