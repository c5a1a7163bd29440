/** What one export run does, as functions of the world it starts in and of an oracle
    that answers for everything outside the script: the page's elements over time,
    how long each awaited call takes, and the responses of the design API, the image
    hosts and the storage bucket. The imperative model in module Exporter is proved
    to compute exactly these functions. */
module Pipeline {
  import opened Wrappers
  import opened JsText
  import opened Naming
  import opened Dom
  import opened Polling

  type byte = b: int | 0 <= b < 256

  /** Budget of the wait for the relaunch control. */
  const ControlWaitMs := 30000
  /** Budget of the wait for the sync to finish. */
  const SyncWaitMs := 90000
  /** Fixed pause after the sync, for the design backend to catch up. */
  const SettleMs := 15000

  /** The relaunch control was clicked: the element at `index` of the panel as seen by
      the poll that began at time `at`. */
  datatype Click = Click(at: nat, index: nat)

  /** The HTTP GET requests the script sends, in the order it sends them. */
  datatype Request =
    | FileRequest(fileKey: string)
    | ImagesRequest(fileKey: string, ids: string, format: string, version: string, ts: nat)
    | ImageDownload(url: string)

  /** An object in the bucket: its bytes and the content type it was uploaded with. */
  datatype Blob = Blob(data: seq<byte>, contentType: string)

  /** One entry of the rendering API's `images` object, in `Object.entries` order. */
  datatype ImageEntry = ImageEntry(nodeId: string, url: string)

  /** The deployment's configuration: the design file's key and the `NODE_IDS`
      variable, from which the node-id list is parsed once when the script is loaded
      (Naming.ParseNodeIds). */
  datatype Config = Config(fileKey: string, nodeIdsEnv: Option<string>)

  /** Everything the script does not decide itself. */
  datatype Oracle = Oracle(
    latency: nat -> nat,                      // duration of an awaited call begun at a time
    launch: Option<string>,                   // failure of launching the browser, if any
    navigation: Option<string>,               // failure of opening the page, if any
    panel: nat -> seq<Element>,               // the relaunch panel's elements at a time
    page: nat -> seq<Element>,                // every element of the page at a time
    version: nat -> Result<string, string>,   // the metadata response's version, by request time
    images: Request -> Result<seq<ImageEntry>, string>,
    download: string -> Result<seq<byte>, string>,
    mimeLookup: string -> Option<string>,     // content type by file extension
    removeOk: string -> bool,                 // whether removing a key takes effect
    uploadError: string -> Option<string>,    // the upload's error for a key, if any
    publicUrl: string -> string)              // the bucket's public URL of a key

  /** The ways a run fails; each carries the message the trigger endpoint reports. */
  datatype Error =
    | LaunchError(reason: string)
    | NavigationError(reason: string)
    | ControlNotFound
    | SyncTimeout
    | ApiError(reason: string)
    | DownloadError(reason: string)
    | FileError(fileName: string)
    | StorageError(reason: string)
  {
    function Message(): string {
      match this
      case LaunchError(m) => m
      case NavigationError(m) => m
      case ControlNotFound => "\U{274C} Plugin button not found."
      case SyncTimeout => "\U{274C} Plugin sync did not finish in time."
      case ApiError(m) => m
      case DownloadError(m) => m
      case FileError(f) => "ENOENT: no such file or directory, open '" + f + "'"
      case StorageError(m) => m
    }
  }

  /** The state a run acts on: the clock, whether its browser is open, the clicks made
      on the page, the requests sent, the bucket's objects and the export directory. */
  datatype World = World(
    now: nat,
    browserOpen: bool,
    clicks: seq<Click>,
    requests: seq<Request>,
    bucket: map<string, Blob>,
    exportDir: map<string, seq<byte>>)

  /** The result of a step that may throw, with the world it leaves behind. */
  datatype Outcome<T> = Outcome(result: Result<T, Error>, world: World)

  /** The result of a polling wait, with the world it leaves behind. */
  datatype Polled = Polled(found: bool, world: World)

  /** The clock reading once an awaited call begun at `t` has returned. */
  function Answered(o: Oracle, t: nat): nat {
    t + o.latency(t)
  }

  /** The world after an awaited external call that began in `w`. */
  function Awaited(o: Oracle, w: World): World {
    w.(now := Answered(o, w.now))
  }

  // ---------------------------------------------------------------- browser waits

  /** Whether the control scan finds the relaunch control at a time. */
  function ControlSeen(o: Oracle): nat -> bool {
    (t: nat) => FindControl(o.panel(t), ButtonText).Some?
  }

  /** Whether the completion check passes at a time. */
  function SyncSeen(o: Oracle): nat -> bool {
    (t: nat) => SyncDone(o.page(t))
  }

  /** The click made by a poll that found the control. */
  function ClickAt(o: Oracle, t: nat): Click
    requires FindControl(o.panel(t), ButtonText).Some?
  {
    Click(t, FindControl(o.panel(t), ButtonText).value)
  }

  /** The wait for the relaunch control. */
  function ActivateSpec(o: Oracle, w: World): Polled {
    var p := Poll(ControlSeen(o), o.latency, w.now, ControlWaitMs, w.now);
    PollFacts(ControlSeen(o), o.latency, w.now, ControlWaitMs, w.now);
    if p.found then
      Polled(true, w.(now := p.clock, clicks := w.clicks + [ClickAt(o, Last(p.polls))]))
    else
      Polled(false, w.(now := p.clock))
  }

  /** What the control wait promises. A success means that one poll, begun within the
      30000 ms budget, found an element whose trimmed text is the control's label and
      clicked the first such element; a failure means that no poll found one, nothing
      was clicked, and the budget was spent. Nothing but the clock and clicks changes. */
  lemma ActivateFacts(o: Oracle, w: World)
    ensures var r := ActivateSpec(o, w);
      r.world == w.(now := r.world.now, clicks := r.world.clicks) && r.world.now >= w.now
    ensures var r := ActivateSpec(o, w);
      r.found ==> |r.world.clicks| == |w.clicks| + 1 && r.world.clicks[..|w.clicks|] == w.clicks
    ensures var r := ActivateSpec(o, w);
      r.found ==>
        var c := r.world.clicks[|w.clicks|];
        var panel := o.panel(c.at);
        && w.now <= c.at < w.now + ControlWaitMs
        && c.index < |panel| && Labelled(panel[c.index], ButtonText)
        && forall j | 0 <= j < c.index :: !Labelled(panel[j], ButtonText)
    ensures var r := ActivateSpec(o, w);
      !r.found ==> r.world.clicks == w.clicks && r.world.now - w.now >= ControlWaitMs
    ensures !ActivateSpec(o, w).found ==>
      var p := Poll(ControlSeen(o), o.latency, w.now, ControlWaitMs, w.now);
      forall i | 0 <= i < |p.polls| :: FindControl(o.panel(p.polls[i]), ButtonText).None?
  {
    var p := Poll(ControlSeen(o), o.latency, w.now, ControlWaitMs, w.now);
    PollFacts(ControlSeen(o), o.latency, w.now, ControlWaitMs, w.now);
    if p.found {
      var r := ActivateSpec(o, w);
      FindControlFirstMatch(o.panel(Last(p.polls)), ButtonText);
      assert r.world.clicks == w.clicks + [ClickAt(o, Last(p.polls))];
      assert r.world.clicks[..|w.clicks|] == w.clicks;
    } else {
      forall i | 0 <= i < |p.polls|
        ensures FindControl(o.panel(p.polls[i]), ButtonText).None?
      {
        assert !ControlSeen(o)(p.polls[i]);
      }
    }
  }

  /** The wait for the sync to finish. */
  function AwaitSyncSpec(o: Oracle, w: World): Polled {
    var p := Poll(SyncSeen(o), o.latency, w.now, SyncWaitMs, w.now);
    Polled(p.found, w.(now := p.clock))
  }

  /** What the sync wait promises. A success means that one poll, begun within the 90000
      ms budget, saw no visible element containing the busy text; a failure means that
      every poll saw one and the budget was spent. Only the clock changes. */
  lemma AwaitSyncFacts(o: Oracle, w: World)
    ensures var r := AwaitSyncSpec(o, w);
      r.world == w.(now := r.world.now) && r.world.now >= w.now
    ensures AwaitSyncSpec(o, w).found ==>
      var p := Poll(SyncSeen(o), o.latency, w.now, SyncWaitMs, w.now);
      p.polls != [] && Last(p.polls) - w.now < SyncWaitMs && SyncDone(o.page(Last(p.polls)))
    ensures var r := AwaitSyncSpec(o, w);
      !r.found ==> r.world.now - w.now >= SyncWaitMs
    ensures !AwaitSyncSpec(o, w).found ==>
      var p := Poll(SyncSeen(o), o.latency, w.now, SyncWaitMs, w.now);
      forall i | 0 <= i < |p.polls| :: !SyncDone(o.page(p.polls[i]))
  {
    var p := Poll(SyncSeen(o), o.latency, w.now, SyncWaitMs, w.now);
    PollFacts(SyncSeen(o), o.latency, w.now, SyncWaitMs, w.now);
    if p.found {
      assert SyncSeen(o)(Last(p.polls));
    } else {
      forall i | 0 <= i < |p.polls|
        ensures !SyncDone(o.page(p.polls[i]))
      {
        assert !SyncSeen(o)(p.polls[i]);
      }
    }
  }

  /** One poll of the sync wait begun within its budget: it ends the wait when the sync
      is over, and otherwise is followed, after its evaluation and the sleep, by the
      rest of the wait. */
  lemma SyncPollStep(o: Oracle, start: nat, t: nat, before: seq<nat>)
    requires start <= t && t - start < SyncWaitMs
    ensures SyncDone(o.page(t)) ==>
      After(before, Poll(SyncSeen(o), o.latency, start, SyncWaitMs, t)) == PollOutcome(true, before + [t], t + o.latency(t))
    ensures !SyncDone(o.page(t)) ==>
      After(before, Poll(SyncSeen(o), o.latency, start, SyncWaitMs, t)) ==
      After(before + [t], Poll(SyncSeen(o), o.latency, start, SyncWaitMs, t + o.latency(t) + SleepMs))
  {
    assert SyncSeen(o)(t) == SyncDone(o.page(t));
    PollStep(SyncSeen(o), o.latency, start, SyncWaitMs, t, before);
  }

  /** One poll of the control wait begun within its budget: it ends the wait when the
      control is found, and otherwise is followed, after its evaluation and the sleep, by
      the rest of the wait. */
  lemma ControlPollStep(o: Oracle, start: nat, t: nat, before: seq<nat>)
    requires start <= t && t - start < ControlWaitMs
    ensures FindControl(o.panel(t), ButtonText).Some? ==>
      After(before, Poll(ControlSeen(o), o.latency, start, ControlWaitMs, t)) == PollOutcome(true, before + [t], t + o.latency(t))
    ensures FindControl(o.panel(t), ButtonText).None? ==>
      After(before, Poll(ControlSeen(o), o.latency, start, ControlWaitMs, t)) ==
      After(before + [t], Poll(ControlSeen(o), o.latency, start, ControlWaitMs, t + o.latency(t) + SleepMs))
  {
    assert ControlSeen(o)(t) == FindControl(o.panel(t), ButtonText).Some?;
    PollStep(ControlSeen(o), o.latency, start, ControlWaitMs, t, before);
  }

  // ---------------------------------------------------------------- publishing

  /** Publishing a file of the export directory: read it, remove its key from the bucket
      (whether that took effect is never looked at), upload it under the same key with
      the looked-up content type, and return the key's public URL with the time appended.
      Only that key of the bucket can change; a missing file or an upload error is an
      error and yields no URL; on success the key holds exactly the file's bytes. */
  function PublishSpec(o: Oracle, w: World, fileName: string): Outcome<string>
  {
    if fileName !in w.exportDir then Outcome(Failure(FileError(fileName)), w)
    else
      var data := w.exportDir[fileName];
      var contentType := ContentType(o.mimeLookup(fileName));
      var key := StorageKey(fileName);
      var removed := Awaited(o, w.(bucket := if o.removeOk(key) then w.bucket - {key} else w.bucket));
      var uploaded := Awaited(o, removed);
      match o.uploadError(key)
      case Some(message) => Outcome(Failure(StorageError(message)), uploaded)
      case None =>
        Outcome(Success(CacheBustedUrl(o.publicUrl(key), uploaded.now)),
                uploaded.(bucket := removed.bucket[key := Blob(data, contentType)]))
  }

  /** What publishing promises: only the file's key of the bucket can change; a missing
      file or an upload error is an error and yields no URL; on success the key holds
      exactly the file's bytes with its content type, and the URL is the key's public URL
      with the time appended; a failed upload leaves the key either as it was or
      removed. */
  lemma PublishFacts(o: Oracle, w: World, fileName: string)
    ensures var r := PublishSpec(o, w, fileName);
      r.world == w.(now := r.world.now, bucket := r.world.bucket) && r.world.now >= w.now
    ensures var r := PublishSpec(o, w, fileName);
      r.world.bucket - {StorageKey(fileName)} == w.bucket - {StorageKey(fileName)}
    ensures var r := PublishSpec(o, w, fileName);
      r.result.Success? <==> fileName in w.exportDir && o.uploadError(StorageKey(fileName)).None?
    ensures fileName !in w.exportDir ==> PublishSpec(o, w, fileName) == Outcome(Failure(FileError(fileName)), w)
    ensures var r := PublishSpec(o, w, fileName);
      r.result.Success? ==>
        && r.world.bucket == w.bucket[StorageKey(fileName) :=
                                      Blob(w.exportDir[fileName], ContentType(o.mimeLookup(fileName)))]
        && r.result.value == CacheBustedUrl(o.publicUrl(StorageKey(fileName)), r.world.now)
    ensures var r := PublishSpec(o, w, fileName);
      r.result.Failure? && fileName in w.exportDir ==>
        && r.result.error == StorageError(o.uploadError(StorageKey(fileName)).value)
        && (r.world.bucket == w.bucket || r.world.bucket == w.bucket - {StorageKey(fileName)})
  {
  }

  /** Publishing the same file again right after a successful publish succeeds as well
      (the upload overwrites) and leaves the bucket as it was. */
  lemma PublishIsIdempotent(o: Oracle, w: World, fileName: string)
    requires PublishSpec(o, w, fileName).result.Success?
    ensures var first := PublishSpec(o, w, fileName);
      var second := PublishSpec(o, first.world, fileName);
      second.result.Success? && second.world.bucket == first.world.bucket
  {
  }

  /** The upload is an upsert: whatever the bucket already holds, under the file's key or
      elsewhere, changes neither the result nor the clock, and a success leaves the key
      holding the same object. */
  lemma PublishIgnoresExistingObject(o: Oracle, w: World, fileName: string, bucket: map<string, Blob>)
    ensures PublishSpec(o, w.(bucket := bucket), fileName).result == PublishSpec(o, w, fileName).result
    ensures PublishSpec(o, w.(bucket := bucket), fileName).world.now == PublishSpec(o, w, fileName).world.now
    ensures PublishSpec(o, w, fileName).result.Success? ==>
      PublishSpec(o, w.(bucket := bucket), fileName).world.bucket[StorageKey(fileName)]
        == PublishSpec(o, w, fileName).world.bucket[StorageKey(fileName)]
  {
  }

  /** Whether the removal before the upload takes effect changes neither the result nor
      the clock: its outcome is never checked. */
  lemma PublishIgnoresRemoval(o: Oracle, w: World, fileName: string, removeOk: string -> bool)
    ensures PublishSpec(o.(removeOk := removeOk), w, fileName).result == PublishSpec(o, w, fileName).result
    ensures PublishSpec(o.(removeOk := removeOk), w, fileName).world.now == PublishSpec(o, w, fileName).world.now
  {
    if fileName in w.exportDir {
      var t := w.now + o.latency(w.now);
      assert PublishSpec(o.(removeOk := removeOk), w, fileName).world.now == t + o.latency(t);
      assert PublishSpec(o, w, fileName).world.now == t + o.latency(t);
    }
  }

  // ---------------------------------------------------------------- export loop

  /** A node that was exported: its id, the timestamp in its file name, its bucket key,
      the object uploaded, the time of publishing and the URL returned. */
  datatype Published = Published(nodeId: string, stamp: nat, key: string, blob: Blob, publishedAt: nat, url: string)

  /** `p` records the export of entry `e`: the object under the file name built from the
      node id holds the bytes downloaded from the entry's URL, with the content type
      looked up for that name, and the URL is that key's public URL, cache-busted. */
  predicate PublishedFrom(o: Oracle, e: ImageEntry, p: Published) {
    && p.nodeId == e.nodeId
    && o.download(e.url) == Success(p.blob.data)
    && p.key == StorageKey(FileName(e.nodeId, p.stamp))
    && p.blob.contentType == ContentType(o.mimeLookup(FileName(e.nodeId, p.stamp)))
    && p.url == CacheBustedUrl(o.publicUrl(p.key), p.publishedAt)
  }

  /** The bucket key entry `e` gets when its export begins in `w`: the file name's
      timestamp is read once the download has returned. */
  function EntryKey(o: Oracle, w: World, e: ImageEntry): string {
    StorageKey(FileName(e.nodeId, w.now + o.latency(w.now)))
  }

  /** One pass of the export loop: download the entry's image, write it to the export
      directory under its file name, and publish it. A failed download or upload stops
      here; the file just written is always found again, so a failure is a download or
      storage error. Only the entry's own key of the bucket can change. */
  function ExportEntry(o: Oracle, w: World, e: ImageEntry): Outcome<Published>
  {
    var fetched := Awaited(o, w.(requests := w.requests + [ImageDownload(e.url)]));
    match o.download(e.url)
    case Failure(message) => Outcome(Failure(DownloadError(message)), fetched)
    case Success(data) =>
      var name := FileName(e.nodeId, fetched.now);
      var written := fetched.(exportDir := fetched.exportDir[name := data]);
      var published := PublishSpec(o, written, name);
      match published.result
      case Failure(err) => Outcome(Failure(err), published.world)
      case Success(url) =>
        var blob := Blob(data, ContentType(o.mimeLookup(name)));
        Outcome(Success(Published(e.nodeId, fetched.now, StorageKey(name), blob, published.world.now, url)),
                published.world)
  }

  /** What one pass promises: it neither clicks nor opens or closes the browser, it logs
      exactly its download request, a success publishes its own entry under the key its
      export began with and writes only that key, a failure is a download or storage
      error and at most removes that key. */
  lemma ExportEntryFacts(o: Oracle, w: World, e: ImageEntry)
    ensures var r := ExportEntry(o, w, e);
      r.world.browserOpen == w.browserOpen && r.world.clicks == w.clicks && r.world.now >= w.now
    ensures ExportEntry(o, w, e).world.requests == w.requests + [ImageDownload(e.url)]
    ensures var r := ExportEntry(o, w, e);
      r.result.Success? ==>
        && PublishedFrom(o, e, r.result.value)
        && r.result.value.key == EntryKey(o, w, e)
        && r.world.bucket == w.bucket[r.result.value.key := r.result.value.blob]
    ensures var r := ExportEntry(o, w, e);
      r.result.Failure? ==> r.result.error.DownloadError? || r.result.error.StorageError?
    ensures var r := ExportEntry(o, w, e);
      r.result.Failure? ==> r.world.bucket == w.bucket || r.world.bucket == w.bucket - {EntryKey(o, w, e)}
  {
    var fetched := Awaited(o, w.(requests := w.requests + [ImageDownload(e.url)]));
    if o.download(e.url).Success? {
      var name := FileName(e.nodeId, fetched.now);
      PublishFacts(o, fetched.(exportDir := fetched.exportDir[name := o.download(e.url).value]), name);
    }
  }

  /** One pass writes the downloaded bytes to the export directory under the file name
      built from the node id and the time the download returned, and keeps every other
      file; a failed download writes nothing. */
  lemma ExportEntryWritesFile(o: Oracle, w: World, e: ImageEntry)
    ensures var r := ExportEntry(o, w, e);
      o.download(e.url).Failure? ==> r.world.exportDir == w.exportDir
    ensures var r := ExportEntry(o, w, e);
      o.download(e.url).Success? ==>
        r.world.exportDir == w.exportDir[FileName(e.nodeId, w.now + o.latency(w.now)) := o.download(e.url).value]
  {
    var fetched := Awaited(o, w.(requests := w.requests + [ImageDownload(e.url)]));
    if o.download(e.url).Success? {
      var name := FileName(e.nodeId, fetched.now);
      PublishFacts(o, fetched.(exportDir := fetched.exportDir[name := o.download(e.url).value]), name);
    }
  }

  /** How the export loop over some entries ended: what it published, in order, the
      error that stopped it, if any, and the world it left behind. */
  datatype Progress = Progress(published: seq<Published>, failure: Option<Error>, world: World)

  /** A pass of the export loop over one entry, as a function value; the run is defined
      for any pass, and EntryStep is the script's. */
  type Pass = (World, ImageEntry) -> Outcome<Published>

  /** The script's pass: ExportEntry under the oracle. */
  function EntryStep(o: Oracle): Pass {
    (w: World, e: ImageEntry) => ExportEntry(o, w, e)
  }

  /** The export loop over `entries`, in order, beginning in `w`, with `step` as one pass:
      it stops at the first pass that fails. */
  function ExportLoop(step: Pass, w: World, entries: seq<ImageEntry>): Progress
    decreases |entries|
  {
    if entries == [] then Progress([], None, w)
    else
      var out := step(w, entries[0]);
      match out.result
      case Failure(err) => Progress([], Some(err), out.world)
      case Success(item) =>
        var rest := ExportLoop(step, out.world, entries[1..]);
        Progress([item] + rest.published, rest.failure, rest.world)
  }

  /** The script's export loop over a non-empty list, one pass at a time: the pass over
      the first entry either fails, ending the loop with its error, or publishes an
      object that heads what the rest of the loop publishes. */
  lemma EntryLoopStep(o: Oracle, w: World, entries: seq<ImageEntry>)
    requires entries != []
    ensures var out := ExportEntry(o, w, entries[0]);
      var p := ExportLoop(EntryStep(o), w, entries);
      && (out.result.Failure? ==> p.failure == Some(out.result.error) && p.world == out.world)
      && (out.result.Success? ==>
            var rest := ExportLoop(EntryStep(o), out.world, entries[1..]);
            p == Progress([out.result.value] + rest.published, rest.failure, rest.world))
  {
    assert EntryStep(o)(w, entries[0]) == ExportEntry(o, w, entries[0]);
  }

  /** The URLs of what was published, in order. */
  function Urls(ps: seq<Published>): (urls: seq<string>)
    ensures |urls| == |ps| && forall i | 0 <= i < |ps| :: urls[i] == ps[i].url
  {
    seq(|ps|, i requires 0 <= i < |ps| => ps[i].url)
  }

  /** Publishing one more object appends its URL, and what the rest of the loop
      publishes after it follows both. */
  lemma UrlsAppend(ps: seq<Published>, p: Published, more: seq<Published>)
    ensures Urls(ps + [p]) == Urls(ps) + [p.url]
    ensures ps + ([p] + more) == ps + [p] + more
  {
    assert Urls(ps + [p])[|ps|] == p.url;
  }

  /** The download requests for a list of entries, in order. */
  function Downloads(entries: seq<ImageEntry>): (rs: seq<Request>)
    ensures |rs| == |entries| && forall i | 0 <= i < |entries| :: rs[i] == ImageDownload(entries[i].url)
  {
    seq(|entries|, i requires 0 <= i < |entries| => ImageDownload(entries[i].url))
  }

  /** The bucket after writing the published objects one after the other. */
  function Overlay(bucket: map<string, Blob>, ps: seq<Published>): map<string, Blob>
    decreases |ps|
  {
    if ps == [] then bucket else Overlay(bucket[ps[0].key := ps[0].blob], ps[1..])
  }

  // What the loop lemmas need to know of a pass.

  /** A pass sends exactly the download request of its entry. */
  ghost predicate LogsDownload(step: Pass) {
    forall w: World, e: ImageEntry :: step(w, e).world.requests == w.requests + [ImageDownload(e.url)]
  }

  /** A pass neither clicks nor opens or closes the browser. */
  ghost predicate KeepsPage(step: Pass) {
    forall w: World, e: ImageEntry ::
      step(w, e).world.browserOpen == w.browserOpen && step(w, e).world.clicks == w.clicks
  }

  /** A successful pass publishes its own entry. */
  ghost predicate Records(o: Oracle, step: Pass) {
    forall w: World, e: ImageEntry ::
      step(w, e).result.Success? ==> PublishedFrom(o, e, step(w, e).result.value)
  }

  /** A successful pass writes its object to the bucket and nothing else. */
  ghost predicate StoresItem(step: Pass) {
    forall w: World, e: ImageEntry :: step(w, e).result.Success? ==>
      step(w, e).world.bucket == w.bucket[step(w, e).result.value.key := step(w, e).result.value.blob]
  }

  /** A pass fails only with a download or storage error. */
  ghost predicate FailsInTransfer(step: Pass) {
    forall w: World, e: ImageEntry :: step(w, e).result.Failure? ==>
      step(w, e).result.error.DownloadError? || step(w, e).result.error.StorageError?
  }

  /** The script's pass logs its download request and nothing else. */
  lemma EntryStepLogsDownload(o: Oracle)
    ensures LogsDownload(EntryStep(o))
  {
    forall w: World, e: ImageEntry
      ensures EntryStep(o)(w, e).world.requests == w.requests + [ImageDownload(e.url)]
    {
      ExportEntryFacts(o, w, e);
    }
  }

  /** The script's pass neither clicks nor opens or closes the browser. */
  lemma EntryStepKeepsPage(o: Oracle)
    ensures KeepsPage(EntryStep(o))
  {
    forall w: World, e: ImageEntry
      ensures EntryStep(o)(w, e).world.browserOpen == w.browserOpen
      ensures EntryStep(o)(w, e).world.clicks == w.clicks
    {
      ExportEntryFacts(o, w, e);
    }
  }

  /** A successful pass of the script publishes its own entry. */
  lemma EntryStepRecords(o: Oracle)
    ensures Records(o, EntryStep(o))
  {
    forall w: World, e: ImageEntry | EntryStep(o)(w, e).result.Success?
      ensures PublishedFrom(o, e, EntryStep(o)(w, e).result.value)
    {
      ExportEntryFacts(o, w, e);
    }
  }

  /** A successful pass of the script writes its object to the bucket and nothing else. */
  lemma EntryStepStoresItem(o: Oracle)
    ensures StoresItem(EntryStep(o))
  {
    forall w: World, e: ImageEntry | EntryStep(o)(w, e).result.Success?
      ensures var r := EntryStep(o)(w, e);
        r.world.bucket == w.bucket[r.result.value.key := r.result.value.blob]
    {
      ExportEntryFacts(o, w, e);
    }
  }

  /** A pass of the script fails only with a download or storage error. */
  lemma EntryStepFailsInTransfer(o: Oracle)
    ensures FailsInTransfer(EntryStep(o))
  {
    forall w: World, e: ImageEntry | EntryStep(o)(w, e).result.Failure?
      ensures EntryStep(o)(w, e).result.error.DownloadError? || EntryStep(o)(w, e).result.error.StorageError?
    {
      ExportEntryFacts(o, w, e);
    }
  }

  /** A failed pass of the script at most removes its own key. */
  lemma EntryStepFailureRemovesAtMost(o: Oracle)
    ensures FailureRemovesAtMost(o, EntryStep(o))
  {
    forall w: World, e: ImageEntry | EntryStep(o)(w, e).result.Failure?
      ensures EntryStep(o)(w, e).world.bucket == w.bucket ||
              EntryStep(o)(w, e).world.bucket == w.bucket - {EntryKey(o, w, e)}
    {
      ExportEntryFacts(o, w, e);
    }
  }

  /** The export loop's pass has all of the properties above. */
  lemma EntryStepBehaves(o: Oracle)
    ensures LogsDownload(EntryStep(o)) && KeepsPage(EntryStep(o)) && Records(o, EntryStep(o))
    ensures StoresItem(EntryStep(o)) && FailsInTransfer(EntryStep(o)) && FailureRemovesAtMost(o, EntryStep(o))
  {
    EntryStepLogsDownload(o);
    EntryStepKeepsPage(o);
    EntryStepRecords(o);
    EntryStepStoresItem(o);
    EntryStepFailsInTransfer(o);
    EntryStepFailureRemovesAtMost(o);
  }

  /** The export loop publishes at most one object per entry, and it finishes without
      failure exactly when it published one for every entry. */
  lemma {:induction false} ExportLoopCount(step: Pass, w: World, entries: seq<ImageEntry>)
    ensures var p := ExportLoop(step, w, entries);
      |p.published| <= |entries| && (p.failure.None? <==> |p.published| == |entries|)
    decreases |entries|
  {
    if entries != [] {
      var out := step(w, entries[0]);
      if out.result.Success? {
        ExportLoopCount(step, out.world, entries[1..]);
      }
    }
  }

  /** The export loop stops only on a failed download or upload. */
  lemma {:induction false} ExportLoopFailure(step: Pass, w: World, entries: seq<ImageEntry>)
    requires FailsInTransfer(step)
    ensures var p := ExportLoop(step, w, entries);
      p.failure.Some? ==> p.failure.value.DownloadError? || p.failure.value.StorageError?
    decreases |entries|
  {
    if entries != [] {
      var out := step(w, entries[0]);
      if out.result.Success? {
        ExportLoopFailure(step, out.world, entries[1..]);
      }
    }
  }

  /** The export loop neither clicks nor closes the browser. */
  lemma {:induction false} ExportLoopFrame(step: Pass, w: World, entries: seq<ImageEntry>)
    requires KeepsPage(step)
    ensures var p := ExportLoop(step, w, entries);
      p.world.browserOpen == w.browserOpen && p.world.clicks == w.clicks
    decreases |entries|
  {
    if entries != [] {
      var out := step(w, entries[0]);
      if out.result.Success? {
        ExportLoopFrame(step, out.world, entries[1..]);
      }
    }
  }

  /** The export loop publishes entries in order: its j-th publication records the j-th
      entry, with the bytes downloaded for that entry. */
  lemma {:induction false} ExportLoopPublishesInOrder(o: Oracle, step: Pass, w: World, entries: seq<ImageEntry>)
    requires Records(o, step)
    ensures var p := ExportLoop(step, w, entries);
      |p.published| <= |entries| &&
      forall j | 0 <= j < |p.published| :: PublishedFrom(o, entries[j], p.published[j])
    decreases |entries|
  {
    if entries != [] {
      var out := step(w, entries[0]);
      if out.result.Success? {
        var rest := ExportLoop(step, out.world, entries[1..]);
        ExportLoopPublishesInOrder(o, step, out.world, entries[1..]);
        var p := ExportLoop(step, w, entries);
        forall j | 0 <= j < |p.published|
          ensures PublishedFrom(o, entries[j], p.published[j])
        {
          if j > 0 {
            assert p.published[j] == rest.published[j - 1];
            assert entries[j] == entries[1..][j - 1];
          }
        }
      }
    }
  }

  /** The number of entries the export loop got to: those it published, and the one
      whose pass failed. */
  function Attempted(p: Progress): nat {
    |p.published| + if p.failure.Some? then 1 else 0
  }

  /** The downloads of the first `m + 1` entries: the first entry's, then those of the
      next `m`. */
  lemma DownloadsCons(entries: seq<ImageEntry>, m: nat)
    requires m < |entries|
    ensures Downloads(entries[..m + 1]) == [ImageDownload(entries[0].url)] + Downloads(entries[1..][..m])
  {
    var d, tail := Downloads(entries[..m + 1]), Downloads(entries[1..][..m]);
    assert forall i | 1 <= i <= m :: d[i] == tail[i - 1];
  }

  /** Requests that logged the first entry's download and then the downloads of `m` more
      entries are the downloads of the first `m + 1` entries. */
  lemma DownloadsPrefix(before: seq<Request>, entries: seq<ImageEntry>, m: nat, after: seq<Request>)
    requires m < |entries|
    requires after == before + [ImageDownload(entries[0].url)] + Downloads(entries[1..][..m])
    ensures after == before + Downloads(entries[..m + 1])
  {
    DownloadsCons(entries, m);
    var head, tail := [ImageDownload(entries[0].url)], Downloads(entries[1..][..m]);
    assert before + head + tail == before + (head + tail);
  }

  /** The export loop requests each entry's image once, in entry order, up to and
      including the entry whose pass failed. */
  lemma {:induction false} ExportLoopRequests(step: Pass, w: World, entries: seq<ImageEntry>)
    requires LogsDownload(step)
    ensures var p := ExportLoop(step, w, entries);
      Attempted(p) <= |entries| && p.world.requests == w.requests + Downloads(entries[..Attempted(p)])
    decreases |entries|
  {
    ExportLoopCount(step, w, entries);
    if entries == [] {
      assert Downloads(entries[..0]) == [];
    } else {
      var out := step(w, entries[0]);
      assert out.world.requests == w.requests + [ImageDownload(entries[0].url)];
      if out.result.Success? {
        ExportLoopRequests(step, out.world, entries[1..]);
        var rest := ExportLoop(step, out.world, entries[1..]);
        DownloadsPrefix(w.requests, entries, Attempted(rest), rest.world.requests);
      } else {
        assert Downloads(entries[..1]) == [ImageDownload(entries[0].url)];
      }
    }
  }

  /** After a loop without failure the bucket is the starting bucket with every
      published object written in order. */
  lemma {:induction false} ExportLoopStoresInOrder(step: Pass, w: World, entries: seq<ImageEntry>)
    requires StoresItem(step)
    requires ExportLoop(step, w, entries).failure.None?
    ensures var p := ExportLoop(step, w, entries);
      p.world.bucket == Overlay(w.bucket, p.published)
    decreases |entries|
  {
    if entries != [] {
      var out := step(w, entries[0]);
      var rest := ExportLoop(step, out.world, entries[1..]);
      ExportLoopStoresInOrder(step, out.world, entries[1..]);
      assert ([out.result.value] + rest.published)[1..] == rest.published;
    }
  }

  /** A loop that failed is its successful prefix followed by one failed pass. */
  lemma {:induction false} ExportLoopFailsAfterPrefix(step: Pass, w: World, entries: seq<ImageEntry>)
    requires ExportLoop(step, w, entries).failure.Some?
    ensures var p := ExportLoop(step, w, entries);
      var n := |p.published|;
      && n < |entries|
      && var mid := ExportLoop(step, w, entries[..n]);
      && mid.failure.None? && mid.published == p.published
      && step(mid.world, entries[n]) == Outcome(Failure(p.failure.value), p.world)
    decreases |entries|
  {
    ExportLoopCount(step, w, entries);
    var out := step(w, entries[0]);
    match out.result
    case Failure(err) => {
      assert entries[..0] == [];
    }
    case Success(item) => {
      ExportLoopFailsAfterPrefix(step, out.world, entries[1..]);
      var n := |ExportLoop(step, w, entries).published|;
      assert entries[1..][..n - 1] == entries[..n][1..];
      assert entries[1..][n - 1] == entries[n];
    }
  }

  /** A key written by the last of a run of writes that touches it holds that write. */
  lemma {:induction false} OverlayKeepsLastWrite(bucket: map<string, Blob>, ps: seq<Published>, k: nat)
    requires k < |ps|
    requires forall j | k < j < |ps| :: ps[j].key != ps[k].key
    ensures ps[k].key in Overlay(bucket, ps) && Overlay(bucket, ps)[ps[k].key] == ps[k].blob
    decreases |ps|
  {
    if k == 0 {
      OverlayKeepsUntouched(bucket[ps[0].key := ps[0].blob], ps[1..], ps[0].key);
    } else {
      OverlayKeepsLastWrite(bucket[ps[0].key := ps[0].blob], ps[1..], k - 1);
    }
  }

  /** A key no write touches keeps its value. */
  lemma {:induction false} OverlayKeepsUntouched(bucket: map<string, Blob>, ps: seq<Published>, key: string)
    requires forall j | 0 <= j < |ps| :: ps[j].key != key
    ensures key in Overlay(bucket, ps) <==> key in bucket
    ensures key in bucket ==> Overlay(bucket, ps)[key] == bucket[key]
    decreases |ps|
  {
    if ps != [] {
      OverlayKeepsUntouched(bucket[ps[0].key := ps[0].blob], ps[1..], key);
    }
  }

  /** A pass may remove its own entry's key from the bucket before it fails, and
      touches nothing else. */
  ghost predicate FailureRemovesAtMost(o: Oracle, step: Pass) {
    forall w: World, e: ImageEntry :: step(w, e).result.Failure? ==>
      step(w, e).world.bucket == w.bucket || step(w, e).world.bucket == w.bucket - {EntryKey(o, w, e)}
  }

  /** A loop that failed leaves everything it published before the failure in the
      bucket, except that the failing pass may have removed its own key. */
  lemma ExportLoopFailureKeepsEarlier(o: Oracle, step: Pass, w: World, entries: seq<ImageEntry>)
    requires StoresItem(step) && FailureRemovesAtMost(o, step)
    requires ExportLoop(step, w, entries).failure.Some?
    ensures var p := ExportLoop(step, w, entries);
      var n := |p.published|;
      var before := Overlay(w.bucket, p.published);
      && n < |entries|
      && (p.world.bucket == before ||
          p.world.bucket == before - {EntryKey(o, ExportLoop(step, w, entries[..n]).world, entries[n])})
  {
    var p := ExportLoop(step, w, entries);
    ExportLoopFailsAfterPrefix(step, w, entries);
    var mid := ExportLoop(step, w, entries[..|p.published|]);
    ExportLoopStoresInOrder(step, w, entries[..|p.published|]);
  }

  /** The rendering request for the configured nodes at a version, stamped `ts`: its
      `ids` parameter is the parsed node-id list joined with commas. */
  function ImagesRequestFor(cfg: Config, version: string, ts: nat): Request {
    ImagesRequest(cfg.fileKey, NodeIdsParam(cfg.nodeIdsEnv), Format, version, ts)
  }

  /** Rendering and publishing: one batched request for every configured node at the
      given version, stamped with the current time, then the export loop over the
      returned entries; the URLs of what it published, or the error that stopped it. */
  function ExportSpec(o: Oracle, step: Pass, cfg: Config, w: World, version: string): Outcome<seq<string>> {
    var request := ImagesRequestFor(cfg, version, w.now);
    var asked := Awaited(o, w.(requests := w.requests + [request]));
    match o.images(request)
    case Failure(message) => Outcome(Failure(ApiError(message)), asked)
    case Success(entries) =>
      var p := ExportLoop(step, asked, entries);
      Outcome(if p.failure.Some? then Failure(p.failure.value) else Success(Urls(p.published)), p.world)
  }

  /** The export neither clicks nor opens or closes the browser. */
  lemma ExportKeepsPage(o: Oracle, step: Pass, cfg: Config, w: World, version: string)
    requires KeepsPage(step)
    ensures var r := ExportSpec(o, step, cfg, w, version);
      r.world.browserOpen == w.browserOpen && r.world.clicks == w.clicks
  {
    var request := ImagesRequestFor(cfg, version, w.now);
    if o.images(request).Success? {
      ExportLoopFrame(step, Awaited(o, w.(requests := w.requests + [request])), o.images(request).value);
    }
  }

  /** A failed rendering request stops the export with an API error, before any download
      and with the bucket untouched; otherwise the export fails only on a download or an
      upload. */
  lemma ExportFailures(o: Oracle, step: Pass, cfg: Config, w: World, version: string)
    requires FailsInTransfer(step)
    ensures var r := ExportSpec(o, step, cfg, w, version);
      var request := ImagesRequestFor(cfg, version, w.now);
      && (o.images(request).Failure? ==>
            && r.result == Failure(ApiError(o.images(request).error))
            && r.world.requests == w.requests + [request] && r.world.bucket == w.bucket)
      && (o.images(request).Success? && r.result.Failure? ==>
            r.result.error.DownloadError? || r.result.error.StorageError?)
  {
    var request := ImagesRequestFor(cfg, version, w.now);
    if o.images(request).Success? {
      ExportLoopFailure(step, Awaited(o, w.(requests := w.requests + [request])), o.images(request).value);
    }
  }

  /** A successful export sent the rendering request and then one download per returned
      entry, in order, and returned one URL per entry. */
  lemma ExportRequests(o: Oracle, step: Pass, cfg: Config, w: World, version: string)
    requires LogsDownload(step)
    requires ExportSpec(o, step, cfg, w, version).result.Success?
    ensures var r := ExportSpec(o, step, cfg, w, version);
      var request := ImagesRequestFor(cfg, version, w.now);
      && o.images(request).Success?
      && |r.result.value| == |o.images(request).value|
      && r.world.requests == w.requests + [request] + Downloads(o.images(request).value)
  {
    var request := ImagesRequestFor(cfg, version, w.now);
    var asked := Awaited(o, w.(requests := w.requests + [request]));
    var entries := o.images(request).value;
    ExportLoopCount(step, asked, entries);
    ExportLoopRequests(step, asked, entries);
    assert entries[..|entries|] == entries;
  }

  /** `published` is what a successful export of `entries` published: one object per
      entry, in order, each recording its entry; the URLs returned are theirs, and the
      bucket is `before` with every object written in that order. */
  ghost predicate PublishedAll(o: Oracle, entries: seq<ImageEntry>, before: map<string, Blob>,
                               published: seq<Published>, r: Outcome<seq<string>>) {
    && |published| == |entries|
    && (forall j | 0 <= j < |entries| :: PublishedFrom(o, entries[j], published[j]))
    && r.result == Success(Urls(published))
    && r.world.bucket == Overlay(before, published)
  }

  /** A successful export published every returned entry, in order, and the bucket holds
      exactly what it wrote on top of what it held before. */
  lemma ExportPublishesEveryEntry(o: Oracle, step: Pass, cfg: Config, w: World, version: string)
    requires Records(o, step) && StoresItem(step)
    requires ExportSpec(o, step, cfg, w, version).result.Success?
    ensures var request := ImagesRequestFor(cfg, version, w.now);
      && o.images(request).Success?
      && exists published :: PublishedAll(o, o.images(request).value, w.bucket, published, ExportSpec(o, step, cfg, w, version))
  {
    var request := ImagesRequestFor(cfg, version, w.now);
    var asked := Awaited(o, w.(requests := w.requests + [request]));
    var entries := o.images(request).value;
    var p := ExportLoop(step, asked, entries);
    ExportLoopCount(step, asked, entries);
    ExportLoopPublishesInOrder(o, step, asked, entries);
    ExportLoopStoresInOrder(step, asked, entries);
    assert PublishedAll(o, entries, w.bucket, p.published, ExportSpec(o, step, cfg, w, version));
  }

  // ---------------------------------------------------------------- the whole run

  /** The world once the page has settled and the file's metadata request has returned. */
  function VersionAsked(o: Oracle, cfg: Config, w: World): World {
    var settled := w.(now := w.now + SettleMs);
    Awaited(o, settled.(requests := settled.requests + [FileRequest(cfg.fileKey)]))
  }

  /** The run after the sync: settle, fetch the file's version as it stands when the
      metadata request is sent after the settle, export at that version, and close the
      browser once the export has succeeded. */
  function FetchAndExport(o: Oracle, step: Pass, cfg: Config, w: World): Outcome<seq<string>> {
    var asked := VersionAsked(o, cfg, w);
    match o.version(w.now + SettleMs)
    case Failure(message) => Outcome(Failure(ApiError(message)), asked)
    case Success(version) =>
      var exported := ExportSpec(o, step, cfg, asked, version);
      if exported.result.Failure? then exported
      else Outcome(exported.result, Awaited(o, exported.world).(browserOpen := false))
  }

  /** After the sync nothing more is clicked; the browser is closed after a successful
      export and left as it was after a failure. */
  lemma FetchKeepsPage(o: Oracle, step: Pass, cfg: Config, w: World)
    requires KeepsPage(step)
    ensures var r := FetchAndExport(o, step, cfg, w);
      && r.world.clicks == w.clicks
      && (r.result.Success? ==> !r.world.browserOpen)
      && (r.result.Failure? ==> r.world.browserOpen == w.browserOpen)
  {
    if o.version(w.now + SettleMs).Success? {
      var asked := Awaited(o, w.(now := w.now + SettleMs).(requests := w.requests + [FileRequest(cfg.fileKey)]));
      ExportKeepsPage(o, step, cfg, asked, o.version(w.now + SettleMs).value);
    }
  }

  /** A failed metadata request stops the run before any rendering request, with the
      bucket untouched; otherwise the run fails only on the rendering request, a
      download or an upload. */
  lemma FetchFailures(o: Oracle, step: Pass, cfg: Config, w: World)
    requires FailsInTransfer(step)
    ensures var r := FetchAndExport(o, step, cfg, w);
      && (o.version(w.now + SettleMs).Failure? ==>
            && r.result == Failure(ApiError(o.version(w.now + SettleMs).error))
            && r.world.requests == w.requests + [FileRequest(cfg.fileKey)] && r.world.bucket == w.bucket)
      && (r.result.Failure? ==>
            r.result.error.ApiError? || r.result.error.DownloadError? || r.result.error.StorageError?)
  {
    if o.version(w.now + SettleMs).Success? {
      var asked := Awaited(o, w.(now := w.now + SettleMs).(requests := w.requests + [FileRequest(cfg.fileKey)]));
      ExportFailures(o, step, cfg, asked, o.version(w.now + SettleMs).value);
    }
  }

  /** `r` is a successful export that sent, after `before`, the metadata request at time
      `t`, then the rendering request for the version that request returned, stamped
      with the time its response arrived and naming the `NODE_IDS` variable's nodes (the
      root node "0:1" when the variable is unset or empty), then one download per
      returned entry in order, and that returned one URL per entry. */
  ghost predicate SentForExport(o: Oracle, cfg: Config, before: seq<Request>, t: nat, r: Outcome<seq<string>>) {
    && o.version(t).Success?
    && var images := ImagesRequestFor(cfg, o.version(t).value, Answered(o, t));
    && images.version == o.version(t).value && images.ts == Answered(o, t)
    && (cfg.nodeIdsEnv.Some? && cfg.nodeIdsEnv.value != [] ==> images.ids == cfg.nodeIdsEnv.value)
    && (cfg.nodeIdsEnv.None? || cfg.nodeIdsEnv.value == [] ==> images.ids == DefaultNodeId)
    && Split(images.ids, ',') == ParseNodeIds(cfg.nodeIdsEnv)
    && o.images(images).Success?
    && r.result.Success?
    && |r.result.value| == |o.images(images).value|
    && r.world.requests == before + [FileRequest(cfg.fileKey), images] + Downloads(o.images(images).value)
  }

  /** A successful export sent the metadata request once the settle was over, then the
      rendering request for the version it returned, stamped with the time that response
      arrived, then the downloads. */
  lemma FetchAndExportSends(o: Oracle, step: Pass, cfg: Config, w: World)
    requires LogsDownload(step)
    requires FetchAndExport(o, step, cfg, w).result.Success?
    ensures SentForExport(o, cfg, w.requests, w.now + SettleMs, FetchAndExport(o, step, cfg, w))
  {
    var asked := Awaited(o, w.(now := w.now + SettleMs).(requests := w.requests + [FileRequest(cfg.fileKey)]));
    var version := o.version(w.now + SettleMs).value;
    ExportRequests(o, step, cfg, asked, version);
    var images := ImagesRequestFor(cfg, version, asked.now);
    assert asked.requests + [images] == w.requests + [FileRequest(cfg.fileKey), images];
  }

  /** A run: open the page, wait for the relaunch control and click it, wait for the
      sync, then fetch the version and export. Each stage runs only if the previous one
      succeeded; the browser is closed only after a successful export. */
  function RunSpec(o: Oracle, step: Pass, cfg: Config, w: World): Outcome<seq<string>> {
    var launched := Awaited(o, w.(browserOpen := true));
    if o.launch.Some? then Outcome(Failure(LaunchError(o.launch.value)), Awaited(o, w))
    else if o.navigation.Some? then Outcome(Failure(NavigationError(o.navigation.value)), launched)
    else
      var activated := ActivateSpec(o, launched);
      if !activated.found then Outcome(Failure(ControlNotFound), activated.world)
      else
        var synced := AwaitSyncSpec(o, activated.world);
        if !synced.found then Outcome(Failure(SyncTimeout), synced.world)
        else FetchAndExport(o, step, cfg, synced.world)
  }

  /** A browser that fails to launch leaves nothing open and changes nothing but the
      clock; once the browser has launched, it is left open exactly when the run fails. */
  lemma RunClosesBrowserOnlyOnSuccess(o: Oracle, step: Pass, cfg: Config, w: World)
    requires KeepsPage(step)
    ensures var r := RunSpec(o, step, cfg, w);
      o.launch.Some? ==> r.result == Failure(LaunchError(o.launch.value)) && r.world == w.(now := r.world.now)
    ensures o.launch.None? ==>
      (RunSpec(o, step, cfg, w).world.browserOpen <==> RunSpec(o, step, cfg, w).result.Failure?)
  {
    var launched := Awaited(o, w.(browserOpen := true));
    var activated := ActivateSpec(o, launched);
    ActivateFacts(o, launched);
    AwaitSyncFacts(o, activated.world);
    FetchKeepsPage(o, step, cfg, AwaitSyncSpec(o, activated.world).world);
  }

  /** A run fails for want of the relaunch control exactly when the page opened and no
      poll of the control wait found it; then nothing was clicked, no request was sent,
      the bucket is untouched, the browser is still open, and the whole 30000 ms budget
      has elapsed since the page launched. */
  lemma RunControlNotFound(o: Oracle, step: Pass, cfg: Config, w: World)
    requires FailsInTransfer(step)
    ensures var r := RunSpec(o, step, cfg, w);
      var launched := Awaited(o, w.(browserOpen := true));
      && (r.result == Failure(ControlNotFound) <==>
            o.launch.None? && o.navigation.None? && !ActivateSpec(o, launched).found)
      && (r.result == Failure(ControlNotFound) ==>
            && r.world.clicks == w.clicks && r.world.requests == w.requests
            && r.world.bucket == w.bucket && r.world.browserOpen
            && r.world.now - launched.now >= ControlWaitMs)
  {
    var launched := Awaited(o, w.(browserOpen := true));
    var activated := ActivateSpec(o, launched);
    ActivateFacts(o, launched);
    AwaitSyncFacts(o, activated.world);
    FetchFailures(o, step, cfg, AwaitSyncSpec(o, activated.world).world);
  }

  /** A run that times out waiting for the sync clicked the control once, sent no
      request, left the bucket untouched and the browser open, and saw a visible busy
      element at every poll of the sync wait. */
  lemma RunSyncTimeout(o: Oracle, step: Pass, cfg: Config, w: World)
    requires FailsInTransfer(step)
    requires RunSpec(o, step, cfg, w).result == Failure(SyncTimeout)
    ensures var r := RunSpec(o, step, cfg, w);
      var activated := ActivateSpec(o, Awaited(o, w.(browserOpen := true)));
      var p := Poll(SyncSeen(o), o.latency, activated.world.now, SyncWaitMs, activated.world.now);
      && |r.world.clicks| == |w.clicks| + 1
      && r.world.requests == w.requests && r.world.bucket == w.bucket && r.world.browserOpen
      && r.world.now - activated.world.now >= SyncWaitMs
      && forall i | 0 <= i < |p.polls| :: !SyncDone(o.page(p.polls[i]))
  {
    var launched := Awaited(o, w.(browserOpen := true));
    var activated := ActivateSpec(o, launched);
    ActivateFacts(o, launched);
    AwaitSyncFacts(o, activated.world);
    FetchFailures(o, step, cfg, AwaitSyncSpec(o, activated.world).world);
  }

  /** A successful run found the control and clicked it once, saw the sync finish, and
      then, 15000 ms after the sync wait ended, sent exactly one metadata request; then
      exactly one batched rendering request carrying the configured node ids and the
      version that metadata request returned, then one download per returned entry in
      order. It returns one URL per entry and has closed the browser. */
  lemma RunSuccess(o: Oracle, step: Pass, cfg: Config, w: World)
    requires KeepsPage(step) && LogsDownload(step)
    requires RunSpec(o, step, cfg, w).result.Success?
    ensures var r := RunSpec(o, step, cfg, w);
      var activated := ActivateSpec(o, Awaited(o, w.(browserOpen := true)));
      var synced := AwaitSyncSpec(o, activated.world);
      && o.launch.None? && o.navigation.None? && activated.found && synced.found
      && |r.world.clicks| == |w.clicks| + 1
      && !r.world.browserOpen
      && SentForExport(o, cfg, w.requests, synced.world.now + SettleMs, r)
  {
    var launched := Awaited(o, w.(browserOpen := true));
    var activated := ActivateSpec(o, launched);
    var synced := AwaitSyncSpec(o, activated.world);
    ActivateFacts(o, launched);
    AwaitSyncFacts(o, activated.world);
    FetchKeepsPage(o, step, cfg, synced.world);
    FetchAndExportSends(o, step, cfg, synced.world);
    assert SentForExport(o, cfg, w.requests, synced.world.now + SettleMs, FetchAndExport(o, step, cfg, synced.world));
  }
}
