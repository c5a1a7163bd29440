/** The export script as it runs: a runtime object holding the state the script changes
    (the clock, the browser, the clicks on the page, the requests sent, the bucket and
    the export directory), and one method per step of the script that changes it in
    place. Every method is proved to leave exactly the state, and return exactly the
    result, that the corresponding function of module Pipeline describes. */
module Exporter {
  import opened Wrappers
  import opened Naming
  import opened Dom
  import opened Polling
  import opened Pipeline

  class Runtime {
    /** The outside world the script talks to. */
    const env: Oracle
    /** `FILE_KEY` and the `NODE_IDS` variable. */
    const config: Config

    var now: nat
    var browserOpen: bool
    var clicks: seq<Click>
    var requests: seq<Request>
    var bucket: map<string, Blob>
    var exportDir: map<string, seq<byte>>

    /** The runtime's state as a value. */
    function State(): World
      reads this
    {
      World(now, browserOpen, clicks, requests, bucket, exportDir)
    }

    constructor (env: Oracle, config: Config, w: World)
      ensures this.env == env && this.config == config && State() == w
    {
      this.env := env;
      this.config := config;
      now := w.now;
      browserOpen := w.browserOpen;
      clicks := w.clicks;
      requests := w.requests;
      bucket := w.bucket;
      exportDir := w.exportDir;
    }

    /** Waiting for an external call to return: the clock advances by its latency. */
    method Await()
      modifies this`now
      ensures now == old(now) + env.latency(old(now))
      ensures State() == Awaited(env, old(State()))
    {
      now := now + env.latency(now);
    }

    /** `await new Promise(res => setTimeout(res, ms))`. */
    method Sleep(ms: nat)
      modifies this`now
      ensures now == old(now) + ms
      ensures State() == old(State()).(now := old(now) + ms)
    {
      now := now + ms;
    }

    /** `uploadToSupabase`: read the file, remove its key, upload it under the same key
        with its content type, and return the cache-busted public URL. */
    method UploadToSupabase(fileName: string) returns (r: Result<string, Error>)
      modifies this
      ensures Outcome(r, State()) == PublishSpec(env, old(State()), fileName)
    {
      if fileName !in exportDir {
        return Failure(FileError(fileName));
      }
      var fileBuffer := exportDir[fileName];
      var contentType := ContentType(env.mimeLookup(fileName));
      var key := StorageKey(fileName);
      if env.removeOk(key) {
        bucket := bucket - {key};
      }
      Await();
      Await();
      match env.uploadError(key)
      case Some(message) =>
        return Failure(StorageError(message));
      case None =>
      bucket := bucket[key := Blob(fileBuffer, contentType)];
      r := Success(CacheBustedUrl(env.publicUrl(key), now));
    }

    /** The body of the export loop for one entry: download the image, write it to the
        export directory under its file name, and upload it. */
    method ExportImage(e: ImageEntry) returns (r: Result<Published, Error>)
      modifies this
      ensures Outcome(r, State()) == ExportEntry(env, old(State()), e)
    {
      requests := requests + [ImageDownload(e.url)];
      Await();
      match env.download(e.url)
      case Failure(message) =>
        return Failure(DownloadError(message));
      case Success(data) =>
      var stamp := now;
      var fileName := FileName(e.nodeId, stamp);
      exportDir := exportDir[fileName := data];
      var uploaded := UploadToSupabase(fileName);
      match uploaded
      case Failure(err) =>
        return Failure(err);
      case Success(url) =>
      var blob := Blob(data, ContentType(env.mimeLookup(fileName)));
      r := Success(Published(e.nodeId, stamp, StorageKey(fileName), blob, now, url));
    }

    /** `exportFromFigmaAPI`: one rendering request for every configured node at
        `version`, then the export loop over the returned entries, stopping at the first
        failure. */
    method ExportFromFigmaApi(version: string) returns (r: Result<seq<string>, Error>)
      modifies this
      ensures Outcome(r, State()) == ExportSpec(env, EntryStep(env), config, old(State()), version)
    {
      var request := ImagesRequestFor(config, version, now);
      requests := requests + [request];
      Await();
      if env.images(request).Failure? {
        return Failure(ApiError(env.images(request).error));
      }
      var images := env.images(request).value;
      ghost var final := ExportLoop(EntryStep(env), State(), images);
      ghost var published: seq<Published> := [];
      var uploadedUrls: seq<string> := [];
      for i := 0 to |images|
        invariant uploadedUrls == Urls(published)
        invariant var rest := ExportLoop(EntryStep(env), State(), images[i..]);
          final == Progress(published + rest.published, rest.failure, rest.world)
      {
        EntryLoopStep(env, State(), images[i..]);
        assert images[i..][1..] == images[i + 1..];
        var item := ExportImage(images[i]);
        match item
        case Failure(err) =>
          return Failure(err);
        case Success(p) =>
        ghost var rest := ExportLoop(EntryStep(env), State(), images[i + 1..]);
        UrlsAppend(published, p, rest.published);
        published := published + [p];
        uploadedUrls := uploadedUrls + [p.url];
      }
      assert published + [] == published;
      return Success(uploadedUrls);
    }

    /** The loop of the wait for the relaunch control, begun at `start`: poll the panel
        every second until an element's trimmed text is the control's label or 30
        seconds have passed. It returns whether the control was found, the clock when
        the loop ended and the click on the element found. The loop changes nothing
        outside itself; it follows the clock in a local variable. */
    method PollControl(start: nat) returns (found: bool, clock: nat, click: Click)
      ensures var p := Poll(ControlSeen(env), env.latency, start, ControlWaitMs, start);
        && found == p.found && clock == p.clock
        && (found ==> p.polls != [] && FindControl(env.panel(Last(p.polls)), ButtonText).Some?
                      && click == ClickAt(env, Last(p.polls)))
    {
      clock := start;
      click := Click(0, 0);
      ghost var whole := Poll(ControlSeen(env), env.latency, start, ControlWaitMs, start);
      ghost var polls: seq<nat> := [];
      found := false;
      while !found && clock - start < ControlWaitMs
        invariant start <= clock
        invariant !found ==> whole == After(polls, Poll(ControlSeen(env), env.latency, start, ControlWaitMs, clock))
        invariant found ==>
          && whole == PollOutcome(true, polls, clock) && polls != []
          && FindControl(env.panel(Last(polls)), ButtonText).Some?
          && click == ClickAt(env, Last(polls))
        decreases if found then 0 else 1, start + ControlWaitMs - clock
      {
        var t := clock;
        var index := FindControl(env.panel(t), ButtonText);
        ControlPollStep(env, start, t, polls);
        if index.Some? {
          click := Click(t, index.value);
        }
        clock := clock + env.latency(clock);
        found := index.Some?;
        polls := polls + [t];
        if !found {
          clock := clock + SleepMs;
        }
      }
      if !found {
        PollExhausted(ControlSeen(env), env.latency, start, ControlWaitMs, clock, polls);
      }
    }

    /** The wait for the relaunch control: poll, and when the control was found, record
        the click on it; the clock ends where the loop ended. */
    method ActivateControl() returns (pluginClicked: bool)
      modifies this
      ensures Polled(pluginClicked, State()) == ActivateSpec(env, old(State()))
    {
      var clock, click;
      pluginClicked, clock, click := PollControl(now);
      if pluginClicked {
        clicks := clicks + [click];
      }
      now := clock;
    }

    /** The loop of the wait for the sync, begun at `start`: poll the page every second
        until no visible element shows the busy text or 90 seconds have passed. It
        returns whether the sync was seen to finish and the clock when the loop ended.
        The loop changes nothing outside itself; it follows the clock in a local
        variable. */
    method PollSync(start: nat) returns (done: bool, clock: nat)
      ensures var p := Poll(SyncSeen(env), env.latency, start, SyncWaitMs, start);
        done == p.found && clock == p.clock
    {
      clock := start;
      ghost var whole := Poll(SyncSeen(env), env.latency, start, SyncWaitMs, start);
      ghost var polls: seq<nat> := [];
      done := false;
      while !done && clock - start < SyncWaitMs
        invariant start <= clock
        invariant !done ==> whole == After(polls, Poll(SyncSeen(env), env.latency, start, SyncWaitMs, clock))
        invariant done ==> whole == PollOutcome(true, polls, clock)
        decreases if done then 0 else 1, start + SyncWaitMs - clock
      {
        var t := clock;
        done := SyncDone(env.page(t));
        SyncPollStep(env, start, t, polls);
        clock := clock + env.latency(clock);
        polls := polls + [t];
        if !done {
          clock := clock + SleepMs;
        }
      }
      if !done {
        PollExhausted(SyncSeen(env), env.latency, start, SyncWaitMs, clock, polls);
      }
    }

    /** The wait for the sync: poll; the clock ends where the loop ended. */
    method AwaitSync() returns (syncingDone: bool)
      modifies this
      ensures Polled(syncingDone, State()) == AwaitSyncSpec(env, old(State()))
    {
      var clock;
      syncingDone, clock := PollSync(now);
      now := clock;
    }

    /** The part of `runFigmaExport` after the sync: settle, fetch the file's version,
        export, and close the browser after a successful export. */
    method FinishExport() returns (r: Result<seq<string>, Error>)
      modifies this
      ensures Outcome(r, State()) == FetchAndExport(env, EntryStep(env), config, old(State()))
    {
      Sleep(SettleMs);
      var sentAt := now;
      requests := requests + [FileRequest(config.fileKey)];
      Await();
      assert State() == VersionAsked(env, config, old(State()));
      var version := env.version(sentAt);
      if version.Failure? {
        return Failure(ApiError(version.error));
      }
      r := ExportFromFigmaApi(version.value);
      if r.Failure? {
        return r;
      }
      ghost var exported := State();
      Await();
      browserOpen := false;
      assert State() == Awaited(env, exported).(browserOpen := false);
    }

    /** `runFigmaExport`: launch the browser, open the page, activate the plugin, wait
        for the sync, then settle, fetch the version and export. */
    method RunFigmaExport() returns (r: Result<seq<string>, Error>)
      modifies this
      ensures Outcome(r, State()) == RunSpec(env, EntryStep(env), config, old(State()))
    {
      if env.launch.Some? {
        Await();
        return Failure(LaunchError(env.launch.value));
      }
      browserOpen := true;
      Await();
      if env.navigation.Some? {
        return Failure(NavigationError(env.navigation.value));
      }
      var pluginClicked := ActivateControl();
      if !pluginClicked {
        return Failure(ControlNotFound);
      }
      var syncingDone := AwaitSync();
      if !syncingDone {
        return Failure(SyncTimeout);
      }
      r := FinishExport();
    }
  }
}
