/** The HTTP trigger of the exporter: `POST /run` checks the bearer secret, runs the
    export once and answers with its URLs or its error message. */
module Server {
  import opened Wrappers
  import opened Pipeline

  /** The JSON bodies the handler sends. */
  datatype Body =
    | ErrorBody(error: string)             // { error }
    | SuccessBody(urls: seq<string>)       // { success: true, urls }
    | FailureBody(message: string)         // { success: false, message }

  datatype Response = Response(status: nat, body: Body)

  /** The response to one request and the world after it. */
  datatype Served = Served(response: Response, world: World)

  const BearerPrefix := "Bearer "

  /** `RUN_SECRET` counts as set when it is present and not the empty string, since an
      empty string is falsy in JavaScript. */
  predicate SecretSet(secret: Option<string>) {
    secret.Some? && secret.value != []
  }

  /** A request carries the credential for `secret`: its Authorization header consists of
      the word "Bearer", one space, and then exactly the secret. */
  predicate Authorized(secret: string, auth: Option<string>) {
    && auth.Some?
    && |auth.value| == |BearerPrefix| + |secret|
    && auth.value[..|BearerPrefix|] == BearerPrefix
    && auth.value[|BearerPrefix|..] == secret
  }

  /** The handler's comparison of the header with the expected string accepts exactly the
      authorized requests. */
  lemma BearerComparison(secret: string, auth: Option<string>)
    ensures auth == Some(BearerPrefix + secret) <==> Authorized(secret, auth)
  {
    if Authorized(secret, auth) {
      assert auth.value == auth.value[..|BearerPrefix|] + auth.value[|BearerPrefix|..];
    }
    if auth == Some(BearerPrefix + secret) {
      assert (BearerPrefix + secret)[|BearerPrefix|..] == secret;
    }
  }

  /** The `POST /run` handler. With the secret set, a request whose header is not exactly
      "Bearer " and the secret gets 401 and the export is not run: the world is as it
      was. Every other request runs the export exactly once; a success is answered with
      status 200 and the export's URLs unchanged, a failure with status 500 and the
      error's message. */
  function HandleRun(o: Oracle, cfg: Config, w: World, secret: Option<string>, auth: Option<string>): (r: Served)
    ensures r.response.status == 401 <==> SecretSet(secret) && !Authorized(secret.value, auth)
    ensures r.response.status == 401 ==> r == Served(Response(401, ErrorBody("Unauthorized")), w)
    ensures r.response.status != 401 ==>
      var run := RunSpec(o, EntryStep(o), cfg, w);
      && r.world == run.world
      && (run.result.Success? <==> r.response.status == 200)
      && (run.result.Success? ==> r.response.body == SuccessBody(run.result.value))
      && (run.result.Failure? ==> r.response == Response(500, FailureBody(run.result.error.Message())))
  {
    BearerComparison(if secret.Some? then secret.value else [], auth);
    if SecretSet(secret) && auth != Some(BearerPrefix + secret.value) then
      Served(Response(401, ErrorBody("Unauthorized")), w)
    else
      var run := RunSpec(o, EntryStep(o), cfg, w);
      match run.result
      case Success(urls) => Served(Response(200, SuccessBody(urls)), run.world)
      case Failure(err) => Served(Response(500, FailureBody(err.Message())), run.world)
  }

  /** An authorized request for a run whose browser launches and whose page loads but never shows the relaunch
      control is answered with status 500 and the control's message, and leaves the
      browser open, the bucket untouched and no request sent. */
  lemma ControlNotFoundAnswer(o: Oracle, cfg: Config, w: World, secret: Option<string>, auth: Option<string>)
    requires !SecretSet(secret) || Authorized(secret.value, auth)
    requires o.launch.None? && o.navigation.None? && !ActivateSpec(o, Awaited(o, w.(browserOpen := true))).found
    ensures var r := HandleRun(o, cfg, w, secret, auth);
      && r.response == Response(500, FailureBody("\U{274C} Plugin button not found."))
      && r.world.browserOpen && r.world.bucket == w.bucket && r.world.requests == w.requests
  {
    EntryStepFailsInTransfer(o);
    RunControlNotFound(o, EntryStep(o), cfg, w);
  }
}
