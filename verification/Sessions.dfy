/** Who opens and who closes the database sessions of one request: `ObservedSession`
    and `get_request_db_session` (app/db.py:53-64, 199-242) under the middlewares of
    app/main.py:183-252 and app/observability.py:53-103, in any nesting order. */
module Sessions {
  import opened Options

  datatype Scope = Request | Background

  /** One `ObservedSession`: the scope noted when it was created, its
      `_observed_session_open` flag, and (history) how often `close` was called. */
  datatype Session = Session(scope: Scope, open: bool, closes: nat)

  /** `settings.request_shared_db_session_enabled` and its path prefixes. */
  datatype Settings = Settings(sharedEnabled: bool, prefixes: seq<string>)

  /** A middleware; `PassThrough` is any one that opens no session, such as the
      slash, CSRF and static-cache middlewares. */
  datatype Layer = SharedDb | Audit | Branding | Observed(route: string) | PassThrough

  const PROBE_PATHS: set<string> := {"/health", "/health/ready", "/metrics"}

  /** `_shared_request_db_enabled`. */
  predicate SharedRequestDbEnabled(settings: Settings, path: string) {
    settings.sharedEnabled
    && (settings.prefixes == [] || exists prefix :: prefix in settings.prefixes && prefix <= path)
  }

  /** The number of open sessions of a scope. */
  function OpenCount(sessions: seq<Session>, scope: Scope): nat {
    if sessions == [] then 0
    else OpenCount(sessions[..|sessions| - 1], scope) + One(sessions[|sessions| - 1], scope)
  }

  function One(s: Session, scope: Scope): nat {
    if s.open && s.scope == scope then 1 else 0
  }

  lemma OpenCountAppend(sessions: seq<Session>, s: Session, scope: Scope)
    ensures OpenCount(sessions + [s], scope) == OpenCount(sessions, scope) + One(s, scope)
  {
  }

  lemma {:induction false} OpenCountUpdate(sessions: seq<Session>, id: nat, s: Session, scope: Scope)
    requires id < |sessions|
    ensures OpenCount(sessions[id := s], scope) + One(sessions[id], scope)
         == OpenCount(sessions, scope) + One(s, scope)
  {
    var n := |sessions| - 1;
    if id == n {
      assert sessions[id := s][..n] == sessions[..n];
    } else {
      assert sessions[id := s][..n] == sessions[..n][id := s];
      OpenCountUpdate(sessions[..n], id, s, scope);
    }
  }

  /** Every session from `n` on was closed, once; the earlier ones are as before. */
  ghost predicate Settled(before: seq<Session>, after: seq<Session>) {
    && before <= after
    && forall i :: |before| <= i < |after| ==> !after[i].open && after[i].closes == 1
  }

  lemma {:induction false} SettledKeepsOpenCount(before: seq<Session>, after: seq<Session>, scope: Scope)
    requires Settled(before, after)
    ensures OpenCount(after, scope) == OpenCount(before, scope)
    decreases |after|
  {
    if |after| == |before| {
      assert after == before;
    } else {
      SettledKeepsOpenCount(before, after[..|after| - 1], scope);
    }
  }

  lemma SettledTrans(a: seq<Session>, b: seq<Session>, c: seq<Session>)
    requires Settled(a, b) && Settled(b, c)
    ensures Settled(a, c)
  {
  }

  /** The sessions opened in between all count as those of a request. */
  ghost predicate OfRequest(before: seq<Session>, after: seq<Session>) {
    forall i :: |before| <= i < |after| ==> after[i].scope == Request
  }

  /** How many sessions a stack opens at most. The shared one stands in for those of the
      audit and branding middlewares, and for the endpoint's if that is enabled. */
  function Opens(layers: seq<Layer>, shared: bool, enabled: bool, path: string): nat {
    if layers == [] then if shared && enabled then 0 else 1
    else
      match layers[0]
      case SharedDb => 1 + Opens(layers[1..], true, enabled, path)
      case Audit => (if shared then 0 else 1) + Opens(layers[1..], shared, enabled, path)
      case Branding =>
        (if shared || path in PROBE_PATHS then 0 else 1) + Opens(layers[1..], shared, enabled, path)
      case Observed(_) => Opens(layers[1..], shared, enabled, path)
      case PassThrough => Opens(layers[1..], shared, enabled, path)
  }

  /** Every route has a name. */
  predicate Named(layers: seq<Layer>) {
    forall layer :: layer in layers && layer.Observed? ==> layer.route != ""
  }

  lemma NamedTail(layers: seq<Layer>)
    requires layers != [] && Named(layers)
    ensures Named(layers[1..]) && (layers[0].Observed? ==> layers[0].route != "")
  {
    assert layers[0] in layers && forall layer :: layer in layers[1..] ==> layer in layers;
  }

  /** With the shared session outside of the others a request opens one session, or two
      if its endpoint is to have its own. */
  lemma {:induction false} SharedIsEnough(outer: seq<Layer>, inner: seq<Layer>, enabled: bool, path: string)
    requires forall layer :: layer in outer ==> layer.Observed? || layer.PassThrough?
    requires SharedDb !in inner
    ensures Opens(outer + [SharedDb] + inner, false, enabled, path) == if enabled then 1 else 2
    decreases |outer|
  {
    if outer == [] {
      assert (outer + [SharedDb] + inner)[1..] == inner;
      OthersOpenNone(inner, enabled, path);
    } else {
      assert outer[0] in outer && forall layer :: layer in outer[1..] ==> layer in outer;
      assert (outer + [SharedDb] + inner)[1..] == outer[1..] + [SharedDb] + inner;
      SharedIsEnough(outer[1..], inner, enabled, path);
    }
  }

  lemma {:induction false} OthersOpenNone(layers: seq<Layer>, enabled: bool, path: string)
    requires SharedDb !in layers
    ensures Opens(layers, true, enabled, path) == if enabled then 0 else 1
    decreases |layers|
  {
    if layers != [] {
      assert layers[0] in layers && forall layer :: layer in layers[1..] ==> layer in layers;
      OthersOpenNone(layers[1..], enabled, path);
    }
  }

  /** Opening a session, using it, and closing it once around a settled stretch settles it too. */
  lemma SettledAround(before: seq<Session>, s: Session, after: seq<Session>)
    requires s.open && s.closes == 0 && Settled(before + [s], after)
    ensures after[|before|] == s
    ensures Settled(before, after[|before| := s.(open := false, closes := 1)])
  {
  }

  /** The server process as one request sees it: the sessions created so far, the
      open-session gauge by scope, the request-path context variable, and
      `request.state.middleware_db`. */
  class Server {
    const settings: Settings
    var sessions: seq<Session>
    var gaugeRequest: int
    var gaugeBackground: int
    var contextPath: Option<string>
    var middlewareDb: Option<nat>

    /** The gauge equals the number of open sessions, scope by scope. */
    ghost predicate Valid()
      reads this
    {
      && gaugeRequest == OpenCount(sessions, Request)
      && gaugeBackground == OpenCount(sessions, Background)
      && forall s :: s in sessions ==> (s.open <==> s.closes == 0)
    }

    /** The shared session, if one is set, is still open. */
    ghost predicate SharedDbOpen()
      reads this
    {
      middlewareDb.Some? ==> middlewareDb.value < |sessions| && sessions[middlewareDb.value].open
    }

    /** The context names a request. */
    ghost predicate Bound()
      reads this
    {
      contextPath.Some? && contextPath.value != ""
    }

    constructor (settings: Settings)
      ensures Valid() && this.settings == settings && sessions == [] && middlewareDb == None
    {
      this.settings := settings;
      sessions, gaugeRequest, gaugeBackground := [], 0, 0;
      contextPath, middlewareDb := None, None;
    }

    /** `SessionLocal()`, that is `ObservedSession.__init__`. */
    method OpenSession() returns (id: nat, raised: bool)
      requires Valid()
      modifies this`sessions, this`gaugeRequest, this`gaugeBackground
      ensures Valid()
      ensures raised ==> sessions == old(sessions)
      ensures !raised ==>
                && id == |old(sessions)|
                && sessions == old(sessions)
                               + [Session(if contextPath.Some? && contextPath.value != "" then Request else Background,
                                          true, 0)]
    {
      id, raised := |sessions|, *;
      if raised {
        return;
      }
      var scope := if contextPath.Some? && contextPath.value != "" then Request else Background;
      hide OpenCount;
      OpenCountAppend(sessions, Session(scope, true, 0), Request);
      OpenCountAppend(sessions, Session(scope, true, 0), Background);
      sessions := sessions + [Session(scope, true, 0)];
      if scope == Request {
        gaugeRequest := gaugeRequest + 1;
      } else {
        gaugeBackground := gaugeBackground + 1;
      }
    }

    /** `ObservedSession.close`, which may be called any number of times; the
        inherited `close` at its end may raise. */
    method CloseSession(id: nat) returns (raised: bool)
      requires Valid() && id < |sessions|
      modifies this`sessions, this`gaugeRequest, this`gaugeBackground
      ensures Valid()
      ensures sessions == old(sessions)[id := old(sessions)[id].(open := false, closes := old(sessions)[id].closes + 1)]
    {
      var s := sessions[id];
      ghost var s' := s.(open := false, closes := s.closes + 1);
      OpenCountUpdate(sessions, id, s', Request);
      OpenCountUpdate(sessions, id, s', Background);
      if s.open {
        if s.scope == Request {
          gaugeRequest := gaugeRequest - 1;
        } else {
          gaugeBackground := gaugeBackground - 1;
        }
      }
      sessions := sessions[id := s.(open := false, closes := s.closes + 1)];
      raised := *;
    }

    /** Any query on a session.  Its precondition is the proof obligation of every
        use in this module: no session is used after it was closed. */
    method Use(id: nat) returns (raised: bool)
      requires id < |sessions| && sessions[id].open
    {
      raised := *;
    }

    /** The rest of the middleware stack, outermost layer first, with the endpoint
        innermost.  Whatever the order and whatever raises, every session opened
        inside is closed exactly once before the call returns, no other session
        is touched, and no session is used after it was closed. */
    method CallNext(layers: seq<Layer>, path: string, uses: nat) returns (raised: bool)
      requires Valid() && SharedDbOpen()
      modifies this
      ensures Valid() && Settled(old(sessions), sessions)
      ensures |sessions| <= |old(sessions)|
                            + Opens(layers, old(middlewareDb.Some?), SharedRequestDbEnabled(settings, path), path)
      ensures !raised && PassThrough !in layers ==>
                |sessions| == |old(sessions)|
                            + Opens(layers, old(middlewareDb.Some?), SharedRequestDbEnabled(settings, path), path)
      ensures old(Bound()) && Named(layers) ==> OfRequest(old(sessions), sessions)
      decreases |layers|, 2
    {
      if layers == [] {
        raised := Endpoint(path, uses);
      } else {
        if Named(layers) {
          NamedTail(layers);
        }
        match layers[0]
        case SharedDb => raised := SharedDbSessionMiddleware(layers, path, uses);
        case Audit => raised := AuditMiddleware(layers, path, uses);
        case Branding => raised := BrandingMiddleware(layers, path, uses);
        case Observed(route) => raised := ObservabilityMiddleware(layers, route, path, uses);
        case PassThrough => raised := OtherMiddleware(layers, path, uses);
      }
    }

    /** `shared_db_session_middleware`. */
    method SharedDbSessionMiddleware(layers: seq<Layer>, path: string, uses: nat) returns (raised: bool)
      requires Valid() && SharedDbOpen() && layers != []
      modifies this
      ensures Valid() && Settled(old(sessions), sessions)
      ensures |sessions| <= |old(sessions)|
                            + 1 + Opens(layers[1..], true, SharedRequestDbEnabled(settings, path), path)
      ensures !raised && PassThrough !in layers[1..] ==>
                |sessions| == |old(sessions)|
                            + 1 + Opens(layers[1..], true, SharedRequestDbEnabled(settings, path), path)
      ensures old(Bound()) && Named(layers[1..]) ==> OfRequest(old(sessions), sessions)
      decreases |layers|, 1
    {
      var db;
      db, raised := OpenSession();
      if raised {
        return;
      }
      middlewareDb := Some(db);
      ghost var atOpen := sessions;
      raised := CallNext(layers[1..], path, uses);
      SettledAround(old(sessions), atOpen[db], sessions);
      var closeRaised := CloseSession(db);
      raised := raised || closeRaised;
    }

    /** `audit_middleware`.  Whether the settings are cached, enabled and ask for
        logging is left open. */
    method AuditMiddleware(layers: seq<Layer>, path: string, uses: nat) returns (raised: bool)
      requires Valid() && SharedDbOpen() && layers != []
      modifies this
      ensures Valid() && Settled(old(sessions), sessions)
      ensures |sessions| <= |old(sessions)|
                            + (if old(middlewareDb.Some?) then 0 else 1)
                            + Opens(layers[1..], old(middlewareDb.Some?), SharedRequestDbEnabled(settings, path), path)
      ensures !raised && PassThrough !in layers[1..] ==>
                |sessions| == |old(sessions)|
                            + (if old(middlewareDb.Some?) then 0 else 1)
                            + Opens(layers[1..], old(middlewareDb.Some?), SharedRequestDbEnabled(settings, path), path)
      ensures old(Bound()) && Named(layers[1..]) ==> OfRequest(old(sessions), sessions)
      decreases |layers|, 1
    {
      var db;
      var ownsDb := middlewareDb.None?;
      if ownsDb {
        db, raised := OpenSession();
        if raised {
          return;
        }
      } else {
        db := middlewareDb.value;
      }
      ghost var atOpen := sessions;
      raised := AuditBody(db, layers, path, uses);
      if ownsDb {
        SettledAround(old(sessions), atOpen[db], sessions);
        var closeRaised := CloseSession(db);
        raised := raised || closeRaised;
      }
    }

    /** The `try` block of `audit_middleware`. */
    method AuditBody(db: nat, layers: seq<Layer>, path: string, uses: nat) returns (raised: bool)
      requires Valid() && SharedDbOpen() && layers != [] && db < |sessions| && sessions[db].open
      modifies this
      ensures Valid() && Settled(old(sessions), sessions)
      ensures |sessions| <= |old(sessions)|
                            + Opens(layers[1..], old(middlewareDb.Some?), SharedRequestDbEnabled(settings, path), path)
      ensures !raised && PassThrough !in layers[1..] ==>
                |sessions| == |old(sessions)|
                            + Opens(layers[1..], old(middlewareDb.Some?), SharedRequestDbEnabled(settings, path), path)
      ensures old(Bound()) && Named(layers[1..]) ==> OfRequest(old(sessions), sessions)
      decreases |layers|, 0
    {
      var cached: bool, enabled: bool, shouldLog: bool := *, *, *;
      if !cached {
        raised := Use(db);
        if raised {
          return;
        }
      }
      var _ := Use(db);
      ghost var before := sessions;
      raised := CallNext(layers[1..], path, uses);
      assert sessions[db] == before[db];
      if enabled && shouldLog {
        var logRaised := Use(db);
        raised := raised || logRaised;
      }
    }

    /** `branding_middleware`. */
    method BrandingMiddleware(layers: seq<Layer>, path: string, uses: nat) returns (raised: bool)
      requires Valid() && SharedDbOpen() && layers != []
      modifies this
      ensures Valid() && Settled(old(sessions), sessions)
      ensures |sessions| <= |old(sessions)|
                            + (if old(middlewareDb.Some?) || path in PROBE_PATHS then 0 else 1)
                            + Opens(layers[1..], old(middlewareDb.Some?), SharedRequestDbEnabled(settings, path), path)
      ensures !raised && PassThrough !in layers[1..] ==>
                |sessions| == |old(sessions)|
                            + (if old(middlewareDb.Some?) || path in PROBE_PATHS then 0 else 1)
                            + Opens(layers[1..], old(middlewareDb.Some?), SharedRequestDbEnabled(settings, path), path)
      ensures old(Bound()) && Named(layers[1..]) ==> OfRequest(old(sessions), sessions)
      decreases |layers|, 1
    {
      if path in PROBE_PATHS {
        raised := CallNext(layers[1..], path, uses);
        return;
      }
      var db;
      var ownsDb := middlewareDb.None?;
      if ownsDb {
        db, raised := OpenSession();
        if raised {
          return;
        }
      } else {
        db := middlewareDb.value;
      }
      raised := Use(db);
      if !raised {
        var _ := Use(db);
      }
      if ownsDb {
        SettledAround(old(sessions), sessions[db], sessions);
        var closeRaised := CloseSession(db);
        raised := raised || closeRaised;
      }
      if raised {
        return;
      }
      ghost var middle := sessions;
      raised := CallNext(layers[1..], path, uses);
      SettledTrans(old(sessions), middle, sessions);
    }

    /** `ObservabilityMiddleware.dispatch`: it changes the path that decides the
        scope of sessions opened inside, and puts it back, unless something
        raises before its `try` block is entered. */
    method ObservabilityMiddleware(layers: seq<Layer>, route: string, path: string, uses: nat) returns (raised: bool)
      requires Valid() && SharedDbOpen() && layers != []
      modifies this
      ensures Valid() && Settled(old(sessions), sessions)
      ensures |sessions| <= |old(sessions)|
                            + Opens(layers[1..], old(middlewareDb.Some?), SharedRequestDbEnabled(settings, path), path)
      ensures !raised && PassThrough !in layers[1..] ==>
                |sessions| == |old(sessions)|
                            + Opens(layers[1..], old(middlewareDb.Some?), SharedRequestDbEnabled(settings, path), path)
      ensures route != "" && Named(layers[1..]) ==> OfRequest(old(sessions), sessions)
      ensures contextPath == old(contextPath) || (raised && contextPath == Some(route))
      decreases |layers|, 1
    {
      var previous := contextPath;
      contextPath := Some(route);
      raised := *;
      if raised {
        return;
      }
      raised := CallNext(layers[1..], path, uses);
      contextPath := previous;
    }

    /** A middleware without sessions: it may answer by itself, and it may turn an exception into a response. */
    method OtherMiddleware(layers: seq<Layer>, path: string, uses: nat) returns (raised: bool)
      requires Valid() && SharedDbOpen() && layers != []
      modifies this
      ensures Valid() && Settled(old(sessions), sessions)
      ensures |sessions| <= |old(sessions)|
                            + Opens(layers[1..], old(middlewareDb.Some?), SharedRequestDbEnabled(settings, path), path)
      ensures old(Bound()) && Named(layers[1..]) ==> OfRequest(old(sessions), sessions)
      decreases |layers|, 1
    {
      var answers: bool := *;
      if answers {
        raised := *;
        return;
      }
      raised := CallNext(layers[1..], path, uses);
      var swallows: bool := *;
      if raised && swallows {
        raised := false;
      }
    }

    /** A route handler with a `get_db` dependency: `get_request_db_session` around
        up to `uses` queries, any of which may raise. */
    method Endpoint(path: string, uses: nat) returns (raised: bool)
      requires Valid() && SharedDbOpen()
      modifies this`sessions, this`gaugeRequest, this`gaugeBackground
      ensures Valid() && Settled(old(sessions), sessions)
      ensures |sessions| <= |old(sessions)|
                            + if middlewareDb.Some? && SharedRequestDbEnabled(settings, path) then 0 else 1
      ensures !raised ==>
                |sessions| == |old(sessions)|
                            + if middlewareDb.Some? && SharedRequestDbEnabled(settings, path) then 0 else 1
      ensures Bound() ==> OfRequest(old(sessions), sessions)
      decreases 0, 0
    {
      if SharedRequestDbEnabled(settings, path) && middlewareDb.Some? {
        raised := Handle(middlewareDb.value, uses);
        return;
      }
      var db;
      db, raised := OpenSession();
      if raised {
        return;
      }
      raised := Handle(db, uses);
      SettledAround(old(sessions), sessions[db], sessions);
      var closeRaised := CloseSession(db);
      raised := raised || closeRaised;
    }

    method Handle(db: nat, uses: nat) returns (raised: bool)
      requires db < |sessions| && sessions[db].open
    {
      raised := *;
      for i := 0 to uses {
        if raised {
          return;
        }
        raised := Use(db);
      }
    }

    /** A whole request through any stack of middlewares: every session it opened
        was closed once, and both gauges are back where they were. */
    method HandleRequest(layers: seq<Layer>, path: string, uses: nat) returns (raised: bool)
      requires Valid()
      modifies this
      ensures Valid() && Settled(old(sessions), sessions)
      ensures |sessions| <= |old(sessions)| + Opens(layers, false, SharedRequestDbEnabled(settings, path), path)
      ensures !raised && PassThrough !in layers ==>
                |sessions| == |old(sessions)| + Opens(layers, false, SharedRequestDbEnabled(settings, path), path)
      ensures old(Bound()) && Named(layers) ==> OfRequest(old(sessions), sessions)
      ensures gaugeRequest == old(gaugeRequest) && gaugeBackground == old(gaugeBackground)
    {
      middlewareDb := None;
      raised := CallNext(layers, path, uses);
      SettledKeepsOpenCount(old(sessions), sessions, Request);
      SettledKeepsOpenCount(old(sessions), sessions, Background);
    }
  }
}
