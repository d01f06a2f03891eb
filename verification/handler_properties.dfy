/**
 Properties of the route handlers: what the admin gate accepts, how
 successive views and likes accumulate, and the store invariants that every
 request keeps (valid records under their own short ids, identity and
 creation time never rewritten, membership changed only by upload and delete).
 */
module HandlerProperties {
  import opened Wrappers
  import opened Strings
  import opened JsValues
  import opened AssetModel
  import opened Handlers

  // ---------------------------------------------------------------------------
  // Admin gate

  /**
   Which header the token comes from: `x-api-key` when it is set and
   non-empty, else `authorization` when that is, else none at all.
   */
  lemma PresentedTokenSource(h: Headers)
    ensures h.apiKey.Some? && h.apiKey.value != "" ==> PresentedToken(h) == Trim(h.apiKey.value)
    ensures (h.apiKey.None? || h.apiKey.value == "") && h.authorization.Some? && h.authorization.value != "" ==>
              PresentedToken(h) == Trim(h.authorization.value)
    ensures (h.apiKey.None? || h.apiKey.value == "") && (h.authorization.None? || h.authorization.value == "") ==>
              PresentedToken(h) == ""
  {
  }

  /** With `ADMIN_TOKEN` unset, empty or all whitespace, every request is rejected. */
  lemma BlankSecretRejectsAll(h: Headers, env: Env)
    requires env.adminToken.None? || AllWhitespace(env.adminToken.value)
    ensures CheckAdmin(h, env).Deny?
  {
    assert ConfiguredSecret(env) == "";
  }

  /**
   An `x-api-key` of whitespace only is truthy, so `authorization` is never
   consulted, yet it trims to nothing: the request is rejected as missing its
   token whatever `authorization` holds. This is about the header values as
   the handler receives them: Node's HTTP parser already drops leading and
   trailing spaces and tabs, so only whitespace it keeps, such as U+00A0,
   arrives as an all-whitespace value.
   */
  lemma WhitespaceApiKeyShadowsAuthorization(h: Headers, env: Env)
    requires h.apiKey.Some? && h.apiKey.value != "" && AllWhitespace(h.apiKey.value)
    ensures CheckAdmin(h, env) == Deny(MissingToken)
  {
    PresentedTokenSource(h);
    TrimAllWhitespace(h.apiKey.value);
  }

  /** Whitespace around the presented key, or around the configured secret, does not matter. */
  lemma PaddedKeyAccepted(h: Headers, env: Env, secret: string, a: string, b: string, c: string, d: string)
    requires secret != "" && IsTrimmed(secret)
    requires AllWhitespace(a) && AllWhitespace(b) && AllWhitespace(c) && AllWhitespace(d)
    requires h.apiKey == Some(a + secret + b)
    requires env.adminToken == Some(c + secret + d)
    ensures CheckAdmin(h, env) == Allow
  {
    TrimPadded(a, secret, b);
    TrimPadded(c, secret, d);
    assert h.apiKey.value != "" by { assert |a + secret + b| >= |secret|; }
    PresentedTokenSource(h);
    assert PresentedToken(h) == secret;
    assert ConfiguredSecret(env) == SafeTrim(Str(c + secret + d)) by {
      assert Truthy(FromOptional(env.adminToken)) by { assert |c + secret + d| >= |secret|; }
    }
  }

  /**
   The comparison is of whole strings: an `authorization: Bearer <secret>`
   header is not the secret and is rejected as invalid.
   */
  lemma BearerSchemeRejected(h: Headers, env: Env, secret: string)
    requires secret != "" && IsTrimmed(secret)
    requires h.apiKey.None? && h.authorization == Some("Bearer " + secret)
    requires env.adminToken == Some(secret)
    ensures CheckAdmin(h, env) == Deny(InvalidToken)
  {
    TrimmedSecretIsConfigured(env, secret);
    BearerTokenPresented(h, secret);
    assert |"Bearer " + secret| > |secret|;
  }

  /** A secret set without surrounding whitespace is taken as it is. */
  lemma TrimmedSecretIsConfigured(env: Env, secret: string)
    requires secret != "" && IsTrimmed(secret)
    requires env.adminToken == Some(secret)
    ensures ConfiguredSecret(env) == secret
  {
    assert Or(FromOptional(env.adminToken), Str("")) == Str(secret);
    TrimOfTrimmed(secret);
  }

  /** An `authorization` header `Bearer <secret>` is presented whole, scheme included. */
  lemma BearerTokenPresented(h: Headers, secret: string)
    requires secret != "" && IsTrimmed(secret)
    requires h.apiKey.None? && h.authorization == Some("Bearer " + secret)
    ensures PresentedToken(h) == "Bearer " + secret
  {
    BearerIsTrimmed(secret);
    TrimmedAuthorizationPresented(h, "Bearer " + secret);
  }

  lemma BearerIsTrimmed(secret: string)
    requires secret != "" && IsTrimmed(secret)
    ensures IsTrimmed("Bearer " + secret)
  {
    var presented := "Bearer " + secret;
    assert presented[0] == 'B';
    assert presented[|presented| - 1] == secret[|secret| - 1];
  }

  /** Without `x-api-key`, a trimmed `authorization` header is the token presented. */
  lemma TrimmedAuthorizationPresented(h: Headers, token: string)
    requires token != "" && IsTrimmed(token)
    requires h.apiKey.None? && h.authorization == Some(token)
    ensures PresentedToken(h) == token
  {
    TrimOfTrimmed(token);
    assert Or(Or(FromOptional(h.apiKey), FromOptional(h.authorization)), Str("")) == Str(token);
  }

  // ---------------------------------------------------------------------------
  // Upload, fetch, like and edit, one request after another

  /** A record just uploaded is found under the short id returned with it, with one view. */
  lemma UploadThenFetch(s: Store, h: Headers, env: Env, up: UploadOutcome, form: UploadForm,
                        freshId: NanoId, now: nat)
    requires Upload(s, h, env, up, form, freshId, now).response.status == 201
    ensures var st := Upload(s, h, env, up, form, freshId, now);
            var created := st.response.body.model;
            var fetched := Fetch(st.store, created.shortId);
            && created.shortId == freshId
            && fetched.response == Response(200, RecordBody(created.(views := 1)))
  {
    var st := Upload(s, h, env, up, form, freshId, now);
    UploadStoresCreated(s, h, env, up, form, freshId, now);
    FirstFetch(st.store, freshId);
  }

  /** A successful upload stores the record it answers with, under the fresh id, with no views. */
  lemma UploadStoresCreated(s: Store, h: Headers, env: Env, up: UploadOutcome, form: UploadForm,
                            freshId: NanoId, now: nat)
    requires Upload(s, h, env, up, form, freshId, now).response.status == 201
    ensures var st := Upload(s, h, env, up, form, freshId, now);
            && st.response.body.CreatedBody?
            && st.response.body.model.shortId == freshId
            && st.response.body.model.views == 0
            && freshId in st.store && st.store[freshId] == st.response.body.model
  {
  }

  /** The first fetch of a record with no views answers it with one. */
  lemma FirstFetch(s: Store, shortId: string)
    requires shortId in s && s[shortId].views == 0
    ensures Fetch(s, shortId).response == Response(200, RecordBody(s[shortId].(views := 1)))
  {
    assert s[shortId].(views := s[shortId].views + 1) == s[shortId].(views := 1);
  }

  /** Fetching `n` times in a row. */
  function FetchTimes(s: Store, shortId: string, n: nat): Store
    decreases n
  {
    if n == 0 then s else FetchTimes(Fetch(s, shortId).store, shortId, n - 1)
  }

  /** `n` successive fetches raise the view count by exactly `n` and change nothing else. */
  lemma {:induction false} FetchTimesCountsEveryView(s: Store, shortId: string, n: nat)
    requires shortId in s
    ensures var s' := FetchTimes(s, shortId, n);
            && s'.Keys == s.Keys
            && s'[shortId] == s[shortId].(views := s[shortId].views + n)
            && (forall k :: k in s && k != shortId ==> s'[k] == s[k])
    decreases n
  {
    if n > 0 {
      var s1 := Fetch(s, shortId).store;
      FetchTimesCountsEveryView(s1, shortId, n - 1);
    }
  }

  /** The sum of a sequence of deltas. */
  function Sum(ds: seq<int>): int {
    if ds == [] then 0 else ds[0] + Sum(ds[1..])
  }

  /** A walk that applies each delta in turn and is floored at 0 after every step. */
  function ClampedWalk(x: int, ds: seq<int>): int
    decreases |ds|
  {
    if ds == [] then x else ClampedWalk(Max(0, x + ds[0]), ds[1..])
  }

  /**
   From a non-negative start, the clamped walk never ends below 0, and never
   below the unclamped sum: flooring only ever adds.
   */
  lemma {:induction false} ClampedWalkBounds(x: int, ds: seq<int>)
    requires x >= 0
    ensures ClampedWalk(x, ds) >= 0
    ensures ClampedWalk(x, ds) >= x + Sum(ds)
    decreases |ds|
  {
    if ds != [] {
      ClampedWalkBounds(Max(0, x + ds[0]), ds[1..]);
    }
  }

  /** With only +1 deltas the floor is never reached: the walk is the plain sum. */
  lemma {:induction false} ClampedWalkOfIncrements(x: int, ds: seq<int>)
    requires x >= 0
    requires forall i :: 0 <= i < |ds| ==> ds[i] == 1
    ensures ClampedWalk(x, ds) == x + |ds|
    decreases |ds|
  {
    if ds != [] {
      ClampedWalkOfIncrements(x + 1, ds[1..]);
    }
  }

  /**
   The floored walk is not the floored sum: from 0, an unlike then a like ends
   at 1, while max(0, -1 + 1) is 0.
   */
  lemma ClampedWalkIsNotClampedSum()
    ensures ClampedWalk(0, [-1, 1]) == 1
    ensures Max(0, Sum([-1, 1])) == 0
  {
    assert [-1, 1][1..] == [1];
    assert [1][1..] == [];
  }

  /** Applying a sequence of like requests in order. */
  function LikeAll(s: Store, shortId: string, changes: seq<JsVal>): Store
    decreases |changes|
  {
    if changes == [] then s else LikeAll(Like(s, shortId, changes[0]).store, shortId, changes[1..])
  }

  /** The deltas a sequence of like requests stands for. */
  function Deltas(changes: seq<JsVal>): (ds: seq<int>)
    ensures |ds| == |changes|
    ensures forall i :: 0 <= i < |changes| ==> ds[i] == LikeDelta(changes[i])
  {
    if changes == [] then [] else [LikeDelta(changes[0])] + Deltas(changes[1..])
  }

  /**
   Any sequence of likes and unlikes leaves the count at the clamped walk of
   their deltas, so never negative and never below the start plus their sum;
   nothing else in the store changes.
   */
  lemma {:induction false} LikesFollowClampedWalk(s: Store, shortId: string, changes: seq<JsVal>)
    requires shortId in s && s[shortId].likes >= 0
    ensures var s' := LikeAll(s, shortId, changes);
            && s'.Keys == s.Keys
            && s'[shortId] == s[shortId].(likes := ClampedWalk(s[shortId].likes, Deltas(changes)))
            && s'[shortId].likes >= 0
            && s'[shortId].likes >= s[shortId].likes + Sum(Deltas(changes))
            && (forall k :: k in s && k != shortId ==> s'[k] == s[k])
    decreases |changes|
  {
    ClampedWalkBounds(s[shortId].likes, Deltas(changes));
    if changes != [] {
      var s1 := Like(s, shortId, changes[0]).store;
      LikesFollowClampedWalk(s1, shortId, changes[1..]);
      assert Deltas(changes)[1..] == Deltas(changes[1..]);
    }
  }

  /** An unlike of a record at 0 likes answers 0, not -1. */
  lemma UnlikeAtZeroStaysZero(s: Store, shortId: string)
    requires shortId in s && s[shortId].likes == 0
    ensures Like(s, shortId, Num(-1)).response == Response(200, LikesBody(0))
  {
  }

  /** Only the number -1 unlikes: the string "-1" counts as a like. */
  lemma StringMinusOneIsALike(s: Store, shortId: string)
    requires shortId in s && s[shortId].likes >= 0
    ensures Like(s, shortId, Str("-1")).response == Response(200, LikesBody(s[shortId].likes + 1))
  {
  }

  /**
   With `likes` stored, two likes of a record nobody has liked yet answer 1
   and then 2.
   */
  lemma TwoLikesCountTwo(s: Store, shortId: string)
    requires shortId in s && s[shortId].likes == 0
    ensures var first := Like(s, shortId, Num(1));
            var second := Like(first.store, shortId, Num(1));
            first.response == Response(200, LikesBody(1)) && second.response == Response(200, LikesBody(2))
  {
    var first := Like(s, shortId, Num(1));
    assert first.store[shortId].likes == 1;
  }

  /**
   With `likes` left out of the schema, the count never accumulates: whatever
   came before, a like answers 1 and an unlike answers 0.
   */
  lemma UndeclaredLikesDoNotAccumulate(s: Store, shortId: string, earlier: seq<JsVal>)
    requires shortId in s
    ensures var s' := LikeAllUndeclared(s, shortId, earlier);
            && LikeUndeclaredCount(s', shortId, Num(1)).response == Response(200, LikesBody(1))
            && LikeUndeclaredCount(s', shortId, Num(-1)).response == Response(200, LikesBody(0))
  {
    UndeclaredLikesKeepStore(s, shortId, earlier);
  }

  /** Applying a sequence of like requests, as they run against the schema without `likes`. */
  function LikeAllUndeclared(s: Store, shortId: string, changes: seq<JsVal>): Store
    decreases |changes|
  {
    if changes == [] then s
    else LikeAllUndeclared(LikeUndeclaredCount(s, shortId, changes[0]).store, shortId, changes[1..])
  }

  lemma {:induction false} UndeclaredLikesKeepStore(s: Store, shortId: string, changes: seq<JsVal>)
    ensures LikeAllUndeclared(s, shortId, changes) == s
    decreases |changes|
  {
    if changes != [] {
      UndeclaredLikesKeepStore(s, shortId, changes[1..]);
    }
  }

  /** An edit whose body has only `sold` changes `sold` and nothing else. */
  lemma PatchSoldOnly(r: Record, v: JsVal)
    requires !v.Undefined?
    ensures ApplyPatch(r, PatchBody(Undefined, v, Undefined)) == r.(sold := v)
  {
  }

  /** Falsy values are applied to `qty` and `sold`, but a falsy name is ignored. */
  lemma PatchFalsyValues(r: Record)
    ensures ApplyPatch(r, PatchBody(Num(0), Null, Str(""))) == r.(qty := Num(0), sold := Null)
  {
  }

  /** After a delete, the record is gone: fetching it answers 404 and brings nothing back. */
  lemma DeleteThenFetch(s: Store, h: Headers, env: Env, shortId: string)
    requires CheckAdmin(h, env) == Allow && shortId in s
    ensures var s' := Delete(s, h, env, shortId).store;
            && Fetch(s', shortId) == Step(Response(404, ErrorBody("Model not found")), s')
            && shortId !in s'
  {
  }

  /**
   The walk-through of a fresh deployment: an upload of `model.glb` with the
   form field `qty=50` is created with quantity "50", sold 0 and no views;
   two fetches count two views; an unlike of the new record answers 0.
   */
  lemma EndToEndScenario(h: Headers, env: Env, file: StoredFile, freshId: NanoId, now: nat)
    requires CheckAdmin(h, env) == Allow
    requires file.originalname == "model.glb" && Required(FileUrl(file))
    ensures var form := UploadForm(Undefined, Str("50"), Undefined);
            var up := Upload(map[], h, env, Uploaded(Some(file), None), form, freshId, now);
            var m := up.response.body.model;
            var get1 := Fetch(up.store, freshId);
            var get2 := Fetch(get1.store, freshId);
            var unlike := Like(get2.store, freshId, Num(-1));
            && up.response.status == 201
            && m.name == Str("model.glb") && m.qty == Str("50") && m.sold == Num(0) && m.views == 0
            && m.bgUrl == Str("")
            && get1.response.body.model.views == 1
            && get2.response.body.model.views == 2
            && unlike.response == Response(200, LikesBody(0))
  {
    var form := UploadForm(Undefined, Str("50"), Undefined);
    var up := Upload(map[], h, env, Uploaded(Some(file), None), form, freshId, now);
    ScenarioUpload(h, env, file, freshId, now);
    TwoViewsThenUnlike(up.store, freshId);
  }

  /** Two fetches of a record with no views or likes, then an unlike. */
  lemma TwoViewsThenUnlike(s: Store, shortId: string)
    requires shortId in s && s[shortId].views == 0 && s[shortId].likes == 0
    ensures var get1 := Fetch(s, shortId);
            var get2 := Fetch(get1.store, shortId);
            && get1.response.body.model.views == 1
            && get2.response.body.model.views == 2
            && Like(get2.store, shortId, Num(-1)).response == Response(200, LikesBody(0))
  {
    var get1 := Fetch(s, shortId);
    assert get1.store[shortId] == s[shortId].(views := 1);
    var get2 := Fetch(get1.store, shortId);
    assert get2.store[shortId] == s[shortId].(views := 2);
    UnlikeAtZeroStaysZero(get2.store, shortId);
  }

  /** The upload step of the walk-through: the new record, its defaults, and where it is stored. */
  lemma ScenarioUpload(h: Headers, env: Env, file: StoredFile, freshId: NanoId, now: nat)
    requires CheckAdmin(h, env) == Allow
    requires file.originalname == "model.glb" && Required(FileUrl(file))
    ensures var form := UploadForm(Undefined, Str("50"), Undefined);
            var up := Upload(map[], h, env, Uploaded(Some(file), None), form, freshId, now);
            var m := up.response.body.model;
            && up.response.status == 201
            && m.name == Str("model.glb") && m.qty == Str("50") && m.sold == Num(0)
            && m.views == 0 && m.likes == 0 && m.bgUrl == Str("")
            && freshId in up.store && up.store[freshId] == m
  {
    var form := UploadForm(Undefined, Str("50"), Undefined);
    assert Required(Or(form.name, Str(file.originalname)));
  }

  // ---------------------------------------------------------------------------
  // Store invariants over any request

  /** The requests that reach the store; uploads carry the generator's id and the clock reading. */
  datatype Request =
    | UploadRequest(headers: Headers, upload: UploadOutcome, form: UploadForm, freshId: NanoId, now: nat)
    | PatchRequest(headers: Headers, shortId: string, body: PatchBody)
    | FetchRequest(shortId: string)
    | LikeRequest(shortId: string, change: JsVal)
    | DeleteRequest(headers: Headers, shortId: string)

  /** Route a request to its handler. */
  function Serve(s: Store, env: Env, req: Request): Step {
    match req
    case UploadRequest(h, up, form, id, now) => Upload(s, h, env, up, form, id, now)
    case PatchRequest(h, id, body) => Patch(s, h, env, id, body)
    case FetchRequest(id) => Fetch(s, id)
    case LikeRequest(id, change) => Like(s, id, change)
    case DeleteRequest(h, id) => Delete(s, h, env, id)
  }

  /** The requests that go through the admin gate. */
  predicate IsAdminRequest(req: Request) {
    req.UploadRequest? || req.PatchRequest? || req.DeleteRequest?
  }

  lemma TruthyIsRequired(v: JsVal)
    requires Truthy(v)
    ensures Required(v)
  {
  }

  /** Every request keeps the store valid. */
  lemma ServePreservesValid(s: Store, env: Env, req: Request)
    requires Valid(s)
    ensures Valid(Serve(s, env, req).store)
  {
    match req
    case UploadRequest(h, up, form, id, now) => UploadPreservesValid(s, h, env, up, form, id, now);
    case PatchRequest(h, id, body) => PatchPreservesValid(s, h, env, id, body);
    case FetchRequest(id) => FetchPreservesValid(s, id);
    case LikeRequest(id, change) => LikePreservesValid(s, id, change);
    case DeleteRequest(h, id) => DeletePreservesValid(s, h, env, id);
  }

  lemma UploadPreservesValid(s: Store, h: Headers, env: Env, up: UploadOutcome, form: UploadForm,
                             freshId: NanoId, now: nat)
    requires Valid(s)
    ensures Valid(Upload(s, h, env, up, form, freshId, now).store)
  {
    var st := Upload(s, h, env, up, form, freshId, now);
    if st.response.status == 201 {
      var r := BuildRecord(form, up.modelFile.value, up.bgFile, freshId, now);
      assert WellFormed(r);
      assert st.store == s[freshId := r];
    }
  }

  lemma PatchPreservesValid(s: Store, h: Headers, env: Env, shortId: string, b: PatchBody)
    requires Valid(s)
    ensures Valid(Patch(s, h, env, shortId, b).store)
  {
    if CheckAdmin(h, env) == Allow && shortId in s {
      var r := ApplyPatch(s[shortId], b);
      if Truthy(b.name) {
        TruthyIsRequired(b.name);
      }
      assert WellFormed(r);
      assert Patch(s, h, env, shortId, b).store == s[shortId := r];
    }
  }

  lemma FetchPreservesValid(s: Store, shortId: string)
    requires Valid(s)
    ensures Valid(Fetch(s, shortId).store)
  {
    if shortId in s {
      assert Fetch(s, shortId).store == s[shortId := s[shortId].(views := s[shortId].views + 1)];
    }
  }

  lemma LikePreservesValid(s: Store, shortId: string, change: JsVal)
    requires Valid(s)
    ensures Valid(Like(s, shortId, change).store)
  {
    if shortId in s {
      var likes := Like(s, shortId, change).store[shortId].likes;
      assert Like(s, shortId, change).store == s[shortId := s[shortId].(likes := likes)];
    }
  }

  lemma DeletePreservesValid(s: Store, h: Headers, env: Env, shortId: string)
    requires Valid(s)
    ensures Valid(Delete(s, h, env, shortId).store)
  {
  }

  /**
   No request rewrites the identity of a record that survives it: its short
   id, model URL and creation time stay, and its view count never goes down.
   */
  lemma ServeKeepsIdentity(s: Store, env: Env, req: Request, k: string)
    requires k in s && k in Serve(s, env, req).store
    ensures var r' := Serve(s, env, req).store[k];
            && r'.shortId == s[k].shortId && r'.url == s[k].url && r'.createdAt == s[k].createdAt
            && r'.views >= s[k].views
  {
    match req
    case UploadRequest(h, up, form, id, now) => UploadKeepsRecords(s, h, env, up, form, id, now, k);
    case PatchRequest(h, id, body) =>
    case FetchRequest(id) =>
    case LikeRequest(id, change) =>
    case DeleteRequest(h, id) =>
  }

  /** An upload leaves every record already stored exactly as it was. */
  lemma UploadKeepsRecords(s: Store, h: Headers, env: Env, up: UploadOutcome, form: UploadForm,
                           freshId: NanoId, now: nat, k: string)
    requires k in s
    ensures var s' := Upload(s, h, env, up, form, freshId, now).store;
            k in s' && s'[k] == s[k]
  {
  }

  /**
   Only an upload adds a record and only a delete removes one, each exactly
   the one it names; every other request keeps the set of short ids.
   */
  lemma ServeMembership(s: Store, env: Env, req: Request)
    ensures var s' := Serve(s, env, req).store;
            || s'.Keys == s.Keys
            || (req.UploadRequest? && req.freshId !in s && s'.Keys == s.Keys + {req.freshId})
            || (req.DeleteRequest? && req.shortId in s && s'.Keys == s.Keys - {req.shortId})
    ensures !IsAdminRequest(req) ==> Serve(s, env, req).store.Keys == s.Keys
  {
  }

  /** An admin request that fails the gate is answered 401 before the store is touched. */
  lemma DeniedAdminRequestChangesNothing(s: Store, env: Env, req: Request)
    requires IsAdminRequest(req) && CheckAdmin(req.headers, env).Deny?
    ensures Serve(s, env, req) == Step(Response(401, ErrorBody(CheckAdmin(req.headers, env).error)), s)
  {
  }

  /** Serving requests one after another. */
  function Run(s: Store, env: Env, reqs: seq<Request>): Store
    decreases |reqs|
  {
    if reqs == [] then s else Run(Serve(s, env, reqs[0]).store, env, reqs[1..])
  }

  /**
   From the empty store, any sequence of requests leaves a valid store: short
   ids unique and matching their records, names and URLs present, view and
   like counts non-negative.
   */
  lemma {:induction false} RunPreservesValid(s: Store, env: Env, reqs: seq<Request>)
    requires Valid(s)
    ensures Valid(Run(s, env, reqs))
    decreases |reqs|
  {
    if reqs != [] {
      ServePreservesValid(s, env, reqs[0]);
      RunPreservesValid(Serve(s, env, reqs[0]).store, env, reqs[1..]);
    }
  }

  /** The empty store is valid, so every reachable store is. */
  lemma ReachableStoresAreValid(env: Env, reqs: seq<Request>)
    ensures Valid(Run(map[], env, reqs))
  {
    RunPreservesValid(map[], env, reqs);
  }
}
