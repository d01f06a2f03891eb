/**
 The route handlers of app.js as pure transitions: each takes the store and
 a request and returns the response (status and JSON payload) together with
 the store afterwards. Handlers run one at a time.

 The storage upload itself happens before a handler runs; its outcome (the
 stored files' URLs and original names, or an upload error) is an input.
 */
module Handlers {
  import opened Wrappers
  import opened Strings
  import opened JsValues
  import opened AssetModel

  /** The two request headers the admin gate reads: `x-api-key` and `authorization`. */
  datatype Headers = Headers(apiKey: Option<string>, authorization: Option<string>)

  /** The environment variables the handlers read: `ADMIN_TOKEN` and `FRONTEND_BASE_URL`. */
  datatype Env = Env(adminToken: Option<string>, frontendBaseUrl: Option<string>)

  /** The JSON payloads the handlers send. */
  datatype Body =
    | RecordBody(model: Record)                       // a record
    | RecordsBody(models: seq<Record>)                // an array of records
    | CreatedBody(model: Record, viewLink: string)    // { success: true, model, viewLink }
    | LikesBody(likes: int)                           // { likes }
    | SuccessBody                                     // { success: true }
    | ErrorBody(error: string)                        // { error }
    | UploadErrorBody(error: string, details: string) // { error, details }

  datatype Response = Response(status: int, body: Body)

  /** A handler's effect: what it answers and the store it leaves. */
  datatype Step = Step(response: Response, store: Store)

  const MissingToken: string := "Missing admin token"
  const InvalidToken: string := "Invalid admin token"

  // ---------------------------------------------------------------------------
  // Admin gate (`checkAdmin`)

  datatype Gate = Allow | Deny(error: string)

  /** The credential presented: `x-api-key`, or `authorization` when the former is unset or empty, trimmed. */
  function PresentedToken(h: Headers): (t: string)
    ensures IsTrimmed(t)
    ensures h.apiKey.Some? && h.apiKey.value != "" ==> t == Trim(h.apiKey.value)
    ensures h.apiKey.None? && h.authorization.None? ==> t == ""
  {
    SafeTrim(Or(Or(FromOptional(h.apiKey), FromOptional(h.authorization)), Str("")))
  }

  /** The configured secret `ADMIN_TOKEN`, trimmed; empty when unset. */
  function ConfiguredSecret(env: Env): (secret: string)
    ensures secret == (if env.adminToken.Some? then Trim(env.adminToken.value) else "")
  {
    SafeTrim(Or(FromOptional(env.adminToken), Str("")))
  }

  /**
   `checkAdmin`: an empty presented token is "missing"; otherwise the request
   passes exactly when the token equals the configured secret, character for
   character.
   */
  function CheckAdmin(h: Headers, env: Env): (g: Gate)
    ensures g == Allow <==> PresentedToken(h) != "" && PresentedToken(h) == ConfiguredSecret(env)
    ensures g == Deny(MissingToken) <==> PresentedToken(h) == ""
    ensures g.Deny? ==> g.error == MissingToken || g.error == InvalidToken
  {
    var token := PresentedToken(h);
    if token == "" then Deny(MissingToken)
    else if token != ConfiguredSecret(env) then Deny(InvalidToken)
    else Allow
  }

  /** The 401 answer of a denied request; the store is not touched. */
  function Denied(g: Gate, s: Store): (st: Step)
    requires g.Deny?
    ensures st.response.status == 401 && st.store == s
  {
    Step(Response(401, ErrorBody(g.error)), s)
  }

  // ---------------------------------------------------------------------------
  // POST /api/upload

  /** A file as the storage layer reports it after the upload. */
  datatype StoredFile = StoredFile(path: JsVal, secureUrl: JsVal, originalname: string)

  /** What the multipart upload produced: an error, or the files of the two fields. */
  datatype UploadOutcome =
    | UploadFailed(message: string)
    | Uploaded(modelFile: Option<StoredFile>, bgFile: Option<StoredFile>)

  /** The text fields of the upload form. */
  datatype UploadForm = UploadForm(name: JsVal, qty: JsVal, sold: JsVal)

  const DefaultQty: int := 100
  const DefaultSold: int := 0
  const DefaultFrontendBase: string := "http://localhost:5173"

  /** Where a stored file can be fetched: `path || secure_url`. */
  function FileUrl(f: StoredFile): (u: JsVal)
    ensures u == f.path || u == f.secureUrl
    ensures Truthy(f.path) ==> u == f.path
    ensures Truthy(u) <==> Truthy(f.path) || Truthy(f.secureUrl)
  {
    Or(f.path, f.secureUrl)
  }

  /**
   The record the upload handler constructs: the form's name unless it is
   falsy, then the model file's original name; the model file's URL; the
   background file's URL, or `""` without one; the form's `qty` and `sold`
   unless falsy, then 100 and 0; plus the schema defaults.
   */
  function BuildRecord(form: UploadForm, modelFile: StoredFile, bgFile: Option<StoredFile>,
                       freshId: NanoId, now: nat): (r: Record)
    ensures r.name == (if Truthy(form.name) then form.name else Str(modelFile.originalname))
    ensures r.url == FileUrl(modelFile)
    ensures bgFile.None? ==> r.bgUrl == Str("")
    ensures bgFile.Some? ==> r.bgUrl == FileUrl(bgFile.value)
    ensures r.qty == (if Truthy(form.qty) then form.qty else Num(DefaultQty))
    ensures r.sold == (if Truthy(form.sold) then form.sold else Num(DefaultSold))
    ensures r.shortId == freshId && r.views == 0 && r.likes == 0 && r.createdAt == now
  {
    var bgUrl := if bgFile.Some? then FileUrl(bgFile.value) else Str("");
    NewRecord(Or(form.name, Str(modelFile.originalname)), FileUrl(modelFile), bgUrl,
              Or(form.qty, Num(DefaultQty)), Or(form.sold, Num(DefaultSold)), freshId, now)
  }

  /** `base.replace(/\/$/, '')`: one `/` at the very end is removed, if there is one. */
  function StripTrailingSlash(base: string): (r: string)
    ensures r == base || r + "/" == base
    ensures |base| > 0 && base[|base| - 1] == '/' ==> |r| == |base| - 1
  {
    if |base| > 0 && base[|base| - 1] == '/' then base[..|base| - 1] else base
  }

  /** `FRONTEND_BASE_URL`, or the local development address when it is unset or empty. */
  function FrontendBase(env: Env): (base: string)
    ensures base == (if env.frontendBaseUrl.Some? && env.frontendBaseUrl.value != "" then env.frontendBaseUrl.value
                     else DefaultFrontendBase)
    ensures base != ""
  {
    if Truthy(FromOptional(env.frontendBaseUrl)) then env.frontendBaseUrl.value else DefaultFrontendBase
  }

  /**
   The share link of a record: the base without its trailing `/`, then
   `/view/` and the short id. The base is recovered from the link by cutting
   the `/view/<id>` ending, and putting back the `/` when the base ended in one.
   */
  function ViewLink(env: Env, shortId: string): (link: string)
    ensures |link| >= |shortId| + 6
    ensures link[|link| - |shortId| - 6..] == "/view/" + shortId
    ensures var base, cut := FrontendBase(env), link[..|link| - |shortId| - 6];
            if |base| > 0 && base[|base| - 1] == '/' then base == cut + "/" else base == cut
  {
    var base := StripTrailingSlash(FrontendBase(env));
    var link := base + "/view/" + shortId;
    assert link == base + ("/view/" + shortId);
    link
  }

  /**
   POST /api/upload. In order: the admin gate (401), an upload error (400),
   a missing model file (400), a record that fails validation or whose short
   id is taken (500), and otherwise 201 with the new record and its share link.
   Every answer but 201 leaves the store as it was; 201 adds exactly the new record.
   */
  function Upload(s: Store, h: Headers, env: Env, up: UploadOutcome, form: UploadForm,
                  freshId: NanoId, now: nat): (st: Step)
    ensures CheckAdmin(h, env).Deny? ==>
              st == Step(Response(401, ErrorBody(CheckAdmin(h, env).error)), s)
    ensures CheckAdmin(h, env) == Allow && up.UploadFailed? ==>
              st == Step(Response(400, UploadErrorBody("Upload error", up.message)), s)
    ensures CheckAdmin(h, env) == Allow && up.Uploaded? && up.modelFile.None? ==>
              st == Step(Response(400, ErrorBody("Model file is required")), s)
    ensures CheckAdmin(h, env) == Allow && up.Uploaded? && up.modelFile.Some? && st.response.status != 201 ==>
              st == Step(Response(500, ErrorBody("Server error")), s)
    ensures st.response.status != 201 ==> st.store == s
    ensures st.response.status == 201 <==>
              && CheckAdmin(h, env) == Allow && up.Uploaded? && up.modelFile.Some?
              && Required(Or(form.name, Str(up.modelFile.value.originalname)))
              && Required(FileUrl(up.modelFile.value))
              && freshId !in s
    ensures st.response.status == 201 ==>
              && st.response.body.CreatedBody?
              && st.response.body.model == BuildRecord(form, up.modelFile.value, up.bgFile, freshId, now)
              && st.response.body.viewLink == ViewLink(env, freshId)
              && st.store.Keys == s.Keys + {freshId}
              && st.store[freshId] == st.response.body.model
              && (forall k :: k in s ==> st.store[k] == s[k])
  {
    var g := CheckAdmin(h, env);
    if g.Deny? then Denied(g, s)
    else
      match up
      case UploadFailed(message) =>
        Step(Response(400, UploadErrorBody("Upload error", message)), s)
      case Uploaded(modelFile, bgFile) =>
        if modelFile.None? then
          Step(Response(400, ErrorBody("Model file is required")), s)
        else
          var r := BuildRecord(form, modelFile.value, bgFile, freshId, now);
          match Insert(s, r)
          case Err(_) => Step(Response(500, ErrorBody("Server error")), s)
          case Ok(s') => Step(Response(201, CreatedBody(r, ViewLink(env, r.shortId))), s')
  }

  // ---------------------------------------------------------------------------
  // PATCH /api/models/:shortId

  /** The JSON body of an edit; a key left out of the body reads as `Undefined`. */
  datatype PatchBody = PatchBody(qty: JsVal, sold: JsVal, name: JsVal)

  /**
   The partial update: `qty` and `sold` are replaced whenever the body has
   them, even as `0` or `null`; `name` only when it is truthy. Nothing else
   in the record changes.
   */
  function ApplyPatch(r: Record, b: PatchBody): (r': Record)
    ensures r'.qty == (if b.qty.Undefined? then r.qty else b.qty)
    ensures r'.sold == (if b.sold.Undefined? then r.sold else b.sold)
    ensures r'.name == (if Truthy(b.name) then b.name else r.name)
    ensures r' == r.(qty := r'.qty, sold := r'.sold, name := r'.name)
  {
    var withQty := if b.qty.Undefined? then r else r.(qty := b.qty);
    var withSold := if b.sold.Undefined? then withQty else withQty.(sold := b.sold);
    if Truthy(b.name) then withSold.(name := b.name) else withSold
  }

  /** PATCH /api/models/:shortId (admin): the updated record, or 404 with the store untouched. */
  function Patch(s: Store, h: Headers, env: Env, shortId: string, b: PatchBody): (st: Step)
    ensures CheckAdmin(h, env).Deny? ==>
              st == Step(Response(401, ErrorBody(CheckAdmin(h, env).error)), s)
    ensures CheckAdmin(h, env) == Allow && shortId !in s ==>
              st == Step(Response(404, ErrorBody("Not found")), s)
    ensures CheckAdmin(h, env) == Allow && shortId in s ==>
              && st.store.Keys == s.Keys
              && st.store[shortId] == ApplyPatch(s[shortId], b)
              && (forall k :: k in s && k != shortId ==> st.store[k] == s[k])
              && st.response == Response(200, RecordBody(st.store[shortId]))
  {
    var g := CheckAdmin(h, env);
    if g.Deny? then Denied(g, s)
    else if shortId !in s then Step(Response(404, ErrorBody("Not found")), s)
    else
      var r := ApplyPatch(s[shortId], b);
      Step(Response(200, RecordBody(r)), s[shortId := r])
  }

  // ---------------------------------------------------------------------------
  // GET /api/models/:shortId

  /**
   GET /api/models/:shortId: the record with its view count one higher, which
   is also stored; 404 for an unknown id, which creates nothing.
   */
  function Fetch(s: Store, shortId: string): (st: Step)
    ensures shortId !in s ==> st == Step(Response(404, ErrorBody("Model not found")), s)
    ensures shortId in s ==>
              && st.store.Keys == s.Keys
              && st.store[shortId] == s[shortId].(views := s[shortId].views + 1)
              && (forall k :: k in s && k != shortId ==> st.store[k] == s[k])
              && st.response == Response(200, RecordBody(st.store[shortId]))
  {
    if shortId !in s then Step(Response(404, ErrorBody("Model not found")), s)
    else
      // `(model.views || 0) + 1`: a count of 0 reads as 0, so this is the count plus one
      var r := s[shortId].(views := s[shortId].views + 1);
      Step(Response(200, RecordBody(r)), s[shortId := r])
  }

  // ---------------------------------------------------------------------------
  // POST /api/models/:shortId/like

  /** The like delta: `change` when it is exactly the number 1 or -1, otherwise 1. */
  function LikeDelta(change: JsVal): (d: int)
    ensures d == 1 || d == -1
    ensures d == -1 <==> change == Num(-1)
  {
    if Truthy(change) && (change == Num(1) || change == Num(-1)) then change.n else 1
  }

  function Max(a: int, b: int): int {
    if a >= b then a else b
  }

  /**
   POST /api/models/:shortId/like: the like count moves by the delta but never
   below 0, and the new count is the answer; 404 for an unknown id.
   */
  function Like(s: Store, shortId: string, change: JsVal): (st: Step)
    ensures shortId !in s ==> st == Step(Response(404, ErrorBody("Not found")), s)
    ensures shortId in s ==>
              && st.store.Keys == s.Keys
              && st.store[shortId] == s[shortId].(likes := st.store[shortId].likes)
              && st.store[shortId].likes == Max(0, s[shortId].likes + LikeDelta(change))
              && st.store[shortId].likes >= 0
              && (forall k :: k in s && k != shortId ==> st.store[k] == s[k])
              && st.response == Response(200, LikesBody(st.store[shortId].likes))
  {
    var delta := LikeDelta(change);
    if shortId !in s then Step(Response(404, ErrorBody("Not found")), s)
    else
      // `(model.likes || 0)`: a missing count reads as 0, the count of a new record
      var likes := Max(0, s[shortId].likes + delta);
      Step(Response(200, LikesBody(likes)), s[shortId := s[shortId].(likes := likes)])
  }

  /**
   The like handler as it behaves with the schema of models/Model.js, which
   does not declare `likes`: under Mongoose's default strict mode the count
   is neither saved nor loaded, so every request reads it as `undefined || 0`
   and the store never changes. Like is the handler as intended, with `likes`
   stored.
   */
  function LikeUndeclaredCount(s: Store, shortId: string, change: JsVal): (st: Step)
    ensures st.store == s
    ensures shortId !in s ==> st.response == Response(404, ErrorBody("Not found"))
    ensures shortId in s ==> st.response == Response(200, LikesBody(if LikeDelta(change) == 1 then 1 else 0))
  {
    var delta := LikeDelta(change);
    if shortId !in s then Step(Response(404, ErrorBody("Not found")), s)
    else Step(Response(200, LikesBody(Max(0, 0 + delta))), s)
  }

  // ---------------------------------------------------------------------------
  // DELETE /api/models/:shortId

  /** DELETE /api/models/:shortId (admin): exactly that record is removed; 404 when there is none. */
  function Delete(s: Store, h: Headers, env: Env, shortId: string): (st: Step)
    ensures CheckAdmin(h, env).Deny? ==>
              st == Step(Response(401, ErrorBody(CheckAdmin(h, env).error)), s)
    ensures CheckAdmin(h, env) == Allow && shortId !in s ==>
              st == Step(Response(404, ErrorBody("Model not found")), s)
    ensures CheckAdmin(h, env) == Allow && shortId in s ==>
              && st.store.Keys == s.Keys - {shortId}
              && (forall k :: k in st.store ==> st.store[k] == s[k])
              && st.response == Response(200, SuccessBody)
  {
    var g := CheckAdmin(h, env);
    if g.Deny? then Denied(g, s)
    else if shortId !in s then Step(Response(404, ErrorBody("Model not found")), s)
    else Step(Response(200, SuccessBody), s - {shortId})
  }

  // ---------------------------------------------------------------------------
  // GET /api/models

  /** Records ordered by creation time, newest first. */
  predicate NewestFirst(r: seq<Record>) {
    forall i, j :: 0 <= i < j < |r| ==> r[i].createdAt >= r[j].createdAt
  }

  /** `keys` lists every key of `s` once, and `r` holds the record of each, in the same order. */
  ghost predicate Enumerates(s: Store, r: seq<Record>, keys: seq<string>) {
    && |keys| == |r|
    && (forall i :: 0 <= i < |keys| ==> keys[i] in s && r[i] == s[keys[i]])
    && (forall i, j :: 0 <= i < j < |keys| ==> keys[i] != keys[j])
    && (forall k :: k in s ==> k in keys)
  }

  /** Where a record created at `t` goes in a newest-first list: after every record at least as new. */
  function InsertPosition(r: seq<Record>, t: int): (pos: nat)
    requires NewestFirst(r)
    ensures pos <= |r|
    ensures forall i :: 0 <= i < pos ==> r[i].createdAt >= t
    ensures forall i :: pos <= i < |r| ==> r[i].createdAt < t
  {
    if r == [] || r[0].createdAt < t then 0 else 1 + InsertPosition(r[1..], t)
  }

  /** The first records of a listing under construction: those of the keys in `done`, each once. */
  ghost predicate Lists(s: Store, r: seq<Record>, keys: seq<string>, done: set<string>) {
    && |keys| == |r|
    && (forall i :: 0 <= i < |keys| ==> keys[i] in done && keys[i] in s && r[i] == s[keys[i]])
    && (forall i, j :: 0 <= i < j < |keys| ==> keys[i] != keys[j])
    && (forall k :: k in done ==> k in keys)
  }

  /** Putting a record at its insertion position keeps the list newest first. */
  lemma InsertKeepsNewestFirst(r: seq<Record>, x: Record)
    requires NewestFirst(r)
    ensures var pos := InsertPosition(r, x.createdAt);
            NewestFirst(r[..pos] + [x] + r[pos..])
  {
    var pos := InsertPosition(r, x.createdAt);
    var r' := r[..pos] + [x] + r[pos..];
    forall i, j | 0 <= i < j < |r'|
      ensures r'[i].createdAt >= r'[j].createdAt
    {
      if j < pos {
        assert r'[i] == r[i] && r'[j] == r[j];
      } else if j == pos {
        assert r'[j] == x && r'[i] == r[i];
      } else if i < pos {
        assert r'[i] == r[i] && r'[j] == r[j - 1];
      } else if i == pos {
        assert r'[i] == x && r'[j] == r[j - 1];
      } else {
        assert r'[i] == r[i - 1] && r'[j] == r[j - 1];
      }
    }
  }

  /** Where the elements of a sequence end up after inserting one element at `pos`. */
  lemma InsertIndex<T>(a: seq<T>, x: T, pos: nat, i: nat)
    requires pos <= |a| && i <= |a|
    ensures |a[..pos] + [x] + a[pos..]| == |a| + 1
    ensures i < pos ==> (a[..pos] + [x] + a[pos..])[i] == a[i]
    ensures i == pos ==> (a[..pos] + [x] + a[pos..])[i] == x
    ensures i > pos ==> (a[..pos] + [x] + a[pos..])[i] == a[i - 1]
  {
  }

  /** Adding the record of a key not yet listed, with the key at the same position, keeps the listing exact. */
  lemma InsertKeepsLists(s: Store, r: seq<Record>, keys: seq<string>, done: set<string>, k: string, pos: nat)
    requires Lists(s, r, keys, done)
    requires k in s && k !in done && pos <= |r|
    ensures Lists(s, r[..pos] + [s[k]] + r[pos..], keys[..pos] + [k] + keys[pos..], done + {k})
  {
    var r' := r[..pos] + [s[k]] + r[pos..];
    var keys' := keys[..pos] + [k] + keys[pos..];
    InsertIndex(r, s[k], pos, 0);
    InsertIndex(keys, k, pos, 0);
    forall i | 0 <= i < |keys'|
      ensures keys'[i] in done + {k} && keys'[i] in s && r'[i] == s[keys'[i]]
    {
      InsertIndex(r, s[k], pos, i);
      InsertIndex(keys, k, pos, i);
    }
    forall i, j | 0 <= i < j < |keys'|
      ensures keys'[i] != keys'[j]
    {
      InsertIndex(keys, k, pos, i);
      InsertIndex(keys, k, pos, j);
    }
    forall x | x in done + {k}
      ensures x in keys'
    {
      if x != k {
        var i :| 0 <= i < |keys| && keys[i] == x;
        if i < pos {
          InsertIndex(keys, k, pos, i);
          assert keys'[i] == x;
        } else {
          InsertIndex(keys, k, pos, i + 1);
          assert keys'[i + 1] == x;
        }
      } else {
        InsertIndex(keys, k, pos, pos);
        assert keys'[pos] == k;
      }
    }
  }

  /** GET /api/models: every record once, newest first. */
  method ListModels(s: Store) returns (resp: Response)
    ensures resp.status == 200 && resp.body.RecordsBody?
    ensures NewestFirst(resp.body.models)
    ensures |resp.body.models| == |s|
    ensures exists keys :: Enumerates(s, resp.body.models, keys)
  {
    var r: seq<Record> := [];
    ghost var keys: seq<string> := [];
    var todo := s.Keys;
    while todo != {}
      invariant todo <= s.Keys
      invariant Lists(s, r, keys, s.Keys - todo)
      invariant |r| + |todo| == |s|
      invariant NewestFirst(r)
      decreases todo
    {
      var k :| k in todo;
      var pos := InsertPosition(r, s[k].createdAt);
      InsertKeepsNewestFirst(r, s[k]);
      InsertKeepsLists(s, r, keys, s.Keys - todo, k, pos);
      r := r[..pos] + [s[k]] + r[pos..];
      keys := keys[..pos] + [k] + keys[pos..];
      assert (s.Keys - todo) + {k} == s.Keys - (todo - {k});
      todo := todo - {k};
    }
    assert s.Keys - todo == s.Keys;
    assert Enumerates(s, r, keys);
    resp := Response(200, RecordsBody(r));
  }
}
