/**
 The asset record of models/Model.js and the store it lives in: a map from
 short id to record, with the schema's defaults, its two required paths and
 the unique index on the short id.

 The id generator (`nanoid(10)`) and the clock (`Date.now`) are parameters:
 a caller passes the fresh id and the creation time.
 */
module AssetModel {
  import opened Wrappers
  import opened Strings
  import opened JsValues

  /**
   One stored asset. The schema declares only `name`, `url`, `shortId`,
   `views` and `createdAt`; `bgUrl`, `qty`, `sold` and `likes` are written by
   the route handlers but are NOT declared in the schema. The record carries
   every field the handlers use.

   `qty` and `sold` hold whatever value a request supplied (a form string, a
   JSON number, even `null`). `likes` is never set on creation; the handlers
   read a missing `likes` as 0, which is what a new record holds here.
   */
  datatype Record = Record(
    shortId: string,
    name: JsVal,
    url: JsVal,
    bgUrl: JsVal,
    qty: JsVal,
    sold: JsVal,
    views: int,
    likes: int,
    createdAt: int)

  /** The collection, keyed by short id. */
  type Store = map<string, Record>

  /** The length of a generated short id. */
  const ShortIdLength: nat := 10

  /** The URL-safe alphabet of the id generator: `A-Za-z0-9_-`. */
  predicate IsUrlSafe(c: char) {
    IsAsciiAlnum(c) || c == '_' || c == '-'
  }

  predicate IsNanoId(s: string) {
    |s| == ShortIdLength && forall i :: 0 <= i < |s| ==> IsUrlSafe(s[i])
  }

  /** A short id as the generator produces it. */
  type NanoId = s: string | IsNanoId(s) witness "0000000000"

  /**
   The `required` validator of a String path: the value is set (not `undefined`
   or `null`) and is not the empty string. A number passes, since it is cast
   to a non-empty string.
   */
  function Required(v: JsVal): (ok: bool)
    ensures ok <==> Truthy(v) || v == Num(0)
  {
    match v
    case Undefined => false
    case Null => false
    case Num(_) => true
    case Str(s) => s != ""
  }

  /**
   `new Model(fields)`: the given fields plus the schema defaults. The short id
   is the generator's fresh id, `views` is 0 and `createdAt` is the creation time.
   */
  function NewRecord(name: JsVal, url: JsVal, bgUrl: JsVal, qty: JsVal, sold: JsVal,
                     freshId: NanoId, now: nat): (r: Record)
    ensures r.shortId == freshId && |r.shortId| == ShortIdLength
    ensures r.views == 0 && r.likes == 0 && r.createdAt == now
    ensures r.name == name && r.url == url && r.bgUrl == bgUrl && r.qty == qty && r.sold == sold
  {
    Record(freshId, name, url, bgUrl, qty, sold, 0, 0, now)
  }

  /** Why `save()` of a new record fails. */
  datatype SaveError = ValidationFailed | DuplicateShortId

  /**
   `model.save()` of a new record: the required paths are validated first,
   then the unique index on `shortId` rejects an id already in use. On
   failure the store is untouched; on success exactly the one record is added.
   */
  function Insert(s: Store, r: Record): (res: Result<Store, SaveError>)
    ensures res == Err(ValidationFailed) <==> !(Required(r.name) && Required(r.url))
    ensures res == Err(DuplicateShortId) <==> Required(r.name) && Required(r.url) && r.shortId in s
    ensures res.Ok? ==> && r.shortId !in s
                        && res.value.Keys == s.Keys + {r.shortId}
                        && res.value[r.shortId] == r
                        && (forall k :: k in s ==> res.value[k] == s[k])
  {
    if !(Required(r.name) && Required(r.url)) then Err(ValidationFailed)
    else if r.shortId in s then Err(DuplicateShortId)
    else Ok(s[r.shortId := r])
  }

  /** What every stored record satisfies. */
  predicate WellFormed(r: Record) {
    && IsNanoId(r.shortId)
    && Required(r.name) && Required(r.url)
    && r.views >= 0 && r.likes >= 0
  }

  /** The store invariant: each record sits under its own short id and is well formed. */
  predicate Valid(s: Store) {
    forall k :: k in s ==> s[k].shortId == k && WellFormed(s[k])
  }

  /** Inserting a freshly constructed record keeps the store valid. */
  lemma InsertPreservesValid(s: Store, r: Record)
    requires Valid(s)
    requires IsNanoId(r.shortId) && r.views >= 0 && r.likes >= 0
    ensures Insert(s, r).Ok? ==> Valid(Insert(s, r).value)
  {
  }

  /** In a valid store no two records share a short id. */
  lemma ShortIdsUnique(s: Store, k1: string, k2: string)
    requires Valid(s) && k1 in s && k2 in s
    requires s[k1].shortId == s[k2].shortId
    ensures k1 == k2
  {
  }
}
