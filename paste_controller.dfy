/**
  The paste controller: request-body validation and record insertion
  (`createPaste`), and the read path with its expiry policy and view counter
  (`getPaste`). The database is an in-memory map from id to record, held by
  the `PasteStore` class; the pure functions `Create` and `Read` state what
  one call does to that map and what it answers.

  Time is an integer number of milliseconds since the epoch, passed in by the
  caller. The outcome of parsing `expiresAt` with `new Date(...)` and the id
  that `generateId` draws are inputs as well.
*/
module PasteController {
  import opened Wrappers
  import opened JsText

  type Id = string

  /** Largest accepted content, in UTF-8 bytes (10 KB). */
  const MaxContentBytes: nat := 10240

  // ---------------------------------------------------------------------------
  // Request body fields, as JavaScript values seen by the checks
  // ---------------------------------------------------------------------------

  /** `req.body.content`: a falsy value (undefined, null, 0, false, NaN),
      some other non-string value, or a string. */
  datatype ContentField = Absent | NonString | Text(s: string)

  /** `req.body.expiresAt`: a falsy value, a truthy value that `new Date`
      turns into a valid time (milliseconds), or one it cannot parse. */
  datatype ExpiresAtField = Falsy | Parsed(millis: int) | Unparseable

  /** `req.body.maxViews`: `undefined`, a number for which `Number.isInteger`
      holds, or anything else (a fraction, a string, `null`, ...). */
  datatype MaxViewsField = Undefined | Int(n: int) | NonInteger

  /** The 400 answers of `createPaste`, in the order the checks run. */
  datatype CreateError = ContentRequired | ContentTooLarge | InvalidExpiresAt | InvalidMaxViews

  /** The error text sent with each 400 answer: non-empty, and a different
      text for each check (`MessagesDistinct`). */
  function Message(e: CreateError): (text: string)
    ensures |text| > 0
  {
    match e
    case ContentRequired => "Content is required and must be non-empty"
    case ContentTooLarge => "Content exceeds 10KB limit"
    case InvalidExpiresAt => "Invalid expiresAt timestamp"
    case InvalidMaxViews => "maxViews must be a positive integer"
  }

  /** A client can tell from the text alone which check refused the body. */
  lemma MessagesDistinct(e1: CreateError, e2: CreateError)
    ensures Message(e1) == Message(e2) ==> e1 == e2
  {
  }

  /** The fields of a record that validation fixes. */
  datatype Draft = Draft(content: string, expiresAt: Option<int>, maxViews: Option<int>)

  /** A stored paste. */
  datatype Paste = Paste(id: Id, content: string, expiresAt: Option<int>, maxViews: Option<int>, viewCount: nat)

  type Store = map<Id, Paste>

  /** Answer of `createPaste`: 200 with the id, 400 with an error, or 500
      when the store refuses the insert (the drawn id is already a key). */
  datatype CreateResponse = Created(id: Id) | Rejected(error: CreateError) | InternalError

  /** Answer of `getPaste`: 200 with the content, 404, or 410. */
  datatype GetResponse = Content(content: string) | NotFound | Expired

  /** HTTP status of a `createPaste` answer. */
  function CreateStatus(r: CreateResponse): int {
    match r
    case Created(_) => 200
    case Rejected(_) => 400
    case InternalError => 500
  }

  /** The `error` text of a `createPaste` answer; none on success. */
  function CreateErrorText(r: CreateResponse): Option<string> {
    match r
    case Created(_) => None
    case Rejected(e) => Some(Message(e))
    case InternalError => Some("Internal server error")
  }

  /** HTTP status of a `getPaste` answer. */
  function GetStatus(r: GetResponse): int {
    match r
    case Content(_) => 200
    case NotFound => 404
    case Expired => 410
  }

  /** The `error` text of a `getPaste` answer; none on success. */
  function GetErrorText(r: GetResponse): Option<string> {
    match r
    case Content(_) => None
    case NotFound => Some("Paste not found")
    case Expired => Some("Paste expired")
  }

  // ---------------------------------------------------------------------------
  // createPaste: the validation chain
  // ---------------------------------------------------------------------------

  /** Content passes the first check: a string that is not all whitespace. */
  predicate HasText(content: ContentField) {
    content.Text? && !IsBlank(content.s)
  }

  /** `maxViews` passes its check: absent, or an integer of at least 1. */
  predicate MaxViewsAcceptable(maxViews: MaxViewsField) {
    maxViews.Undefined? || (maxViews.Int? && maxViews.n >= 1)
  }

  /** The expiry that is stored: none for a falsy field. */
  function StoredExpiry(expiresAt: ExpiresAtField): Option<int> {
    if expiresAt.Parsed? then Some(expiresAt.millis) else None
  }

  /** The view limit that is stored: none when the field is absent. */
  function StoredLimit(maxViews: MaxViewsField): Option<int> {
    if maxViews.Int? then Some(maxViews.n) else None
  }

  /** The four checks of `createPaste`, in order; the first that fails
      decides the error. A past `expiresAt` is accepted: nothing checks that
      it lies in the future. */
  function CheckBody(content: ContentField, expiresAt: ExpiresAtField, maxViews: MaxViewsField): (r: Result<Draft, CreateError>)
    ensures !HasText(content) ==> r == Failure(ContentRequired)
    ensures HasText(content) && Utf8Len(content.s) > MaxContentBytes ==> r == Failure(ContentTooLarge)
    ensures HasText(content) && Utf8Len(content.s) <= MaxContentBytes && expiresAt.Unparseable? ==>
              r == Failure(InvalidExpiresAt)
    ensures HasText(content) && Utf8Len(content.s) <= MaxContentBytes && !expiresAt.Unparseable? &&
              !MaxViewsAcceptable(maxViews) ==>
              r == Failure(InvalidMaxViews)
    ensures r.Success? <==>
              HasText(content) && Utf8Len(content.s) <= MaxContentBytes &&
              !expiresAt.Unparseable? && MaxViewsAcceptable(maxViews)
    ensures r.Success? ==> r.value == Draft(content.s, StoredExpiry(expiresAt), StoredLimit(maxViews))
  {
    if !content.Text? || content.s == [] then
      Failure(ContentRequired)
    else
      TrimEmptyIffBlank(content.s);
      if Trim(content.s) == [] then
        Failure(ContentRequired)
      else if Utf8Len(content.s) > MaxContentBytes then
        Failure(ContentTooLarge)
      else if expiresAt.Unparseable? then
        Failure(InvalidExpiresAt)
      else if maxViews.NonInteger? || (maxViews.Int? && maxViews.n < 1) then
        Failure(InvalidMaxViews)
      else
        Success(Draft(content.s, StoredExpiry(expiresAt), StoredLimit(maxViews)))
  }

  /** What every stored record satisfies: it passed `CheckBody`. */
  predicate WellFormed(p: Paste) {
    !IsBlank(p.content) && Utf8Len(p.content) <= MaxContentBytes &&
    (p.maxViews.Some? ==> p.maxViews.value >= 1)
  }

  /** Store invariant: each record sits under its own id and is well formed. */
  predicate StoreInvariant(store: Store) {
    forall id :: id in store ==> store[id].id == id && WellFormed(store[id])
  }

  /** `createPaste` on a store: validate, then insert one record with no
      views under the drawn id `id`. An id that is already a key makes the
      insert fail (500). Only a successful insert changes the store. */
  function Create(store: Store, id: Id, content: ContentField, expiresAt: ExpiresAtField, maxViews: MaxViewsField)
    : (out: (CreateResponse, Store))
    ensures CheckBody(content, expiresAt, maxViews).Failure? ==>
              out == (Rejected(CheckBody(content, expiresAt, maxViews).error), store)
    ensures CheckBody(content, expiresAt, maxViews).Success? && id in store ==> out == (InternalError, store)
    ensures out.0.Created? <==> CheckBody(content, expiresAt, maxViews).Success? && id !in store
    ensures out.0.Created? ==>
              out.0.id == id && out.1.Keys == store.Keys + {id} &&
              out.1[id] == Paste(id, content.s, StoredExpiry(expiresAt), StoredLimit(maxViews), 0) &&
              forall k :: k in store ==> out.1[k] == store[k]
  {
    match CheckBody(content, expiresAt, maxViews)
    case Failure(e) => (Rejected(e), store)
    case Success(d) =>
      if id in store then (InternalError, store)
      else (Created(id), store[id := Paste(id, d.content, d.expiresAt, d.maxViews, 0)])
  }

  // ---------------------------------------------------------------------------
  // getPaste: the expiry policy and the read path
  // ---------------------------------------------------------------------------

  /** The time-based half of the policy: an expiry is set and `now` is
      strictly after it, so a record is still live at its own expiry. */
  function PastExpiry(now: int, p: Paste): (past: bool)
    ensures past ==> p.expiresAt.Some?
    ensures p.expiresAt == Some(now) ==> !past
    ensures p.expiresAt == Some(now - 1) ==> past
  {
    p.expiresAt.Some? && now > p.expiresAt.value
  }

  /** The count-based half of the policy, with JavaScript truthiness: a
      limit of 0 is falsy and so never applies. For a limit of at least 1
      it holds once the view count has reached the limit. */
  function ViewsUsedUp(p: Paste): (usedUp: bool)
    ensures usedUp ==> p.maxViews.Some? && p.maxViews.value != 0
    ensures p.maxViews.Some? && p.maxViews.value >= 1 ==> (usedUp <==> p.viewCount >= p.maxViews.value)
  {
    p.maxViews.Some? && p.maxViews.value != 0 && p.viewCount >= p.maxViews.value
  }

  /** The expiry predicate of `getPaste`, with the source's truthiness tests
      kept. A paste with neither an expiry nor a limit never expires, and a
      limit of 0 leaves only the time bound in force. */
  function IsExpired(now: int, p: Paste): (expired: bool)
    ensures expired ==> p.expiresAt.Some? || p.maxViews.Some?
    ensures p.maxViews == Some(0) ==> (expired <==> PastExpiry(now, p))
  {
    PastExpiry(now, p) || ViewsUsedUp(p)
  }

  /** `getPaste` on a store at time `now`: 404 for an unknown id, 410 for an
      expired record, otherwise the stored content with that record's view
      count raised by one. Nothing else in the store changes. */
  function Read(store: Store, id: Id, now: int): (out: (GetResponse, Store))
    ensures id !in store ==> out == (NotFound, store)
    ensures id in store && IsExpired(now, store[id]) ==> out == (Expired, store)
    ensures out.0.Content? <==> id in store && !IsExpired(now, store[id])
    ensures out.0.Content? ==> out.0.content == store[id].content
    ensures GetStatus(out.0) == 404 <==> id !in store
    ensures GetStatus(out.0) == 410 <==> id in store && IsExpired(now, store[id])
    ensures GetErrorText(out.0) ==
              if id !in store then Some("Paste not found")
              else if IsExpired(now, store[id]) then Some("Paste expired")
              else None
    ensures out.1.Keys == store.Keys
    ensures forall k :: k in store && k != id ==> out.1[k] == store[k]
    ensures id in store ==>
              out.1[id] == store[id].(viewCount := store[id].viewCount + if out.0.Content? then 1 else 0)
  {
    if id !in store then (NotFound, store)
    else
      var p := store[id];
      if IsExpired(now, p) then (Expired, store)
      else (Content(p.content), store[id := p.(viewCount := p.viewCount + 1)])
  }

  /** The status and `error` text `createPaste` sends: 400 with the failing
      check's text exactly when a check fails, 500 with "Internal server
      error" when the drawn id is taken, 200 with no error otherwise. */
  lemma CreateAnswers(store: Store, id: Id, content: ContentField, expiresAt: ExpiresAtField,
                      maxViews: MaxViewsField)
    ensures var r := Create(store, id, content, expiresAt, maxViews).0;
            var checked := CheckBody(content, expiresAt, maxViews);
            (CreateStatus(r) == 400 <==> checked.Failure?) &&
            (checked.Failure? ==> CreateErrorText(r) == Some(Message(checked.error))) &&
            (CreateStatus(r) == 500 <==> checked.Success? && id in store) &&
            (CreateStatus(r) == 500 ==> CreateErrorText(r) == Some("Internal server error")) &&
            (CreateStatus(r) == 200 <==> CreateErrorText(r).None?)
  {
  }

  /** Every record `createPaste` stores passed the checks. */
  lemma CreateKeepsInvariant(store: Store, id: Id, content: ContentField, expiresAt: ExpiresAtField,
                             maxViews: MaxViewsField)
    requires StoreInvariant(store)
    ensures StoreInvariant(Create(store, id, content, expiresAt, maxViews).1)
  {
  }

  /** Reads change view counts only, so stored records stay well formed. */
  lemma ReadKeepsInvariant(store: Store, id: Id, now: int)
    requires StoreInvariant(store)
    ensures StoreInvariant(Read(store, id, now).1)
  {
  }

  // ---------------------------------------------------------------------------
  // The store
  // ---------------------------------------------------------------------------

  /** The paste table, updated in place by the two handlers. */
  class PasteStore {
    var pastes: Store

    ghost predicate Valid()
      reads this
    {
      StoreInvariant(pastes)
    }

    constructor ()
      ensures Valid() && pastes == map[]
    {
      pastes := map[];
    }

    /** `createPaste`: runs the checks and inserts at most one record. */
    method CreatePaste(id: Id, content: ContentField, expiresAt: ExpiresAtField, maxViews: MaxViewsField)
      returns (r: CreateResponse)
      requires Valid()
      modifies this
      ensures Valid()
      ensures r == Create(old(pastes), id, content, expiresAt, maxViews).0
      ensures pastes == Create(old(pastes), id, content, expiresAt, maxViews).1
    {
      CreateKeepsInvariant(pastes, id, content, expiresAt, maxViews);
      var checked := CheckBody(content, expiresAt, maxViews);
      if checked.Failure? {
        return Rejected(checked.error);
      }
      if id in pastes {
        return InternalError;
      }
      var d := checked.value;
      pastes := pastes[id := Paste(id, d.content, d.expiresAt, d.maxViews, 0)];
      r := Created(id);
    }

    /** `getPaste`: looks the record up, applies the expiry policy at `now`
        and counts the view. */
    method GetPaste(id: Id, now: int) returns (r: GetResponse)
      requires Valid()
      modifies this
      ensures Valid()
      ensures r == Read(old(pastes), id, now).0 && pastes == Read(old(pastes), id, now).1
      ensures r == Expired <==>
                id in old(pastes) &&
                ((old(pastes)[id].expiresAt.Some? && now > old(pastes)[id].expiresAt.value) ||
                 (old(pastes)[id].maxViews.Some? && old(pastes)[id].viewCount >= old(pastes)[id].maxViews.value))
    {
      ReadKeepsInvariant(pastes, id, now);
      if id !in pastes {
        return NotFound;
      }
      var paste := pastes[id];
      if IsExpired(now, paste) {
        return Expired;
      }
      pastes := pastes[id := paste.(viewCount := paste.viewCount + 1)];
      r := Content(paste.content);
    }
  }
}
