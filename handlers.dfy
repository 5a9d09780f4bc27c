/** The note handlers of handlers.go: what `note` answers to a request under
    `/notes/`, as a function of the store, the request and the outside world.
    POST stores a secret (201 with its code), GET reads it once (200 with the
    payload), and GET on `/status` polls until the secret is read or expires,
    or the poll times out. */
module Handlers {
  import opened Common
  import opened StoreCodes
  import opened StoreIds
  import opened SecretStore
  import opened StoreLifecycle
  import opened HttpRoutes

  /** A response body: none, the secret's bytes, or the JSON document of an error. */
  datatype Body = Empty | Payload(data: seq<byte>) | Json(error: ApiError)

  datatype Response = Response(status: int, headers: map<string, string>, body: Body)

  /** An HTTP request as the handlers see it. `contentLength` is the declared
      length (-1 when unknown); `body` is what reading the body yields. */
  datatype Request = Request(verb: string, path: string, header: map<string, string>,
                             contentLength: int, body: Reader)

  /** `Header.Get`: the value, or "" when the header is absent. */
  function HeaderValue(header: map<string, string>, key: string): string {
    if key in header then header[key] else ""
  }

  /** `note` forbids every cache from keeping any answer about a note. */
  const NoteCacheControl: string := "private, max-age=0, no-cache, no-store"

  function NoteHeaders(): map<string, string> {
    map["Cache-Control" := NoteCacheControl]
  }

  /** A response with no body of its own. */
  function Bare(status: int): Response {
    Response(status, NoteHeaders(), Empty)
  }

  /** The errors postNote reports as a JSON document. */
  datatype ApiError = SecretTooLargeError(maxSecretSize: int) | DuplicateIdError | StorageFullError

  function ErrorType(e: ApiError): string {
    match e
    case SecretTooLargeError(_) => "secret_too_large"
    case DuplicateIdError => "duplicate_id"
    case StorageFullError => "storage_full"
  }

  function ErrorMessage(e: ApiError): string {
    match e
    case SecretTooLargeError(max) =>
      "Secret too large. Maximum allowed secret size is " + FormatInt(max) + " bytes."
    case DuplicateIdError =>
      "A secret with that ID has already been created. If you are not an attacker trying to replace the secret, "
      + "this indicates a bug in your program and a potentially insecure source of randomness. As a "
      + "precaution/penalty, the secret has been destroyed (if it has not already expired or been accessed)."
    case StorageFullError => "Sorry, server secret storage is full right now. Try again later."
  }

  /** The JSON text written for an error. */
  function JsonText(e: ApiError): string {
    JsonDocument(ErrorType(e), ErrorMessage(e))
  }

  /** The error document: two string fields, one per line, in braces. */
  function JsonDocument(errorType: string, message: string): string {
    "{\n  " + JsonField("error_type", errorType) + ",\n  " + JsonField("error_message", message) + "\n}\n"
  }

  function JsonField(name: string, value: string): string {
    "\"" + name + "\": \"" + value + "\""
  }

  /** The answers of respondSecretTooLarge, respondDuplicateId and respondStorageFull. */
  function JsonResponse(status: int, e: ApiError): Response {
    Response(status, NoteHeaders()["Content-Type" := "application/json"], Json(e))
  }

  function SecretTooLargeResponse(maxSecretSize: int): Response {
    JsonResponse(413, SecretTooLargeError(maxSecretSize))
  }

  function DuplicateIdResponse(): Response {
    JsonResponse(403, DuplicateIdError)
  }

  function StorageFullResponse(): Response {
    JsonResponse(507, StorageFullError)
  }

  /** postNote's answer to a failed Save. */
  function SaveFailure(maxSecretSize: int, e: StoreError): Response {
    if e == SecretTooLarge then SecretTooLargeResponse(maxSecretSize)
    else if e == DuplicateId then DuplicateIdResponse()
    else if e == StorageFull then StorageFullResponse()
    else Bare(500)
  }

  /** The status getNote and getNoteStatus give a failed Retrieve or Status. */
  function ReadFailureStatus(e: StoreError): int {
    if e == SecretAlreadyAccessed then 403
    else if e == SecretExpired then 410
    else if e == SecretNotFound then 404
    else 500
  }

  /** postNote, as a function of the store before the request. */
  function PostNoteSpec(c: Config, d: Disk, id: string, contentLength: int, body: Reader, env: Env): (r: (Disk, Response))
    requires d.Valid() && env.Valid() && c.maxSecretSize >= 0
    ensures r.0.Valid()
    ensures contentLength > c.maxSecretSize ==> r.0 == d
    ensures r.1.status == 201 <==> "X-Note-Code" in r.1.headers
  {
    if contentLength > c.maxSecretSize then (d, SecretTooLargeResponse(c.maxSecretSize))
    else
      var (d', saved) := SaveSpec(c, d, id, body, env);
      match saved
      case Saved(code) => (d', Response(201, NoteHeaders()["X-Note-Code" := code], Empty))
      case NotSaved(e) => (d', SaveFailure(c.maxSecretSize, e))
  }

  /** getNote, as a function of the store before the request: the read goes
      into a buffer of MaxSecretSize bytes. */
  function GetNoteSpec(c: Config, d: Disk, id: string, env: Env): (r: (Disk, Response))
    requires d.Valid() && env.Valid() && c.maxSecretSize >= 0
    ensures r.0.Valid()
    ensures r.1.status == 200 <==> r.1.body.Payload?
    ensures r.1.status == 200 <==> "X-Note-Code" in r.1.headers
  {
    var (d', got) := RetrieveSpec(c, d, id, c.maxSecretSize, env);
    match got
    case Retrieved(payload, code) =>
      (d', Response(200, NoteHeaders()["Content-Type" := "application/octet-stream"]["X-Note-Code" := code], Payload(payload)))
    case NotRetrieved(e) => (d', Bare(ReadFailureStatus(e)))
  }

  const Second: int := 1000

  /** How long a status request waits when it asks for a long poll. */
  const LongPollTimeout: int := 8 * Second

  /** The moment after which getNoteStatus stops polling. */
  function PollDeadline(header: map<string, string>, start: int): int {
    start + (if HeaderValue(header, "X-Long-Poll") == "true" then LongPollTimeout else 0)
  }

  /** What one poll sees: the store as earlier and concurrent requests left
      it, and the clock. */
  datatype Poll = Poll(disk: Disk, now: int)

  /** A poll that neither finds an error nor comes after the deadline. */
  predicate Waiting(c: Config, id: string, code: string, deadline: int, p: Poll) {
    StatusSpec(c, p.disk, id, code, p.now).None? && p.now <= deadline
  }

  /** The answer of a poll that stops the loop. */
  function Answer(c: Config, id: string, code: string, p: Poll): Response {
    match StatusSpec(c, p.disk, id, code, p.now)
    case Some(e) => Bare(ReadFailureStatus(e))
    case None => Bare(200)
  }

  /** getNoteStatus's loop over the polls it gets to make; None while it is
      still waiting when they run out. */
  function PollSpec(c: Config, id: string, code: string, deadline: int, polls: seq<Poll>): (r: Option<Response>)
    ensures r.Some? ==> r.value.body == Empty && r.value.headers == NoteHeaders() && r.value.status in {200, 403, 404, 410, 500}
    decreases |polls|
  {
    if polls == [] then None
    else if Waiting(c, id, code, deadline, polls[0]) then PollSpec(c, id, code, deadline, polls[1..])
    else Some(Answer(c, id, code, polls[0]))
  }

  lemma PollStep(c: Config, id: string, code: string, deadline: int, polls: seq<Poll>, k: nat)
    requires k < |polls|
    ensures var err := StatusSpec(c, polls[k].disk, id, code, polls[k].now);
      PollSpec(c, id, code, deadline, polls[k..]) ==
        if err.Some? then Some(Bare(ReadFailureStatus(err.value)))
        else if polls[k].now > deadline then Some(Bare(200))
        else PollSpec(c, id, code, deadline, polls[k + 1..])
  {
    assert polls[k..][0] == polls[k] && polls[k..][1..] == polls[k + 1..];
  }

  /** `note`: route the request, then run the handler it names. */
  function NoteSpec(c: Config, d: Disk, req: Request, env: Env, start: int, polls: seq<Poll>): (r: (Disk, Option<Response>))
    requires d.Valid() && env.Valid() && c.maxSecretSize >= 0
    ensures r.0.Valid()
    ensures r.1.None? ==> Dispatch(req.verb, req.path).PollStatus?
    ensures Dispatch(req.verb, req.path).PollStatus? || Dispatch(req.verb, req.path).NotFound? ==> r.0 == d
  {
    match Dispatch(req.verb, req.path)
    case PollStatus(id) =>
      (d, PollSpec(c, id, HeaderValue(req.header, "X-Note-Code"), PollDeadline(req.header, start), polls))
    case ReadNote(id) =>
      var (d', resp) := GetNoteSpec(c, d, id, env);
      (d', Some(resp))
    case CreateNote(id) =>
      var (d', resp) := PostNoteSpec(c, d, id, req.contentLength, req.body, env);
      (d', Some(resp))
    case NotFound => (d, Some(Bare(404)))
  }

  /** zeroBuffer */
  method ZeroBuffer(buf: array<byte>)
    modifies buf
    ensures forall i :: 0 <= i < buf.Length ==> buf[i] == 0
  {
    var i := 0;
    while i < buf.Length
      invariant 0 <= i <= buf.Length
      invariant forall k :: 0 <= k < i ==> buf[k] == 0
    {
      buf[i] := 0;
      i := i + 1;
    }
  }

  /** postNote */
  method PostNote(s: Store, path: string, contentLength: int, body: Reader, env: Env) returns (resp: Response)
    requires s.Valid() && env.Valid() && MatchNote(path).Some?
    modifies s
    ensures s.Valid() && s.Cfg() == old(s.Cfg())
    ensures (s.disk, resp) == PostNoteSpec(old(s.Cfg()), old(s.disk), MatchNote(path).value, contentLength, body, env)
  {
    if contentLength > s.maxSecretSize {
      return SecretTooLargeResponse(s.maxSecretSize);
    }
    var id := MatchNote(path).value;
    var code, err := s.Save(body, id, env);
    if err.Some? {
      return SaveFailure(s.maxSecretSize, err.value);
    }
    resp := Response(201, NoteHeaders()["X-Note-Code" := code], Empty);
  }

  /** getNote: the payload is copied into the response before the buffer is zeroed. */
  method GetNote(s: Store, path: string, env: Env) returns (resp: Response)
    requires s.Valid() && env.Valid() && MatchNote(path).Some?
    modifies s
    ensures s.Valid() && s.Cfg() == old(s.Cfg())
    ensures (s.disk, resp) == GetNoteSpec(old(s.Cfg()), old(s.disk), MatchNote(path).value, env)
  {
    var id := MatchNote(path).value;
    var buf := new byte[s.maxSecretSize];
    var nRead, code, err := s.Retrieve(id, buf, env);
    if err.Some? {
      resp := Bare(ReadFailureStatus(err.value));
    } else {
      resp := Response(200, NoteHeaders()["Content-Type" := "application/octet-stream"]["X-Note-Code" := code],
                       Payload(buf[..nRead]));
    }
    ZeroBuffer(buf);
  }

  /** getNoteStatus: read the code and the long-poll flag, then poll. */
  method GetNoteStatus(c: Config, path: string, header: map<string, string>, start: int, polls: seq<Poll>)
    returns (resp: Option<Response>)
    requires MatchStatus(path).Some?
    ensures resp == PollSpec(c, MatchStatus(path).value, HeaderValue(header, "X-Note-Code"), PollDeadline(header, start), polls)
  {
    var id := MatchStatus(path).value;
    var code := HeaderValue(header, "X-Note-Code");
    var timeout := 0;
    if HeaderValue(header, "X-Long-Poll") == "true" {
      timeout := LongPollTimeout;
    }
    var timeoutTime := start + timeout;
    assert timeoutTime == PollDeadline(header, start);
    resp := PollLoop(c, id, code, timeoutTime, polls);
  }

  /** getNoteStatus's loop: Status until it reports an error or the clock
      passes the deadline. */
  method PollLoop(c: Config, id: string, code: string, timeoutTime: int, polls: seq<Poll>)
    returns (resp: Option<Response>)
    ensures resp == PollSpec(c, id, code, timeoutTime, polls)
  {
    assert polls[0..] == polls;
    var k := 0;
    while k < |polls|
      invariant 0 <= k <= |polls|
      invariant PollSpec(c, id, code, timeoutTime, polls[k..]) == PollSpec(c, id, code, timeoutTime, polls)
    {
      PollStep(c, id, code, timeoutTime, polls, k);
      var err := StatusSpec(c, polls[k].disk, id, code, polls[k].now);
      if err.Some? {
        return Some(Bare(ReadFailureStatus(err.value)));
      }
      if polls[k].now > timeoutTime {
        return Some(Bare(200));
      }
      k := k + 1;
    }
    assert polls[k..] == [];
    return None;
  }

  /** note */
  method Note(s: Store, req: Request, env: Env, start: int, polls: seq<Poll>) returns (resp: Option<Response>)
    requires s.Valid() && env.Valid()
    modifies s
    ensures s.Valid() && s.Cfg() == old(s.Cfg())
    ensures (s.disk, resp) == NoteSpec(old(s.Cfg()), old(s.disk), req, env, start, polls)
  {
    RoutesDisjoint(req.path);
    if MatchStatus(req.path).Some? {
      if req.verb == "GET" {
        assert Dispatch(req.verb, req.path) == PollStatus(MatchStatus(req.path).value);
        resp := GetNoteStatus(s.Cfg(), req.path, req.header, start, polls);
      } else {
        resp := Some(Bare(404));
      }
      return;
    }
    if MatchNote(req.path).None? {
      return Some(Bare(404));
    }
    if req.verb == "GET" {
      assert Dispatch(req.verb, req.path) == ReadNote(MatchNote(req.path).value);
      var r := GetNote(s, req.path, env);
      resp := Some(r);
    } else if req.verb == "POST" {
      assert Dispatch(req.verb, req.path) == CreateNote(MatchNote(req.path).value);
      var r := PostNote(s, req.path, req.contentLength, req.body, env);
      resp := Some(r);
    } else {
      resp := Some(Bare(404));
    }
  }

  /** The 413 answer names the default limit in bytes, inside the JSON error document. */
  lemma TooLargeMessage()
    ensures var r := SecretTooLargeResponse(DefaultMaxSecretSize);
      && r.status == 413
      && "Content-Type" in r.headers && r.headers["Content-Type"] == "application/json"
      && r.body.Json? && ErrorType(r.body.error) == "secret_too_large"
      && ErrorMessage(r.body.error) == "Secret too large. Maximum allowed secret size is 16384 bytes."
  {
    DecimalOfDefaultMax();
  }

  lemma DecimalOfDefaultMax()
    ensures Decimal(DefaultMaxSecretSize) == "16384"
  {
    assert Decimal(1) == "1";
    assert Decimal(16) == Decimal(1) + "6";
    assert Decimal(163) == Decimal(16) + "3";
    assert Decimal(1638) == Decimal(163) + "8";
    assert Decimal(16384) == Decimal(1638) + "4";
  }

  lemma {:induction false} ContainsInfix<T>(a: seq<T>, b: seq<T>, c: seq<T>)
    ensures Contains(a + b + c, b)
    decreases |a|
  {
    if a == [] {
      assert a + b + c == b + c;
    } else {
      ContainsInfix(a[1..], b, c);
      assert (a + b + c)[1..] == a[1..] + b + c;
    }
  }

  /** The JSON document names the error's type and carries its message, each
      as a quoted field. */
  lemma JsonTextFields(errorType: string, message: string)
    ensures Contains(JsonDocument(errorType, message), JsonField("error_type", errorType))
    ensures Contains(JsonDocument(errorType, message), JsonField("error_message", message))
  {
    var typeField := JsonField("error_type", errorType);
    var messageField := JsonField("error_message", message);
    var head, mid, tail := "{\n  ", ",\n  ", "\n}\n";
    Regroup5(head, typeField, mid, messageField, tail);
    ContainsInfix(head, typeField, mid + messageField + tail);
    ContainsInfix(head + typeField + mid, messageField, tail);
  }

  lemma Regroup5<T>(a: seq<T>, b: seq<T>, c: seq<T>, d: seq<T>, e: seq<T>)
    ensures a + b + c + d + e == a + b + (c + d + e)
  {
  }

  /** A note is created (201) exactly when the declared length is within
      the limit and Save stores it; only then does the answer carry the
      human code, and the store then holds the secret under its file name.
      A declared length over the limit is refused before the body is read,
      and no failure adds a file to the store. Every answer forbids caching. */
  lemma PostNoteResponses(c: Config, d: Disk, id: string, contentLength: int, body: Reader, env: Env)
    requires d.Valid() && env.Valid() && c.maxSecretSize >= 0
    ensures var (d', r) := PostNoteSpec(c, d, id, contentLength, body, env);
      var saved := SaveSpec(c, d, id, body, env).1;
      && (r.status == 201 <==> contentLength <= c.maxSecretSize && saved.Saved?)
      && ("X-Note-Code" in r.headers <==> r.status == 201)
      && (r.status == 201 ==>
            && r.headers["X-Note-Code"] == saved.code && IsHumanCode(saved.code) && r.body == Empty
            && d' == d.(root := d.root[UuidToFileName(c.sha, id) := File(SecretFile(saved.code, body.data), env.now)]))
      && (contentLength > c.maxSecretSize ==> d' == d && r == SecretTooLargeResponse(c.maxSecretSize))
      && (contentLength <= c.maxSecretSize && saved.NotSaved? ==> r == SaveFailure(c.maxSecretSize, saved.err))
      && r.status in {201, 403, 413, 500, 507}
      && (r.status != 201 ==> d'.root.Keys <= d.root.Keys)
      && "Cache-Control" in r.headers && r.headers["Cache-Control"] == NoteCacheControl
  {
    var (d', r) := PostNoteSpec(c, d, id, contentLength, body, env);
    if contentLength > c.maxSecretSize {
      SaveFailureShape(c.maxSecretSize, SecretTooLarge);
    } else {
      var (d2, saved) := SaveSpec(c, d, id, body, env);
      var name := UuidToFileName(c.sha, id);
      assert d' == d2;
      if saved.Saved? {
        assert IsHumanCode(saved.code) && d2 == d.(root := d.root[name := File(SecretFile(saved.code, body.data), env.now)]) by {
          SaveStores(c, d, id, body, env);
        }
        assert r == Response(201, NoteHeaders()["X-Note-Code" := saved.code], Empty);
      } else {
        assert d2.root.Keys <= d.root.Keys by {
          SaveEffect(c, d, id, body, env);
        }
        SaveFailureShape(c.maxSecretSize, saved.err);
        assert r == SaveFailure(c.maxSecretSize, saved.err);
      }
    }
  }

  /** Save's failures map to 403, 413, 500 or 507, never with a code. */
  lemma SaveFailureShape(maxSecretSize: int, e: StoreError)
    ensures var r := SaveFailure(maxSecretSize, e);
      && r.status in {403, 413, 500, 507}
      && (r.status == 413 <==> e == SecretTooLarge)
      && (r.status == 403 <==> e == DuplicateId)
      && (r.status == 507 <==> e == StorageFull)
      && "X-Note-Code" !in r.headers
      && "Cache-Control" in r.headers && r.headers["Cache-Control"] == NoteCacheControl
  {
  }

  /** A read answers 200 exactly when Retrieve hands back the secret; the
      body is then the payload and the code comes along. Otherwise the status
      says why, the body is empty and no code is disclosed. */
  lemma GetNoteResponses(c: Config, d: Disk, id: string, env: Env)
    requires d.Valid() && env.Valid() && c.maxSecretSize >= 0
    ensures var (d', r) := GetNoteSpec(c, d, id, env);
      var (d2, got) := RetrieveSpec(c, d, id, c.maxSecretSize, env);
      && d' == d2
      && (r.status == 200 <==> got.Retrieved?)
      && (got.Retrieved? ==>
            && r.body == Payload(got.payload)
            && "X-Note-Code" in r.headers && r.headers["X-Note-Code"] == got.code
            && "Content-Type" in r.headers && r.headers["Content-Type"] == "application/octet-stream")
      && (got.NotRetrieved? ==> r.body == Empty && "X-Note-Code" !in r.headers && r.status == ReadFailureStatus(got.err))
      && r.status in {200, 403, 404, 410, 500}
      && "Cache-Control" in r.headers && r.headers["Cache-Control"] == NoteCacheControl
  {
  }

  /** The status loop answers at the first poll that is not waiting, with
      what that poll sees: 200 when the secret was still waiting but the
      deadline has passed, the error status otherwise. */
  lemma {:induction false} PollDecides(c: Config, id: string, code: string, deadline: int, polls: seq<Poll>, k: nat)
    requires k < |polls| && !Waiting(c, id, code, deadline, polls[k])
    requires forall j :: 0 <= j < k ==> Waiting(c, id, code, deadline, polls[j])
    ensures PollSpec(c, id, code, deadline, polls) == Some(Answer(c, id, code, polls[k]))
    ensures var err := StatusSpec(c, polls[k].disk, id, code, polls[k].now);
      && (Answer(c, id, code, polls[k]).status == 200 <==> err.None? && polls[k].now > deadline)
      && (err.Some? ==> Answer(c, id, code, polls[k]) == Bare(ReadFailureStatus(err.value)))
    decreases k
  {
    if k > 0 {
      assert Waiting(c, id, code, deadline, polls[0]);
      PollDecides(c, id, code, deadline, polls[1..], k - 1);
    }
  }

  /** The loop gives no answer only when every poll it made was waiting. */
  lemma {:induction false} PollNone(c: Config, id: string, code: string, deadline: int, polls: seq<Poll>)
    ensures PollSpec(c, id, code, deadline, polls).None? <==>
      forall j :: 0 <= j < |polls| ==> Waiting(c, id, code, deadline, polls[j])
    decreases |polls|
  {
    if polls != [] {
      PollNone(c, id, code, deadline, polls[1..]);
      if Waiting(c, id, code, deadline, polls[0]) {
        forall j | 1 <= j < |polls| ensures polls[j] == polls[1..][j - 1] { }
      }
    }
  }

  /** Without a long poll the deadline is the start, so the first poll made
      after it answers. */
  lemma ShortPoll(c: Config, id: string, code: string, header: map<string, string>, start: int, polls: seq<Poll>)
    requires HeaderValue(header, "X-Long-Poll") != "true" && polls != [] && polls[0].now > start
    ensures PollSpec(c, id, code, PollDeadline(header, start), polls) == Some(Answer(c, id, code, polls[0]))
  {
    PollDecides(c, id, code, PollDeadline(header, start), polls, 0);
  }

  /** A long poll by the holder of the code, while the secret stays unread
      within its lifetime, keeps waiting; once a read has consumed it, the
      poll answers 403. */
  lemma LongPollSeesRead(c: Config, d: Disk, uuid: string, body: Reader, env: Env,
                         bufLen: nat, env2: Env, header: map<string, string>, start: int,
                         polls: seq<Poll>, k: nat)
    requires d.Valid() && env.Valid() && env2.Valid() && c.maxSecretSize >= 0
    requires SaveSpec(c, d, uuid, body, env).1.Saved?
    requires HeaderValue(header, "X-Note-Code") == SaveSpec(c, d, uuid, body, env).1.code
    requires env2.tempRand.Some? && env2.now - c.secretLifetime <= env.now && bufLen >= |body.data|
    requires k < |polls|
    requires forall j :: 0 <= j < k ==>
      && polls[j].disk == SaveSpec(c, d, uuid, body, env).0
      && polls[j].now - c.secretLifetime <= env.now && polls[j].now <= PollDeadline(header, start)
    requires polls[k].disk == RetrieveSpec(c, SaveSpec(c, d, uuid, body, env).0, uuid, bufLen, env2).0
    ensures PollSpec(c, uuid, HeaderValue(header, "X-Note-Code"), PollDeadline(header, start), polls) == Some(Bare(403))
  {
    var code := HeaderValue(header, "X-Note-Code");
    var deadline := PollDeadline(header, start);
    forall j | 0 <= j < k ensures Waiting(c, uuid, code, deadline, polls[j]) {
      StatusOfSavedSecret(c, d, uuid, body, env, polls[j].now);
    }
    StatusAfterRead(c, d, uuid, body, env, bufLen, env2, polls[k].now);
    PollDecides(c, uuid, code, deadline, polls, k);
  }

  /** `note` hands a POST on a note path to postNote and a GET to getNote. */
  lemma NoteRoutesNotePath(c: Config, d: Disk, req: Request, env: Env, start: int, polls: seq<Poll>)
    requires d.Valid() && env.Valid() && c.maxSecretSize >= 0 && MatchNote(req.path).Some?
    ensures var id := MatchNote(req.path).value;
      var (d', r) := NoteSpec(c, d, req, env, start, polls);
      && (req.verb == "POST" ==> (d', r.value) == PostNoteSpec(c, d, id, req.contentLength, req.body, env))
      && (req.verb == "GET" ==> (d', r.value) == GetNoteSpec(c, d, id, env))
      && r.Some?
  {
    RoutesDisjoint(req.path);
  }

  /** Creating a note and reading it twice, through `note`: the POST answers
      201 with a human code, the first GET answers 200 with the secret and
      the same code, and the second GET answers 403. */
  lemma PostThenGetTwice(c: Config, d: Disk, path: string, body: Reader, env: Env,
                         env2: Env, env3: Env, start: int, polls: seq<Poll>)
    requires d.Valid() && env.Valid() && env2.Valid() && env3.Valid() && c.maxSecretSize >= 0
    requires MatchNote(path).Some?
    requires SaveChecksPass(c, d, MatchNote(path).value, body, env)
    requires UuidToFileName(c.sha, MatchNote(path).value) !in d.root && env.write.Written?
    requires env2.tempRand.Some? && env2.now - c.secretLifetime <= env.now && env3.tempRand.Some?
    ensures var post := Request("POST", path, map[], |body.data|, body);
      var get := Request("GET", path, map[], -1, Reader([], false));
      var (d1, r1) := NoteSpec(c, d, post, env, start, polls);
      var (d2, r2) := NoteSpec(c, d1, get, env2, start, polls);
      var (d3, r3) := NoteSpec(c, d2, get, env3, start, polls);
      && r1.Some? && r1.value.status == 201 && "X-Note-Code" in r1.value.headers
      && IsHumanCode(r1.value.headers["X-Note-Code"])
      && r2.Some? && r2.value.status == 200 && r2.value.body == Payload(body.data)
      && "X-Note-Code" in r2.value.headers && r2.value.headers["X-Note-Code"] == r1.value.headers["X-Note-Code"]
      && r3.Some? && r3.value.status == 403
  {
    var id := MatchNote(path).value;
    var post := Request("POST", path, map[], |body.data|, body);
    var get := Request("GET", path, map[], -1, Reader([], false));
    SaveStores(c, d, id, body, env);
    var (d1, saved) := SaveSpec(c, d, id, body, env);
    NoteRoutesNotePath(c, d, post, env, start, polls);
    PostNoteResponses(c, d, id, |body.data|, body, env);
    var (d1', r1) := NoteSpec(c, d, post, env, start, polls);
    assert d1' == d1;
    SaveThenRetrieve(c, d, id, body, env, c.maxSecretSize, env2);
    NoteRoutesNotePath(c, d1, get, env2, start, polls);
    GetNoteResponses(c, d1, id, env2);
    var (d2, r2) := NoteSpec(c, d1, get, env2, start, polls);
    SingleUse(c, d1, id, c.maxSecretSize, env2, c.maxSecretSize, env3);
    NoteRoutesNotePath(c, d2, get, env3, start, polls);
    GetNoteResponses(c, d2, id, env3);
  }

  /** Every answer `note` gives forbids caching it. */
  lemma NoteNeverCached(c: Config, d: Disk, req: Request, env: Env, start: int, polls: seq<Poll>)
    requires d.Valid() && env.Valid() && c.maxSecretSize >= 0
    ensures var r := NoteSpec(c, d, req, env, start, polls).1;
      r.Some? ==> "Cache-Control" in r.value.headers && r.value.headers["Cache-Control"] == NoteCacheControl
  {
    var r := NoteSpec(c, d, req, env, start, polls).1;
    match Dispatch(req.verb, req.path)
    case PollStatus(id) =>
      var code, deadline := HeaderValue(req.header, "X-Note-Code"), PollDeadline(req.header, start);
      assert r == PollSpec(c, id, code, deadline, polls);
    case ReadNote(id) =>
      assert r == Some(GetNoteSpec(c, d, id, env).1);
      GetNoteResponses(c, d, id, env);
    case CreateNote(id) =>
      assert r == Some(PostNoteSpec(c, d, id, req.contentLength, req.body, env).1);
      PostNoteResponses(c, d, id, req.contentLength, req.body, env);
    case NotFound =>
  }
}
