/** The chirp endpoints: listing with an optional author filter and sort
    order, and the create and delete handlers' ordered checks. The store is a
    sequence of rows in the order its queries return them (listing) or a map
    from chirp ID to row (lookup by ID). */
module HandlerChirps {
  import opened Wrappers
  import opened Strings
  import opened Uuids
  import opened Chirp
  import opened Authentication
  import opened Http

  /** database.Chirp: a stored row; times are instants in nanoseconds. */
  datatype StoredChirp = StoredChirp(id: Uuid, createdAt: int, updatedAt: int, body: string, userID: Uuid)

  function ToResponse(row: StoredChirp): ChirpResponse {
    ChirpResponse(row.id, row.createdAt, row.updatedAt, row.body, row.userID)
  }

  function Responses(rows: seq<StoredChirp>): seq<ChirpResponse> {
    seq(|rows|, i requires 0 <= i < |rows| => ToResponse(rows[i]))
  }

  /** GetChirpsByUserID: the rows by `author`, in store order. */
  function ByAuthor(store: seq<StoredChirp>, author: Uuid): seq<StoredChirp> {
    if store == [] then []
    else (if store[0].userID == author then [store[0]] else []) + ByAuthor(store[1..], author)
  }

  /** The rows the listing starts from: GetChirpsByUserID for a parsed
      author_id, GetChirps otherwise. */
  function Selected(store: seq<StoredChirp>, authorID: Option<string>): seq<StoredChirp> {
    if authorID.Some? && Parse(authorID.value).Some? then ByAuthor(store, Parse(authorID.value).value)
    else store
  }

  /** The sort key: creation time, negated for the descending order, so the
      less function handed to sort.Slice (created before for asc, created
      after for desc) is a smaller key either way. */
  function Key(x: ChirpResponse, descending: bool): int {
    if descending then -x.createdAt else x.createdAt
  }

  /** No element has a smaller key than one before it. */
  predicate Ordered(s: seq<ChirpResponse>, descending: bool) {
    forall i, j | 0 <= i < j < |s| :: Key(s[i], descending) <= Key(s[j], descending)
  }

  /** Exchanges two neighbours. */
  method SwapDown(a: array<ChirpResponse>, j: int)
    requires 0 < j < a.Length
    modifies a
    ensures a[..] == old(a[..])[j - 1 := old(a[j])][j := old(a[j - 1])]
    ensures multiset(a[..]) == multiset(old(a[..]))
  {
    a[j - 1], a[j] := a[j], a[j - 1];
  }

  /** During an insertion step: s[..i + 1] is ordered except at the moving
      element's place j, which may be out of order only with its left
      neighbours. */
  predicate OrderedExcept(s: seq<ChirpResponse>, i: int, j: int, descending: bool)
    requires 0 <= j <= i < |s|
  {
    forall p, q | 0 <= p < q <= i && q != j :: Key(s[p], descending) <= Key(s[q], descending)
  }

  /** Moving the element one place left keeps OrderedExcept. */
  lemma SwapKeepsOrderedExcept(s: seq<ChirpResponse>, i: int, j: int, descending: bool)
    requires 0 < j <= i < |s|
    requires OrderedExcept(s, i, j, descending)
    requires Key(s[j], descending) < Key(s[j - 1], descending)
    ensures OrderedExcept(s[j - 1 := s[j]][j := s[j - 1]], i, j - 1, descending)
  {
  }

  /** Once the moving element is not below its left neighbour, the prefix
      is ordered. */
  lemma SettledOrdered(s: seq<ChirpResponse>, i: int, j: int, descending: bool)
    requires 0 <= j <= i < |s|
    requires OrderedExcept(s, i, j, descending)
    requires j == 0 || Key(s[j - 1], descending) <= Key(s[j], descending)
    ensures Ordered(s[..i + 1], descending)
  {
  }

  /** One insertion step: a[..i] is ordered, and a[i] moves left past every
      larger key. */
  method InsertDown(a: array<ChirpResponse>, i: int, descending: bool)
    requires 0 < i < a.Length
    requires Ordered(a[..i], descending)
    modifies a
    ensures Ordered(a[..i + 1], descending)
    ensures multiset(a[..]) == multiset(old(a[..]))
  {
    var j := i;
    assert OrderedExcept(a[..], i, j, descending);
    while j > 0 && Key(a[j], descending) < Key(a[j - 1], descending)
      invariant 0 <= j <= i
      invariant multiset(a[..]) == multiset(old(a[..]))
      invariant OrderedExcept(a[..], i, j, descending)
    {
      SwapKeepsOrderedExcept(a[..], i, j, descending);
      SwapDown(a, j);
      j := j - 1;
    }
    SettledOrdered(a[..], i, j, descending);
    assert a[..][..i + 1] == a[..i + 1];
  }

  /** sort.Slice on the formatted slice, in place (here an insertion sort).
      Only the order by creation time is promised: chirps created at the same
      instant may come in any order. */
  method SortByCreatedAt(a: array<ChirpResponse>, descending: bool)
    modifies a
    ensures Ordered(a[..], descending)
    ensures multiset(a[..]) == multiset(old(a[..]))
  {
    if a.Length < 2 {
      return;
    }
    for i := 1 to a.Length
      invariant Ordered(a[..i], descending)
      invariant multiset(a[..]) == multiset(old(a[..]))
    {
      InsertDown(a, i, descending);
    }
    assert a[..a.Length] == a[..];
  }

  /** handlerGetChirps. A present author_id that is not a UUID is answered
      400 before the store is read. Otherwise the rows are copied field by
      field into responses, in store order, and sorted by creation time for
      sort=asc or sort=desc; any other sort value keeps the store order. */
  method GetChirps(store: seq<StoredChirp>, authorID: Option<string>, sortOrder: string)
    returns (status: nat, chirps: seq<ChirpResponse>)
    ensures status == StatusBadRequest <==> authorID.Some? && Parse(authorID.value).None?
    ensures status == StatusBadRequest ==> chirps == []
    ensures status != StatusBadRequest ==> status == StatusOK
    ensures status == StatusOK ==>
      var rows := Selected(store, authorID);
      && |chirps| == |rows|
      && multiset(chirps) == multiset(Responses(rows))
      && (sortOrder == "asc" ==> forall i, j | 0 <= i < j < |chirps| :: chirps[i].createdAt <= chirps[j].createdAt)
      && (sortOrder == "desc" ==> forall i, j | 0 <= i < j < |chirps| :: chirps[i].createdAt >= chirps[j].createdAt)
      && (sortOrder != "asc" && sortOrder != "desc" ==> chirps == Responses(rows))
  {
    var rows: seq<StoredChirp>;
    if authorID.Some? {
      var queryUserID := Parse(authorID.value);
      if queryUserID.None? {
        return StatusBadRequest, [];
      }
      rows := ByAuthor(store, queryUserID.value);
    } else {
      rows := store;
    }

    var formatted: seq<ChirpResponse> := [];
    for i := 0 to |rows|
      invariant |formatted| == i
      invariant forall k | 0 <= k < i :: formatted[k] == ToResponse(rows[k])
    {
      formatted := formatted + [ToResponse(rows[i])];
    }
    assert formatted == Responses(rows);

    if sortOrder == "asc" || sortOrder == "desc" {
      var a := new ChirpResponse[|formatted|](i requires 0 <= i < |formatted| => formatted[i]);
      assert a[..] == formatted;
      SortByCreatedAt(a, sortOrder == "desc");
      assert |a[..]| == |multiset(a[..])| == |multiset(formatted)| == |formatted|;
      formatted := a[..];
    }
    return StatusOK, formatted;
  }

  const PermissionDenied: string := "permission denied"

  /** The caller a request authenticates as: the bearer token, validated as a
      session token. None when either step fails. */
  function Caller(decode: Decoder, tokenSecret: string, now: int, authValue: string): (caller: Option<Uuid>)
    ensures caller.Some? <==>
      GetBearerToken(authValue).Ok? && ValidateJWT(decode, GetBearerToken(authValue).value, tokenSecret, now).err.None?
    ensures caller.Some? ==>
      ValidateJWT(decode, GetBearerToken(authValue).value, tokenSecret, now) == Validation(caller.value, None)
  {
    match GetBearerToken(authValue)
    case Err(_) => None
    case Ok(tokenString) =>
      var v := ValidateJWT(decode, tokenString, tokenSecret, now);
      if v.err.Some? then None else Some(v.userID)
  }

  /** What handlerCreateChirp does: a rejection, or an insert of the cleaned
      body under the caller's ID, answered 201 with the new row. */
  datatype CreateOutcome =
    | CreateRejected(status: nat, message: string)
    | CreateChirp(body: string, userID: Uuid)

  /** handlerCreateChirp: decode, validate and clean the body, then
      authenticate. The length check comes first, so an over-long chirp is
      answered 400 even without a token; the author is the token's subject,
      never the request's user_id. */
  function HandleCreateChirp(
    decode: Decoder, tokenSecret: string, now: int,
    request: Result<ChirpRequest, string>, authValue: string): (o: CreateOutcome)
    ensures request.Err? ==> o == CreateRejected(StatusInternalServerError, request.error)
    ensures request.Ok? && Utf8Len(request.value.body) > MaxChirpLength ==>
      o == CreateRejected(StatusBadRequest, TooLongMessage)
    ensures (request.Ok? && Utf8Len(request.value.body) <= MaxChirpLength
             && Caller(decode, tokenSecret, now, authValue).None?) ==>
      o == CreateRejected(StatusUnauthorized, PermissionDenied)
    ensures (request.Ok? && Utf8Len(request.value.body) <= MaxChirpLength
             && Caller(decode, tokenSecret, now, authValue).Some?) ==>
      o == CreateChirp(Filtered(request.value.body), Caller(decode, tokenSecret, now, authValue).value)
    ensures o.CreateChirp? ==>
      && request.Ok?
      && o.body == Filtered(request.value.body)
      && Utf8Len(o.body) <= MaxChirpLength
      && Caller(decode, tokenSecret, now, authValue) == Some(o.userID)
  {
    match request
    case Err(decodeError) => CreateRejected(StatusInternalServerError, decodeError)
    case Ok(req) =>
      match CleanChirp(req.body)
      case Err(_) => CreateRejected(StatusBadRequest, TooLongMessage)
      case Ok(cleaned) =>
        match Caller(decode, tokenSecret, now, authValue)
        case None => CreateRejected(StatusUnauthorized, PermissionDenied)
        case Some(userID) => CreateChirp(cleaned, userID)
  }

  /** What handlerDeleteChirp does: a rejection, or DeleteChirpByID on the
      chirp, answered 204. */
  datatype DeleteOutcome =
    | DeleteRejected(status: nat, message: string)
    | DeleteChirp(id: Uuid)

  /** handlerDeleteChirp: the checks in their fixed order, bad ID 400, missing
      or malformed bearer 401, invalid token 401, unknown chirp 404, someone
      else's chirp 403; only the author's own chirp is deleted. */
  function HandleDeleteChirp(
    decode: Decoder, tokenSecret: string, now: int,
    chirps: map<Uuid, StoredChirp>, chirpIDParam: string, authValue: string): (o: DeleteOutcome)
    ensures o == DeleteRejected(StatusBadRequest, "invalid chirp id") <==> Parse(chirpIDParam).None?
    ensures o == DeleteRejected(StatusUnauthorized, PermissionDenied) <==>
      Parse(chirpIDParam).Some? && Caller(decode, tokenSecret, now, authValue).None?
    ensures o == DeleteRejected(StatusNotFound, "could not find chirp") <==>
      Parse(chirpIDParam).Some? && Caller(decode, tokenSecret, now, authValue).Some?
      && Parse(chirpIDParam).value !in chirps
    ensures o == DeleteRejected(StatusForbidden, "you are not authorized to delete this chirp") <==>
      Parse(chirpIDParam).Some? && Caller(decode, tokenSecret, now, authValue).Some?
      && Parse(chirpIDParam).value in chirps
      && chirps[Parse(chirpIDParam).value].userID != Caller(decode, tokenSecret, now, authValue).value
    ensures o.DeleteChirp? <==>
      Parse(chirpIDParam).Some? && Caller(decode, tokenSecret, now, authValue).Some?
      && Parse(chirpIDParam).value in chirps
      && chirps[Parse(chirpIDParam).value].userID == Caller(decode, tokenSecret, now, authValue).value
    ensures o.DeleteChirp? ==>
      Parse(chirpIDParam) == Some(o.id) && o.id in chirps
      && Caller(decode, tokenSecret, now, authValue) == Some(chirps[o.id].userID)
  {
    match Parse(chirpIDParam)
    case None => DeleteRejected(StatusBadRequest, "invalid chirp id")
    case Some(chirpID) =>
      match Caller(decode, tokenSecret, now, authValue)
      case None => DeleteRejected(StatusUnauthorized, PermissionDenied)
      case Some(userID) =>
        if chirpID !in chirps then DeleteRejected(StatusNotFound, "could not find chirp")
        else if chirps[chirpID].userID != userID then
          DeleteRejected(StatusForbidden, "you are not authorized to delete this chirp")
        else DeleteChirp(chirpID)
  }
}
