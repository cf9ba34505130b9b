/** The earlier create handler, handlerChirp: the author comes from the
    request body and nothing is authenticated. As written it does not return
    after writing the 400 reply to an over-long chirp: it goes on to insert a
    row with an empty body and to write that row's JSON after the error. */
module HandlerChirp {
  import opened Wrappers
  import opened Strings
  import opened Uuids
  import opened Chirp
  import opened Http

  /** The row the handler asks the store to insert. */
  datatype NewChirp = NewChirp(body: string, userID: Uuid)

  /** One response the handler writes; CreatedReply echoes the inserted row. */
  datatype Reply = ErrorReply(status: nat, message: string) | CreatedReply(chirp: NewChirp)

  /** Everything a request leads to: the responses in the order written and
      the row inserted, if any. */
  datatype Outcome = Outcome(replies: seq<Reply>, stored: Option<NewChirp>)

  /** handlerChirp as written. `request` is the JSON decoder's result, its
      error text on failure. After a too-long body the cleaned chirp is "" and
      the handler carries on to the insert. */
  function HandleChirpAsWritten(request: Result<ChirpRequest, string>): (o: Outcome)
    ensures request.Err? ==> o == Outcome([ErrorReply(StatusInternalServerError, request.error)], None)
    ensures request.Ok? ==>
      && o.stored.Some? && |o.replies| >= 1
      && o.stored.value.userID == request.value.userID
      && o.replies[|o.replies| - 1] == CreatedReply(o.stored.value)
      && (Utf8Len(request.value.body) <= MaxChirpLength <==> |o.replies| == 1)
      && (Utf8Len(request.value.body) <= MaxChirpLength ==> o.stored.value.body == Filtered(request.value.body))
  {
    match request
    case Err(decodeError) => Outcome([ErrorReply(StatusInternalServerError, decodeError)], None)
    case Ok(req) =>
      var cleaned := CleanChirp(req.body);
      var badRequest := if cleaned.Err? then [ErrorReply(StatusBadRequest, TooLongMessage)] else [];
      var body := if cleaned.Ok? then cleaned.value else "";
      Outcome(badRequest + [CreatedReply(NewChirp(body, req.userID))], Some(NewChirp(body, req.userID)))
  }

  /** The missing return: for a chirp over 140 bytes the 400 reply is written,
      then a row with an empty body is inserted and written out as well. The
      status line stays 400, since a second WriteHeader is ignored; the client
      reads the error JSON followed by the row's JSON. */
  lemma AsWrittenStoresEmptyChirp(req: ChirpRequest)
    requires Utf8Len(req.body) > MaxChirpLength
    ensures HandleChirpAsWritten(Ok(req)).stored == Some(NewChirp("", req.userID))
    ensures HandleChirpAsWritten(Ok(req)).replies ==
      [ErrorReply(StatusBadRequest, TooLongMessage), CreatedReply(NewChirp("", req.userID))]
  {
  }

  /** handlerChirp with the return after the 400 in place. */
  function HandleChirp(request: Result<ChirpRequest, string>): (o: Outcome)
    ensures |o.replies| == 1
    ensures request.Err? ==> o.replies == [ErrorReply(StatusInternalServerError, request.error)] && o.stored.None?
    ensures o.stored.Some? <==> request.Ok? && Utf8Len(request.value.body) <= MaxChirpLength
    ensures o.stored.Some? ==>
      && o.stored.value.body == Filtered(request.value.body)
      && Utf8Len(o.stored.value.body) <= MaxChirpLength
      && o.stored.value.userID == request.value.userID
      && o.replies == [CreatedReply(o.stored.value)]
    ensures request.Ok? && o.stored.None? ==> o.replies == [ErrorReply(StatusBadRequest, TooLongMessage)]
  {
    match request
    case Err(decodeError) => Outcome([ErrorReply(StatusInternalServerError, decodeError)], None)
    case Ok(req) =>
      match CleanChirp(req.body)
      case Err(_) => Outcome([ErrorReply(StatusBadRequest, TooLongMessage)], None)
      case Ok(body) => Outcome([CreatedReply(NewChirp(body, req.userID))], Some(NewChirp(body, req.userID)))
  }

  /** A 141-byte chirp shows the difference. */
  lemma Chirp141(userID: Uuid)
    ensures var req := ChirpRequest(seq(141, _ => 'a'), userID);
      HandleChirpAsWritten(Ok(req)).stored == Some(NewChirp("", userID))
      && HandleChirp(Ok(req)).stored == None
  {
    var body: string := seq(141, _ => 'a');
    Utf8LenBounds(body);
    AsWrittenStoresEmptyChirp(ChirpRequest(body, userID));
  }
}
