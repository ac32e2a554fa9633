/**
 * How the edge service forwards dialog operations: the outbound call it
 * forms for a send or a list, and how the outcome of that call becomes the
 * answer to its own caller. The dialog service on the far side of the
 * network is a function parameter from the call to its outcome.
 */
module EdgeRelay {
  import opened Base
  import opened EdgeSession
  import DialogService

  /** One outbound HTTP request to the dialog service. */
  datatype DialogCall = DialogCall(
    verb: string,
    url: string,
    body: Option<Bytes>,   // None: no body reader at all
    userIdHeader: string,  // X-User-ID
    contentType: string)

  /**
   * The outcome of an outbound call: the request could not be made or
   * completed, or a reply arrived whose body could (Some) or could not
   * (None) be read.
   */
  datatype CallResult = TransportError | Reply(status: int, body: Option<Bytes>)

  /** A handler's answer together with the outbound call it made, if any. */
  datatype Exchange = Exchange(call: Option<DialogCall>, response: Response)

  /** `makeDialogServiceRequest`: the URL and headers of the outbound call. */
  function MakeDialogServiceRequest(dialogServiceUrl: string, verb: string, path: string,
                                    body: Option<Bytes>, userId: string): (call: DialogCall)
    ensures call.url == dialogServiceUrl + path
    ensures call.body == body && call.userIdHeader == userId
  {
    DialogCall(verb, dialogServiceUrl + path, body, userId, "application/json")
  }

  /** The answer the edge service gives once the outbound call has an outcome. */
  function Relay(result: CallResult): (r: Response)
    ensures r.status == if result.Reply? && result.body.Some? then result.status else StatusInternalServerError
    ensures result.TransportError? ==> r.body == NoteWithCode("Dialog service unavailable", 503)
    ensures result.Reply? && result.body.None? ==> r.body == Note("Failed to read dialog service response")
    ensures result.Reply? && result.body.Some? ==> r.body == Relayed("application/json", result.body.value)
  {
    match result
    case TransportError =>
      Response(StatusInternalServerError, NoteWithCode("Dialog service unavailable", 503))
    case Reply(status, None) =>
      Response(StatusInternalServerError, Note("Failed to read dialog service response"))
    case Reply(status, Some(bytes)) =>
      Response(status, Relayed("application/json", bytes))
  }

  /** `sendMessage` of the edge service for an authenticated caller. */
  function SendMessage(dialogServiceUrl: string, currentUserId: string, toUserId: string,
                       recipientExists: bool, requestBody: Option<Bytes>,
                       dialogService: DialogCall -> CallResult): (r: Exchange)
    ensures r.call.Some? <==> recipientExists && requestBody.Some?
    ensures !recipientExists ==> r.response == Response(StatusBadRequest, Note("Recipient not found"))
    ensures recipientExists && requestBody.None? ==>
              r.response == Response(StatusBadRequest, Note("Failed to read request body"))
    ensures r.call.Some? ==>
              && r.call.value.verb == "POST"
              && r.call.value.url == dialogServiceUrl + "/dialog/" + toUserId + "/send"
              && r.call.value.body == requestBody
              && r.call.value.userIdHeader == currentUserId
              && r.response == Relay(dialogService(r.call.value))
  {
    if !recipientExists then
      Exchange(None, Response(StatusBadRequest, Note("Recipient not found")))
    else if requestBody.None? then
      Exchange(None, Response(StatusBadRequest, Note("Failed to read request body")))
    else
      var path := "/dialog/" + toUserId + "/send";
      var call := MakeDialogServiceRequest(dialogServiceUrl, "POST", path, requestBody, currentUserId);
      Exchange(Some(call), Relay(dialogService(call)))
  }

  /** `getDialog` of the edge service for an authenticated caller: always calls, without a body. */
  function GetDialog(dialogServiceUrl: string, currentUserId: string, otherUserId: string,
                     dialogService: DialogCall -> CallResult): (r: Exchange)
    ensures r.call.Some?
    ensures r.call.value.verb == "GET"
    ensures r.call.value.url == dialogServiceUrl + "/dialog/" + otherUserId + "/list"
    ensures r.call.value.body.None? && r.call.value.userIdHeader == currentUserId
    ensures r.response == Relay(dialogService(r.call.value))
  {
    var path := "/dialog/" + otherUserId + "/list";
    var call := MakeDialogServiceRequest(dialogServiceUrl, "GET", path, None, currentUserId);
    Exchange(Some(call), Relay(dialogService(call)))
  }

  /**
   * A transport failure is answered with HTTP 500 carrying code 503. Only
   * the status tells it apart from a relayed reply: a reply of any status
   * other than 500 relays with a different status.
   */
  lemma TransportErrorIsDistinct(status: int, bytes: Bytes)
    ensures Relay(TransportError).status == StatusInternalServerError
    ensures Relay(TransportError).body.NoteWithCode? && Relay(TransportError).body.code == 503
    ensures status != StatusInternalServerError ==>
              Relay(TransportError).status != Relay(Reply(status, Some(bytes))).status
  {
  }

  /**
   * A completed round trip is passed through verbatim: two readable replies
   * that relay to the same answer had the same status and the same bytes.
   */
  lemma RelayIsVerbatim(status: int, bytes: Bytes, otherStatus: int, otherBytes: Bytes)
    ensures Relay(Reply(status, Some(bytes))) == Response(status, Relayed("application/json", bytes))
    ensures Relay(Reply(otherStatus, Some(otherBytes))) == Relay(Reply(status, Some(bytes))) ==>
              otherStatus == status && otherBytes == bytes
  {
  }

  /**
   * The identity the edge service forwards, on a send and on a list, always
   * passes the dialog service's `X-User-ID` check: tokens only map to
   * non-empty ids.
   */
  lemma ForwardedIdentityAccepted(authorization: Option<string>, tokens: map<string, string>,
                                  dialogServiceUrl: string, otherUserId: string,
                                  recipientExists: bool, requestBody: Option<Bytes>,
                                  dialogService: DialogCall -> CallResult)
    requires forall token | token in tokens :: tokens[token] != ""
    requires Authenticate(authorization, tokens).Authenticated?
    ensures var userId := Authenticate(authorization, tokens).userId;
            var call := GetDialog(dialogServiceUrl, userId, otherUserId, dialogService).call.value;
            DialogService.Identity(Some(call.userIdHeader)) == Some(userId)
    ensures var userId := Authenticate(authorization, tokens).userId;
            var sent := SendMessage(dialogServiceUrl, userId, otherUserId, recipientExists, requestBody, dialogService);
            sent.call.Some? ==> DialogService.Identity(Some(sent.call.value.userIdHeader)) == Some(userId)
  {
    AuthenticatedIdNonEmpty(authorization, tokens);
  }
}
