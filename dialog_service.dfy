/**
 * The dialog service: an in-memory store from conversation key to the
 * append-only sequence of messages of that conversation, and the HTTP
 * handlers that read and extend it behind the `X-User-ID` identity check.
 *
 * Each handler runs under the store's lock in the service, so every method
 * of `DialogStorage` is one atomic step here.
 */
module DialogService {
  import opened Base
  import opened DialogKey

  /** The server-side creation time of a message; nothing is assumed about its value. */
  type Timestamp = int

  datatype DialogMessage = DialogMessage(from: string, to: string, text: string, timestamp: Timestamp)

  /** Conversation key -> messages of that conversation, oldest first. */
  type Dialogs = map<string, seq<DialogMessage>>

  /** A message is filed under the key of its own two participants, who differ. */
  predicate FiledUnder(key: string, msg: DialogMessage) {
    msg.from != msg.to && key == CreateDialogKey(msg.from, msg.to)
  }

  /** What every reachable store satisfies: keys are only created by a send. */
  ghost predicate StoreInvariant(m: Dialogs) {
    forall key | key in m ::
      m[key] != [] && forall i | 0 <= i < |m[key]| :: FiledUnder(key, m[key][i])
  }

  /** The messages stored under `key`, or none when the key was never created. */
  function Lookup(m: Dialogs, key: string): seq<DialogMessage> {
    if key in m then m[key] else []
  }

  /** The store after `msg` is appended to the conversation `key` (created if absent). */
  function Appended(m: Dialogs, key: string, msg: DialogMessage): (r: Dialogs)
    ensures r.Keys == m.Keys + {key}
    ensures r[key] == Lookup(m, key) + [msg]
    ensures forall k | k in m && k != key :: r[k] == m[k]
  {
    m[key := Lookup(m, key) + [msg]]
  }

  /** The conversation between two users, whichever of them asks. */
  function DialogBetween(m: Dialogs, userId: string, otherUserId: string): seq<DialogMessage> {
    Lookup(m, CreateDialogKey(userId, otherUserId))
  }

  /** The participant test of `getUserDialogs`: it looks at the first message only. */
  predicate Involves(messages: seq<DialogMessage>, userId: string) {
    |messages| > 0 && (messages[0].from == userId || messages[0].to == userId)
  }

  /** The conversations `getUserDialogs` reports for `userId`. */
  function UserDialogs(m: Dialogs, userId: string): Dialogs {
    map key | key in m && Involves(m[key], userId) :: m[key]
  }

  /** The number of messages in all conversations (`total_messages`). */
  ghost function TotalMessages(m: Dialogs): nat
    decreases |m|
  {
    if m == map[] then 0
    else
      var key :| key in m;
      assert |m - {key}| < |m| by { assert (m - {key}).Keys == m.Keys - {key}; }
      |m[key]| + TotalMessages(m - {key})
  }

  /** The part of `m` whose keys are in `keys`. */
  ghost function Restrict(m: Dialogs, keys: set<string>): Dialogs {
    map key | key in m && key in keys :: m[key]
  }

  // ---------------------------------------------------------------------
  // Requests and responses

  const StatusOK := 200
  const StatusBadRequest := 400
  const StatusUnauthorized := 401

  datatype Body =
    | Note(message: string)
    | Messages(messages: seq<DialogMessage>)
    | Conversations(dialogs: Dialogs)
    | Health(status: string, service: string, totalDialogs: nat, totalMessages: nat)

  datatype Response = Response(status: int, body: Body)

  /** The routes of the service; `text` is None when the JSON body does not bind. */
  datatype Route =
    | HealthRoute
    | SendRoute(recipient: string, text: Option<string>)
    | ListRoute(otherUser: string)
    | DialogsRoute

  datatype Request = Request(route: Route, userIdHeader: Option<string>)

  /** Every route except `/health` sits behind `userContextMiddleware`. */
  predicate IsProtected(route: Route) {
    !route.HealthRoute?
  }

  /** `userContextMiddleware`: an absent header reads as "", and "" is refused. */
  function Identity(userIdHeader: Option<string>): (r: Option<string>)
    ensures r.Some? <==> userIdHeader.Some? && userIdHeader.value != ""
    ensures r.Some? ==> r == userIdHeader
  {
    var userId := userIdHeader.GetOr("");
    if userId == "" then None else Some(userId)
  }

  /** The JSON body of a send binds only with a present, non-empty `text`. */
  predicate TextBinds(text: Option<string>) {
    text.Some? && text.value != ""
  }

  const UnauthorizedResponse := Response(StatusUnauthorized, Note("User ID header required"))
  const InvalidRequestResponse := Response(StatusBadRequest, Note("Invalid request data"))
  const SelfMessageResponse := Response(StatusBadRequest, Note("Cannot send message to yourself"))
  const SentResponse := Response(StatusOK, Note("Message sent successfully"))

  ghost function HealthResponse(m: Dialogs): Response {
    Response(StatusOK, Health("ok", "dialog-service", |m|, TotalMessages(m)))
  }

  // ---------------------------------------------------------------------
  // The store object and its handlers

  class DialogStorage {
    var dialogs: Dialogs

    ghost predicate Valid()
      reads this
    {
      StoreInvariant(dialogs)
    }

    constructor ()
      ensures Valid() && dialogs == map[]
    {
      dialogs := map[];
    }

    /** `POST /dialog/:user_id/send` after the identity check. */
    method SendMessage(currentUserId: string, toUserId: string, text: Option<string>, now: Timestamp)
      returns (resp: Response)
      requires Valid()
      modifies this
      ensures Valid()
      ensures !TextBinds(text) ==> resp == InvalidRequestResponse && dialogs == old(dialogs)
      ensures TextBinds(text) && currentUserId == toUserId ==>
                resp == SelfMessageResponse && dialogs == old(dialogs)
      ensures TextBinds(text) && currentUserId != toUserId ==>
                resp == SentResponse &&
                dialogs == Appended(old(dialogs), CreateDialogKey(currentUserId, toUserId),
                                    DialogMessage(currentUserId, toUserId, text.value, now))
    {
      if !TextBinds(text) {
        return InvalidRequestResponse;
      }
      if currentUserId == toUserId {
        return SelfMessageResponse;
      }
      var message := DialogMessage(currentUserId, toUserId, text.value, now);
      var dialogKey := CreateDialogKey(currentUserId, toUserId);
      SendPreservesInvariant(dialogs, message);
      dialogs := dialogs[dialogKey := Lookup(dialogs, dialogKey) + [message]];
      resp := SentResponse;
    }

    /** `GET /dialog/:user_id/list` after the identity check: never fails, [] for a new pair. */
    method GetDialog(currentUserId: string, otherUserId: string) returns (resp: Response)
      ensures resp == Response(StatusOK, Messages(DialogBetween(dialogs, currentUserId, otherUserId)))
    {
      var dialogKey := CreateDialogKey(currentUserId, otherUserId);
      var messages := if dialogKey in dialogs then dialogs[dialogKey] else [];
      resp := Response(StatusOK, Messages(messages));
    }

    /** `GET /health`: counts the conversations and sums their lengths. */
    method HealthCheck() returns (resp: Response)
      ensures resp == HealthResponse(dialogs)
    {
      var totalMessages := 0;
      var totalDialogs := |dialogs|;
      var remaining := dialogs.Keys;
      assert Restrict(dialogs, remaining) == dialogs;
      while remaining != {}
        invariant remaining <= dialogs.Keys
        invariant totalMessages + TotalMessages(Restrict(dialogs, remaining)) == TotalMessages(dialogs)
        decreases remaining
      {
        var key :| key in remaining;
        TotalMessagesRemove(Restrict(dialogs, remaining), key);
        assert Restrict(dialogs, remaining) - {key} == Restrict(dialogs, remaining - {key});
        totalMessages := totalMessages + |dialogs[key]|;
        remaining := remaining - {key};
      }
      assert Restrict(dialogs, remaining) == map[];
      resp := Response(StatusOK, Health("ok", "dialog-service", totalDialogs, totalMessages));
    }

    /** `GET /dialogs` after the identity check: every conversation whose first message involves the caller. */
    method GetUserDialogs(currentUserId: string) returns (resp: Response)
      ensures resp == Response(StatusOK, Conversations(UserDialogs(dialogs, currentUserId)))
    {
      var userDialogs: Dialogs := map[];
      var remaining := dialogs.Keys;
      while remaining != {}
        invariant remaining <= dialogs.Keys
        invariant forall key :: key in userDialogs <==>
                    key in dialogs && key !in remaining && Involves(dialogs[key], currentUserId)
        invariant forall key | key in userDialogs :: userDialogs[key] == dialogs[key]
        decreases remaining
      {
        var dialogKey :| dialogKey in remaining;
        var messages := dialogs[dialogKey];
        if |messages| > 0 {
          var firstMessage := messages[0];
          if firstMessage.from == currentUserId || firstMessage.to == currentUserId {
            userDialogs := userDialogs[dialogKey := messages];
          }
        }
        remaining := remaining - {dialogKey};
      }
      assert userDialogs == UserDialogs(dialogs, currentUserId);
      resp := Response(StatusOK, Conversations(userDialogs));
    }

    /**
     * The router: `/health` is open; every other route first passes the
     * identity check, and a refused request reaches no handler.
     */
    method Serve(req: Request, now: Timestamp) returns (resp: Response)
      requires Valid()
      modifies this
      ensures Valid()
      ensures resp.status in {StatusOK, StatusBadRequest, StatusUnauthorized}
      ensures req.route.HealthRoute? ==> resp == HealthResponse(dialogs) && dialogs == old(dialogs)
      ensures IsProtected(req.route) && Identity(req.userIdHeader).None? ==>
                resp == UnauthorizedResponse && dialogs == old(dialogs)
      ensures req.route.ListRoute? && Identity(req.userIdHeader).Some? ==>
                dialogs == old(dialogs) &&
                resp == Response(StatusOK, Messages(DialogBetween(old(dialogs), req.userIdHeader.value,
                                                                  req.route.otherUser)))
      ensures req.route.DialogsRoute? && Identity(req.userIdHeader).Some? ==>
                dialogs == old(dialogs) &&
                resp == Response(StatusOK, Conversations(UserDialogs(old(dialogs), req.userIdHeader.value)))
      ensures req.route.SendRoute? && Identity(req.userIdHeader).Some? && !TextBinds(req.route.text) ==>
                resp == InvalidRequestResponse && dialogs == old(dialogs)
      ensures req.route.SendRoute? && Identity(req.userIdHeader).Some? && TextBinds(req.route.text) &&
              req.userIdHeader.value == req.route.recipient ==>
                resp == SelfMessageResponse && dialogs == old(dialogs)
      ensures req.route.SendRoute? && Identity(req.userIdHeader).Some? && TextBinds(req.route.text) &&
              req.userIdHeader.value != req.route.recipient ==>
                var sender, recipient := req.userIdHeader.value, req.route.recipient;
                resp == SentResponse &&
                dialogs == Appended(old(dialogs), CreateDialogKey(sender, recipient),
                                    DialogMessage(sender, recipient, req.route.text.value, now))
    {
      if req.route.HealthRoute? {
        resp := HealthCheck();
        return;
      }
      var userId := Identity(req.userIdHeader);
      if userId.None? {
        return UnauthorizedResponse;
      }
      match req.route
      case SendRoute(recipient, text) =>
        resp := SendMessage(userId.value, recipient, text, now);
      case ListRoute(otherUser) =>
        resp := GetDialog(userId.value, otherUser);
      case DialogsRoute =>
        resp := GetUserDialogs(userId.value);
    }
  }

  // ---------------------------------------------------------------------
  // Properties of the store

  /** `total_messages` does not depend on the order in which the keys are visited. */
  lemma {:induction false} TotalMessagesRemove(m: Dialogs, key: string)
    requires key in m
    ensures TotalMessages(m) == |m[key]| + TotalMessages(m - {key})
    decreases |m|
  {
    var chosen :| chosen in m && TotalMessages(m) == |m[chosen]| + TotalMessages(m - {chosen});
    if chosen != key {
      var rest := m - {chosen};
      assert rest.Keys == m.Keys - {chosen};
      TotalMessagesRemove(rest, key);
      var other := m - {key};
      assert other.Keys == m.Keys - {key};
      TotalMessagesRemove(other, chosen);
      assert rest - {key} == other - {chosen};
    }
  }

  /** Each successful send raises `total_messages` by exactly one. */
  lemma SendAddsOneMessage(m: Dialogs, key: string, msg: DialogMessage)
    ensures TotalMessages(Appended(m, key, msg)) == TotalMessages(m) + 1
  {
    var m' := Appended(m, key, msg);
    TotalMessagesRemove(m', key);
    assert m' - {key} == m - {key};
    if key in m {
      TotalMessagesRemove(m, key);
    } else {
      assert m - {key} == m;
    }
  }

  /** A send creates a conversation (raising `total_dialogs`) only for a new key. */
  lemma SendCountsDialogs(m: Dialogs, key: string, msg: DialogMessage)
    ensures |Appended(m, key, msg)| == if key in m then |m| else |m| + 1
  {
  }

  /** A send with distinct participants keeps the store invariant. */
  lemma SendPreservesInvariant(m: Dialogs, msg: DialogMessage)
    requires StoreInvariant(m)
    requires msg.from != msg.to
    ensures StoreInvariant(Appended(m, CreateDialogKey(msg.from, msg.to), msg))
  {
  }

  /** `getDialog(u, v)` and `getDialog(v, u)` read the same conversation. */
  lemma DialogSymmetric(m: Dialogs, userId: string, otherUserId: string)
    ensures DialogBetween(m, userId, otherUserId) == DialogBetween(m, otherUserId, userId)
  {
    KeySymmetric(userId, otherUserId);
  }

  /**
   * After a send from `a` to `b`, both directions of the conversation end
   * with that message, and every conversation under another key is as before.
   */
  lemma SendExtendsDialog(m: Dialogs, a: string, b: string, msg: DialogMessage, c: string, d: string)
    ensures DialogBetween(Appended(m, CreateDialogKey(a, b), msg), a, b) == DialogBetween(m, a, b) + [msg]
    ensures DialogBetween(Appended(m, CreateDialogKey(a, b), msg), b, a) == DialogBetween(m, b, a) + [msg]
    ensures CreateDialogKey(c, d) != CreateDialogKey(a, b) ==>
              DialogBetween(Appended(m, CreateDialogKey(a, b), msg), c, d) == DialogBetween(m, c, d)
  {
    KeySymmetric(a, b);
  }

  /** No deduplication: the same send twice stores two messages. */
  lemma RepeatedSendStoresTwice(m: Dialogs, a: string, b: string, msg: DialogMessage)
    ensures var key := CreateDialogKey(a, b);
            DialogBetween(Appended(Appended(m, key, msg), key, msg), a, b) == DialogBetween(m, a, b) + [msg, msg]
  {
  }

  /**
   * Under the store invariant and with ids free of the separator, a send from
   * `a` to `b` makes the conversation visible in `getUserDialogs` for `a` and
   * for `b`, with its whole message sequence, and for no third user.
   */
  lemma SendVisibleToParticipants(m: Dialogs, msg: DialogMessage, c: string)
    requires StoreInvariant(m)
    requires msg.from != msg.to
    requires NoSeparator(msg.from) && NoSeparator(msg.to)
    ensures var key := CreateDialogKey(msg.from, msg.to);
            var m' := Appended(m, key, msg);
            && key in UserDialogs(m', msg.from) && UserDialogs(m', msg.from)[key] == m'[key]
            && key in UserDialogs(m', msg.to) && UserDialogs(m', msg.to)[key] == m'[key]
            && (c != msg.from && c != msg.to ==> key !in UserDialogs(m', c))
  {
    var key := CreateDialogKey(msg.from, msg.to);
    var m' := Appended(m, key, msg);
    var first := m'[key][0];
    if key in m {
      assert first == m[key][0];
      assert FiledUnder(key, first);
      KeyDeterminesPair(msg.from, msg.to, first.from, first.to);
    } else {
      assert first == msg;
    }
  }

  /**
   * The scenario of one send: "alice" writes "hello" to "bob" on an empty
   * store; then the list asked by either of them is that one message, and
   * both see the conversation among their dialogs.
   */
  lemma AliceHelloBob(now: Timestamp)
    ensures var msg := DialogMessage("alice", "bob", "hello", now);
            var m := Appended(map[], CreateDialogKey("alice", "bob"), msg);
            && DialogBetween(m, "alice", "bob") == [msg]
            && DialogBetween(m, "bob", "alice") == [msg]
            && UserDialogs(m, "alice") == UserDialogs(m, "bob") == m
  {
    var msg := DialogMessage("alice", "bob", "hello", now);
    var key := CreateDialogKey("alice", "bob");
    var m := Appended(map[], key, msg);
    SendExtendsDialog(map[], "alice", "bob", msg, "alice", "bob");
    assert m.Keys == {key};
  }

  /**
   * With a separator inside an id, a sender can be missing from the
   * participant list of a conversation that holds their message: "x" wrote
   * to "y_z" first, then "x_y" wrote to "z" under the same key "x_y_z", and
   * `getUserDialogs` for "x_y" does not report it.
   */
  lemma CollisionHidesDialog()
    ensures var first := DialogMessage("x", "y_z", "hi", 0);
            var second := DialogMessage("x_y", "z", "hello", 1);
            var m := Appended(map[], CreateDialogKey(first.from, first.to), first);
            var m' := Appended(m, CreateDialogKey(second.from, second.to), second);
            && StoreInvariant(m')
            && CreateDialogKey(second.from, second.to) == "x_y_z"
            && second in m'["x_y_z"]
            && "x_y_z" !in UserDialogs(m', "x_y")
  {
    var first := DialogMessage("x", "y_z", "hi", 0);
    var second := DialogMessage("x_y", "z", "hello", 1);
    assert Less("x", "y_z") && Less("x_y", "z");
    assert CreateDialogKey(first.from, first.to) == "x_y_z";
    assert CreateDialogKey(second.from, second.to) == "x_y_z";
    var m := Appended(map[], CreateDialogKey(first.from, first.to), first);
    SendPreservesInvariant(map[], first);
    SendPreservesInvariant(m, second);
    var m' := Appended(m, CreateDialogKey(second.from, second.to), second);
    assert m'["x_y_z"] == [first, second];
  }
}
