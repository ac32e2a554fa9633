/**
 * The edge service's in-memory session state: bearer-token authentication
 * against the `tokens` map, the token written by a successful login, the
 * `friendships` sets written by `addFriend`, and the feed's empty-friends
 * short cut. Database lookups and password hashing are boolean inputs.
 */
module EdgeSession {
  import opened Base

  const Space: char := ' '

  const StatusOK := 200
  const StatusBadRequest := 400
  const StatusUnauthorized := 401
  const StatusNotFound := 404
  const StatusInternalServerError := 500

  /** The JSON bodies the edge service answers with (or relays). */
  datatype Body =
    | Note(message: string)
    | NoteWithCode(message: string, code: int)
    | TokenIssued(token: string)
    | Relayed(contentType: string, bytes: Bytes)

  datatype Response = Response(status: int, body: Body)

  // ---------------------------------------------------------------------
  // Authorization header parsing

  /** The pieces joined back with the separator between them. */
  function Join(parts: seq<string>, sep: char): string
    requires |parts| >= 1
    decreases |parts|
  {
    if |parts| == 1 then parts[0] else parts[0] + [sep] + Join(parts[1..], sep)
  }

  /**
   * Go's `strings.Split` with a one-character separator: the maximal
   * separator-free pieces, in order; an empty string gives one empty piece.
   */
  function Split(s: string, sep: char): (parts: seq<string>)
    ensures |parts| >= 1
    ensures forall i | 0 <= i < |parts| :: sep !in parts[i]
    ensures Join(parts, sep) == s
    decreases |s|
  {
    if s == [] then [""]
    else
      var rest := Split(s[1..], sep);
      if s[0] == sep then
        assert ([""] + rest)[1..] == rest;
        [""] + rest
      else
        var parts := [[s[0]] + rest[0]] + rest[1..];
        assert |rest| > 1 ==> parts[1..] == rest[1..] && Join(rest, sep) == rest[0] + [sep] + Join(rest[1..], sep);
        assert s == [s[0]] + s[1..];
        parts
  }

  /** The bearer-token step of `authMiddleware`: split on " ", expect exactly `Bearer <token>`. */
  function BearerToken(authorization: string): (token: Option<string>)
    ensures token.Some? ==> authorization == "Bearer" + [Space] + token.value && Space !in token.value
  {
    var tokenParts := Split(authorization, Space);
    if |tokenParts| != 2 || tokenParts[0] != "Bearer" then None
    else
      assert Join(tokenParts, Space) == tokenParts[0] + [Space] + Join(tokenParts[1..], Space);
      assert tokenParts[1..] == [tokenParts[1]];
      Some(tokenParts[1])
  }

  /** A rejected request is answered 401 with the message and aborted before any handler. */
  datatype AuthResult = Authenticated(userId: string) | Rejected(message: string)

  /** `authMiddleware`: an absent header reads as "". */
  function Authenticate(authorization: Option<string>, tokens: map<string, string>): (r: AuthResult)
    ensures r.Authenticated? ==> r.userId in tokens.Values
    ensures authorization.GetOr("") == "" ==> r == Rejected("Authorization header required")
  {
    var authHeader := authorization.GetOr("");
    if authHeader == "" then Rejected("Authorization header required")
    else match BearerToken(authHeader)
      case None => Rejected("Invalid authorization format")
      case Some(token) =>
        if token !in tokens then Rejected("Invalid token")
        else
          assert tokens[token] in tokens.Values;
          Authenticated(tokens[token])
  }

  lemma SplitWithoutSeparator(s: string, sep: char)
    requires sep !in s
    ensures Split(s, sep) == [s]
  {
  }

  lemma {:induction false} SplitAfterWord(word: string, rest: string, sep: char)
    requires sep !in word
    ensures Split(word + [sep] + rest, sep) == [word] + Split(rest, sep)
    decreases |word|
  {
    var s := word + [sep] + rest;
    if word == [] {
      assert s[1..] == rest;
    } else {
      assert s[1..] == word[1..] + [sep] + rest;
      SplitAfterWord(word[1..], rest, sep);
      assert [word[0]] + word[1..] == word;
    }
  }

  /**
   * A header yields token `t` exactly when it is "Bearer", one space, then
   * `t` with no further space; so two spaces (three pieces) are refused.
   */
  lemma BearerTokenIff(authorization: string, token: string)
    ensures BearerToken(authorization) == Some(token) <==>
              authorization == "Bearer" + [Space] + token && Space !in token
  {
    if authorization == "Bearer" + [Space] + token && Space !in token {
      SplitAfterWord("Bearer", token, Space);
      SplitWithoutSeparator(token, Space);
    }
  }

  /** A well-formed bearer header is decided by the token map alone. */
  lemma AuthenticateBearer(token: string, tokens: map<string, string>)
    requires Space !in token
    ensures Authenticate(Some("Bearer" + [Space] + token), tokens) ==
              if token in tokens then Authenticated(tokens[token]) else Rejected("Invalid token")
  {
    BearerTokenIff("Bearer" + [Space] + token, token);
  }

  /** Every authenticated caller presented "Bearer <t>" for a token `t` mapped to its id. */
  lemma AuthenticatedHasBearer(authorization: Option<string>, tokens: map<string, string>)
    requires Authenticate(authorization, tokens).Authenticated?
    ensures exists token | token in tokens ::
              && authorization == Some("Bearer" + [Space] + token)
              && Space !in token
              && tokens[token] == Authenticate(authorization, tokens).userId
  {
    var token := BearerToken(authorization.value).value;
    BearerTokenIff(authorization.value, token);
  }

  // ---------------------------------------------------------------------
  // Friendships

  /** The friend set of `userId`, or none when `addFriend` never ran for them. */
  function FriendsOf(friendships: map<string, set<string>>, userId: string): set<string> {
    if userId in friendships then friendships[userId] else {}
  }

  /** `friendships` after `friendId` is added to the set of `userId`, created if absent. */
  function WithFriend(friendships: map<string, set<string>>, userId: string, friendId: string)
    : (r: map<string, set<string>>)
    ensures r.Keys == friendships.Keys + {userId}
    ensures forall u | u in friendships && u != userId :: r[u] == friendships[u]
  {
    friendships[userId := FriendsOf(friendships, userId) + {friendId}]
  }

  /** Adding a friend puts exactly that friend in the set, and repeating it changes nothing. */
  lemma WithFriendAddsOne(friendships: map<string, set<string>>, userId: string, friendId: string)
    ensures FriendsOf(WithFriend(friendships, userId, friendId), userId) ==
              FriendsOf(friendships, userId) + {friendId}
    ensures WithFriend(WithFriend(friendships, userId, friendId), userId, friendId) ==
              WithFriend(friendships, userId, friendId)
  {
  }

  /** What the feed handler does after reading the caller's friend set. */
  datatype FeedPlan =
    | EmptyFeed                           // answer 200 with [] and query nothing
    | QueryPosts(authorIds: seq<string>)  // query the posts of exactly these authors

  /** Login binds only with a present, non-empty field (binding:"required"). */
  predicate FieldBinds(field: Option<string>) {
    field.Some? && field.value != ""
  }

  // ---------------------------------------------------------------------
  // The session store

  class Storage {
    var friendships: map<string, set<string>>
    var tokens: map<string, string>

    /** Tokens are only issued to ids that passed login's binding, so none maps to "". */
    ghost predicate Valid()
      reads this
    {
      forall token | token in tokens :: tokens[token] != ""
    }

    constructor ()
      ensures Valid() && friendships == map[] && tokens == map[]
    {
      friendships := map[];
      tokens := map[];
    }

    /**
     * `login`: `userFound` is the outcome of the password lookup,
     * `passwordMatches` the outcome of the hash comparison, `newToken` the
     * freshly generated token string.
     */
    method Login(id: Option<string>, password: Option<string>, userFound: bool,
                 passwordMatches: bool, newToken: string) returns (resp: Response)
      requires Valid()
      modifies this`tokens
      ensures Valid()
      ensures !(FieldBinds(id) && FieldBinds(password)) ==>
                resp == Response(StatusBadRequest, Note("Invalid request data")) && tokens == old(tokens)
      ensures FieldBinds(id) && FieldBinds(password) && !userFound ==>
                resp == Response(StatusNotFound, Note("User not found")) && tokens == old(tokens)
      ensures FieldBinds(id) && FieldBinds(password) && userFound && !passwordMatches ==>
                resp == Response(StatusUnauthorized, Note("Invalid password")) && tokens == old(tokens)
      ensures FieldBinds(id) && FieldBinds(password) && userFound && passwordMatches ==>
                resp == Response(StatusOK, TokenIssued(newToken)) &&
                tokens == old(tokens)[newToken := id.value]
    {
      if !(FieldBinds(id) && FieldBinds(password)) {
        return Response(StatusBadRequest, Note("Invalid request data"));
      }
      if !userFound {
        return Response(StatusNotFound, Note("User not found"));
      }
      if !passwordMatches {
        return Response(StatusUnauthorized, Note("Invalid password"));
      }
      tokens := tokens[newToken := id.value];
      resp := Response(StatusOK, TokenIssued(newToken));
    }

    /** `addFriend`: `friendExists` is the outcome of the existence query (a failed query counts as false). */
    method AddFriend(currentUserId: string, friendId: string, friendExists: bool) returns (resp: Response)
      modifies this`friendships
      ensures !friendExists ==>
                resp == Response(StatusBadRequest, Note("User not found")) && friendships == old(friendships)
      ensures friendExists ==>
                resp == Response(StatusOK, Note("Friend added")) &&
                friendships == WithFriend(old(friendships), currentUserId, friendId)
    {
      if !friendExists {
        return Response(StatusBadRequest, Note("User not found"));
      }
      if currentUserId !in friendships {
        friendships := friendships[currentUserId := {}];
      }
      friendships := friendships[currentUserId := friendships[currentUserId] + {friendId}];
      resp := Response(StatusOK, Note("Friend added"));
    }

    /**
     * The part of `getFeed` before the posts query: no friend set means an
     * empty feed and no query; otherwise the set is listed once per friend.
     */
    method GetFeed(currentUserId: string) returns (plan: FeedPlan)
      ensures plan.EmptyFeed? <==> currentUserId !in friendships
      ensures plan.QueryPosts? ==>
                (forall f :: f in plan.authorIds <==> f in friendships[currentUserId]) &&
                (forall i, j | 0 <= i < j < |plan.authorIds| :: plan.authorIds[i] != plan.authorIds[j])
    {
      if currentUserId !in friendships {
        return EmptyFeed;
      }
      var friends := friendships[currentUserId];
      var friendIds: seq<string> := [];
      var remaining := friends;
      while remaining != {}
        invariant remaining <= friends
        invariant forall f :: f in friendIds <==> f in friends && f !in remaining
        invariant forall i, j | 0 <= i < j < |friendIds| :: friendIds[i] != friendIds[j]
        decreases remaining
      {
        var f :| f in remaining;
        friendIds := friendIds + [f];
        remaining := remaining - {f};
      }
      plan := QueryPosts(friendIds);
    }
  }

  /** With a valid token map, an authenticated caller's id is never empty. */
  lemma AuthenticatedIdNonEmpty(authorization: Option<string>, tokens: map<string, string>)
    requires forall token | token in tokens :: tokens[token] != ""
    requires Authenticate(authorization, tokens).Authenticated?
    ensures Authenticate(authorization, tokens).userId != ""
  {
  }
}
