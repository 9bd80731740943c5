/** The cookie authentication token of backend/security.py: a plain-text join
    of username and password, split again on each request to find the user. */
module Security {
  import opened Wrappers
  import opened Models
  import opened StrSplit

  /** The literal that joins the two halves of a token. */
  const Separator: string := "_-_"

  /** The `HTTPException` a request is rejected with. */
  datatype HttpError = HttpError(status: nat, detail: string)

  const WrongCredentials := HttpError(401, "Wrong credentials")
  const NotFound := HttpError(404, "Not found")

  /** The stored `User` nodes, keyed by username: the database keeps usernames
      unique, so a lookup by username finds at most one node. */
  type UserStore = map<string, UserNode>

  /** Every node is filed under its own username. */
  predicate KeyedByUsername(users: UserStore) {
    forall name :: name in users ==> users[name].username == name
  }

  /** `create_auth_token`: the username, the separator, the password, in that
      order and with nothing added or dropped. */
  function CreateAuthToken(user: UserIn): (token: string)
    ensures |token| == |user.username| + |Separator| + |user.password|
    ensures token[..|user.username|] == user.username
    ensures OccursAt(token, Separator, |user.username|)
    ensures token[|user.username| + |Separator|..] == user.password
  {
    user.username + Separator + user.password
  }

  /** The first steps of `get_user_from_token`: split the token once at the
      separator; with no separator it is rejected as wrong credentials,
      otherwise the part before the separator is looked up in the store. */
  function FindUserNode(token: string, users: UserStore): Result<UserNode, HttpError> {
    var parts := SplitOnce(token, Separator);
    if |parts| < 2 then Failure(WrongCredentials)
    else
      var username := parts[0];
      if username !in users then Failure(NotFound)
      else Success(users[username])
  }

  /** `get_user_from_token` as it is meant to behave: the node found for the
      token's username part is answered with its username. The password part
      is not read. */
  function GetUserFromToken(token: string, users: UserStore): (r: Result<UserOut, HttpError>)
    ensures r == Failure(WrongCredentials) <==> !Contains(token, Separator)
    ensures r.Failure? ==> r.error == WrongCredentials || r.error == NotFound
  {
    match FindUserNode(token, users)
    case Failure(e) => Failure(e)
    case Success(node) => Success(UserOut(node.username))
  }

  /** What `get_user_from_token` can end in as written: an HTTP rejection, or
      a `UserOut` that fails validation for lack of the named field. */
  datatype TokenError = Rejected(http: HttpError) | Invalid(missingField: string)

  /** `get_user_from_token` as written: the `UserOut` is built from the
      username alone, without the `url` its schema requires, so the
      construction fails wherever the lookup finds a user. */
  function GetUserFromTokenAsWritten(token: string, users: UserStore): (r: Result<UserOut, TokenError>)
    ensures r.Failure?
    ensures r == Failure(Rejected(WrongCredentials)) <==> !Contains(token, Separator)
  {
    match FindUserNode(token, users)
    case Failure(e) => Failure(Rejected(e))
    case Success(node) =>
      match ConstructUserOut(node.username, {"username"})
      case Success(user) => Success(user)
      case Failure(field) => Failure(Invalid(field))
  }

  /** The code as written fails with a missing `url` exactly where the
      intended behaviour authenticates a user, and rejects every other token
      the way the intended behaviour does. */
  lemma AsWrittenFailsWhereIntendedSucceeds(token: string, users: UserStore)
    ensures GetUserFromToken(token, users).Success? <==>
      GetUserFromTokenAsWritten(token, users) == Failure(Invalid("url"))
    ensures GetUserFromToken(token, users).Failure? ==>
      GetUserFromTokenAsWritten(token, users) == Failure(Rejected(GetUserFromToken(token, users).error))
  {
  }

  /** A stored user "alice" logging in with her own token: the intended
      lookup finds her, the code as written fails validation on `url`. */
  lemma StoredUserFailsValidationAsWritten()
    ensures GetUserFromToken("alice_-_pw", map["alice" := UserNode("alice", "pw")]) ==
      Success(UserOut("alice"))
    ensures GetUserFromTokenAsWritten("alice_-_pw", map["alice" := UserNode("alice", "pw")]) ==
      Failure(Invalid("url"))
  {
    var token := "alice_-_pw";
    assert token == "alice" + Separator + "pw";
    forall j | 0 <= j < 5 ensures !OccursAt(token, Separator, j) {
      assert token[j] != '_';
    }
    SplitAtFirstOccurrence(token, Separator, "alice", "pw");
  }

  /** `get_logged_user`: the request's token cookie, resolved exactly as
      `get_user_from_token` resolves it, errors included. */
  function GetLoggedUser(token: string, users: UserStore): (r: Result<UserOut, HttpError>)
    ensures r == GetUserFromToken(token, users)
  {
    GetUserFromToken(token, users)
  }

  /** A username that the decoder gives back whole: no separator starts inside
      it, not even one that runs on into the separator the encoder appends. */
  predicate Unambiguous(username: string) {
    forall j :: 0 <= j < |username| ==> !OccursAt(username + Separator, Separator, j)
  }

  /** Unambiguous usernames are exactly those that neither contain the
      separator nor end with its first two characters. */
  lemma UnambiguousIff(username: string)
    ensures Unambiguous(username) <==>
      !Contains(username, Separator) && !(|username| >= 2 && username[|username| - 2..] == "_-")
  {
    var n := |username|;
    var s := username + Separator;
    forall j | 0 <= j && j + |Separator| <= n
      ensures OccursAt(s, Separator, j) == OccursAt(username, Separator, j)
    {
      assert s[j..j + |Separator|] == username[j..j + |Separator|];
    }
    if n >= 1 {
      assert s[n - 1..n + 2] == [username[n - 1], '_', '-'];
      assert !OccursAt(s, Separator, n - 1);
    }
    if n >= 2 {
      assert s[n - 2..n + 1] == [username[n - 2], username[n - 1], '_'];
      assert username[n - 2..] == [username[n - 2], username[n - 1]];
      assert OccursAt(s, Separator, n - 2) <==> username[n - 2..] == "_-";
    }
    if Unambiguous(username) {
      forall j | 0 <= j <= n ensures !OccursAt(username, Separator, j) {
        if j + |Separator| <= n { assert !OccursAt(s, Separator, j); }
      }
    }
  }

  /** Round trip: splitting the token of a user with an unambiguous name gives
      back that name and the password, whatever the password contains. */
  lemma {:induction false} TokenRoundTrip(user: UserIn)
    requires Unambiguous(user.username)
    ensures SplitOnce(CreateAuthToken(user), Separator) == [user.username, user.password]
  {
    var u := user.username;
    var token := CreateAuthToken(user);
    forall j | 0 <= j < |u| ensures !OccursAt(token, Separator, j) {
      assert token[j..j + |Separator|] == (u + Separator)[j..j + |Separator|];
      assert !OccursAt(u + Separator, Separator, j);
    }
    SplitAtFirstOccurrence(token, Separator, u, user.password);
  }

  /** The decoder recovers the username exactly when it is unambiguous; when it
      does not, what it recovers is a strict prefix of the username. */
  lemma {:induction false} RecoveredUsername(user: UserIn)
    ensures |SplitOnce(CreateAuthToken(user), Separator)| == 2
    ensures SplitOnce(CreateAuthToken(user), Separator)[0] == user.username <==> Unambiguous(user.username)
    ensures !Unambiguous(user.username) ==>
      var head := SplitOnce(CreateAuthToken(user), Separator)[0];
      |head| < |user.username| && head == user.username[..|head|]
  {
    var u := user.username;
    var token := CreateAuthToken(user);
    assert OccursAt(token, Separator, |u|);
    var parts := SplitOnce(token, Separator);
    var i := |parts[0]|;
    assert i <= |u|;
    assert parts[0] == token[..i] == u[..i];
    if Unambiguous(u) {
      TokenRoundTrip(user);
    } else {
      var j :| 0 <= j < |u| && OccursAt(u + Separator, Separator, j);
      assert token[j..j + |Separator|] == (u + Separator)[j..j + |Separator|];
      assert OccursAt(token, Separator, j);
      assert i <= j;
    }
  }

  /** A username free of the separator is still not enough: "a_-" holds no
      separator, yet its token "a_-_-_p" is read back as user "a". */
  lemma TrailingDashUsernameIsTruncated()
    ensures !Contains("a_-", Separator)
    ensures CreateAuthToken(UserIn("a_-", "p")) == "a_-_-_p"
    ensures SplitOnce(CreateAuthToken(UserIn("a_-", "p")), Separator)[0] == "a"
  {
    var token := CreateAuthToken(UserIn("a_-", "p"));
    assert token == "a_-_-_p";
    assert "a" + Separator + "-_p" == "a_-_-_p";
    assert !OccursAt(token, Separator, 0) by { assert token[0..3] == "a_-"; }
    SplitAtFirstOccurrence(token, Separator, "a", "-_p");
    assert !OccursAt("a_-", Separator, 0) by { assert "a_-"[0..3] == "a_-"; }
  }

  /** A token that is only the separator passes the format check and names the
      empty username. */
  lemma SeparatorAloneNamesEmptyUser(users: UserStore)
    ensures GetUserFromToken(Separator, users) ==
      if "" in users then Success(UserOut(users[""].username)) else Failure(NotFound)
  {
    assert Separator == "" + Separator + "";
    SplitAtFirstOccurrence(Separator, Separator, "", "");
  }

  /** Logging in with a token minted for an unambiguous username finds that
      user when it is stored and answers "Not found" otherwise. */
  lemma LoginRoundTrip(user: UserIn, users: UserStore)
    requires KeyedByUsername(users)
    requires Unambiguous(user.username)
    ensures GetUserFromToken(CreateAuthToken(user), users) ==
      if user.username in users then Success(UserOut(user.username)) else Failure(NotFound)
  {
    TokenRoundTrip(user);
  }

  /** The password never decides the outcome: two tokens minted for the same
      username resolve alike, even when that username is ambiguous. */
  lemma PasswordNeverExamined(username: string, p1: string, p2: string, users: UserStore)
    ensures GetUserFromToken(CreateAuthToken(UserIn(username, p1)), users) ==
            GetUserFromToken(CreateAuthToken(UserIn(username, p2)), users)
  {
    var t1 := CreateAuthToken(UserIn(username, p1));
    var t2 := CreateAuthToken(UserIn(username, p2));
    var k := |username|;
    assert t1[..k + |Separator|] == username + Separator == t2[..k + |Separator|];
    SplitHeadDependsOnPrefix(t1, t2, Separator, k);
  }

  /** The stored passwords are never compared either: stores that differ only
      in passwords resolve every token alike. */
  lemma StoredPasswordNeverExamined(token: string, users1: UserStore, users2: UserStore)
    requires users1.Keys == users2.Keys
    requires forall name :: name in users1 ==> users1[name].username == users2[name].username
    ensures GetUserFromToken(token, users1) == GetUserFromToken(token, users2)
  {
  }

  /** A token authenticates as `name` exactly when `name` is stored and the
      token starts with `name` followed by its first separator. */
  lemma AuthenticatesExactly(token: string, users: UserStore, name: string)
    requires KeyedByUsername(users)
    ensures GetUserFromToken(token, users) == Success(UserOut(name)) <==>
      name in users && FirstOccurrence(token, Separator, |name|) && token[..|name|] == name
  {
    if name in users && FirstOccurrence(token, Separator, |name|) && token[..|name|] == name {
      assert token == name + Separator + token[|name| + |Separator|..] by {
        assert token[|name|..|name| + |Separator|] == Separator;
      }
      SplitAtFirstOccurrence(token, Separator, name, token[|name| + |Separator|..]);
    }
  }
}
