/** The HTTP handlers as operations on the store. Each takes the data of the
    request (and, behind IsAuthenticated, the authenticated actor), returns the
    HTTP status code of its response, and, when it writes, changes the store.
    Response messages and error texts are not modelled. */
module Views {
  import opened Models
  import opened Store
  import opened Serializers

  const OK: int := 200
  const CREATED: int := 201
  const NO_CONTENT: int := 204
  const RESET_CONTENT: int := 205
  const BAD_REQUEST: int := 400
  const UNAUTHORIZED: int := 401
  const FORBIDDEN: int := 403
  const NOT_FOUND: int := 404
  const SERVER_ERROR: int := 500

  // ---------------------------------------------------------------------------
  // superuser_login

  /** The default authentication backend accepts `u` for these credentials:
      both were sent, the email is u's, the password matches, u is active. */
  predicate CredentialsMatch(u: User, email: Option<string>, password: Option<string>)
  {
    && email.Some? && password.Some?
    && u.email == email
    && CheckPassword(password.value, u.password)
    && u.isActive
  }

  /** authenticate(email=…, password=…): the user the credentials identify, if any. */
  function Authenticate(users: map<UserId, User>, email: Option<string>, password: Option<string>)
    : (r: Option<UserId>)
    requires EmailsUnique(users)
    ensures r.Some? ==> r.value in users && CredentialsMatch(users[r.value], email, password)
    ensures r.None? ==> forall u :: u in users ==> !CredentialsMatch(users[u], email, password)
  {
    if exists u :: u in users && CredentialsMatch(users[u], email, password) then
      var u :| u in users && CredentialsMatch(users[u], email, password);
      Some(u)
    else
      None
  }

  /** The refresh and access token RefreshToken.for_user issues. */
  datatype TokenPair = TokenPair(refresh: Token, access: Token)

  datatype LoginResponse = LoginResponse(status: int, tokens: Option<TokenPair>)

  /** superuser_login: 401 when the credentials identify no active user, 403
      when they identify a user who is not a superuser (no tokens), otherwise
      200 with a refresh and an access token for exactly that user. The jti
      values stand for the token service's fresh identifiers. */
  function SuperuserLogin(users: map<UserId, User>, email: Option<string>, password: Option<string>,
                          refreshJti: nat, accessJti: nat): (r: LoginResponse)
    requires EmailsUnique(users)
    ensures r.status == UNAUTHORIZED <==>
              forall u :: u in users ==> !CredentialsMatch(users[u], email, password)
    ensures r.status == FORBIDDEN <==>
              exists u :: u in users && CredentialsMatch(users[u], email, password) && !users[u].isSuperuser
    ensures r.status in {OK, UNAUTHORIZED, FORBIDDEN}
    ensures r.tokens.Some? <==> r.status == OK
    ensures r.status == OK ==>
              var u := r.tokens.value.refresh.user;
              && u in users && CredentialsMatch(users[u], email, password) && users[u].isSuperuser
              && r.tokens.value == TokenPair(Token(Refresh, u, refreshJti), Token(Access, u, accessJti))
  {
    match Authenticate(users, email, password)
    case None => LoginResponse(UNAUTHORIZED, None)
    case Some(u) =>
      if !users[u].isSuperuser then LoginResponse(FORBIDDEN, None)
      else LoginResponse(OK, Some(TokenPair(Token(Refresh, u, refreshJti), Token(Access, u, accessJti))))
  }

  /** A correct password of an active user who is not a superuser is refused
      with 403, never with 401, and issues no token. */
  lemma SuperuserLoginForbidsOrdinaryUser(users: map<UserId, User>, u: UserId, password: string,
                                          refreshJti: nat, accessJti: nat)
    requires EmailsUnique(users)
    requires u in users && users[u].email.Some? && users[u].isActive && !users[u].isSuperuser
    requires CheckPassword(password, users[u].password)
    ensures SuperuserLogin(users, users[u].email, Some(password), refreshJti, accessJti)
            == LoginResponse(FORBIDDEN, None)
  {
    assert CredentialsMatch(users[u], users[u].email, Some(password));
  }

  // ---------------------------------------------------------------------------
  // user_views: POST (registration), PATCH, DELETE; create_superuser; get_users

  /** user_views POST: UserSerializer validates username, email and password
      (role flags in the body are dropped); 201 stores a new user whose
      password is hashed by the save, 400 stores nothing. */
  method Register(db: Database, actor: UserId, body: UserBody,
                  isWord: char -> bool, isEmail: string -> bool) returns (status: int, ghost id: UserId)
    requires db.Valid() && actor in db.users
    modifies db
    ensures db.Valid()
    ensures var w := UserSerializerInput(body);
      && (status == CREATED <==> UserWriteValid(w, old(db.users), None, isWord, isEmail))
      && (status != CREATED ==> status == BAD_REQUEST && db.users == old(db.users))
      && (status == CREATED ==> id !in old(db.users) && db.users == old(db.users)[id := Save(NewUserRow(w))])
    ensures status == CREATED ==> !db.users[id].isSuperuser && !db.users[id].isStaff
    ensures db.groups == old(db.groups) && db.messages == old(db.messages) && db.blacklist == old(db.blacklist)
  {
    var w := UserSerializerInput(body);
    if !UserWriteValid(w, db.users, None, isWord, isEmail) {
      return BAD_REQUEST, 0;
    }
    var r := db.InsertUser(Save(NewUserRow(w)));
    status, id := CREATED, r.value;
  }

  /** create_superuser (POST /superuser/): SuperUserSerializer saves the row
      with is_superuser and is_staff exactly as the client sent them (False
      when absent); the user manager's flag rules are not applied. */
  method CreateSuperuserView(db: Database, body: UserBody,
                             isWord: char -> bool, isEmail: string -> bool) returns (status: int, ghost id: UserId)
    requires db.Valid()
    modifies db
    ensures db.Valid()
    ensures var w := SuperUserSerializerInput(body);
      && (status == CREATED <==> UserWriteValid(w, old(db.users), None, isWord, isEmail))
      && (status != CREATED ==> status == BAD_REQUEST && db.users == old(db.users))
      && (status == CREATED ==> id !in old(db.users) && db.users == old(db.users)[id := Save(NewUserRow(w))])
    ensures status == CREATED ==> db.users[id].isSuperuser == (body.isSuperuser == Some(true))
    ensures status == CREATED ==> db.users[id].isStaff == (body.isStaff == Some(true))
    ensures db.groups == old(db.groups) && db.messages == old(db.messages) && db.blacklist == old(db.blacklist)
  {
    var w := SuperUserSerializerInput(body);
    if !UserWriteValid(w, db.users, None, isWord, isEmail) {
      return BAD_REQUEST, 0;
    }
    var r := db.InsertUser(Save(NewUserRow(w)));
    status, id := CREATED, r.value;
  }

  /** The user a PATCH body's "id" names, when it names one. */
  predicate NamesUser(id: Option<int>, users: map<UserId, User>)
  {
    id.Some? && id.value >= 0 && id.value in users
  }

  /** user_views PATCH: no check ties the target to the actor. A missing "id"
      or one naming no user raises inside the handler's try block and gives
      500 (not 404). Otherwise 205 when UserSerializer's partial validation
      passes, with the given fields written and the row saved, else 400. */
  method PatchUser(db: Database, actor: UserId, body: UserBody,
                   isWord: char -> bool, isEmail: string -> bool) returns (status: int)
    requires db.Valid() && actor in db.users
    modifies db
    ensures db.Valid()
    ensures !NamesUser(body.id, old(db.users)) ==> status == SERVER_ERROR
    ensures NamesUser(body.id, old(db.users)) ==>
              var t := body.id.value as UserId;
              var w := UserSerializerInput(body);
              && (status == RESET_CONTENT <==> UserWriteValid(w, old(db.users), Some(t), isWord, isEmail))
              && (status != RESET_CONTENT ==> status == BAD_REQUEST)
              && (status == RESET_CONTENT ==>
                    db.users == old(db.users)[t := Save(PatchedUserRow(old(db.users)[t], w))])
    ensures status != RESET_CONTENT ==> db.users == old(db.users)
    ensures status == RESET_CONTENT && body.password.None? ==>
              var t := body.id.value as UserId;
              forall raw :: CheckPassword(raw, old(db.users)[t].password) ==> CheckPassword(raw, db.users[t].password)
    ensures status == RESET_CONTENT && body.password.Some? ==>
              CheckPassword(body.password.value, db.users[body.id.value as UserId].password)
    ensures db.groups == old(db.groups) && db.messages == old(db.messages) && db.blacklist == old(db.blacklist)
  {
    if !NamesUser(body.id, db.users) {
      return SERVER_ERROR;
    }
    var t := body.id.value as UserId;
    var w := UserSerializerInput(body);
    if !UserWriteValid(w, db.users, Some(t), isWord, isEmail) {
      return BAD_REQUEST;
    }
    db.UpdateUser(t, Save(PatchedUserRow(db.users[t], w)));
    status := RESET_CONTENT;
  }

  /** user_views DELETE: any actor may delete any user. The query parameter
      "id" missing, not a number, or naming no user gives 500 and deletes
      nothing; otherwise the user is deleted with the delete rules applied. */
  method DeleteUserView(db: Database, actor: UserId, id: Option<int>) returns (status: int)
    requires db.Valid() && actor in db.users
    modifies db
    ensures db.Valid()
    ensures status == NO_CONTENT <==> NamesUser(id, old(db.users))
    ensures status != NO_CONTENT ==> status == SERVER_ERROR && db.Tables() == old(db.Tables())
    ensures status == NO_CONTENT ==> db.Tables() == DeleteUserRows(old(db.Tables()), id.value as UserId)
    ensures db.blacklist == old(db.blacklist)
  {
    if !NamesUser(id, db.users) {
      return SERVER_ERROR;
    }
    db.DeleteUser(id.value as UserId);
    status := NO_CONTENT;
  }

  datatype UsersResponse = UsersResponse(status: int, data: set<UserView>)

  /** get_users: one user's view (404 when absent), or the views of all users.
      A view carries username, email and id only. */
  function GetUsers(users: map<UserId, User>, userId: Option<UserId>): (r: UsersResponse)
    ensures userId.Some? && userId.value !in users ==> r == UsersResponse(NOT_FOUND, {})
    ensures userId.Some? && userId.value in users ==>
              r == UsersResponse(OK, {GetUserRepr(userId.value, users[userId.value])})
    ensures userId.None? ==>
              && r.status == OK
              && forall v :: v in r.data <==> v.id in users && v == GetUserRepr(v.id, users[v.id])
  {
    match userId
    case Some(id) =>
      if id in users then UsersResponse(OK, {GetUserRepr(id, users[id])}) else UsersResponse(NOT_FOUND, {})
    case None =>
      UsersResponse(OK, set u | u in users :: GetUserRepr(u, users[u]))
  }

  // ---------------------------------------------------------------------------
  // create_group, add_members

  /** create_group: 201 when GroupSerializer validates the body, and the new
      group's host is always the actor (the body's host is read-only); 400
      otherwise, with nothing stored. `now` stands for the clock; `gid` is the
      id the response data carries. */
  method CreateGroup(db: Database, actor: UserId, body: GroupBody, now: int)
    returns (status: int, gid: GroupId)
    requires db.Valid() && actor in db.users
    modifies db
    ensures db.Valid()
    ensures var d := GroupSerializerValidate(body, old(db.users));
      && (status == CREATED <==> d.Some?)
      && (status != CREATED ==> status == BAD_REQUEST && db.groups == old(db.groups))
      && (status == CREATED ==>
            && gid !in old(db.groups)
            && db.groups == old(db.groups)[gid :=
                 Group(Some(actor), d.value.name, d.value.description, InitialParticipants(d.value), now, now)])
    ensures db.users == old(db.users) && db.messages == old(db.messages) && db.blacklist == old(db.blacklist)
  {
    var d := GroupSerializerValidate(body, db.users);
    if d.None? {
      return BAD_REQUEST, 0;
    }
    gid := GroupSerializerCreate(db, d.value, actor, now);
    status := CREATED;
  }

  /** The host check of add_members: 404 for a missing group; 500 for a group
      whose host was deleted (reading the id of a null host raises outside
      any try block); 403 when the actor is not the host; 200 for the host. */
  function AddMembersStatus(groups: map<GroupId, Group>, groupId: GroupId, actor: UserId): (status: int)
    ensures status == NOT_FOUND <==> groupId !in groups
    ensures status == SERVER_ERROR <==> groupId in groups && groups[groupId].host.None?
    ensures status == FORBIDDEN <==> groupId in groups && groups[groupId].host.Some? &&
                                     groups[groupId].host.value != actor
    ensures status == OK <==> groupId in groups && groups[groupId].host == Some(actor)
  {
    if groupId !in groups then NOT_FOUND
    else if groups[groupId].host.None? then SERVER_ERROR
    else if groups[groupId].host.value != actor then FORBIDDEN
    else OK
  }

  /** Only one actor, the host, can ever pass the check; nobody can add
      members to a group whose host was deleted. */
  lemma AddMembersOnlyHost(groups: map<GroupId, Group>, groupId: GroupId, a: UserId, b: UserId)
    ensures AddMembersStatus(groups, groupId, a) == OK && AddMembersStatus(groups, groupId, b) == OK ==> a == b
    ensures groupId in groups && groups[groupId].host.None? ==> AddMembersStatus(groups, groupId, a) != OK
  {
  }

  /** User.objects.filter(id__in=ids): the ids of the list that name users;
      the others are dropped without an error. */
  function ExistingUsers(users: map<UserId, User>, ids: seq<int>): (r: set<UserId>)
    ensures r <= users.Keys
    ensures forall u :: u in r <==> u in users && u in ids
  {
    set u | u in users && u in ids
  }

  /** The group after group.participants.add(…) with the existing users among
      `ids`: participants grow by exactly those, nothing else changes. */
  function WithMembers(g: Group, users: map<UserId, User>, ids: seq<int>): (r: Group)
    ensures r.participants == g.participants + ExistingUsers(users, ids)
    ensures r.(participants := g.participants) == g
  {
    g.(participants := g.participants + ExistingUsers(users, ids))
  }

  /** Adding the same ids again changes nothing, and adding users who already
      participate changes nothing. */
  lemma WithMembersIdempotent(g: Group, users: map<UserId, User>, ids: seq<int>)
    ensures WithMembers(WithMembers(g, users, ids), users, ids) == WithMembers(g, users, ids)
    ensures ExistingUsers(users, ids) <= g.participants ==> WithMembers(g, users, ids) == g
  {
  }

  /** add_members: the decision of AddMembersStatus; on 200 the group gains
      the existing users among "user_ids" (absent: none), and every other
      group, user and message is unchanged. */
  method AddMembers(db: Database, actor: UserId, groupId: GroupId, userIds: Option<seq<int>>)
    returns (status: int)
    requires db.Valid() && actor in db.users
    modifies db
    ensures db.Valid()
    ensures status == AddMembersStatus(old(db.groups), groupId, actor)
    ensures status == OK ==>
              db.groups == old(db.groups)[groupId :=
                WithMembers(old(db.groups)[groupId], old(db.users), if userIds.Some? then userIds.value else [])]
    ensures status != OK ==> db.groups == old(db.groups)
    ensures db.users == old(db.users) && db.messages == old(db.messages) && db.blacklist == old(db.blacklist)
  {
    status := AddMembersStatus(db.groups, groupId, actor);
    if status != OK {
      return;
    }
    var ids := if userIds.Some? then userIds.value else [];
    db.AddParticipants(groupId, ExistingUsers(db.users, ids));
  }

  // ---------------------------------------------------------------------------
  // send_message, get_messages

  /** send_message: 404 for a missing group. Otherwise the body's "group" is
      overwritten with the URL's group id and MessageSerializer validates it;
      201 stores exactly one new message whose group is the URL's and whose
      sender is the actor, whatever the body says; 400 stores nothing. */
  method SendMessage(db: Database, actor: UserId, groupId: GroupId, body: MessageBody, now: int)
    returns (status: int, mid: MessageId)
    requires db.Valid() && actor in db.users
    modifies db
    ensures db.Valid()
    ensures groupId !in old(db.groups) ==> status == NOT_FOUND
    ensures groupId in old(db.groups) ==>
              var content := MessageSerializerValidate(body.(group := Some(groupId)), old(db.groups));
              && (status == CREATED <==> content.Some?)
              && (status != CREATED ==> status == BAD_REQUEST)
              && (status == CREATED ==>
                    && mid !in old(db.messages)
                    && db.messages == old(db.messages)[mid := Message(groupId, actor, content.value, now, now)])
    ensures status != CREATED ==> db.messages == old(db.messages)
    ensures db.users == old(db.users) && db.groups == old(db.groups) && db.blacklist == old(db.blacklist)
  {
    if groupId !in db.groups {
      return NOT_FOUND, 0;
    }
    var data := body.(group := Some(groupId));
    var content := MessageSerializerValidate(data, db.groups);
    if content.None? {
      return BAD_REQUEST, 0;
    }
    mid := db.InsertMessage(Message(groupId, actor, content.value, now, now));
    status := CREATED;
  }

  datatype MessagesResponse = MessagesResponse(status: int, data: set<MessageId>)

  /** get_messages: a truthy group id gives exactly that group's messages; when
      the group is absent the 404 of get_object_or_404 is caught by the
      handler's broad except and becomes 500. No group id, or group id 0, gives
      every message. Any authenticated actor may read any group's messages. */
  function GetMessages(groups: map<GroupId, Group>, messages: map<MessageId, Message>,
                       groupId: Option<GroupId>): (r: MessagesResponse)
    ensures groupId.None? || groupId == Some(0) ==> r == MessagesResponse(OK, messages.Keys)
    ensures groupId.Some? && groupId.value != 0 && groupId.value !in groups ==>
              r == MessagesResponse(SERVER_ERROR, {})
    ensures groupId.Some? && groupId.value != 0 && groupId.value in groups ==>
              r.status == OK &&
              forall m :: m in r.data <==> m in messages && messages[m].group == groupId.value
  {
    if groupId.None? || groupId.value == 0 then MessagesResponse(OK, messages.Keys)
    else if groupId.value !in groups then MessagesResponse(SERVER_ERROR, {})
    else MessagesResponse(OK, set m | m in messages && messages[m].group == groupId.value)
  }

  /** Each id of `s` names a message, no id occurs twice, and the messages come
      in the models' (-updated, -created) order. */
  ghost predicate InOrder(s: seq<MessageId>, messages: map<MessageId, Message>)
  {
    && (forall i :: 0 <= i < |s| ==> s[i] in messages)
    && (forall i, j :: 0 <= i < j < |s| ==> s[i] != s[j])
    && ListedInOrder(Stamps(s, messages))
  }

  /** The (updated, created) stamps of the listed messages. */
  function Stamps(s: seq<MessageId>, messages: map<MessageId, Message>): (r: seq<Stamp>)
    requires forall i :: 0 <= i < |s| ==> s[i] in messages
    ensures |r| == |s| && forall i :: 0 <= i < |s| ==> r[i] == MessageStamp(messages[s[i]])
  {
    seq(|s|, i requires 0 <= i < |s| => MessageStamp(messages[s[i]]))
  }

  /** `s` lists exactly the messages `selected`, each once, in the models' order. */
  ghost predicate IsListing(s: seq<MessageId>, messages: map<MessageId, Message>, selected: set<MessageId>)
  {
    InOrder(s, messages) && forall m :: m in s <==> m in selected
  }

  /** The ids of `s` whose message belongs to group `g`, in the order of `s`. */
  function OfGroup(s: seq<MessageId>, messages: map<MessageId, Message>, g: GroupId): (r: seq<MessageId>)
    ensures forall m :: m in r <==> m in s && m in messages && messages[m].group == g
  {
    if s == [] then []
    else (if s[0] in messages && messages[s[0]].group == g then [s[0]] else []) + OfGroup(s[1..], messages, g)
  }

  /** The first message of a listing is newer than every later one. */
  lemma InOrderHead(s: seq<MessageId>, messages: map<MessageId, Message>)
    requires InOrder(s, messages) && s != []
    ensures InOrder(s[1..], messages)
    ensures forall m :: m in s[1..] ==> m != s[0] && NewerFirst(MessageStamp(messages[s[0]]), MessageStamp(messages[m]))
  {
    var t := s[1..];
    forall i, j | 0 <= i < j < |t|
      ensures t[i] != t[j] && NewerFirst(MessageStamp(messages[t[i]]), MessageStamp(messages[t[j]]))
    {
      assert t[i] == s[i + 1] && t[j] == s[j + 1];
    }
    forall m | m in t
      ensures m != s[0] && NewerFirst(MessageStamp(messages[s[0]]), MessageStamp(messages[m]))
    {
      var k :| 0 <= k < |t| && t[k] == m;
      assert s[k + 1] == m;
    }
  }

  /** A message newer than every message of a listing may be put in front of it. */
  lemma InOrderCons(x: MessageId, r: seq<MessageId>, messages: map<MessageId, Message>)
    requires InOrder(r, messages) && x in messages
    requires forall m :: m in r ==> m != x && NewerFirst(MessageStamp(messages[x]), MessageStamp(messages[m]))
    ensures InOrder([x] + r, messages)
  {
    var xr := [x] + r;
    forall i, j | 0 <= i < j < |xr|
      ensures xr[i] != xr[j] && NewerFirst(MessageStamp(messages[xr[i]]), MessageStamp(messages[xr[j]]))
    {
      assert xr[j] == r[j - 1];
      if i > 0 {
        assert xr[i] == r[i - 1];
      }
    }
  }

  /** Keeping the ids of one group keeps a listing in order. */
  lemma {:induction false} OfGroupInOrder(s: seq<MessageId>, messages: map<MessageId, Message>, g: GroupId)
    requires InOrder(s, messages)
    ensures InOrder(OfGroup(s, messages, g), messages)
  {
    if s != [] {
      InOrderHead(s, messages);
      OfGroupInOrder(s[1..], messages, g);
      var r := OfGroup(s[1..], messages, g);
      assert OfGroup(s, messages, g) == (if messages[s[0]].group == g then [s[0]] + r else r);
      if messages[s[0]].group == g {
        InOrderCons(s[0], r, messages);
      }
    }
  }

  /** The listing get_messages gives for a group is the listing of all messages
      with the other groups' messages taken out. */
  lemma GroupListingIsSubListing(groups: map<GroupId, Group>, messages: map<MessageId, Message>,
                                 g: GroupId, s: seq<MessageId>)
    requires g != 0 && g in groups
    requires IsListing(s, messages, GetMessages(groups, messages, None).data)
    ensures IsListing(OfGroup(s, messages, g), messages, GetMessages(groups, messages, Some(g)).data)
  {
    OfGroupInOrder(s, messages, g);
  }

  /** The messages of a group are part of the listing of all messages. */
  lemma GroupMessagesAreMessages(groups: map<GroupId, Group>, messages: map<MessageId, Message>, g: GroupId)
    ensures GetMessages(groups, messages, Some(g)).data <= GetMessages(groups, messages, None).data
  {
  }

  // ---------------------------------------------------------------------------
  // logout

  /** The "refresh_token" of a logout body: absent, not a token the service
      accepts (bad signature, expired, malformed), or a decoded token. */
  datatype TokenArg = Absent | Undecodable | Decoded(token: Token)

  /** RefreshToken(t) accepts `t`: a refresh token that is not blacklisted.
      The refresh endpoint asks the same. */
  predicate RefreshAccepted(blacklist: set<Token>, t: Token)
  {
    t.kind == Refresh && t !in blacklist
  }

  /** logout: 205 and the token is blacklisted when it is an accepted refresh
      token, whoever it was issued to; 400 otherwise, with nothing changed. A
      blacklisted token is never accepted again. */
  method Logout(db: Database, actor: UserId, arg: TokenArg) returns (status: int)
    requires db.Valid() && actor in db.users
    modifies db
    ensures db.Valid()
    ensures status == RESET_CONTENT <==> arg.Decoded? && RefreshAccepted(old(db.blacklist), arg.token)
    ensures status != RESET_CONTENT ==> status == BAD_REQUEST && db.blacklist == old(db.blacklist)
    ensures status == RESET_CONTENT ==>
              db.blacklist == old(db.blacklist) + {arg.token} && !RefreshAccepted(db.blacklist, arg.token)
    ensures db.Tables() == old(db.Tables())
  {
    if arg.Absent? || arg.Undecodable? || !RefreshAccepted(db.blacklist, arg.token) {
      return BAD_REQUEST;
    }
    db.Blacklist(arg.token);
    status := RESET_CONTENT;
  }

  // ---------------------------------------------------------------------------

  /** A host creates a group; another user is refused when adding members; the
      host adds that user together with an id naming nobody, and the group ends
      up with exactly that user. */
  method HostScenario()
  {
    var db := new Database();
    var ra := db.InsertUser(User(Some("a@example.org"), "a", Hashed(Plain("pa")), false, false, true));
    var rb := db.InsertUser(User(Some("b@example.org"), "b", Hashed(Plain("pb")), false, false, true));
    var a, b := ra.value, rb.value;
    var body := GroupBody(None, Some(b), Some("G"), None, None, None, None);
    var status, gid := CreateGroup(db, a, body, 0);
    assert status == CREATED && db.groups[gid].host == Some(a) && db.groups[gid].participants == {};
    status := AddMembers(db, b, gid, Some([b]));
    assert status == FORBIDDEN && db.groups[gid].participants == {};
    var nobody := a + b + 1;
    status := AddMembers(db, a, gid, Some([b, nobody]));
    assert status == OK && db.groups[gid].participants == {b};
  }
}
