/** The serializers: which fields of a request body each one accepts, which it
    treats as read-only, how it validates them, what it writes to the store,
    and what it shows of a user. */
module Serializers {
  import opened Models
  import opened Store

  // ---------------------------------------------------------------------------
  // Users

  /** A JSON body sent to the user endpoints, as the client wrote it: any key
      may be absent, and a client may send role flags or an id. */
  datatype UserBody = UserBody(
    id: Option<int>,
    username: Option<string>,
    email: Option<string>,
    password: Option<string>,
    isSuperuser: Option<bool>,
    isStaff: Option<bool>)

  /** The fields a user serializer keeps from a body. */
  datatype UserWrite = UserWrite(
    username: Option<string>,
    email: Option<string>,
    password: Option<string>,
    isSuperuser: Option<bool>,
    isStaff: Option<bool>)

  /** UserSerializer (registration and PATCH) declares username, email and
      password only: role flags and anything else in the body are dropped. */
  function UserSerializerInput(b: UserBody): (w: UserWrite)
    ensures w.username == b.username && w.email == b.email && w.password == b.password
    ensures w.isSuperuser.None? && w.isStaff.None?
  {
    UserWrite(b.username, b.email, b.password, None, None)
  }

  /** SuperUserSerializer also declares is_superuser and is_staff: the client's
      values are kept. */
  function SuperUserSerializerInput(b: UserBody): (w: UserWrite)
    ensures w.username == b.username && w.email == b.email && w.password == b.password
    ensures w.isSuperuser == b.isSuperuser && w.isStaff == b.isStaff
  {
    UserWrite(b.username, b.email, b.password, b.isSuperuser, b.isStaff)
  }

  /** Role flags in the body never reach what UserSerializer writes. */
  lemma UserSerializerIgnoresFlags(b: UserBody, superuser: Option<bool>, staff: Option<bool>)
    ensures UserSerializerInput(b.(isSuperuser := superuser, isStaff := staff)) == UserSerializerInput(b)
  {
  }

  const MaxEmailLength: nat := 320
  /** max_length of the password column of Django's user model. */
  const MaxPasswordLength: nat := 128

  /** An email the EmailField accepts: non-empty, a well-formed address
      (`isEmail`), at most 320 characters, and not held by a user other than
      the one being updated (UniqueValidator). */
  predicate EmailAcceptable(e: string, users: map<UserId, User>, target: Option<UserId>,
                            isEmail: string -> bool)
  {
    e != "" && isEmail(e) && |e| <= MaxEmailLength && !EmailTaken(users, e, target)
  }

  /** is_valid() of a user serializer. On creation (`target` is None) username
      and password are required; on a partial update of user `target` an absent
      field is simply left alone. Email is optional (the column is nullable). */
  predicate UserWriteValid(w: UserWrite, users: map<UserId, User>, target: Option<UserId>,
                           isWord: char -> bool, isEmail: string -> bool): (ok: bool)
    ensures ok && target.None? ==> w.username.Some? && w.password.Some?
    ensures ok && w.username.Some? ==> 0 < |w.username.value| <= MaxUsernameLength
    ensures ok && w.email.Some? ==>
              && w.email.value != "" && |w.email.value| <= MaxEmailLength
              && forall v :: v in users && target != Some(v) ==> users[v].email != w.email
    ensures ok && w.password.Some? ==> 0 < |w.password.value| <= MaxPasswordLength
  {
    && (if w.username.Some? then ValidUsername(w.username.value, isWord) else target.Some?)
    && (w.email.Some? ==> EmailAcceptable(w.email.value, users, target, isEmail))
    && (if w.password.Some? then 0 < |w.password.value| <= MaxPasswordLength else target.Some?)
  }

  /** The row ModelSerializer.create builds from valid fields: absent flags take
      the model defaults (is_staff=False, is_superuser=False, is_active=True);
      the password is still raw until the row is saved. */
  function NewUserRow(w: UserWrite): (u: User)
    requires w.username.Some? && w.password.Some?
    ensures u.username == w.username.value && u.email == w.email
    ensures u.password == Plain(w.password.value)
    ensures u.isSuperuser == (w.isSuperuser == Some(true)) && u.isStaff == (w.isStaff == Some(true))
    ensures u.isActive
  {
    User(w.email, w.username.value, Plain(w.password.value),
         w.isStaff == Some(true), w.isSuperuser == Some(true), true)
  }

  /** The row ModelSerializer.update builds: the given fields replace the old
      ones, a given password replaces the column with the raw value, and
      everything else, role flags included, is kept. */
  function PatchedUserRow(u: User, w: UserWrite): (r: User)
    ensures r.username == (if w.username.Some? then w.username.value else u.username)
    ensures r.email == (if w.email.Some? then w.email else u.email)
    ensures r.password == (if w.password.Some? then Plain(w.password.value) else u.password)
    ensures r.isStaff == u.isStaff && r.isSuperuser == u.isSuperuser && r.isActive == u.isActive
  {
    u.(username := if w.username.Some? then w.username.value else u.username,
       email := if w.email.Some? then w.email else u.email,
       password := if w.password.Some? then Plain(w.password.value) else u.password)
  }

  /** What GetUserSerializer shows of a user: username, email and id. */
  datatype UserView = UserView(username: string, email: Option<string>, id: UserId)

  function GetUserRepr(id: UserId, u: User): (v: UserView)
    ensures v.id == id && v.username == u.username && v.email == u.email
  {
    UserView(u.username, u.email, id)
  }

  /** The view of a user depends on no password and no role flag. */
  lemma GetUserReprHidesSecrets(id: UserId, u: User, p: Secret, staff: bool, superuser: bool, active: bool)
    ensures GetUserRepr(id, u) == GetUserRepr(id, u.(password := p, isStaff := staff,
                                                     isSuperuser := superuser, isActive := active))
  {
  }

  // ---------------------------------------------------------------------------
  // Groups

  /** A JSON body sent to create a group. */
  datatype GroupBody = GroupBody(
    id: Option<int>,
    host: Option<int>,
    name: Option<string>,
    description: Option<string>,
    participants: Option<seq<int>>,
    updated: Option<int>,
    created: Option<int>)

  /** validated_data of GroupSerializer: id, host, updated and created are
      read-only and never part of it. */
  datatype GroupData = GroupData(
    name: string,
    description: Option<string>,
    participants: Option<seq<UserId>>)

  const MaxGroupNameLength: nat := 255

  /** The participants list names only existing users (PrimaryKeyRelatedField). */
  predicate AllUsersExist(ids: seq<int>, users: map<UserId, User>)
  {
    forall i :: 0 <= i < |ids| ==> ids[i] >= 0 && ids[i] in users
  }

  /** GroupSerializer.is_valid(): a non-empty name of at most 255 characters, an
      optional description, and participants that all exist. */
  function GroupSerializerValidate(b: GroupBody, users: map<UserId, User>): (r: Option<GroupData>)
    ensures r.Some? <==>
              && b.name.Some? && 0 < |b.name.value| <= MaxGroupNameLength
              && (b.participants.Some? ==> AllUsersExist(b.participants.value, users))
    ensures r.Some? ==> r.value.name == b.name.value && r.value.description == b.description
    ensures r.Some? ==> (r.value.participants.Some? <==> b.participants.Some?)
    ensures r.Some? && b.participants.Some? ==>
              && |r.value.participants.value| == |b.participants.value|
              && forall k :: 0 <= k < |b.participants.value| ==>
                   r.value.participants.value[k] == b.participants.value[k]
    ensures r.Some? && r.value.participants.Some? ==>
              forall i :: i in r.value.participants.value ==> i in users
  {
    if b.name.None? || !(0 < |b.name.value| <= MaxGroupNameLength) then None
    else if b.participants.Some? && !AllUsersExist(b.participants.value, users) then None
    else
      var ps: Option<seq<UserId>> :=
        if b.participants.Some? then Some(seq(|b.participants.value|, i requires 0 <= i < |b.participants.value| => b.participants.value[i] as nat))
        else None;
      Some(GroupData(b.name.value, b.description, ps))
  }

  /** Client values for the read-only fields change nothing in validation. */
  lemma GroupReadOnlyFieldsIgnored(b: GroupBody, users: map<UserId, User>,
                                   id: Option<int>, host: Option<int>, updated: Option<int>, created: Option<int>)
    ensures GroupSerializerValidate(b.(id := id, host := host, updated := updated, created := created), users)
            == GroupSerializerValidate(b, users)
  {
  }

  /** The participant set a new group gets: the supplied ids, or none. */
  function InitialParticipants(d: GroupData): (s: set<UserId>)
    ensures d.participants.Some? ==> forall i :: i in s <==> i in d.participants.value
    ensures d.participants.None? ==> s == {}
  {
    if d.participants.Some? then set i | i in d.participants.value else {}
  }

  /** GroupSerializer.create: pop participants (default none) from the
      validated data, create the group row with the remaining fields and the
      host the view passes in, then set its participants. */
  method GroupSerializerCreate(db: Database, data: GroupData, host: UserId, now: int)
    returns (gid: GroupId)
    requires db.Valid() && host in db.users
    requires data.participants.Some? ==> forall i :: i in data.participants.value ==> i in db.users
    modifies db
    ensures db.Valid()
    ensures gid !in old(db.groups)
    ensures db.groups == old(db.groups)[gid :=
              Group(Some(host), data.name, data.description, InitialParticipants(data), now, now)]
    ensures db.users == old(db.users) && db.messages == old(db.messages) && db.blacklist == old(db.blacklist)
  {
    var validated := data;
    var participants: seq<UserId> := if validated.participants.Some? then validated.participants.value else [];
    validated := validated.(participants := None);
    gid := db.InsertGroup(Some(host), validated.name, validated.description, now);
    var ids := set i | i in participants;
    assert ids == InitialParticipants(data);
    db.SetParticipants(gid, ids);
  }

  // ---------------------------------------------------------------------------
  // Messages

  /** A JSON body sent to post a message. */
  datatype MessageBody = MessageBody(
    group: Option<int>,
    sender: Option<int>,
    content: Option<string>)

  /** MessageSerializer.is_valid(): `group` must name an existing group and
      `content` must be present and non-empty; `sender` is read-only and never
      read. The result is the validated content. */
  function MessageSerializerValidate(b: MessageBody, groups: map<GroupId, Group>): (r: Option<string>)
    ensures r.Some? <==> b.group.Some? && b.group.value >= 0 && b.group.value in groups &&
                         b.content.Some? && b.content.value != ""
    ensures r.Some? ==> r.value == b.content.value
  {
    if b.group.Some? && b.group.value >= 0 && b.group.value in groups &&
       b.content.Some? && b.content.value != ""
    then Some(b.content.value)
    else None
  }

  /** A client-supplied sender changes nothing in validation. */
  lemma MessageSenderReadOnly(b: MessageBody, groups: map<GroupId, Group>, sender: Option<int>)
    ensures MessageSerializerValidate(b.(sender := sender), groups) == MessageSerializerValidate(b, groups)
  {
  }
}
