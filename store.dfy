/** The persistent store the views work on: the user, group and message tables,
    the token blacklist, and the primary-key sequences. The user manager's
    create_user and create_superuser and the foreign-key delete rules act on it. */
module Store {
  import opened Models

  datatype TokenKind = Refresh | Access

  /** A JSON Web Token as the model sees it: its type claim, the id of the user
      it was issued for, and its unique id (jti). Signing and expiry are not
      modelled. */
  datatype Token = Token(kind: TokenKind, user: UserId, jti: nat)

  class Database {
    var users: map<UserId, User>
    var groups: map<GroupId, Group>
    var messages: map<MessageId, Message>
    /** Refresh tokens that were blacklisted (logged out). */
    var blacklist: set<Token>
    /** Next value of each table's primary-key sequence; keys are never reused. */
    var nextUser: nat
    var nextGroup: nat
    var nextMessage: nat

    function Tables(): Tables
      reads this
    {
      Models.Tables(users, groups, messages)
    }

    /** The foreign keys hold, emails are unique, every key was drawn from its sequence. */
    ghost predicate Valid()
      reads this
    {
      && Consistent(Tables())
      && EmailsUnique(users)
      && (forall u :: u in users ==> u < nextUser)
      && (forall g :: g in groups ==> g < nextGroup)
      && (forall m :: m in messages ==> m < nextMessage)
    }

    constructor ()
      ensures Valid()
      ensures users == map[] && groups == map[] && messages == map[] && blacklist == {}
    {
      users, groups, messages, blacklist := map[], map[], map[], {};
      nextUser, nextGroup, nextMessage := 1, 1, 1;
    }

    /** Saving a new user row: refused (IntegrityError) when another row holds
        the same email, otherwise stored under the next key. */
    method InsertUser(u: User) returns (r: Result<UserId>)
      requires Valid()
      modifies this
      ensures Valid()
      ensures r.Err? <==> u.email.Some? && EmailTaken(old(users), u.email.value, None)
      ensures r.Err? ==> r.error == DuplicateEmail && users == old(users)
      ensures r.Ok? ==> r.value !in old(users) && users == old(users)[r.value := u]
      ensures groups == old(groups) && messages == old(messages) && blacklist == old(blacklist)
    {
      if u.email.Some? && EmailTaken(users, u.email.value, None) {
        return Err(DuplicateEmail);
      }
      var id := nextUser;
      users := users[id := u];
      nextUser := nextUser + 1;
      r := Ok(id);
    }

    /** CustomUserManager.create_user: an empty or missing email is refused;
        the email is normalized, the row is built from the keyword arguments,
        set_password hashes `password`, and the row is saved (corrected save).
        Nothing is stored on any failure. */
    method CreateUser(email: Option<string>, password: Secret, extra: ExtraFields,
                      normalize: string -> string) returns (r: Result<UserId>)
      requires Valid()
      modifies this
      ensures Valid()
      ensures email.None? || email == Some("") ==> r == Err(EmailRequired)
      ensures r.Ok? <==> && email.Some? && email.value != ""
                         && UserRecord(normalize(email.value), extra).Ok?
                         && !EmailTaken(old(users), normalize(email.value), None)
      ensures email.Some? && email.value != "" && UserRecord(normalize(email.value), extra).Err? ==>
                r == Err(UserRecord(normalize(email.value), extra).error)
      ensures (&& email.Some? && email.value != "" && UserRecord(normalize(email.value), extra).Ok?
               && EmailTaken(old(users), normalize(email.value), None)) ==> r == Err(DuplicateEmail)
      ensures r.Err? ==> users == old(users)
      ensures r.Ok? ==> email.Some? && email.value != "" &&
                        UserRecord(normalize(email.value), extra).Ok? &&
                        r.value !in old(users) &&
                        users == old(users)[r.value :=
                          UserRecord(normalize(email.value), extra).value.(password := MakePassword(password))]
      ensures r.Ok? && password.Plain? ==> CheckPassword(password.text, users[r.value].password)
      ensures groups == old(groups) && messages == old(messages) && blacklist == old(blacklist)
    {
      if email.None? || email.value == "" {
        return Err(EmailRequired);
      }
      var record := UserRecord(normalize(email.value), extra);
      if record.Err? {
        return Err(record.error);
      }
      var u := record.value.(password := MakePassword(password));
      r := InsertUser(Save(u));
    }

    /** CustomUserManager.create_superuser, with the raw password handed to
        create_user (the source hands it make_password(password)): the flag
        rules of SuperuserFields, then create_user. */
    method CreateSuperuser(email: Option<string>, password: string, extra: ExtraFields,
                           normalize: string -> string) returns (r: Result<UserId>)
      requires Valid()
      modifies this
      ensures Valid()
      ensures !AbsentOrTrue(extra, "is_staff") ==> r == Err(StaffRequired)
      ensures AbsentOrTrue(extra, "is_staff") && !AbsentOrTrue(extra, "is_superuser") ==>
                r == Err(SuperuserRequired)
      ensures r.Ok? <==> && SuperuserFieldsSpec(extra).Ok?
                         && email.Some? && email.value != ""
                         && UserRecord(normalize(email.value), SuperuserFieldsSpec(extra).value).Ok?
                         && !EmailTaken(old(users), normalize(email.value), None)
      ensures SuperuserFieldsSpec(extra).Ok? && (email.None? || email == Some("")) ==> r == Err(EmailRequired)
      ensures SuperuserFieldsSpec(extra).Ok? && email.Some? && email.value != "" ==>
                var record := UserRecord(normalize(email.value), SuperuserFieldsSpec(extra).value);
                && (record.Err? ==> r == Err(record.error))
                && (record.Ok? && EmailTaken(old(users), normalize(email.value), None) ==> r == Err(DuplicateEmail))
      ensures r.Err? ==> users == old(users)
      ensures r.Ok? ==> r.value !in old(users) &&
                        users == old(users)[r.value :=
                          UserRecord(normalize(email.value), SuperuserFieldsSpec(extra).value).value
                            .(password := MakePassword(Plain(password)))]
      ensures r.Ok? ==> var s := users[r.value];
                        s.isStaff && s.isSuperuser && CheckPassword(password, s.password) &&
                        s.isActive == ("is_active" !in extra || BooleanValue(extra["is_active"]) == Some(true))
      ensures groups == old(groups) && messages == old(messages) && blacklist == old(blacklist)
    {
      var fields := SuperuserFields(extra);
      if fields.Err? {
        return Err(fields.error);
      }
      r := CreateUser(email, Plain(password), fields.value, normalize);
    }

    /** Deleting a user row with its delete rules applied (DeleteUserRows). */
    method DeleteUser(uid: UserId)
      requires Valid()
      modifies this
      ensures Valid()
      ensures Tables() == DeleteUserRows(old(Tables()), uid)
      ensures blacklist == old(blacklist)
    {
      DeleteUserCascade(Tables(), uid);
      var t := DeleteUserRows(Tables(), uid);
      users, groups, messages := t.users, t.groups, t.messages;
    }

    /** Deleting a group row with its delete rule applied (DeleteGroupRows). */
    method DeleteGroup(gid: GroupId)
      requires Valid()
      modifies this
      ensures Valid()
      ensures Tables() == DeleteGroupRows(old(Tables()), gid)
      ensures blacklist == old(blacklist)
    {
      DeleteGroupCascade(Tables(), gid);
      var t := DeleteGroupRows(Tables(), gid);
      users, groups, messages := t.users, t.groups, t.messages;
    }
    /** Saving an existing user row (an UPDATE); the serializer has already
        checked that the new email, if any, is not held by another user. */
    method UpdateUser(uid: UserId, u: User)
      requires Valid() && uid in users
      requires u.email.Some? ==> !EmailTaken(users, u.email.value, Some(uid))
      modifies this
      ensures Valid()
      ensures users == old(users)[uid := u]
      ensures groups == old(groups) && messages == old(messages) && blacklist == old(blacklist)
    {
      users := users[uid := u];
    }

    /** Group.objects.create: a new group row, with no participants yet. */
    method InsertGroup(host: Option<UserId>, name: string, description: Option<string>, now: int)
      returns (gid: GroupId)
      requires Valid() && (host.Some? ==> host.value in users)
      modifies this
      ensures Valid()
      ensures gid !in old(groups)
      ensures groups == old(groups)[gid := Group(host, name, description, {}, now, now)]
      ensures users == old(users) && messages == old(messages) && blacklist == old(blacklist)
    {
      gid := nextGroup;
      groups := groups[gid := Group(host, name, description, {}, now, now)];
      nextGroup := nextGroup + 1;
    }

    /** group.participants.set(ids): the participant links become exactly `ids`.
        Changing links does not save the group row, so `updated` is kept. */
    method SetParticipants(gid: GroupId, ids: set<UserId>)
      requires Valid() && gid in groups && ids <= users.Keys
      modifies this
      ensures Valid()
      ensures groups == old(groups)[gid := old(groups)[gid].(participants := ids)]
      ensures users == old(users) && messages == old(messages) && blacklist == old(blacklist)
    {
      groups := groups[gid := groups[gid].(participants := ids)];
    }

    /** group.participants.add(*ids): links are added, existing ones kept. */
    method AddParticipants(gid: GroupId, ids: set<UserId>)
      requires Valid() && gid in groups && ids <= users.Keys
      modifies this
      ensures Valid()
      ensures groups == old(groups)[gid := old(groups)[gid].(participants := old(groups)[gid].participants + ids)]
      ensures users == old(users) && messages == old(messages) && blacklist == old(blacklist)
    {
      groups := groups[gid := groups[gid].(participants := groups[gid].participants + ids)];
    }

    /** Saving a new message row. */
    method InsertMessage(m: Message) returns (mid: MessageId)
      requires Valid() && m.group in groups && m.sender in users
      modifies this
      ensures Valid()
      ensures mid !in old(messages) && messages == old(messages)[mid := m]
      ensures users == old(users) && groups == old(groups) && blacklist == old(blacklist)
    {
      mid := nextMessage;
      messages := messages[mid := m];
      nextMessage := nextMessage + 1;
    }

    /** token.blacklist(): a row in the blacklist table for this token. */
    method Blacklist(t: Token)
      requires Valid()
      modifies this
      ensures Valid()
      ensures blacklist == old(blacklist) + {t}
      ensures Tables() == old(Tables())
    {
      blacklist := blacklist + {t};
    }
  }
}
