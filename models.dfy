/** The entities of the chat backend and the rules its model layer declares:
    password hashing on save, the username validator, the superuser flag rules of
    the user manager, the foreign-key delete rules, the listing order of groups and
    messages, and the string form of a message. */
module Models {

  datatype Option<+T> = None | Some(value: T)

  /** Why a model-level operation refused to build or store a row. */
  datatype Error =
    | EmailRequired          // create_user: "The Email must be set"
    | StaffRequired          // create_superuser: "Superuser must have is_staff=True."
    | SuperuserRequired      // create_superuser: "Superuser must have is_superuser=True."
    | UnexpectedField        // a keyword argument the User model does not take
    | InvalidValue(name: string)      // a value the field cannot convert when saved
    | DuplicateEmail         // the unique constraint on User.email

  datatype Result<+T> = Ok(value: T) | Err(error: Error)

  /** Primary keys of the three tables (auto-incremented integers). */
  type UserId = nat
  type GroupId = nat
  type MessageId = nat

  // ---------------------------------------------------------------------------
  // Passwords

  /** The value of a password column: a raw password, or the encoding that
      make_password produced from some earlier value. The hash is a free
      constructor: it is injective and never equal to a raw password. */
  datatype Secret = Plain(text: string) | Hashed(of: Secret)

  /** make_password (and set_password) applied to whatever value it is given. */
  function MakePassword(s: Secret): (h: Secret)
    ensures forall raw :: CheckPassword(raw, h) <==> s == Plain(raw)
  {
    Hashed(s)
  }

  /** check_password: the raw password matches the stored encoding. */
  predicate CheckPassword(raw: string, stored: Secret)
  {
    stored == Hashed(Plain(raw))
  }

  // ---------------------------------------------------------------------------
  // Rows

  /** A row of the user table. `email` is nullable; username need not be unique. */
  datatype User = User(
    email: Option<string>,
    username: string,
    password: Secret,
    isStaff: bool,
    isSuperuser: bool,
    isActive: bool)

  /** A chat group. `host` becomes None when the hosting user is deleted. */
  datatype Group = Group(
    host: Option<UserId>,
    name: string,
    description: Option<string>,
    participants: set<UserId>,
    updated: int,
    created: int)

  /** A message, owned by one group and one sender. */
  datatype Message = Message(
    group: GroupId,
    sender: UserId,
    content: string,
    updated: int,
    created: int)

  /** Some user other than `except` already holds email `e`. */
  predicate EmailTaken(users: map<UserId, User>, e: string, except: Option<UserId>)
  {
    exists v :: v in users && users[v].email == Some(e) && except != Some(v)
  }

  /** The unique constraint on User.email (NULL emails do not collide). */
  ghost predicate EmailsUnique(users: map<UserId, User>)
  {
    forall u, v :: u in users && v in users && u != v && users[u].email.Some? ==>
      users[u].email != users[v].email
  }

  // ---------------------------------------------------------------------------
  // User.save

  /** User.save as written: the password column is passed through make_password
      on every save, whether it holds a raw password or an earlier hash. */
  function SaveAsWritten(u: User): (r: User)
    ensures forall raw :: CheckPassword(raw, r.password) <==> u.password == Plain(raw)
    ensures r.(password := u.password) == u
  {
    u.(password := MakePassword(u.password))
  }

  /** Once a row holding a working hash goes through SaveAsWritten, the
      password that worked no longer matches. In this model no raw password
      matches at all, because an earlier encoding cannot be sent back as a
      password; the text of that encoding is the one string that would. */
  lemma SaveAsWrittenLocksOut(u: User, raw: string, attempt: string)
    requires CheckPassword(raw, u.password)
    ensures !CheckPassword(raw, SaveAsWritten(u).password)
    ensures !CheckPassword(attempt, SaveAsWritten(u).password)
    ensures SaveAsWritten(u).(password := u.password) == u
  {
  }

  /** User.save as evidently intended: a raw password is hashed once, a column
      that already holds a hash is stored as it is; nothing else changes. */
  function Save(u: User): (r: User)
    ensures r.password.Hashed?
    ensures u.password.Plain? ==> CheckPassword(u.password.text, r.password)
    ensures forall raw :: CheckPassword(raw, u.password) ==> CheckPassword(raw, r.password)
    ensures r.(password := u.password) == u
  {
    if u.password.Plain? then u.(password := MakePassword(u.password)) else u
  }

  /** Saving twice is saving once: a later save keeps every password working. */
  lemma SaveIdempotent(u: User)
    ensures Save(Save(u)) == Save(u)
  {
  }

  // ---------------------------------------------------------------------------
  // Username validator: regex ^[\w.@+\- ]+$ and max_length 64

  const MaxUsernameLength: nat := 64

  /** One character of the class [\w.@+\- ]; `isWord` stands for \w. */
  predicate InUsernameClass(c: char, isWord: char -> bool)
  {
    isWord(c) || c == '.' || c == '@' || c == '+' || c == '-' || c == ' '
  }

  predicate AllInUsernameClass(s: string, isWord: char -> bool)
  {
    forall i :: 0 <= i < |s| ==> InUsernameClass(s[i], isWord)
  }

  /** The regex as written, under Python's re.search: `$` matches at the end of
      the string and also just before a final newline. */
  predicate UsernameRegexAsWritten(s: string, isWord: char -> bool)
  {
    || (|s| > 0 && AllInUsernameClass(s, isWord))
    || (|s| > 1 && s[|s| - 1] == '\n' && AllInUsernameClass(s[..|s| - 1], isWord))
  }

  /** The validator as written: the regex above plus the 64-character limit. */
  predicate ValidUsernameAsWritten(s: string, isWord: char -> bool)
  {
    UsernameRegexAsWritten(s, isWord) && |s| <= MaxUsernameLength
  }

  /** The validator as intended (the regex anchored with \Z, as Django's own
      username validator is): non-empty, at most 64 characters, every
      character a word character or one of . @ + - and space. */
  predicate ValidUsername(s: string, isWord: char -> bool)
  {
    0 < |s| <= MaxUsernameLength && AllInUsernameClass(s, isWord)
  }

  /** The regex as written accepts a valid name followed by a newline, which is
      not itself a valid name (\w never matches a newline). */
  lemma UsernameAsWrittenAcceptsNewline(s: string, isWord: char -> bool)
    requires !isWord('\n')
    requires ValidUsername(s, isWord) && |s| < MaxUsernameLength
    ensures ValidUsernameAsWritten(s + "\n", isWord)
    ensures !ValidUsername(s + "\n", isWord)
  {
    var t := s + "\n";
    assert t[..|t| - 1] == s;
    assert !InUsernameClass(t[|t| - 1], isWord);
  }

  /** The corrected validator accepts exactly what the one as written accepts,
      except names ending in a newline. */
  lemma ValidUsernameAgrees(s: string, isWord: char -> bool)
    requires !isWord('\n')
    ensures ValidUsername(s, isWord) <==>
              ValidUsernameAsWritten(s, isWord) && (|s| == 0 || s[|s| - 1] != '\n')
  {
    if |s| > 0 && s[|s| - 1] == '\n' {
      assert !InUsernameClass(s[|s| - 1], isWord);
    }
  }

  // ---------------------------------------------------------------------------
  // Superuser flag rules of CustomUserManager

  /** A keyword argument's value. Python's `x is True` holds only of Bool(true). */
  datatype FieldValue = Bool(b: bool) | Int(i: int) | Str(s: string)

  /** The **extra_fields of create_user and create_superuser. */
  type ExtraFields = map<string, FieldValue>

  /** dict.setdefault: keep the caller's value, or insert the default. */
  function SetDefault(m: ExtraFields, key: string, v: FieldValue): (r: ExtraFields)
    ensures key in r && r[key] == (if key in m then m[key] else v)
    ensures r.Keys == m.Keys + {key}
    ensures forall k :: k in m && k != key ==> r[k] == m[k]
  {
    if key in m then m else m[key := v]
  }

  /** The flag is absent or supplied as exactly True. */
  predicate AbsentOrTrue(m: ExtraFields, key: string)
  {
    key !in m || m[key] == Bool(true)
  }

  /** The keyword arguments create_superuser hands to create_user: is_staff,
      is_superuser and is_active default to True; a supplied is_staff or
      is_superuser that is not True is refused, is_staff first; is_active is
      only defaulted, never checked. */
  method SuperuserFields(extra: ExtraFields) returns (r: Result<ExtraFields>)
    ensures r == SuperuserFieldsSpec(extra)
    ensures r.Err? <==> !AbsentOrTrue(extra, "is_staff") || !AbsentOrTrue(extra, "is_superuser")
    ensures !AbsentOrTrue(extra, "is_staff") ==> r == Err(StaffRequired)
    ensures AbsentOrTrue(extra, "is_staff") && !AbsentOrTrue(extra, "is_superuser") ==>
              r == Err(SuperuserRequired)
    ensures r.Ok? ==> r.value.Keys == extra.Keys + {"is_staff", "is_superuser", "is_active"}
    ensures r.Ok? ==> r.value["is_staff"] == Bool(true) && r.value["is_superuser"] == Bool(true)
    ensures r.Ok? ==> r.value["is_active"] == (if "is_active" in extra then extra["is_active"] else Bool(true))
    ensures r.Ok? ==> forall k :: k in extra ==> r.value[k] == extra[k]
  {
    var fields := extra;
    fields := SetDefault(fields, "is_staff", Bool(true));
    fields := SetDefault(fields, "is_superuser", Bool(true));
    fields := SetDefault(fields, "is_active", Bool(true));
    if fields["is_staff"] != Bool(true) {
      return Err(StaffRequired);
    }
    if fields["is_superuser"] != Bool(true) {
      return Err(SuperuserRequired);
    }
    var spec := SuperuserFieldsSpec(extra).value;
    assert fields.Keys == spec.Keys;
    assert forall k :: k in fields ==> fields[k] == spec[k];
    assert fields == spec;
    return Ok(fields);
  }

  /** A caller-supplied is_active=False survives create_superuser's rules. */
  lemma SuperuserFieldsKeepInactive(extra: ExtraFields)
    requires AbsentOrTrue(extra, "is_staff") && AbsentOrTrue(extra, "is_superuser")
    requires "is_active" in extra && extra["is_active"] == Bool(false)
    ensures SuperuserFieldsSpec(extra) == Ok(extra["is_staff" := Bool(true)]["is_superuser" := Bool(true)])
    ensures SuperuserFieldsSpec(extra).value["is_active"] == Bool(false)
  {
    var want := extra["is_staff" := Bool(true)]["is_superuser" := Bool(true)];
    assert SuperuserFieldsSpec(extra).value == want by {
      var got := SuperuserFieldsSpec(extra).value;
      assert got.Keys == want.Keys;
    }
  }

  /** What SuperuserFields returns, as a value: defaults filled in when both
      flags pass. */
  function SuperuserFieldsSpec(extra: ExtraFields): (r: Result<ExtraFields>)
    ensures r.Ok? <==> AbsentOrTrue(extra, "is_staff") && AbsentOrTrue(extra, "is_superuser")
    ensures r.Ok? ==> r.value.Keys == extra.Keys + {"is_staff", "is_superuser", "is_active"}
    ensures r.Ok? ==> forall k :: k in r.value ==>
              r.value[k] == (if k in extra then extra[k] else Bool(true))
  {
    if !AbsentOrTrue(extra, "is_staff") then Err(StaffRequired)
    else if !AbsentOrTrue(extra, "is_superuser") then Err(SuperuserRequired)
    else Ok(map k | k in extra.Keys + {"is_staff", "is_superuser", "is_active"} ::
              if k in extra then extra[k] else Bool(true))
  }

  // ---------------------------------------------------------------------------
  // Building a user row from create_user's keyword arguments

  /** The model fields create_user may receive through **extra_fields. */
  const UserFieldNames: set<string> := {"username", "is_staff", "is_superuser", "is_active"}

  /** BooleanField.to_python, which runs when the row is saved. */
  function BooleanValue(v: FieldValue): (r: Option<bool>)
    ensures v.Bool? ==> r == Some(v.b)
    ensures v == Str("t") || v == Str("True") || v == Str("1") || v == Int(1) ==> r == Some(true)
    ensures v == Str("f") || v == Str("False") || v == Str("0") || v == Int(0) ==> r == Some(false)
    ensures v.Int? && v.i != 0 && v.i != 1 ==> r.None?
  {
    match v
    case Bool(b) => Some(b)
    case Int(i) => if i == 1 then Some(true) else if i == 0 then Some(false) else None
    case Str(s) =>
      if s == "t" || s == "True" || s == "1" then Some(true)
      else if s == "f" || s == "False" || s == "0" then Some(false)
      else None
  }

  predicate IsDigits(s: string)
  {
    forall i :: 0 <= i < |s| ==> '0' <= s[i] <= '9'
  }

  /** The number a string of decimal digits denotes. */
  ghost function DigitsValue(s: string): nat
    requires IsDigits(s)
  {
    if s == [] then 0 else DigitsValue(s[..|s| - 1]) * 10 + (s[|s| - 1] - '0') as nat
  }

  /** Decimal digits of a natural number, as Python's str() writes them: they
      denote `n` and have no leading zero. */
  function NatToString(n: nat): (r: string)
    ensures |r| > 0 && IsDigits(r)
    ensures DigitsValue(r) == n
    ensures |r| > 1 ==> r[0] != '0'
  {
    var d := ['0' + (n % 10) as char];
    if n < 10 then d
    else
      var prefix := NatToString(n / 10);
      assert (prefix + d)[..|prefix + d| - 1] == prefix;
      prefix + d
  }

  /** CharField.to_python: a non-string value is stored as str(value). */
  function TextValue(v: FieldValue): string
  {
    match v
    case Str(s) => s
    case Bool(b) => if b then "True" else "False"
    case Int(i) => if i < 0 then "-" + NatToString(-i) else NatToString(i)
  }

  /** The flag stored for `key`: the converted caller value, or the model default. */
  function FlagOr(extra: ExtraFields, key: string, default: bool): bool
    requires key in extra ==> BooleanValue(extra[key]).Some?
  {
    if key in extra then BooleanValue(extra[key]).value else default
  }

  /** self.model(email=email, **extra_fields) followed by the conversions the
      save performs: unknown keywords are refused, flags must convert, and the
      model defaults (is_staff=False, is_superuser=False, is_active=True,
      username="") fill in what is absent. The password is set afterwards. */
  function UserRecord(email: string, extra: ExtraFields): (r: Result<User>)
    ensures r.Ok? <==>
              && extra.Keys <= UserFieldNames
              && forall k :: k in extra && k != "username" ==> BooleanValue(extra[k]).Some?
    ensures r.Ok? ==> r.value.email == Some(email)
    ensures r.Ok? ==> r.value.username == (if "username" in extra then TextValue(extra["username"]) else "")
    ensures r.Ok? ==> r.value.isSuperuser == ("is_superuser" in extra && BooleanValue(extra["is_superuser"]) == Some(true))
    ensures r.Ok? ==> r.value.isStaff == ("is_staff" in extra && BooleanValue(extra["is_staff"]) == Some(true))
    ensures r.Ok? ==> r.value.isActive == ("is_active" !in extra || BooleanValue(extra["is_active"]) == Some(true))
  {
    if !(extra.Keys <= UserFieldNames) then
      Err(UnexpectedField)
    else if "is_staff" in extra && BooleanValue(extra["is_staff"]).None? then Err(InvalidValue("is_staff"))
    else if "is_superuser" in extra && BooleanValue(extra["is_superuser"]).None? then Err(InvalidValue("is_superuser"))
    else if "is_active" in extra && BooleanValue(extra["is_active"]).None? then Err(InvalidValue("is_active"))
    else
      Ok(User(
        email := Some(email),
        username := if "username" in extra then TextValue(extra["username"]) else "",
        password := Plain(""),
        isStaff := FlagOr(extra, "is_staff", false),
        isSuperuser := FlagOr(extra, "is_superuser", false),
        isActive := FlagOr(extra, "is_active", true)))
  }

  /** create_superuser as written hands make_password(password) to create_user,
      whose set_password hashes that encoding once more before the row is
      saved, and the save as written hashes it a third time: the superuser's
      own password does not match the stored column. Under the corrected save
      the column is a double hash and the password still does not match. (No
      raw password matches in this model, because an encoding cannot be sent
      back as a password.) */
  lemma CreateSuperuserAsWrittenLocksOut(u: User, password: string, attempt: string)
    ensures SaveAsWritten(u.(password := MakePassword(MakePassword(Plain(password))))).password
            == Hashed(Hashed(Hashed(Plain(password))))
    ensures !CheckPassword(password, SaveAsWritten(u.(password := MakePassword(MakePassword(Plain(password))))).password)
    ensures !CheckPassword(attempt, SaveAsWritten(u.(password := MakePassword(MakePassword(Plain(password))))).password)
    ensures Save(u.(password := MakePassword(MakePassword(Plain(password))))).password
            == Hashed(Hashed(Plain(password)))
    ensures !CheckPassword(password, Save(u.(password := MakePassword(MakePassword(Plain(password))))).password)
    ensures !CheckPassword(attempt, Save(u.(password := MakePassword(MakePassword(Plain(password))))).password)
  {
  }

  // ---------------------------------------------------------------------------
  // Foreign keys and their delete rules

  /** The three tables the models define. */
  datatype Tables = Tables(
    users: map<UserId, User>,
    groups: map<GroupId, Group>,
    messages: map<MessageId, Message>)

  /** Referential integrity that the foreign keys keep: a group's host and
      participants are users; a message's group and sender exist. */
  ghost predicate Consistent(t: Tables)
  {
    && (forall g :: g in t.groups ==>
          (t.groups[g].host.Some? ==> t.groups[g].host.value in t.users) &&
          t.groups[g].participants <= t.users.Keys)
    && (forall m :: m in t.messages ==>
          t.messages[m].group in t.groups && t.messages[m].sender in t.users)
  }

  /** What deleting user `uid` does to one group: SET_NULL on the host foreign
      key, and the participant link is removed. */
  function Unlink(g: Group, uid: UserId): Group
  {
    g.(host := if g.host == Some(uid) then None else g.host,
       participants := g.participants - {uid})
  }

  /** Deleting user `uid`, with Group.host SET_NULL and Message.sender CASCADE. */
  function DeleteUserRows(t: Tables, uid: UserId): Tables
  {
    Tables(
      t.users - {uid},
      map g | g in t.groups :: Unlink(t.groups[g], uid),
      map m | m in t.messages && t.messages[m].sender != uid :: t.messages[m])
  }

  /** Deleting group `gid`, with Message.group CASCADE. */
  function DeleteGroupRows(t: Tables, gid: GroupId): Tables
  {
    Tables(
      t.users,
      t.groups - {gid},
      map m | m in t.messages && t.messages[m].group != gid :: t.messages[m])
  }

  /** Deleting a user removes exactly that user and the messages they sent,
      clears the host of the groups they hosted without deleting those groups,
      drops them from every participant set, leaves every other field of every
      other row alone, and keeps the tables consistent. */
  lemma DeleteUserCascade(t: Tables, uid: UserId)
    requires Consistent(t)
    ensures var r := DeleteUserRows(t, uid);
      && Consistent(r)
      && r.users.Keys == t.users.Keys - {uid}
      && (forall u :: u in r.users ==> r.users[u] == t.users[u])
      && r.groups.Keys == t.groups.Keys
      && (forall g :: g in t.groups ==>
            && r.groups[g].host == (if t.groups[g].host == Some(uid) then None else t.groups[g].host)
            && r.groups[g].participants == t.groups[g].participants - {uid}
            && r.groups[g].(host := t.groups[g].host, participants := t.groups[g].participants) == t.groups[g])
      && (forall m :: m in t.messages ==> (m in r.messages <==> t.messages[m].sender != uid))
      && (forall m :: m in r.messages ==> m in t.messages && r.messages[m] == t.messages[m])
  {
    var r := DeleteUserRows(t, uid);
    forall g | g in r.groups
      ensures (r.groups[g].host.Some? ==> r.groups[g].host.value in r.users) &&
              r.groups[g].participants <= r.users.Keys
    {
      assert r.groups[g] == Unlink(t.groups[g], uid);
    }
  }

  /** Deleting a group removes exactly that group and its messages, leaves
      every other row alone, and keeps the tables consistent. */
  lemma DeleteGroupCascade(t: Tables, gid: GroupId)
    requires Consistent(t)
    ensures var r := DeleteGroupRows(t, gid);
      && Consistent(r)
      && r.users == t.users
      && r.groups.Keys == t.groups.Keys - {gid}
      && (forall g :: g in r.groups ==> r.groups[g] == t.groups[g])
      && (forall m :: m in t.messages ==> (m in r.messages <==> t.messages[m].group != gid))
      && (forall m :: m in r.messages ==> r.messages[m] == t.messages[m])
  {
  }

  // ---------------------------------------------------------------------------
  // Listing order: Meta.ordering = ['-updated', '-created'] on Group and Message

  /** The two timestamps the ordering reads. */
  datatype Stamp = Stamp(updated: int, created: int)

  function MessageStamp(m: Message): Stamp { Stamp(m.updated, m.created) }

  /** A row stamped `a` may be listed before one stamped `b`: more recently
      updated, or updated at the same time and more recently created. */
  predicate NewerFirst(a: Stamp, b: Stamp)
  {
    a.updated > b.updated || (a.updated == b.updated && a.created >= b.created)
  }

  /** Every pair of rows can be ordered, and two rows each listed no later than
      the other carry the same stamps. */
  lemma NewerFirstTotal(a: Stamp, b: Stamp)
    ensures NewerFirst(a, b) || NewerFirst(b, a)
    ensures NewerFirst(a, b) && NewerFirst(b, a) ==> a == b
  {
  }

  lemma NewerFirstTransitive(a: Stamp, b: Stamp, c: Stamp)
    requires NewerFirst(a, b) && NewerFirst(b, c)
    ensures NewerFirst(a, c)
  {
  }

  /** A listing in the models' order: descending `updated`, ties broken by
      descending `created`. */
  ghost predicate ListedInOrder(s: seq<Stamp>)
  {
    forall i, j :: 0 <= i < j < |s| ==> NewerFirst(s[i], s[j])
  }

  /** A listing is in order as soon as each row is in order with the next. */
  lemma {:induction false} OrderedByNeighbours(s: seq<Stamp>)
    requires forall i :: 0 <= i < |s| - 1 ==> NewerFirst(s[i], s[i + 1])
    ensures ListedInOrder(s)
  {
    if |s| > 1 {
      OrderedByNeighbours(s[1..]);
      forall j | 1 <= j < |s|
        ensures NewerFirst(s[0], s[j])
      {
        if j > 1 {
          assert NewerFirst(s[1], s[j]) by { assert s[1..][0] == s[1] && s[1..][j - 1] == s[j]; }
          NewerFirstTransitive(s[0], s[1], s[j]);
        }
      }
      forall i, j | 0 <= i < j < |s|
        ensures NewerFirst(s[i], s[j])
      {
        if i > 0 {
          assert s[1..][i - 1] == s[i] && s[1..][j - 1] == s[j];
        }
      }
    }
  }

  // ---------------------------------------------------------------------------
  // Message.__str__

  function Min(a: int, b: int): int { if a < b then a else b }

  /** f"{sender.username}: {content[:20]}" */
  function MessageStr(sender: User, m: Message): (r: string)
    ensures |r| == |sender.username| + 2 + Min(20, |m.content|)
    ensures r[..|sender.username|] == sender.username
    ensures r[|sender.username|..|sender.username| + 2] == ": "
    ensures r[|sender.username| + 2..] <= m.content
    ensures |m.content| <= 20 ==> r[|sender.username| + 2..] == m.content
  {
    sender.username + ": " + m.content[..Min(20, |m.content|)]
  }
}
