# Chat backend: ownership and authorization rules in Dafny

This project models the core of a group-chat backend (a Django REST
application). Users register and log in. They create groups, add
participants to them, and post messages in them. The model covers the rules
that decide who may do what to which row, and what each HTTP handler writes
to the database.

The database is a class, `Store.Database`. It holds:

- three maps from primary key to row: users, groups and messages;
- the set of blacklisted (logged-out) refresh tokens;
- the primary-key sequences.

Its invariant `Valid()` says three things. The foreign keys hold: a group's
host and participants are users, and a message's group and sender exist.
Emails are unique. Every key was drawn from its table's sequence.

Each handler is a method. It takes the authenticated actor and the request's
data, returns the HTTP status code, and says exactly what the store looks like
afterwards. Decisions that only read the store are functions: the login
outcome, the host check, and the message and user queries.

Files, one module each:

- `models.dfy` (`Models`): the rows, and password hashing as a symbolic hash
  (`Secret`). Also `User.save`, the username validator, the user manager's
  superuser flag rules, the delete rules (SET_NULL and CASCADE) as functions
  on the tables, the listing order, and `Message.__str__`.
- `store.dfy` (`Store`): the `Database` class. It holds the manager's
  `create_user` / `create_superuser`, the cascading deletes, and the row-level
  inserts and updates the handlers use.
- `serializers.dfy` (`Serializers`): the field whitelists, read-only fields,
  validation, `GroupSerializer.create`, and the user view that carries no
  password.
- `views.dfy` (`Views`): the handlers `superuser_login`, `create_superuser`,
  `user_views` (POST, PATCH, DELETE), `get_users`, `create_group`,
  `add_members`, `send_message`, `get_messages` and `logout`.

Behaviours of the code worth knowing, all of which the model follows:

- `add_members` on a group whose host was deleted does not give 403. Reading
  `group.host.id` on a null host raises outside any `try`, so the response is
  500.
- A PATCH naming no user gives 500, not 404. The 404 raised by
  `get_object_or_404` is caught by the handler's broad `except`.
- For the same reason, `get_messages` for a non-zero group id that names no
  group gives 500, not 404.
- `create_superuser` in the manager does not force the flags. It defaults
  `is_staff`, `is_superuser` and `is_active` to True and refuses a supplied
  `is_staff` or `is_superuser` other than True. A supplied `is_active=False`
  is kept.
- The `/superuser/` endpoint never reaches those manager rules. Its
  serializer's call to `create_superuser` is commented out, and it stores
  `is_superuser` / `is_staff` exactly as the client sent them.
- Registration (`POST /users/`) sits behind `IsAuthenticated` like the other
  `user_views` branches, so only an authenticated actor can register a user.

## Model

| member | source | states |
|---|---|---|
| `Models.MakePassword` | backend/api/models.py:21 | the hash of a value matches a raw password exactly when that value is that raw password |
| `Models.SaveAsWrittenLocksOut` | backend/api/models.py:87-89 | the save as written re-hashes a working hash: the password that worked no longer matches (the text of the earlier encoding now does, which the model cannot express); nothing else in the row changes |
| `Models.SaveAsWritten` | backend/api/models.py:87-89 | the save as written leaves a column that only the column's earlier content matches: a raw password's own text, or, for a column that already held a hash, that hash's text, which the model cannot send as a password; no other field changes |
| `Models.Save` | backend/api/models.py:87-89 | the corrected save leaves the column hashed, makes a raw password work, keeps every password that already worked, and changes nothing else |
| `Models.SaveIdempotent` | backend/api/models.py:87-89 | saving a row twice stores the same as saving it once |
| `Models.UsernameAsWrittenAcceptsNewline` | backend/api/models.py:45 | the regex with `$`, together with max_length 64, accepts any valid name of at most 63 characters followed by a newline, which is not a valid name |
| `Models.ValidUsernameAgrees` | backend/api/models.py:45 | a name is valid (non-empty, at most 64 characters, each a word character or one of `. @ + -` or space) iff the validator as written accepts it and it does not end in a newline |
| `Models.SetDefault` | backend/api/models.py:29-31 | setdefault keeps a caller's value, inserts the default otherwise, and leaves the other keys alone |
| `Models.SuperuserFields` | backend/api/models.py:29-36 | the flags default to True; a supplied is_staff other than True fails first, then is_superuser; on success both are True, is_active is the caller's value or True, and the caller's other fields are kept |
| `Models.SuperuserFieldsSpec` | backend/api/models.py:29-36 | the flag rules succeed iff is_staff and is_superuser are absent or True, and then every key holds the caller's value or True |
| `Models.SuperuserFieldsKeepInactive` | backend/api/models.py:31-37 | a caller's is_active=False passes the flag rules and survives into the fields handed to create_user |
| `Models.UserRecord` | backend/api/models.py:20 | building the row fails on an unknown keyword or an unconvertible flag; otherwise it carries the email, the given username or "", and the given flags or the defaults (not staff, not superuser, active) |
| `Models.CreateSuperuserAsWrittenLocksOut` | backend/api/models.py:37 | handing make_password(password) to create_user leaves a column the superuser's own password does not match: as written a triple hash (make_password, set_password, then the save as written); even under the corrected save a double hash (only the text of the inner encoding would match, which the model cannot express) |
| `Models.DeleteUserCascade` | backend/api/models.py:93-110 | deleting a user removes that user and exactly the messages they sent, nulls the host of the groups they hosted without deleting them, drops them from every participant set, changes nothing else, and keeps the foreign keys valid |
| `Models.DeleteGroupCascade` | backend/api/models.py:109 | deleting a group removes exactly that group and its messages, changes nothing else, and keeps the foreign keys valid |
| `Models.NewerFirstTotal` | backend/api/models.py:101 | any two rows can be ordered by (-updated, -created); rows ordered both ways carry equal stamps |
| `Models.NewerFirstTransitive` | backend/api/models.py:117 | the (-updated, -created) order is transitive |
| `Models.OrderedByNeighbours` | backend/api/models.py:100-101 | a listing whose neighbours are in (-updated, -created) order is in that order throughout |
| `Models.MessageStr` | backend/api/models.py:119-120 | the string is the sender's username, ": ", then the first min(20, length) characters of the content, which is the whole content when it has at most 20 |
| `Store.Database.InsertUser` | backend/api/models.py:75 | a new user row is refused iff another row holds the same email; otherwise it is stored under a fresh key and nothing else changes |
| `Store.Database.CreateUser` | backend/api/models.py:13-23 | a missing or empty email fails; otherwise it succeeds iff the keywords build a row and no user holds the normalized email, with EmailRequired, the row's error or DuplicateEmail on each failure and nothing stored; on success exactly that row is added, its password hashed once (the corrected save listed under Findings; as written it is hashed twice, see `Models.SaveAsWrittenLocksOut`) |
| `Store.Database.CreateSuperuser` | backend/api/models.py:25-37 | succeeds iff the flag rules pass, the email is non-empty, the flagged keywords build a row and the email is free; each failure gives its error and stores nothing; on success exactly the row built from the normalized email and the flagged keywords is added, staff and superuser, is_active as the caller chose, and the given password works (the corrected hashing of the first two Findings; as written the given password does not work, see `Models.CreateSuperuserAsWrittenLocksOut`) |
| `Store.Database.DeleteUser` | backend/api/models.py:93-110 | the tables become those of the user delete rules; the blacklist is unchanged |
| `Store.Database.DeleteGroup` | backend/api/models.py:109 | the tables become those of the group delete rule; the blacklist is unchanged |
| `Store.Database.UpdateUser` | backend/api/views.py:151 | an existing user row is replaced and nothing else changes |
| `Store.Database.InsertGroup` | backend/api/serializers.py:49 | a new group row with no participants is stored under a fresh key |
| `Store.Database.SetParticipants` | backend/api/serializers.py:50 | the group's participant set becomes exactly the given users, nothing else changes |
| `Store.Database.AddParticipants` | backend/api/views.py:303 | the given users join the group's participants, and the old participants stay |
| `Store.Database.InsertMessage` | backend/api/views.py:324 | exactly one message row is added under a fresh key |
| `Store.Database.Blacklist` | backend/api/views.py:387 | the token joins the blacklist and no table changes |
| `Serializers.UserSerializerInput` | backend/api/serializers.py:23 | registration and PATCH keep username, email and password and drop role flags |
| `Serializers.SuperUserSerializerInput` | backend/api/serializers.py:8 | the superuser serializer keeps the client's is_superuser and is_staff as well |
| `Serializers.UserSerializerIgnoresFlags` | backend/api/serializers.py:20-23 | changing the role flags in a body does not change what the user serializer writes |
| `Serializers.UserWriteValid` | backend/api/serializers.py:20-23 | is_valid() of a user serializer: on creation username and password are required; a given username is non-empty, at most 64 characters and passes the validator; a given email is non-empty, well-formed, at most 320 characters and held by no user other than the one updated; a given password has 1 to 128 characters |
| `Serializers.NewUserRow` | backend/api/serializers.py:5-23 | a created row has the given username, email and raw password, the flags the serializer kept (False when absent), and is active |
| `Serializers.PatchedUserRow` | backend/api/views.py:144-151 | a partial update replaces exactly the given username, email and password and keeps the role flags |
| `Serializers.GetUserRepr` | backend/api/serializers.py:26-29 | the user view carries username, email and id only |
| `Serializers.GetUserReprHidesSecrets` | backend/api/serializers.py:29 | the user view does not depend on the password or any role flag |
| `Serializers.GroupSerializerValidate` | backend/api/serializers.py:39-45 | a group body is valid iff its name is non-empty and at most 255 characters and every supplied participant names an existing user; the validated data keeps name, description and the participant list, and nothing read-only |
| `Serializers.GroupReadOnlyFieldsIgnored` | backend/api/serializers.py:45 | client values for id, host, updated and created do not change validation |
| `Serializers.InitialParticipants` | backend/api/serializers.py:48-50 | a new group's participants are the supplied ids, or none when none are supplied |
| `Serializers.GroupSerializerCreate` | backend/api/serializers.py:47-51 | exactly one group is added, hosted by the given user, with the validated name, description and participants |
| `Serializers.MessageSerializerValidate` | backend/api/serializers.py:53-58 | a message body is valid iff its group exists and its content is non-empty; the validated value is that content |
| `Serializers.MessageSenderReadOnly` | backend/api/serializers.py:54 | a client-supplied sender does not change validation |
| `Views.Authenticate` | backend/api/views.py:63 | the result is a user whose email, password and active flag match the credentials, and None only when no user matches |
| `Views.SuperuserLogin` | backend/api/views.py:63-89 | 401 iff no active user matches; 403 iff the matching user is not a superuser; otherwise 200 with refresh and access tokens for exactly the matching superuser; tokens only with 200 |
| `Views.SuperuserLoginForbidsOrdinaryUser` | backend/api/views.py:74-82 | the right password of an active non-superuser gets 403, not 401, and no tokens |
| `Views.Register` | backend/api/views.py:106-136 | 201 iff the user serializer validates; the stored row is the hashed new row and is never staff or superuser; 400 stores nothing |
| `Views.CreateSuperuserView` | backend/api/views.py:17-51 | 201 iff the superuser serializer validates; the stored flags are exactly the client's (False when absent); 400 stores nothing |
| `Views.PatchUser` | backend/api/views.py:138-180 | no ownership check; a missing or unknown id gives 500; otherwise 205 iff partial validation passes, with the given fields written and saved, else 400; passwords keep working unless replaced, which holds for the corrected save listed under Findings only (as written every save re-hashes, see `Models.SaveAsWrittenLocksOut`) |
| `Views.DeleteUserView` | backend/api/views.py:182-201 | any actor may delete any user; 204 iff the id names a user, with the delete rules applied; otherwise 500 and nothing changes |
| `Views.GetUsers` | backend/api/views.py:203-244 | one user's view, or 404 when absent; without an id, the views of exactly all users |
| `Views.CreateGroup` | backend/api/views.py:247-281 | 201 iff the body validates, adding one group whose host is the actor whatever the body says; 400 otherwise with nothing stored |
| `Views.AddMembersStatus` | backend/api/views.py:290-299 | 404 iff the group is missing; 500 iff its host was deleted; 403 iff the actor is not the host; 200 iff the actor is the host |
| `Views.AddMembersOnlyHost` | backend/api/views.py:292 | at most one actor passes the host check, and nobody passes it for a group without a host |
| `Views.ExistingUsers` | backend/api/views.py:301-302 | the filter keeps exactly the listed ids that name users and drops the rest |
| `Views.WithMembers` | backend/api/views.py:303 | the participants become the old ones plus the existing listed users; name, description, host and timestamps are unchanged |
| `Views.WithMembersIdempotent` | backend/api/views.py:300-303 | adding the same ids twice equals adding them once, and adding only current participants changes nothing |
| `Views.AddMembers` | backend/api/views.py:284-312 | the status is the host check's; on 200 only that group changes, by the participant union; otherwise nothing changes |
| `Views.SendMessage` | backend/api/views.py:314-340 | 404 for a missing group; otherwise 201 iff the content is valid, adding exactly one message whose group is the URL's and whose sender is the actor; otherwise nothing changes |
| `Views.GetMessages` | backend/api/views.py:342-372 | a truthy group id gives exactly that group's messages, or 500 when the group is absent (the 404 is caught by the broad `except`); no group id or 0 gives all messages |
| `Views.GroupMessagesAreMessages` | backend/api/views.py:349-353 | a group's listing is part of the listing of all messages |
| `Views.OfGroup` | backend/api/views.py:350-351 | keeping one group's ids of a listing keeps exactly the listed messages of that group |
| `Views.OfGroupInOrder` | backend/api/models.py:117 | taking one group's messages out of a listing in (-updated, -created) order leaves a listing in that order, each message once |
| `Views.GroupListingIsSubListing` | backend/api/views.py:349-353 | the ordered listing of all messages with the other groups' messages taken out is an ordered listing of exactly what get_messages gives for the group |
| `Views.Logout` | backend/api/views.py:375-409 | 205 iff the argument is a non-blacklisted refresh token, for whichever user, which is then blacklisted and never accepted again; otherwise 400 and nothing changes |

## Left out

- URL routing, `@api_view` and `permission_classes` are left out. Each authenticated handler takes the actor as a parameter and requires that the actor is a stored user.
- JWT signing, expiry and the refresh endpoint are left out. A logout argument arrives already decoded or marked undecodable. `Views.RefreshAccepted` is what the refresh endpoint would also ask. Access tokens never consult the blacklist, and that check is not modelled.
- Password hashing is a free constructor (`Secret.Hashed`): it is injective and never equal to a raw password. Salts and algorithms are left out.
- `\w`, email-format validation and `normalize_email` are library code that is not shown. They are function parameters.
- The `auto_now` / `auto_now_add` clocks are a caller-supplied `now`. The user table's `created_at` / `updated_at` are not modelled.
- DRF trims whitespace from string inputs before validating them, and then refuses a blank value. The model validates the strings as given: a whitespace-only group name, message content or username passes its check in the model although DRF refuses it.
- A non-integer entry in `user_ids` or in `participants` is not modelled, and neither is a `user_ids` that is not a list.
- A form-encoded (immutable) body in `send_message` makes `request.data['group'] = …` raise. That is not modelled: bodies are JSON.
- `Store.Database.CreateUser` models the corrected save: the password is hashed once. As written, `set_password` and then `save` hash it twice, as `Models.SaveAsWrittenLocksOut` shows.
- `Store.Database.CreateSuperuser` models the corrected hashing: the raw password reaches `create_user`, and the save hashes it once. As written the given password does not work, as `Models.CreateSuperuserAsWrittenLocksOut` shows.
- `Views.PatchUser` models the corrected save, so a PATCH without a password keeps the old one working. As written every save re-hashes the column, as `Models.SaveAsWrittenLocksOut` shows.
- Response bodies are left out. Only status codes and store changes are modelled. One consequence: the `/superuser/` response echoes the stored password hash, because `password` is a readable field of its serializer. The model does not show this.
- `Models.SaveAsWritten`, `Models.SaveAsWrittenLocksOut` and `Models.CreateSuperuserAsWrittenLocksOut` model a hash as a symbolic value that cannot be sent as a password. In the code the column is text, so after a re-hash the text of the earlier encoding becomes the password that matches. The `/superuser/` response echoes that text. The model proves only that the password that worked stops working. Its "no raw password matches" holds only because an encoding cannot be sent back.
- A JSON `null` in a request body is treated like an absent key. The code does not do this, and the model misses these consequences:
  - PATCH `{"id": t, "email": null}`: the code stores a NULL email (the column is nullable) and answers 205, after which the user cannot authenticate by email. The model answers 205 and keeps the email.
  - PATCH with `"username": null` or `"password": null`: the code answers 400. The model answers 205.
  - POST `/groups/` with `"participants": null`: the code answers 400. The model answers 201.
- A JSON `null` as `refresh_token` in `logout` is not modelled. The token library would then build a fresh token instead of decoding one, and the handler would answer 205. That library code is not part of this model.
- `Views.SuperuserLogin` does not model the 500 branch of its `try` block, since no modelled input raises there.
- `Views.GetMessages` returns the set of ids of the selected messages, not their serialized form. The database's (-updated, -created) order is not produced: `Views.IsListing` states what an ordered listing of a selection is, and `Views.GroupListingIsSubListing` relates the two listings.
- `Views.GetUsers` returns a set: the user table declares no ordering.
- `Models.UserRecord` treats only `username`, `is_staff`, `is_superuser` and `is_active` as known keywords. The user model's other inherited fields (`first_name`, `last_name`, …) are refused like unknown keywords.
- Django's `BooleanField.to_python` and `str()` conversions are modelled because `UserRecord` needs them. They are not part of the source.
- Database concurrency, transactions and errors other than those named above are left out, as are the schema views.

## Findings

| source | as written | input that shows it | evidently intended | confidence | as-written member | corrected member |
|---|---|---|---|---|---|---|
| backend/api/models.py:87-89 | `User.save` passes the password column through `make_password` on every save, including a column that already holds a hash. `create_user` also hashes twice, via `set_password` then `save` | PATCH `/users/` with `{"id": u, "username": "x"}` for a user who logs in with `p`: the column becomes a hash of the old encoding's text, so `p` no longer authenticates and that text now does | hash a raw password once, and keep a stored hash as it is | high; not executed | `Models.SaveAsWrittenLocksOut` | `Models.Save` |
| backend/api/models.py:37 | `create_superuser` hands `make_password(password)` to `create_user`, whose `set_password` hashes it again before the save hashes it a third time | `create_superuser("a@b.c", "pw")` stores a triple hash of `"pw"` (make_password, set_password, then the save as written); even under a corrected save it would be a double hash; logging in with `"pw"` fails either way; only the text of an intermediate encoding would match | `self.create_user(email, password, **extra_fields)` | high; not executed | `Models.CreateSuperuserAsWrittenLocksOut` | `Store.Database.CreateSuperuser` |
| backend/api/models.py:45 | the username regex ends in `$`, which `re.search` also matches before a final newline | `"bob\n"` passes the validator | `\Z`, as the default Django validator has | medium; not executed; serializers and forms strip whitespace before validating, so HTTP input does not reach it | `Models.UsernameAsWrittenAcceptsNewline` | `Models.ValidUsernameAgrees` |
