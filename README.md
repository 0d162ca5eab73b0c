# matrix-secretary: a Dafny model of the room reconciler

The secretary is a Matrix bot. It keeps rooms on a homeserver in line with
stored *policies*. A policy is a JSON document with a `policy_key`, a `rooms`
dict (room key -> room policy) and `user_groups` (group name -> members).
For each room of a policy, the secretary:

- expands group names in the room's `invitees` into user ids;
- makes sure a room exists and is bound to `(policy_key, room_key)` in the
  `rooms` table;
- reconciles the room's name;
- invites the invitees.

It can also tear down the rooms of a policy, forget its bindings, and sweep
away the rooms it is alone in.

This project models that core:

- `secretary/secretary.py`, the `MatrixSecretary` class;
- `secretary/rooms.py`, room creation and deletion;
- `secretary/util.py`, the pure helpers;
- `secretary/translations.py`, the phrase lookup.

It also models the two tables of `secretary/database.py`.

The modules are:

- `Results`: `Option` and `Result`. Python exceptions become `Err` values with
  one `Error` constructor per kind. Every operation that can raise returns a
  `Result`, so no error path becomes a precondition.
- `Seqs`, `Dicts`, `Documents`: the Python semantics the code relies on.
  - `Dicts`: a dict is a sequence of (key, value) pairs with unique keys, in
    insertion order. Assigning to an existing key keeps its position.
  - `Documents`: JSON documents with `d[key]` (KeyError, TypeError),
    `.items()`, and `for x in v` over lists, dicts and strings.
- `Client`: the mautrix client as a class whose one mutable field is an
  abstract homeserver. The homeserver records:
  - which room states the bot may read;
  - room names, members and aliases;
  - which kicks and alias removals it refuses;
  - the ids it hands to new rooms;
  - an append-only `log` of every write the bot issues.

  Each client call is one atomic step. The bot writes state to, and reads
  the members and aliases of, only rooms it is in: once it has left a room,
  those calls are refused with 403. `Server.Valid` is the invariant every
  secretary operation keeps: joined rooms are listed once, each room lists a
  member once, and new ids are new.
- `Tables`: the `rooms` and `policies` tables as maps keyed by their primary
  keys, behind a `Database` class whose methods are the SQL statements the
  secretary runs.
- `Util`, `Translations`: the pure helpers, each with a reference definition
  or a characterisation.
- `Invitees`: the invitee expansion of `ensure_policy` as a function. It comes
  with an independent reference, "the level of the last entry that names the
  user", and a proof that the two agree.
- `Rooms`: `create_room` and `delete_room` as methods on the client. Each is
  specified by the exact writes it issues.
- `Secretary`: the `MatrixSecretary` class. Its methods carry the bindings
  table and the homeserver from one state to the next. Each method states the
  new state and what it guarantees:
  - a bound room after `ensure_policy`;
  - invitations for every expanded invitee, with the invitations awaited
    (as written they are never sent; see Findings);
  - untouched bindings of other policies;
  - a `Leave` for every bound room after `ensure_policy_destroyed`, which
    fails exactly when the server refuses one of the deletions;
  - a sweep that leaves exactly the chosen rooms the server lets it delete,
    and records a 403 for each of the others.

Some behaviour of the code that is easy to expect otherwise:

- Only an `MForbidden` with code 403 on the state read makes
  `_get_room_from_db` drop a binding. Any other error is raised with the
  binding kept.
- `delete_room` removes aliases first, then kicks every member but the bot
  itself (other bots included), then leaves and forgets the room.
- `delete_all_rooms` never reads the bindings table.
- In `delete_all_rooms`, a failure of `_am_i_alone` is outside the `try`, so
  it ends the sweep.
- `ensure_policy` does each room completely, in order, in one pass.
- The encryption setter, like every other setter except the name, does
  nothing. It does not fail.
- `_ensure_room_users` does not look at the current membership before
  inviting. As written it also never sends its invitations (see Findings).

## Model

| member | source | states |
|---|---|---|
| Seqs.Without | secretary/rooms.py:53 | the list comprehension keeps exactly the elements different from the dropped one, and is no longer than its input |
| Seqs.FirstIndex | secretary/secretary.py:173 | the position of the first occurrence of the character, or the length when it does not occur; no earlier position holds it |
| Seqs.LastIndex | secretary/rooms.py:63 | the position of the last occurrence of the character, or -1; no later position holds it |
| Seqs.RemovedMembers | secretary/rooms.py:53-55 | after the kicks, the remaining members are exactly the old members that were not kicked |
| Dicts.Get | secretary/secretary.py:171-182 | `key in d` holds exactly when a value is found, and the value found is the one stored under the key |
| Dicts.Put | secretary/secretary.py:40-44 | after `d[k] = v`, `k` maps to `v` and every other key keeps its value; an existing key keeps its place and a new one is appended |
| Dicts.GetPutEach | secretary/secretary.py:37-44 | after a run of assignments, a key holds the value it was last assigned, or its old value when none assigned it |
| Dicts.PutEachConcat | secretary/secretary.py:37-44 | two runs of assignments one after the other equal the single concatenated run |
| Dicts.PutEachKeys | secretary/secretary.py:37-44 | the keys after a run of assignments are the old keys plus the assigned ones |
| Dicts.LastValueConcat | secretary/secretary.py:37-44 | in a concatenation, the last assignment to a key comes from the second part when that part assigns the key at all |
| Dicts.LastValueUnique | secretary/rooms.py:30-31 | when no key repeats, the last assignment to a key is its only one, i.e. its dict value |
| Documents.Field | secretary/secretary.py:36 | `d[key]` succeeds exactly for a present key and yields its value; a missing key raises KeyError naming the key |
| Documents.Index | secretary/secretary.py:38-42 | subscripting succeeds exactly on a dict holding the key; subscripting a non-dict raises TypeError |
| Documents.Chars | secretary/secretary.py:42 | iterating a string visits its one-character strings, in order |
| Documents.KeyValues | secretary/secretary.py:42 | iterating a dict visits its keys, in order |
| Documents.Strings | secretary/secretary.py:42-43 | a list of values can be used as user ids exactly when every value is a string, and the ids are those strings in order |
| Invitees.LastValueAssign | secretary/secretary.py:42-43 | assigning a level to every member of a group leaves exactly the group's members at that level |
| Invitees.ContributionsLast | secretary/secretary.py:37-44 | the expansion's assignments leave each user at the level of the last invitee entry naming them, directly or through a group |
| Invitees.ExpandedLastWins | secretary/secretary.py:37-44 | in the expanded invitees dict, each user holds the level of the last entry that names them; users no entry names are absent |
| Invitees.LastInviteAt | secretary/secretary.py:37-44 | the last entry naming a user decides the level; when no entry names the user, there is none |
| Invitees.ContributionsFail | secretary/secretary.py:42 | the expansion fails exactly when some group entry has no usable member list |
| Invitees.ContributionsFirstError | secretary/secretary.py:42 | a failing expansion raises the error of the first group entry that fails |
| Invitees.GroupThenUserExample | secretary/secretary.py:37-44 | `{"staff": 50, "@a": 100}` with staff = [@a, @b] expands to @a at 100 and @b at 50, and the group name itself is not invited |
| Invitees.DictGroupExample | secretary/secretary.py:42 | a group written as `{"users": [...]}` is iterated as a dict, so its only "member" is the key `users` |
| Rooms.IntValues | secretary/rooms.py:30-31 | on success, every invitee in order keeps its key and has `int()` of its level |
| Rooms.IntValuesFail | secretary/rooms.py:31 | the conversion fails exactly when some level is not a number |
| Rooms.IntValuesFirstError | secretary/rooms.py:31 | a failing conversion raises the error of the first level that is not a number |
| Rooms.PowerLevels | secretary/rooms.py:29-31 | building the power-level users fails exactly when some level is not a number, and then with the conversion's error |
| Rooms.PowerLevelsGet | secretary/rooms.py:29-31 | each invitee holds `int()` of its level; the bot holds 9001 unless it is itself an invitee; nobody else has an entry |
| Rooms.BuildPowerLevels | secretary/rooms.py:29-31 | the loop builds exactly the power-level users of the specification, or stops with its error |
| Rooms.CreationRequest | secretary/rooms.py:21-39 | "help" and the empty name raise ValueError; otherwise it fails exactly when the power levels do. The request carries the name, the invitee keys, the power levels, a non-empty topic ("No topic set." when none is given), and space content exactly for spaces |
| Rooms.CreateRoom | secretary/rooms.py:10-40 | a rejected request reaches no client call; otherwise exactly one room is created from the request, with the next free id |
| Rooms.AliasLocalpartRoundTrip | secretary/rooms.py:63 | the corrected localpart extraction gives back the localpart of every alias built from it |
| Rooms.AsWrittenKeepsToLastColon | secretary/rooms.py:63 | on a one-line alias, the substitution as written keeps everything between `#` and the last colon |
| Rooms.AliasLocalpartAgrees | secretary/rooms.py:63 | when the server name has no colon, the substitution as written and the corrected extraction both give the localpart |
| Rooms.AliasLocalpartWithPort | secretary/rooms.py:63 | for `#l:host:port`, the substitution as written gives `l:host` while the localpart is `l` |
| Rooms.AliasWithPortExample | secretary/rooms.py:63 | `#room:example.org:8448` gives `room:example.org` as written and `room` corrected |
| Rooms.RemoveEach | secretary/rooms.py:62-67 | the alias loop removes the given localparts in order; it succeeds exactly when none of them is protected, and otherwise raises 403 after a prefix of the removals; only the log changes |
| Rooms.DeleteAliasesAsWritten | secretary/rooms.py:60-67 | with the substitution as written: it succeeds exactly when the bot is in the room, the room's aliases are visible and no removal of the substituted text is refused; the log gains a prefix of those removals (all of them on success); nothing else changes; a refusal raises 403 |
| Rooms.AliasRemovalsWithPort | secretary/rooms.py:63-65 | for `#room:example.org:8448`, the loop as written asks to remove `room:example.org`, the corrected loop `room` |
| Rooms.DeleteAliases | secretary/rooms.py:60-67 | with the corrected localpart: it succeeds exactly when the bot is in the room, the room's aliases are visible and none is refused; the log gains a prefix of the alias removals (all of them on success); nothing else changes; a refusal raises 403 |
| Rooms.KickAllUsers | secretary/rooms.py:51-57 | it succeeds exactly when the bot is in the room and no kick of a member other than the bot is refused; the log gains a prefix of those kicks in member order (all of them on success); only that room's member list changes; validity is kept; a refusal raises 403 |
| Rooms.EmptiedRoom | secretary/rooms.py:43-48 | once everyone but the bot is kicked and the bot has left, no member remains |
| Rooms.AllowedKept | secretary/rooms.py:43-48 | whether a room may be deleted depends only on whether the bot is in it, on its aliases, its members and what the server refuses |
| Rooms.DeletedNotAllowed | secretary/rooms.py:47-48 | a room that has been deleted cannot be deleted again: the bot has left it |
| Rooms.DeleteRoom | secretary/rooms.py:43-48 | it succeeds exactly when no alias removal (of the corrected localpart) or kick is refused, and otherwise raises 403. Only the log, the member lists and the joined rooms change. The log gains a prefix of alias removals, kicks, leave and forget, all of them on success. On success the server is the one `Deleted` describes: the room is no longer joined and has no members. Other rooms keep their members; validity is kept |
| Rooms.AliasesRefused | secretary/rooms.py:60-67 | a refused alias removal means the room is one the server would not let the bot delete; the log then holds a prefix of `delete_room`'s writes |
| Rooms.KicksRefused | secretary/rooms.py:51-57 | a refused kick after every alias removal went through means the room cannot be deleted; the log holds the alias removals and a prefix of the kicks, so a prefix of `delete_room`'s writes |
| Rooms.DeletionDone | secretary/rooms.py:43-48 | when every step went through, the room could be deleted, the log gained exactly `delete_room`'s writes, and the server is the one `Deleted` describes |
| Rooms.DeletionLeaves | secretary/rooms.py:47 | the writes of a completed `delete_room` include leaving the room |
| Client.Created | secretary/rooms.py:34-39 | creating a room keeps the server valid: the id is new and the bot is the room's one member |
| Client.MatrixClient.GetRoomState | secretary/secretary.py:134 | the state read fails exactly for a room whose state the bot may not read, with the server's error |
| Client.MatrixClient.GetRoomName | secretary/secretary.py:209 | the name read answers the content `{"name": ...}`, the state error, or M_NOT_FOUND for a room without a name |
| Client.MatrixClient.PutRoomName | secretary/secretary.py:214 | the name write sets the name and logs one write when the bot is in the room; a room it is not in refuses it with 403 and nothing changes |
| Client.MatrixClient.CreateRoom | secretary/rooms.py:34-39 | the server hands out the next id, or fails with nothing changed when it has none |
| Client.MatrixClient.InviteUser | secretary/secretary.py:239 | an invitation adds one write to the log and nothing else |
| Client.MatrixClient.KickUser | secretary/rooms.py:55 | a refused kick raises 403 with nothing changed; otherwise the user leaves the member list and the kick is logged; validity is kept |
| Client.MatrixClient.RemoveRoomAlias | secretary/rooms.py:65 | a refused removal raises 403 with nothing changed; otherwise the removal is logged |
| Client.MatrixClient.LeaveRoom | secretary/rooms.py:47 | the room is no longer joined (so its members and aliases can no longer be read and its name no longer written), the bot is no longer a member, and validity is kept |
| Client.MatrixClient.ForgetRoom | secretary/rooms.py:48 | forgetting adds one write to the log and nothing else |
| Client.MatrixClient.GetJoinedMembers | secretary/secretary.py:105 | the members of a room the bot is in, in the server's order; any other room raises 403 |
| Client.MatrixClient.GetRoomAliases | secretary/rooms.py:61 | the aliases of a room the bot is in; any other room raises 403 |
| Client.MatrixClient.GetJoinedRooms | secretary/secretary.py:67 | the rooms the bot has joined |
| Tables.OtherPolicies | secretary/secretary.py:60-61 | exactly the bindings whose policy key differs, with their room ids |
| Tables.Database.constructor | secretary/database.py:10-21 | both tables start empty |
| Tables.Database.FetchRoom | secretary/secretary.py:128-129 | a row is found exactly for a bound key, and it holds the bound room id |
| Tables.Database.InsertRoom | secretary/database.py:14 | inserting a bound key violates the primary key and changes nothing; otherwise exactly that binding is added |
| Tables.Database.DeleteRoom | secretary/secretary.py:146-147 | exactly that binding is removed |
| Tables.Database.DeleteRoomsOf | secretary/secretary.py:60-61 | exactly the bindings of the policy key are removed |
| Tables.Database.FetchRoomIdsOf | secretary/secretary.py:52-53 | one row per binding of the policy key, each binding once, with its room id |
| Tables.Database.UpsertPolicy | secretary/secretary.py:150-157 | the key ends up with exactly one row, holding the new document; the rooms table is untouched |
| Tables.Database.FetchPolicy | secretary/secretary.py:160-161 | a row is found exactly for a stored key, and it holds the stored document |
| Tables.Database.FetchPolicyKeys | secretary/secretary.py:87-89 | every stored key, each once, and nothing else |
| Util.StripNonWord | secretary/util.py:77 | the substitution leaves only characters of `[a-zA-Z0-9_]` |
| Util.Lower | secretary/util.py:77 | lower-casing keeps the length, lowers each character, and maps `[a-zA-Z0-9_]` into `[a-z0-9_]` |
| Util.EscapeAsAlias | secretary/util.py:73-79 | every character of an escaped alias is in `[a-z0-9_]` |
| Util.TranslateConcat | secretary/util.py:76 | the umlaut translation works character by character |
| Util.StripConcat | secretary/util.py:77 | the stripping works character by character |
| Util.LowerConcat | secretary/util.py:77 | the lower-casing works character by character |
| Util.EscapeConcat | secretary/util.py:73-79 | escaping a concatenation is the concatenation of the escapes |
| Util.EscapeOneChar | secretary/util.py:74-77 | one character escapes to what the reference says: umlauts of either case become lower-case digraphs, space and `_` become `_`, ASCII letters are lowered, digits are kept, anything else is dropped |
| Util.EscapeMatchesReference | secretary/util.py:73-79 | `escape_as_alias` equals the character-by-character reference definition on every input |
| Util.EscapeIdempotent | secretary/util.py:73-79 | escaping an escaped alias changes nothing |
| Util.EscapeExample | secretary/util.py:73-79 | "Büro Raum" escapes to "buero_raum" |
| Util.IsLegal | secretary/util.py:82-90 | it raises ValueError naming the key exactly when the key is one of the four checked settings and the value is not among its legal values |
| Util.IsLegalMatchesMatrix | secretary/util.py:83-89 | each checked setting accepts exactly the values the Matrix Client-Server API defines for it; other keys are always accepted |
| Util.LineEnd | secretary/util.py:93-94 | the first line break, or the end: no earlier character is a break |
| Util.RoomIdShape | secretary/util.py:93-98 | on one line, a room id is `!`, then anything, a colon, anything; an alias is the same with `#` |
| Util.UrlShape | secretary/util.py:101-106 | on one line, the URL checks are exactly the `http://`/`https://` and `mxc://` prefix tests |
| Util.RoomIdLineBreaks | secretary/util.py:93-94 | `$` admits one final line break and nothing after it |
| Util.NonEmptyString | secretary/util.py:37-40 | an empty argument is passed on as `(x, None)` and any other as `("", x)` |
| Translations.EchoIn | secretary/translations.py:13-18 | an unknown phrase is reported as such; a known language gets its text; an unknown one falls back to English; it raises KeyError exactly when that fallback is missing |
| Translations.EchoNeverFails | secretary/translations.py:1-18 | every phrase of the shipped table has an English text, so `echo` never raises |
| Translations.EchoExamples | secretary/translations.py:13-18 | on the shipped table: `helptext` in French gives its English text, `generic_error` in German its German text, and the unknown phrase `bye` gives "Phrase not found: bye" |
| Secretary.Remaining | secretary/secretary.py:106 | the filter drops exactly the other `@bot.` members, only when bots are ignored, and never changes how often the secretary appears |
| Secretary.AloneIgnoringBots | secretary/secretary.py:103-107 | ignoring bots, the secretary is alone exactly when it is a member once and every other member is a bot |
| Secretary.AloneStrict | secretary/secretary.py:103-107 | without ignoring bots, alone means the member list is exactly the secretary |
| Secretary.Setting | secretary/secretary.py:171-182 | a present key gives its value, a missing key the default |
| Secretary.ServerPart | secretary/secretary.py:173 | `split(':')[1]` raises IndexError exactly for an id without a colon; otherwise it is the colon-free text after the first colon, up to the next colon or the end |
| Secretary.CreateArguments | secretary/secretary.py:168-182 | the arguments fail only for an id without a colon; each missing key takes its default ("Pretty Placeholder", {}, "restricted", "", False) and there are no parent spaces |
| Secretary.BindArguments | secretary/secretary.py:169-183 | binding succeeds exactly when the positional arguments fit and every keyword names a parameter not already filled positionally |
| Secretary.CreateCallAsWrittenFails | secretary/secretary.py:169-183 | as written, the call to `create_room` always raises: TypeError, or IndexError first for an id without a colon |
| Secretary.RenameOutcome | secretary/secretary.py:205-214 | with the corrected comparison: the read's error, or M_NOT_FOUND for a room without a name; otherwise the name is written exactly when it differs from the wanted one and the bot is in the room, and a room it has left refuses the write with 403; a failure changes nothing; only names and the log change |
| Secretary.RenameIdempotent | secretary/secretary.py:205-214 | after one successful reconciliation of the name, a second one writes nothing |
| Secretary.RenameAsWrittenAlwaysWrites | secretary/secretary.py:209-214 | as written, a room already carrying the wanted name is renamed again while the bot is in it, and once the bot has left it the pass fails with 403; the corrected comparison writes nothing and succeeds either way |
| Secretary.InvitationsInvite | secretary/secretary.py:238-239 | one invitation per user, every user invited, all into the given room |
| Secretary.InviteeIdsOfExpanded | secretary/secretary.py:44-47 | once the expanded invitees are stored in the room policy, iterating them yields exactly their keys |
| Secretary.Lookup | secretary/secretary.py:127-142 | the lookup succeeds exactly for a bound room the bot can read. It reports "not found" exactly for no binding or a 403; other read errors are returned as they are |
| Secretary.CreateOutcome | secretary/secretary.py:168-184 | a created room is new, is joined, is the one write added to the log, and keeps the server valid; a failure changes nothing |
| Secretary.SweepSelectionMembers | secretary/secretary.py:70-72 | the sweep chooses exactly the joined rooms other than the notice room (and, for abandoned-only sweeps, those where the secretary is alone among non-bots) |
| Secretary.SweepMessage | secretary/secretary.py:78-79 | the report starts with "Done clearing old rooms!" and is exactly that when nothing failed |
| Secretary.ExpandEntry | secretary/secretary.py:38-43 | one entry of the invitee loop extends the expansion by its assignments, or ends it with the expansion's error |
| Secretary.PutMembers | secretary/secretary.py:42-43 | the group loop assigns the level to each member in order |
| Secretary.MatrixSecretary.constructor | secretary/secretary.py:14-20 | the secretary takes its client, database and the client's id, with no notice room |
| Secretary.MatrixSecretary.GetPolicy | secretary/secretary.py:159-166 | the stored document, or DatabaseEntryNotFound for a key without a row |
| Secretary.MatrixSecretary.AddPolicyToDb | secretary/secretary.py:149-157 | a document with a text `policy_key` is stored under that key, replacing any earlier one; otherwise the read error is raised and nothing changes |
| Secretary.MatrixSecretary.AddPolicy | secretary/secretary.py:255-258 | returns the document's key, under which the document is then stored |
| Secretary.MatrixSecretary.GetAvailablePolicies | secretary/secretary.py:86-89 | every stored key, each once |
| Secretary.MatrixSecretary.AddRoomToDb | secretary/secretary.py:120-125 | a new binding is added; a bound key raises IntegrityError and changes nothing |
| Secretary.MatrixSecretary.RemoveRoomFromDb | secretary/secretary.py:144-147 | exactly that binding is removed |
| Secretary.MatrixSecretary.GetRoomFromDb | secretary/secretary.py:127-142 | answers as the lookup does, and drops the binding exactly when it reports "not found" for a bound key |
| Secretary.MatrixSecretary.CreateRoom | secretary/secretary.py:168-184 | the room policy's settings, defaults filled in, become exactly one new room (the corrected call) |
| Secretary.MatrixSecretary.EnsureRoomExists | secretary/secretary.py:109-118 | a readable bound room, or an error other than "not found", is returned with nothing created. Otherwise exactly one room is created and bound, or the creation error is returned with the stale binding gone. The key ends bound to the returned id; no other binding changes |
| Secretary.MatrixSecretary.SetRoomName | secretary/secretary.py:205-214 | behaves as the corrected rename, `RenameOutcome`: a write only when the name differs, refused with 403 in a room the bot has left |
| Secretary.MatrixSecretary.SetRoomNameAsWritten | secretary/secretary.py:205-214 | behaves as the rename as written, `RenameOutcomeAsWritten`, which compares the whole content dict and so always writes, refused with 403 in a room the bot has left |
| Secretary.MatrixSecretary.EnsureRoomConfig | secretary/secretary.py:186-203 | only `room_name` reaches the server, reconciled as by the corrected rename; without it nothing changes |
| Secretary.MatrixSecretary.EnsureRoomUsers | secretary/secretary.py:237-239 | with the invitation awaited: one invitation per invitee in order, and only the log changes; non-iterable invitees raise with nothing changed |
| Secretary.MatrixSecretary.EnsureRoomUsersAsWritten | secretary/secretary.py:237-239 | as written, no invitation reaches the server |
| Secretary.MatrixSecretary.ExpandInvitees | secretary/secretary.py:37-44 | the loop computes exactly the invitee expansion, including its errors |
| Secretary.MatrixSecretary.EnsureRoom | secretary/secretary.py:36-48 | one pass of the loop: the result, the new server and the new bindings are exactly those of `PassOutcome` (invitee expansion, policy key, then `ReconcileOutcome`). The policies table is unchanged and validity is kept. What such a pass guarantees is stated by `Secretary.PassFacts` |
| Secretary.MatrixSecretary.ReconcileRoom | secretary/secretary.py:45-48 | once invitees are expanded, the result, the new server and the new bindings are exactly those of `ReconcileOutcome`: the room exists and is bound, its name is reconciled, every invitee is invited. The policies table is unchanged. What this guarantees is stated by `Secretary.ReconcileFacts` |
| Secretary.ExistsFacts | secretary/secretary.py:109-118 | `_ensure_room_exists` keeps the server valid, only adds to the log and to the joined rooms, and touches no binding but its own key. On success the key is bound to the returned room and no other room's name changed |
| Secretary.ConfigFacts | secretary/secretary.py:186-203 | `_ensure_room_config` changes only names and the log, and the log only grows. On success the room carries the wanted name and every other room keeps its name |
| Secretary.ReconcileFacts | secretary/secretary.py:45-48 | whatever its outcome, a pass keeps the server valid, only adds to the log and to the joined rooms, and touches no binding but its own. On success its key is bound, the bound room carries the wanted name, every invitee is invited into it, and no other room is renamed |
| Secretary.PassFacts | secretary/secretary.py:36-48 | the same for a whole pass with the invitees expanded from the room policy. On success the room key is bound under the policy key and every expanded invitee is invited into the bound room. The room carries the name its room policy asks for, and no other room is renamed |
| Secretary.InvitedKept | secretary/secretary.py:45-47 | a pass for another room key keeps an earlier room bound and its invitations logged |
| Secretary.NamedKept | secretary/secretary.py:45-46 | a pass for another room key, bound to another room, keeps an earlier room's name |
| Secretary.MatrixSecretary.EnsurePolicy | secretary/secretary.py:34-48 | an unknown policy raises DatabaseEntryNotFound with nothing changed. Otherwise the result, server and bindings are those of `PolicyRun`: the passes over the rooms dict in order, up to the first failing one. On success every room key is bound under the policy key and its expanded invitees are invited into its bound room. Each room whose bound id no later room key shares carries the name it asks for. Bindings of other policy keys and the policies table never change; the log only grows; validity is kept |
| Secretary.MatrixSecretary.EnsureRooms | secretary/secretary.py:36-48 | the loop over the rooms dict: result, server and bindings are those of `PolicyOutcome`, the passes in order, ending with the first failure |
| Secretary.MatrixSecretary.EnsureNextRoom | secretary/secretary.py:36-48 | one iteration after passes that went through: the run goes on with one more pass, or ends with this pass's error as the whole loop's outcome |
| Secretary.PolicyStep | secretary/secretary.py:36-48 | a pass after successful passes extends the run by one room; when it fails, its outcome is the outcome of the whole loop |
| Secretary.PolicyErrSticks | secretary/secretary.py:36-48 | once a pass fails, the later rooms are never reached: the loop's outcome is that of the failing prefix |
| Secretary.PolicyKeeps | secretary/secretary.py:36-48 | passes over any rooms keep the server valid, only add to the log and to the joined rooms, and leave the bindings of other policy keys unchanged |
| Secretary.PolicyBound | secretary/secretary.py:36-48 | after successful passes over distinct room keys, every room key is bound and all its expanded invitees are invited into its bound room |
| Secretary.PolicyNamed | secretary/secretary.py:36-48 | after successful passes over distinct room keys, a room whose bound id no later room key shares carries the name its room policy asks for |
| Secretary.PolicyRunFacts | secretary/secretary.py:34-48 | `ensure_policy` on a stored policy keeps the server valid, only adds to the log and to the joined rooms, and leaves other policy keys' bindings alone. On success every room is bound, invited and (as above) named |
| Secretary.MatrixSecretary.EnsureAllPolicies | secretary/secretary.py:28-32 | the policies table is unchanged and the server stays valid |
| Secretary.MatrixSecretary.ForgetPolicy | secretary/secretary.py:58-63 | exactly the bindings of the policy key are removed; the policies table stays |
| Secretary.MatrixSecretary.EnsurePolicyDestroyed | secretary/secretary.py:50-56 | it fetches the bound room ids, each binding once, deletes them in turn, then forgets the bindings. It fails, with 403, exactly when two bindings under the key share a room (the bot has left it by the second deletion) or some room bound to the key is one the server would not let the bot delete at the start. The server is as `DeletedEach` says: only the log, the members and the joined rooms change, and the log is a prefix of the run where every deletion goes through. On success the server is that run's and every bound room has been left, and the policy's bindings are gone. On failure every binding is kept. Rooms not bound under the key keep their members and stay joined |
| Secretary.MatrixSecretary.DeleteEach | secretary/secretary.py:54-55 | deleting rooms in turn fails, with 403, exactly when some room is listed twice or is one the server would not let the bot delete at the start; the new server is as `DeletedEach` describes |
| Secretary.DeletingNext | secretary/secretary.py:54-55 | one more deletion that went through keeps the loop's account: the rooms so far are listed once, the server is that of their deletions, each of them could be deleted at the start and is no longer joined, and rooms outside the list stay joined |
| Secretary.DeletingStopped | secretary/secretary.py:54-55 | a refused deletion means that room was deleted earlier in the loop or could not be deleted at the start, so not every room could be deleted once; the log so far is a prefix of the full run's |
| Secretary.StoppedEach | secretary/secretary.py:54-55 | when the loop stops at a refused room, rooms outside the list stay joined and keep their members, and the log so far is a prefix of the full run's |
| Secretary.RefusedRoom | secretary/secretary.py:54-55 | a room the loop cannot delete is a repeat or was not deletable at the start |
| Secretary.DeletingDone | secretary/secretary.py:54-55 | a loop that deleted every room leaves the server of the full run; the rooms were listed once and each could be deleted at the start |
| Secretary.DeletedAllGrows | secretary/secretary.py:54-55 | deleting more rooms only adds to the log |
| Secretary.DeletedAllLeaves | secretary/secretary.py:54-55 | every room of a run of deletions has been left, after whatever was logged before the run |
| Secretary.BoundAllowed | secretary/secretary.py:52-55 | for ids that are exactly the bound rooms, every id may be deleted exactly when every binding's room may |
| Secretary.DestroyedFacts | secretary/secretary.py:52-56 | deleting the fetched ids goes through exactly when no two bindings share a room and every bound room could be deleted, and then every bound room has been left |
| Secretary.BoundDistinct | secretary/secretary.py:52-54 | the ids fetched one per binding are listed once exactly when no two bindings under the key share a room |
| Secretary.MatrixSecretary.AmIAlone | secretary/secretary.py:103-107 | the answer for the members of a room the bot is in, or 403 for any other room |
| Secretary.MatrixSecretary.DeleteAllRooms | secretary/secretary.py:65-81 | it fails, with 403, exactly when some joined room's members cannot be read. Otherwise it deletes exactly the rooms the sweep chooses. A chosen room fails, with 403, exactly when the server would not have let the bot delete it at the start; every other chosen room is no longer joined. The report lists the failures. By `SweepLog`, the log is the start's plus, for each chosen room in turn, a prefix of `delete_room`'s writes for it, all of them when it did not fail. Unchosen rooms keep their members and stay joined |
| Secretary.MatrixSecretary.SweepRooms | secretary/secretary.py:69-77 | the loop over the joined rooms looks at them in order and stops, with 403, at the first whose members cannot be read; it otherwise looks at all of them. The sweep's account `Sweeping` holds for the rooms it looked at |
| Secretary.SweepStarts | secretary/secretary.py:69 | before the loop the sweep has chosen no room, recorded no failure and left the log as it was |
| Secretary.SweepEnded | secretary/secretary.py:69-81 | once the loop ends the server is valid, its log only grew and unchosen rooms keep their members. A chosen room failed exactly when the server would not have let the bot delete it, always with a 403. When every room was looked at, every one's members could be read and the chosen rooms are exactly the sweep's selection |
| Secretary.MatrixSecretary.SweepJoinedRoom | secretary/secretary.py:70-77 | one joined room: a member read failure is raised, with 403, and nothing changes. Otherwise the room joins the chosen ones exactly when `Chosen` says so; an unchosen room is left untouched. A chosen one is deleted, or a 403 is recorded exactly when the server refuses its deletion. The sweep's account `Sweeping` extends by the room |
| Secretary.MatrixSecretary.SweepRoom | secretary/secretary.py:73-77 | a chosen room the server lets the bot delete is no longer joined, with no failure recorded; any other gets exactly one failure, a 403, recorded instead of raised. The log gains a prefix of `delete_room`'s writes for the room, all of them on success |
| Secretary.SweepSelectionNext | secretary/secretary.py:70-72 | over one more joined room the selection grows by it exactly when it is chosen; a room listed once is not selected twice |
| Secretary.SweepingNext | secretary/secretary.py:70-77 | the sweep's account extends by one joined room, chosen or not |
| Secretary.SweptNext | secretary/secretary.py:73-77 | one more chosen room swept: deleted when the server allowed it, a 403 recorded otherwise, nothing else touched |
| Secretary.SweepLogNext | secretary/secretary.py:73-77 | sweeping one more chosen room adds its writes: a prefix of `delete_room`'s for the room as the sweep found it, all of them when no failure was recorded |
| Secretary.SweptLeft | secretary/secretary.py:73-77 | every chosen room the sweep did not fail on has been left |
| Secretary.MatrixSecretary.SetNoticeRoom | secretary/secretary.py:91-101 | the notice room becomes the given id; the reply says it already was, or names the previous room when there was a non-empty one |

## Left out

- Logging, the `verbose` flag and `get_logger`: they do not affect state.
  `create_room`'s warning about empty invitees is only logged.
- `load_example_policies`, `get_example_policies` and `download_file`: they
  read bundled example files or the network.
- `log_error`: it only formats a reply.
- The chat command dispatch of `secretary/__init__.py` and the policy schema
  are not part of this model. No policy is validated, and neither is the
  source.
- The upgrade-table machinery of `secretary/database.py`. Only the two tables
  and their primary keys are modelled.
- `json.dumps`/`json.loads` around the stored document are the identity.
  A policy is stored and returned as the same value.
- The setters of `_ensure_room_config` other than the name, and
  `_ensure_room_bot_actions`. Their bodies are empty, so they are modelled as
  doing nothing.
- `parent_spaces` are not modelled. The code always passes an empty list.
- Concurrency and await interleaving: every client call is one atomic step
  on the homeserver.
- Python's AttributeError on a non-dict value (for example `.items()` on a
  list) is folded into TypeError.
- `int()` of a string is modelled for non-empty decimal digit strings only.
  Signs, spaces and underscores are not modelled, and float values are not
  modelled.
- Secretary.MatrixSecretary.GetRoomFromDb: it reads the status of MForbidden
  as its `code`, which the model takes to be the HTTP status. Elsewhere the
  code builds MForbidden from `err.http_status` (secretary/rooms.py:57 and
  :67), so `code` may be another attribute or missing, and then reading it
  raises AttributeError. The mautrix exception classes are not part of this
  model.
- Client.MatrixClient.RemoveRoomAlias: the alias directory is not modelled
  as state. A removal is a logged write, and refusals come from a fixed set
  of protected localparts. The call never answers "not found", so the error
  path that `raise_404=True` opens (secretary/rooms.py:65) is not modelled.
  That is why every failure of Rooms.DeleteRoom,
  Secretary.MatrixSecretary.EnsurePolicyDestroyed and
  Secretary.MatrixSecretary.DeleteAllRooms is a 403.
- Rooms.DeleteAliasesAsWritten: a greedy localpart that names no alias (for
  `#room:example.org:8448`, the text `room:example.org`) is logged as a
  removal that succeeds. With `raise_404=True` the server would likely
  answer "not found" and the loop would raise there. The contract is weaker
  than the code on that path, because not-found answers are not modelled.
- Rooms.DeleteAliases and Rooms.DeleteRoom: they remove the corrected
  localpart (up to the first colon), not the text the greedy substitution
  leaves (see Findings). The deletions of
  Secretary.MatrixSecretary.EnsurePolicyDestroyed and
  Secretary.MatrixSecretary.DeleteAllRooms go through them, so they too
  state the corrected behaviour. The loop as written is
  Rooms.DeleteAliasesAsWritten.
- Secretary.MatrixSecretary.EnsureRoomConfig, Secretary.MatrixSecretary.EnsureRoom,
  Secretary.MatrixSecretary.ReconcileRoom and Secretary.MatrixSecretary.EnsurePolicy:
  they compose the corrected rename (Secretary.MatrixSecretary.SetRoomName) and the awaited invitations
  (Secretary.MatrixSecretary.EnsureRoomUsers). As written, the name is
  written on every pass and no invitation is sent (see Findings).
- Client.MatrixClient.LeaveRoom, Client.MatrixClient.ForgetRoom and
  Client.MatrixClient.GetJoinedRooms: they never fail in the model. A leave,
  forget or joined-rooms error from the server is not modelled, so
  `delete_room` can only fail on an alias removal or a kick.
- Client.MatrixClient.GetRoomName: the name of a room the bot has left stays
  readable, as the Matrix Client-Server API lets a former member read the
  state as of its leave. Rooms readable by anyone (`world_readable` history)
  are not modelled, so the members and aliases of a room the bot is not in
  are always refused.
- Client.MatrixClient.KickUser: a kick is not refused for a room the bot is
  not in. `delete_room` only kicks after the alias read, which already
  needs the bot in the room.
- Client.MatrixClient.InviteUser: invitations never fail and do not change
  membership. Membership only changes through creation, kicks and leaving.
- Secretary.SweepMessage: `str(err)` is approximated by `Describe`, the error
  kind's Matrix code. The report's exact text for an error is not modelled.
- Tables.Database.FetchRoomIdsOf and Tables.Database.FetchPolicyKeys: they
  return rows in no particular order, as SQL does. The model states set
  contents, not an order.
- Invitees.GroupMembers: a group value that is not a list iterates as Python
  would. A dict gives its keys (see Invitees.DictGroupExample) and a string
  gives its characters. The code's assumption that a group is a list of ids
  is not corrected in the model.
- A non-string key used as a user id or policy key raises TypeError in the
  model. Python would accept some of them as dict keys.
- Secretary.MatrixSecretary.EnsureAllPolicies: states only that the policies
  table is unchanged and the server stays valid. It does not state the
  bindings of each policy, because a later policy's pass can rebind an
  earlier policy's keys when two stored documents share a `policy_key`.
- Secretary.MatrixSecretary.CreateRoom: it models the corrected call. The
  room policy's settings, defaults filled in, go to an abstract room
  creation (`PolicyRequest`) instead of through `rooms.create_room`'s
  parameters. The as-written call is Secretary.CreateCallAsWritten.
- Secretary.MatrixSecretary.EnsurePolicy: the name promise covers only the
  rooms whose bound id no later room key of the policy shares
  (`LastBinding`). When two room keys end up bound to the same room, the
  later pass renames it, and the earlier key's name is not promised.
- Secretary.MatrixSecretary.DeleteAllRooms: the chosen and failed rooms are
  ghost out-parameters. The statement about them is about the sweep's
  decisions, not values the code returns.

## Findings

| source | as written | input that shows it | evidently intended | confidence | as-written member | corrected member |
|---|---|---|---|---|---|---|
| secretary/secretary.py:205-214 | `_set_room_name` compares the whole GET response (the content dict `{'name': ...}`) with the wanted name, so the two never compare equal for a string name | a room already named "Office" with policy `room_name: "Office"`: the name is written again on every reconciliation, and once `delete_all_rooms` has left that bound room the write is refused and the pass raises 403 | compare the response's `name` field, and write only when it differs | high, not executed | Secretary.MatrixSecretary.SetRoomNameAsWritten, Secretary.RenameAsWrittenAlwaysWrites | Secretary.MatrixSecretary.SetRoomName, Secretary.RenameIdempotent |
| secretary/secretary.py:237-239 | `_ensure_room_users` calls the coroutine `invite_user` without `await`, so the invitation is never sent | any room policy with at least one invitee: no invitation reaches the server | await each invitation | high, not executed | Secretary.MatrixSecretary.EnsureRoomUsersAsWritten | Secretary.MatrixSecretary.EnsureRoomUsers, Secretary.InvitationsInvite |
| secretary/rooms.py:63 | the greedy `#(.*):.*` keeps everything up to the last colon; the removal of that text (with `raise_404=True`) would likely fail with "not found", which the model does not represent | alias `#room:example.org:8448` gives localpart `room:example.org` | the localpart is the text between `#` and the first colon (`room`) | medium, not executed | Rooms.AliasLocalpartAsWritten, Rooms.AliasWithPortExample, Rooms.DeleteAliasesAsWritten, Rooms.AliasRemovalsWithPort | Rooms.AliasLocalpart, Rooms.AliasLocalpartRoundTrip, Rooms.DeleteAliases |
| secretary/secretary.py:168-184 | `_create_room` passes `is_space` by keyword after four positional arguments, and passes keywords `create_room` does not have (rooms.py:10-17) | any room policy, mxid `@secretary:x.org`: TypeError (for an mxid without a colon, IndexError first) | create the room from the policy's settings, defaults filled in | high, not executed | Secretary.CreateCallAsWritten, Secretary.CreateCallAsWrittenFails | Secretary.MatrixSecretary.CreateRoom, Secretary.CreateOutcome |
