/** secretary/secretary.py: the MatrixSecretary, which reconciles the rooms a
    stored policy describes with the homeserver, keeps the bindings from
    (policy_key, room_key) to Matrix room ids, and sweeps abandoned rooms. */
module Secretary {
  import opened Results
  import opened Seqs
  import opened Dicts
  import opened Documents
  import opened Client
  import opened Tables
  import opened Invitees
  import Rooms

  // ---------------------------------------------------------------- _am_i_alone

  predicate IsOtherBot(m: string, mxid: string) {
    StartsWith(m, "@bot.") && m != mxid
  }

  /** The comprehension of `_am_i_alone`: with `ignoreBots`, members whose id
      starts with `@bot.` are dropped, except the secretary itself. */
  function Remaining(members: seq<string>, mxid: string, ignoreBots: bool): (r: seq<string>)
    ensures forall m :: m in r <==> m in members && !(ignoreBots && IsOtherBot(m, mxid))
    ensures Count(r, mxid) == Count(members, mxid)
    ensures !ignoreBots ==> r == members
  {
    if members == [] then []
    else if ignoreBots && IsOtherBot(members[0], mxid) then Remaining(members[1..], mxid, ignoreBots)
    else [members[0]] + Remaining(members[1..], mxid, ignoreBots)
  }

  /** `_am_i_alone`: exactly the secretary remains. */
  predicate Alone(members: seq<string>, mxid: string, ignoreBots: bool) {
    var r := Remaining(members, mxid, ignoreBots);
    |r| == 1 && r[0] == mxid
  }

  lemma {:induction false} CountAll(s: seq<string>, x: string)
    requires forall y :: y in s ==> y == x
    ensures Count(s, x) == |s|
  {
    if s != [] {
      assert s[0] in s;
      assert forall y :: y in s[1..] ==> y in s;
      CountAll(s[1..], x);
    }
  }

  lemma {:induction false} CountPositive(s: seq<string>, x: string)
    ensures Count(s, x) > 0 <==> x in s
  {
    if s != [] {
      CountPositive(s[1..], x);
      assert s == [s[0]] + s[1..];
    }
  }

  /** Ignoring bots, the secretary is alone exactly when it is a member once
      and every other member is a bot. */
  lemma AloneIgnoringBots(members: seq<string>, mxid: string)
    ensures Alone(members, mxid, true) <==>
      Count(members, mxid) == 1 && forall m :: m in members && m != mxid ==> StartsWith(m, "@bot.")
  {
    var r := Remaining(members, mxid, true);
    if Alone(members, mxid, true) {
      assert r == [mxid];
      assert Count(r, mxid) == 1;
    }
    if Count(members, mxid) == 1 && forall m :: m in members && m != mxid ==> StartsWith(m, "@bot.") {
      assert forall y :: y in r ==> y == mxid;
      CountAll(r, mxid);
      assert |r| == 1;
      assert r[0] in r;
    }
  }

  /** Without ignoring bots, alone means the members are just the secretary. */
  lemma AloneStrict(members: seq<string>, mxid: string)
    ensures Alone(members, mxid, false) <==> members == [mxid]
  {
  }

  // ---------------------------------------------------------------- _create_room

  /** `room_policy[key] if key in room_policy else default`. */
  function Setting(roomPolicy: Dict<Json>, key: string, default: Json): (v: Json)
    ensures key in Keys(roomPolicy) ==> Get(roomPolicy, key) == Some(v)
    ensures key !in Keys(roomPolicy) ==> v == default
  {
    match Get(roomPolicy, key)
    case Some(v) => v
    case None => default
  }

  /** `mxid.split(':')[1]`: the text between the first colon and the next
      one; an id without a colon has no second part. */
  function ServerPart(mxid: string): (r: Result<string>)
    ensures r.Err? <==> ':' !in mxid
    ensures r.Err? ==> r.error == IndexError
    ensures r.Ok? ==> ':' !in r.value
    ensures r.Ok? ==> var k := FirstIndex(mxid, ':');
      && StartsWith(mxid[k + 1..], r.value)
      && (k + 1 + |r.value| == |mxid| || mxid[k + 1 + |r.value|] == ':')
  {
    var k := FirstIndex(mxid, ':');
    if k == |mxid| then Err(IndexError)
    else
      var rest := mxid[k + 1..];
      var e := FirstIndex(rest, ':');
      assert forall i :: 0 <= i < e ==> rest[..e][i] == rest[i];
      Ok(rest[..e])
  }

  /** The arguments `_create_room` takes from a room policy, each key that
      is missing replaced by its default. */
  function CreateArguments(mxid: string, roomPolicy: Dict<Json>): (r: Result<RoomSettings>)
    ensures r.Err? <==> ':' !in mxid
    ensures r.Ok? ==> r.value.serverName == ServerPart(mxid).value && r.value.parentSpaces == []
    ensures r.Ok? && "room_name" !in Keys(roomPolicy) ==> r.value.roomName == JStr("Pretty Placeholder")
    ensures r.Ok? && "invitees" !in Keys(roomPolicy) ==> r.value.invitees == JObj([])
    ensures r.Ok? && "join_rule" !in Keys(roomPolicy) ==> r.value.joinRule == JStr("restricted")
    ensures r.Ok? && "topic" !in Keys(roomPolicy) ==> r.value.topic == JStr("")
    ensures r.Ok? && "encrypted" !in Keys(roomPolicy) ==> r.value.encrypt == JBool(false)
  {
    var serverName :- ServerPart(mxid);
    Ok(RoomSettings(
      roomName := Setting(roomPolicy, "room_name", JStr("Pretty Placeholder")),
      invitees := Setting(roomPolicy, "invitees", JObj([])),
      serverName := serverName,
      isSpace := Setting(roomPolicy, "is_space", JBool(false)),
      parentSpaces := [],
      alias := Setting(roomPolicy, "alias", JNull),
      topic := Setting(roomPolicy, "topic", JStr("")),
      suggested := Setting(roomPolicy, "suggested", JBool(false)),
      joinRule := Setting(roomPolicy, "join_rule", JStr("restricted")),
      encrypt := Setting(roomPolicy, "encrypted", JBool(false))))
  }

  /** The parameters of rooms.create_room, in order. */
  const CreateRoomParameters: seq<string> := ["client", "room_name", "invitees", "is_space", "topic", "encrypt", "logger"]

  /** The keyword arguments `_create_room` passes after its four positional
      ones. */
  const CreateRoomKeywords: seq<string> := ["is_space", "parent_spaces", "alias", "topic", "suggested", "join_rule", "encrypt"]

  /** Python's binding of a call with `positional` positional arguments and
      the given keyword arguments to a parameter list without `*args` or
      `**kwargs`: too many positional arguments, a keyword that names no
      parameter, and a keyword for a parameter already filled positionally
      all raise TypeError. */
  function BindArguments(parameters: seq<string>, positional: nat, keywords: seq<string>): (r: Result<()>)
    ensures r.Ok? <==> positional <= |parameters| && forall k :: k in keywords ==> k in parameters[positional..]
  {
    if positional > |parameters| then Err(TypeError)
    else if keywords == [] then Ok(())
    else if keywords[0] !in parameters[positional..] then Err(TypeError)
    else BindArguments(parameters, positional, keywords[1..])
  }

  /** The call in `_create_room` as written: its arguments are evaluated,
      then bound to rooms.create_room's parameters. */
  function CreateCallAsWritten(mxid: string, roomPolicy: Dict<Json>): Result<()> {
    var settings :- CreateArguments(mxid, roomPolicy);
    BindArguments(CreateRoomParameters, 4, CreateRoomKeywords)
  }

  /** As written, the call never reaches the client: `is_space` is already
      bound to the fourth positional argument (and `parent_spaces`, `alias`,
      `suggested` and `join_rule` are no parameters), so it raises TypeError,
      or IndexError first for an id without a colon. */
  lemma CreateCallAsWrittenFails(mxid: string, roomPolicy: Dict<Json>)
    ensures CreateCallAsWritten(mxid, roomPolicy) == Err(if ':' in mxid then TypeError else IndexError)
  {
    assert CreateRoomParameters[4..] == ["topic", "encrypt", "logger"];
    assert CreateRoomKeywords[0] == "is_space";
    assert "is_space" !in CreateRoomParameters[4..];
  }

  // ---------------------------------------------------------------- _set_room_name

  /** The corrected comparison of `_set_room_name`: the `name` of the state
      content differs from the wanted value. */
  predicate NameDiffers(content: Json, value: Json) {
    !(content.JObj? && Get(content.fields, "name") == Some(value))
  }

  /** The comparison as written, `not room_name == value`: the whole content
      dict against the value. */
  predicate NameDiffersAsWritten(content: Json, value: Json) {
    content != value
  }

  /** `_set_room_name` with the corrected comparison, on a server: the name
      is read, and written only when it differs from the wanted one; the
      write is refused with a 403 when the bot is not in the room. A failure
      changes nothing. */
  function RenameOutcome(s: Server, roomId: string, value: Json): (o: (Result<()>, Server))
    ensures o.1 == s.(names := o.1.names, log := o.1.log)
    ensures o.0.Ok? <==> roomId !in s.stateErrors && roomId in s.names && (s.names[roomId] == value || roomId in s.joined)
    ensures o.0.Ok? ==> o.1.names == s.names[roomId := value]
    ensures o.0.Err? ==> o.1 == s
    ensures roomId !in s.stateErrors && roomId in s.names && s.names[roomId] != value && roomId !in s.joined ==>
      o.0 == Err(Forbidden(403))
    ensures o.1.log != s.log <==>
      roomId !in s.stateErrors && roomId in s.names && s.names[roomId] != value && roomId in s.joined
    ensures o.1.log == s.log || o.1.log == s.log + [PutName(roomId, [("name", value)])]
  {
    if roomId in s.stateErrors then (Err(s.stateErrors[roomId]), s)
    else if roomId !in s.names then (Err(NotFound), s)
    else if !NameDiffers(JObj([("name", s.names[roomId])]), value) then (Ok(()), s)
    else if roomId !in s.joined then (Err(Forbidden(403)), s)
    else (Ok(()), s.(names := s.names[roomId := value], log := s.log + [PutName(roomId, [("name", value)])]))
  }

  /** `_set_room_name` as written, on a server. */
  function RenameOutcomeAsWritten(s: Server, roomId: string, value: Json): (Result<()>, Server) {
    if roomId in s.stateErrors then (Err(s.stateErrors[roomId]), s)
    else if roomId !in s.names then (Err(NotFound), s)
    else if !NameDiffersAsWritten(JObj([("name", s.names[roomId])]), value) then (Ok(()), s)
    else if roomId !in s.joined then (Err(Forbidden(403)), s)
    else (Ok(()), s.(names := s.names[roomId := value], log := s.log + [PutName(roomId, [("name", value)])]))
  }

  /** Renaming twice writes once: after a successful reconciliation the
      name matches and a second pass issues nothing. */
  lemma RenameIdempotent(s: Server, roomId: string, value: Json)
    requires RenameOutcome(s, roomId, value).0.Ok?
    ensures RenameOutcome(RenameOutcome(s, roomId, value).1, roomId, value) == (Ok(()), RenameOutcome(s, roomId, value).1)
  {
    var t := RenameOutcome(s, roomId, value).1;
    assert t.names[roomId] == value;
    assert Get([("name", value)], "name") == Some(value);
  }

  /** As written, a room whose name already is the wanted string is renamed
      again on every pass, because the content dict never equals a string:
      the write goes out while the bot is in the room, and once it has left
      (a room `delete_all_rooms` swept while its binding stayed) the write is
      refused and the pass fails with a 403. The corrected comparison
      writes nothing and succeeds either way. */
  lemma RenameAsWrittenAlwaysWrites(s: Server, roomId: string, name: string)
    requires roomId !in s.stateErrors && roomId in s.names && s.names[roomId] == JStr(name)
    ensures roomId in s.joined ==>
      RenameOutcomeAsWritten(s, roomId, JStr(name)).1.log == s.log + [PutName(roomId, [("name", JStr(name))])]
    ensures roomId !in s.joined ==> RenameOutcomeAsWritten(s, roomId, JStr(name)) == (Err(Forbidden(403)), s)
    ensures RenameOutcome(s, roomId, JStr(name)) == (Ok(()), s)
  {
  }

  /** The setting keys `_ensure_room_config` hands to setters that do
      nothing. */
  const StubSettings: set<string> := {"avatar_url", "topic", "join_rule", "history_visibility", "guest_access", "encryption", "alias"}

  // ---------------------------------------------------------------- _ensure_room_users

  /** `for user in room_policy['invitees']`, as user ids. */
  function InviteeIds(roomPolicy: Dict<Json>): Result<seq<string>> {
    var invitees :- Field(roomPolicy, "invitees");
    var items :- Iterate(invitees);
    Strings(items)
  }

  /** One invitation per user, in order. */
  function Invitations(roomId: string, users: seq<string>): seq<Write> {
    if users == [] then [] else [Invite(roomId, users[0])] + Invitations(roomId, users[1..])
  }

  /** One invitation into `roomId` per user, and every user is invited. */
  lemma {:induction false} InvitationsInvite(roomId: string, users: seq<string>)
    ensures |Invitations(roomId, users)| == |users|
    ensures forall u :: u in users <==> Invite(roomId, u) in Invitations(roomId, users)
    ensures forall w :: w in Invitations(roomId, users) ==> w.Invite? && w.roomId == roomId
  {
    if users != [] {
      InvitationsInvite(roomId, users[1..]);
      assert users == [users[0]] + users[1..];
    }
  }

  /** Of an expanded invitees dict, the keys are invited. */
  lemma InviteeIdsOfExpanded(roomPolicy: Dict<Json>, invitees: Dict<Json>)
    requires Get(roomPolicy, "invitees") == Some(JObj(invitees))
    ensures InviteeIds(roomPolicy) == Ok(Keys(invitees))
  {
    KeysLength(invitees);
    forall i | 0 <= i < |invitees| ensures KeyValues(invitees)[i] == JStr(Keys(invitees)[i]) {
      KeysAt(invitees, i);
    }
    StringsOf(KeyValues(invitees), Keys(invitees));
  }

  // ---------------------------------------------------------------- policies

  /** `policy['policy_key']`, used as a text key. */
  function PolicyKeyOf(policy: Json): Result<string> {
    var key :- Index(policy, "policy_key");
    AsString(key)
  }

  /** `policy['rooms']`, used as a dict. */
  function RoomsOf(policy: Json): Result<Dict<Json>> {
    var rooms :- Index(policy, "rooms");
    AsDict(rooms)
  }

  /** The room keys of a policy that has a rooms dict. */
  function RoomKeys(policy: Json): seq<string> {
    match RoomsOf(policy)
    case Ok(rooms) => Keys(rooms)
    case Err(_) => []
  }

  /** The policy key of a policy that has a text one. */
  function KeyText(policy: Json): string {
    match PolicyKeyOf(policy)
    case Ok(key) => key
    case Err(_) => ""
  }

  /** What `_get_room_from_db` answers for the binding `key`. */
  function Lookup(s: Server, rooms: map<(string, string), string>, key: (string, string)): (r: Result<string>)
    ensures r.Ok? <==> key in rooms && rooms[key] !in s.stateErrors
    ensures r.Ok? ==> r.value == rooms[key]
    ensures s.Valid() && r.Err? ==>
      (r.error == DatabaseEntryNotFound <==> key !in rooms || s.stateErrors[rooms[key]] == Forbidden(403))
  {
    if key !in rooms then Err(DatabaseEntryNotFound)
    else if rooms[key] !in s.stateErrors then Ok(rooms[key])
    else if s.stateErrors[rooms[key]] == Forbidden(403) then Err(DatabaseEntryNotFound)
    else Err(s.stateErrors[rooms[key]])
  }

  /** What `_create_room` does on a server: the new room's id, or the error,
      and the server after. A created room is new, is joined, and is the one
      write added to the log. */
  function CreateOutcome(s: Server, mxid: string, roomPolicy: Dict<Json>): (o: (Result<string>, Server))
    ensures o.0.Err? ==> o.1 == s
    ensures o.0.Ok? ==> CreateArguments(mxid, roomPolicy).Ok?
    ensures o.0.Ok? ==> o.1.log == s.log + [Create(PolicyRequest(CreateArguments(mxid, roomPolicy).value), o.0.value)]
    ensures o.0.Ok? ==> o.0.value in o.1.joined && (s.Valid() ==> o.0.value !in s.joined)
    ensures s.Valid() ==> o.1.Valid()
  {
    match CreateArguments(mxid, roomPolicy)
    case Err(e) => (Err(e), s)
    case Ok(args) =>
      if s.idSupply == [] then (Err(ServerError), s)
      else
        assert s.idSupply[0] in s.idSupply;
        (Ok(s.idSupply[0]), Created(s, mxid, PolicyRequest(args)))
  }

  // ---------------------------------------------------------------- ensure_policy on a server

  /** What `_ensure_room_exists` does to the server and the bindings: the
      looked-up room, untouched, unless the lookup reports a missing
      binding; then a room is created and bound under `key`, and a failed
      creation leaves `key` unbound. */
  function ExistsOutcome(s: Server, rooms: map<(string, string), string>, mxid: string, key: (string, string),
                         roomPolicy: Dict<Json>): (Result<string>, Server, map<(string, string), string>)
  {
    var found := Lookup(s, rooms, key);
    if found != Err(DatabaseEntryNotFound) then (found, s, rooms)
    else
      var created := CreateOutcome(s, mxid, roomPolicy);
      (created.0, created.1, if created.0.Ok? then rooms[key := created.0.value] else rooms - {key})
  }

  /** The name a room policy asks for, when it has a `room_name` setting. */
  function WantedName(roomPolicy: Dict<Json>): Option<Json> {
    if "room_name" in Keys(roomPolicy) then Some(Setting(roomPolicy, "room_name", JNull)) else None
  }

  /** `WantedName` of a room policy given as a document. */
  function WantedNameOf(roomPolicy: Json): Option<Json> {
    if roomPolicy.JObj? then WantedName(roomPolicy.fields) else None
  }

  /** What `_ensure_room_config` does to the server: the rename, when a
      name is asked for. */
  function ConfigOutcome(s: Server, roomId: string, roomPolicy: Dict<Json>): (Result<()>, Server) {
    match WantedName(roomPolicy)
    case None => (Ok(()), s)
    case Some(name) => RenameOutcome(s, roomId, name)
  }

  /** The pass once the invitees are expanded into the room policy: the
      room exists and is bound, its name is reconciled, and one invitation
      per user in `users` is added to the log. */
  function ReconcileOutcome(s: Server, rooms: map<(string, string), string>, mxid: string, key: (string, string),
                            roomPolicy: Dict<Json>, users: seq<string>): (Result<()>, Server, map<(string, string), string>)
  {
    var found := ExistsOutcome(s, rooms, mxid, key, roomPolicy);
    if found.0.Err? then (Err(found.0.error), found.1, found.2)
    else
      var configured := ConfigOutcome(found.1, found.0.value, roomPolicy);
      if configured.0.Err? then (configured.0, configured.1, found.2)
      else (Ok(()), configured.1.(log := configured.1.log + Invitations(found.0.value, users)), found.2)
  }

  /** One pass of `ensure_policy`'s loop for the room `roomKey` of `policy`:
      expand the invitees, write them back into the room policy, read the
      policy key, then reconcile. */
  function PassOutcome(s: Server, rooms: map<(string, string), string>, mxid: string, policy: Json,
                       roomKey: string, roomPolicy: Json): (Result<()>, Server, map<(string, string), string>)
  {
    match RoomInvitees(policy, roomPolicy)
    case Err(e) => (Err(e), s, rooms)
    case Ok(invitees) =>
      match PolicyKeyOf(policy)
      case Err(e) => (Err(e), s, rooms)
      case Ok(pk) =>
        ReconcileOutcome(s, rooms, mxid, (pk, roomKey), Put(roomPolicy.fields, "invitees", JObj(invitees)), Keys(invitees))
  }

  /** The passes over `entries` in order; the first failing pass ends the
      run with its error. */
  function PolicyOutcome(s: Server, rooms: map<(string, string), string>, mxid: string, policy: Json,
                         entries: seq<(string, Json)>): (Result<()>, Server, map<(string, string), string>)
    decreases |entries|
  {
    if entries == [] then (Ok(()), s, rooms)
    else
      var before := PolicyOutcome(s, rooms, mxid, policy, entries[..|entries| - 1]);
      if before.0.Err? then before
      else PassOutcome(before.1, before.2, mxid, policy, entries[|entries| - 1].0, entries[|entries| - 1].1)
  }

  /** `ensure_policy` on a stored policy: a policy without a rooms dict
      fails before any pass. */
  function PolicyRun(s: Server, rooms: map<(string, string), string>, mxid: string, policy: Json)
    : (Result<()>, Server, map<(string, string), string>)
  {
    match RoomsOf(policy)
    case Err(e) => (Err(e), s, rooms)
    case Ok(entries) => PolicyOutcome(s, rooms, mxid, policy, entries)
  }

  /** What every pass keeps, whatever its outcome: a valid server, a log
      that only grows, every joined room still joined, and all bindings
      but `key` as they were. */
  ghost predicate PassKeeps(s: Server, t: Server, rooms: map<(string, string), string>,
                            after: map<(string, string), string>, key: (string, string))
  {
    && t.Valid()
    && s.log <= t.log
    && (forall x :: x in s.joined ==> x in t.joined)
    && after - {key} == rooms - {key}
  }

  /** What a successful pass leaves: `key` is bound, the bound room carries
      the wanted name, every user is invited into it, and no other room's
      name changed. */
  ghost predicate PassDone(s: Server, t: Server, after: map<(string, string), string>, key: (string, string),
                           wanted: Option<Json>, users: seq<string>)
  {
    && key in after
    && (wanted.Some? ==> after[key] in t.names && t.names[after[key]] == wanted.value)
    && (forall u :: u in users ==> Invite(after[key], u) in t.log)
    && (forall x :: x in s.names && x != after[key] ==> x in t.names && t.names[x] == s.names[x])
  }

  /** Room `entry` of `policy` is bound under the policy key and every
      expanded invitee of it is invited into the bound room. */
  ghost predicate Invited(t: Server, after: map<(string, string), string>, policy: Json, entry: (string, Json)) {
    && PolicyKeyOf(policy).Ok?
    && (KeyText(policy), entry.0) in after
    && RoomInvitees(policy, entry.1).Ok?
    && forall u :: u in Keys(RoomInvitees(policy, entry.1).value) ==>
         Invite(after[(KeyText(policy), entry.0)], u) in t.log
  }

  /** No room after entry `j` is bound to the same room id as entry `j`. */
  ghost predicate LastBinding(after: map<(string, string), string>, pk: string, entries: seq<(string, Json)>, j: nat) {
    forall j' :: j < j' < |entries| && (pk, entries[j'].0) in after && (pk, entries[j].0) in after ==>
      after[(pk, entries[j'].0)] != after[(pk, entries[j].0)]
  }

  /** The sweep's choice: every joined room but the notice room, and with
      `onlyAbandoned` only those where the secretary is alone among
      non-bots. */
  function SweepSelection(joined: seq<string>, members: map<string, seq<string>>, notice: Option<string>,
                          onlyAbandoned: bool, mxid: string): seq<string>
  {
    if joined == [] then []
    else
      var n := |joined| - 1;
      SweepSelection(joined[..n], members, notice, onlyAbandoned, mxid)
        + (if Chosen(joined[n], members, notice, onlyAbandoned, mxid) then [joined[n]] else [])
  }

  /** The sweep chooses exactly the joined rooms `Chosen` admits. */
  lemma {:induction false} SweepSelectionMembers(joined: seq<string>, members: map<string, seq<string>>, notice: Option<string>,
                                                 onlyAbandoned: bool, mxid: string)
    ensures forall room :: room in SweepSelection(joined, members, notice, onlyAbandoned, mxid) <==>
      room in joined && Chosen(room, members, notice, onlyAbandoned, mxid)
  {
    if joined != [] {
      var n := |joined| - 1;
      SweepSelectionMembers(joined[..n], members, notice, onlyAbandoned, mxid);
      assert joined == joined[..n] + [joined[n]];
    }
  }

  predicate Chosen(room: string, members: map<string, seq<string>>, notice: Option<string>, onlyAbandoned: bool, mxid: string) {
    && notice != Some(room)
    && (!onlyAbandoned || (room in members && Alone(members[room], mxid, true)))
  }

  const Done := "Done clearing old rooms!"

  /** The text of an exception in the sweep's report. */
  function Describe(e: Error): string {
    match e
    case Forbidden(_) => "M_FORBIDDEN"
    case NotFound => "M_NOT_FOUND"
    case _ => "error"
  }

  /** `f"{r}: {e}"` for each failure. */
  function FailureLines(failed: seq<(string, Error)>): seq<string> {
    seq(|failed|, i requires 0 <= i < |failed| => failed[i].0 + ": " + Describe(failed[i].1))
  }

  /** The sweep's closing message: it lists the failures exactly when there
      are some. */
  function SweepMessage(failed: seq<(string, Error)>): (msg: string)
    ensures msg == Done <==> failed == []
    ensures Done <= msg
  {
    if |failed| > 0 then Done + (" \n... except for:\n  " + Join("\n  ", FailureLines(failed))) else Done
  }

  /** No failure was recorded for `room`. */
  ghost predicate Succeeded(room: string, failures: seq<(string, Error)>) {
    forall e :: (room, e) !in failures
  }

  /** The sweep after looking at the first `i` joined rooms: each could
      have its members read, it chose exactly the ones `Chosen` admits for
      the secretary's own id `me`, and what it did to them is as `Swept` and
      `SweepLog` say. */
  ghost predicate Sweeping(s: Server, s0: Server, mxid: string, joined: seq<string>, i: nat, notice: Option<string>,
                           onlyAbandoned: bool, me: string, selected: seq<string>, failures: seq<(string, Error)>,
                           parts: seq<seq<Write>>) {
    && i <= |joined|
    && (forall j :: 0 <= j < i ==> joined[j] in s0.members)
    && selected == SweepSelection(joined[..i], s0.members, notice, onlyAbandoned, me)
    && Swept(s, s0, mxid, selected, failures)
    && SweepLog(s, s0, mxid, selected, failures, parts)
  }

  /** Before the sweep has looked at any room it has chosen none, failed
      nowhere and written nothing. */
  lemma SweepStarts(s0: Server, mxid: string, joined: seq<string>, notice: Option<string>, onlyAbandoned: bool,
                    me: string)
    requires s0.Valid()
    ensures Sweeping(s0, s0, mxid, joined, 0, notice, onlyAbandoned, me, [], [], [])
  {
    assert joined[..0] == [];
    assert s0.log + Flatten([]) == s0.log;
  }

  /** Looking at one more joined room, whose members could be read: the
      sweep goes on with that room chosen or not. */
  lemma SweepingNext(s: Server, t: Server, s0: Server, mxid: string, joined: seq<string>, i: nat,
                     notice: Option<string>, onlyAbandoned: bool, me: string, selected: seq<string>,
                     failures: seq<(string, Error)>, parts: seq<seq<Write>>, chosen: bool,
                     updated: seq<(string, Error)>, extended: seq<seq<Write>>)
    requires i < |joined| && Distinct(joined) && joined[i] in s0.members
    requires Sweeping(s, s0, mxid, joined, i, notice, onlyAbandoned, me, selected, failures, parts)
    requires chosen == Chosen(joined[i], s0.members, notice, onlyAbandoned, me)
    requires !chosen ==> t == s && updated == failures && extended == parts
    requires chosen ==> Swept(t, s0, mxid, selected + [joined[i]], updated)
    requires chosen ==> SweepLog(t, s0, mxid, selected + [joined[i]], updated, extended)
    ensures Sweeping(t, s0, mxid, joined, i + 1, notice, onlyAbandoned, me,
                     if chosen then selected + [joined[i]] else selected, updated, extended)
  {
    SweepSelectionNext(joined, i, s0.members, notice, onlyAbandoned, me);
  }

  /** What the sweep has done so far, against the server `s0` it started
      from: the chosen rooms that failed are exactly those the server would
      not let it delete, each with a 403; every other chosen room is no
      longer joined (and has been left, by `SweptLeft`); the rooms not
      chosen are untouched. */
  ghost predicate Swept(s: Server, s0: Server, mxid: string, selected: seq<string>, failures: seq<(string, Error)>) {
    && s.Valid()
    && SweepFrame(s, s0, selected)
    && FailedExactly(s0, mxid, selected, failures)
    && (forall room :: room in selected && Succeeded(room, failures) ==> room !in s.joined)
  }

  /** The sweep changes only the log, the joined rooms and the members of
      the rooms it has chosen; a room it has not chosen stays joined. */
  ghost predicate SweepFrame(s: Server, s0: Server, selected: seq<string>) {
    && s.aliases == s0.aliases && s.protectedAliases == s0.protectedAliases && s.unkickable == s0.unkickable
    && s.members.Keys == s0.members.Keys
    && (forall room :: room in s0.members && room !in selected ==> s.members[room] == s0.members[room])
    && (forall room :: room in s0.joined && room !in selected ==> room in s.joined)
  }

  /** The sweep's writes: for each chosen room in turn, `delete_room`'s
      writes for it as the sweep found it, all of them for a room that was
      deleted and a prefix of them for one that failed. */
  ghost predicate SweepLog(s: Server, s0: Server, mxid: string, selected: seq<string>, failures: seq<(string, Error)>,
                           parts: seq<seq<Write>>) {
    && |parts| == |selected|
    && s.log == s0.log + Flatten(parts)
    && (forall k :: 0 <= k < |parts| ==> parts[k] <= Rooms.DeletionWrites(s0, mxid, selected[k]))
    && (forall k :: 0 <= k < |parts| && Succeeded(selected[k], failures) ==>
          parts[k] == Rooms.DeletionWrites(s0, mxid, selected[k]))
  }

  /** The runs of writes, one after the other. */
  function Flatten(parts: seq<seq<Write>>): seq<Write>
    decreases |parts|
  {
    if parts == [] then [] else Flatten(parts[..|parts| - 1]) + parts[|parts| - 1]
  }

  /** The sweep only appends to the log. */
  lemma SweepLogGrows(s: Server, s0: Server, mxid: string, selected: seq<string>, failures: seq<(string, Error)>,
                      parts: seq<seq<Write>>)
    requires SweepLog(s, s0, mxid, selected, failures, parts)
    ensures s0.log <= s.log
  {
  }

  /** Every chosen room the sweep did not fail on has been left. */
  lemma SweptLeft(s: Server, s0: Server, mxid: string, selected: seq<string>, failures: seq<(string, Error)>,
                  parts: seq<seq<Write>>)
    requires SweepLog(s, s0, mxid, selected, failures, parts)
    ensures forall room :: room in selected && Succeeded(room, failures) ==> Leave(room) in s.log
  {
    forall room | room in selected && Succeeded(room, failures) ensures Leave(room) in s.log {
      var k :| 0 <= k < |selected| && selected[k] == room;
      assert Leave(room) in Rooms.DeletionWrites(s0, mxid, room);
      FlattenHas(parts, k, Leave(room));
    }
  }

  /** A write of one run is among the runs flattened. */
  lemma {:induction false} FlattenHas(parts: seq<seq<Write>>, k: nat, w: Write)
    requires k < |parts| && w in parts[k]
    ensures w in Flatten(parts)
    decreases |parts|
  {
    var n := |parts| - 1;
    if k < n {
      FlattenHas(parts[..n], k, w);
    }
  }

  /** The failures are about chosen rooms, each a 403, and a chosen room has
      one exactly when the server would not let the bot delete it. */
  ghost predicate FailedExactly(s0: Server, mxid: string, selected: seq<string>, failures: seq<(string, Error)>) {
    && (forall f :: f in failures ==> f.0 in selected && f.1 == Forbidden(403))
    && (forall room :: room in selected ==> (Succeeded(room, failures) <==> Rooms.DeletionAllowed(s0, mxid, room)))
  }

  // ---------------------------------------------------------------- set_notice_room

  /** Python truthiness of the previous notice room. */
  predicate Truthy(room: Option<string>) {
    room.Some? && room.value != ""
  }

  class MatrixSecretary {
    const client: MatrixClient
    const database: Database
    const mxid: string
    var noticeRoom: Option<string>

    constructor (client: MatrixClient, database: Database)
      ensures this.client == client && this.database == database
      ensures mxid == client.mxid && noticeRoom == None
    {
      this.client := client;
      this.database := database;
      this.mxid := client.mxid;
      this.noticeRoom := None;
    }

    // ------------------------------------------------------------ policies

    /** `get_policy` / `_get_policy_from_db`: the stored document, or
        DatabaseEntryNotFound for a key with no row. */
    method GetPolicy(policyKey: string) returns (r: Result<Json>)
      ensures policyKey in database.policies ==> r == Ok(database.policies[policyKey])
      ensures policyKey !in database.policies ==> r == Err(DatabaseEntryNotFound)
    {
      var row := database.FetchPolicy(policyKey);
      if row.None? {
        return Err(DatabaseEntryNotFound);
      }
      r := Ok(row.value);
    }

    /** `_add_policy_to_db`: the key ends with one row holding this
        document; a document without a text `policy_key` raises first. */
    method AddPolicyToDb(policy: Json) returns (r: Result<()>)
      modifies database
      ensures r.Ok? <==> PolicyKeyOf(policy).Ok?
      ensures r.Err? ==> r.error == PolicyKeyOf(policy).error && database.policies == old(database.policies)
      ensures r.Ok? ==> database.policies == old(database.policies)[PolicyKeyOf(policy).value := policy]
      ensures database.rooms == old(database.rooms)
    {
      var key :- Index(policy, "policy_key");
      var policyKey :- AsString(key);
      database.UpsertPolicy(policyKey, policy);
      r := Ok(());
    }

    /** `add_policy`: stores the document and returns its key, under which
        `get_policy` then finds it. */
    method AddPolicy(policy: Json) returns (r: Result<string>)
      modifies database
      ensures r == PolicyKeyOf(policy)
      ensures r.Ok? ==> r.value in database.policies && database.policies[r.value] == policy
      ensures r.Ok? ==> database.policies == old(database.policies)[r.value := policy]
      ensures r.Err? ==> database.policies == old(database.policies)
      ensures database.rooms == old(database.rooms)
    {
      var added := AddPolicyToDb(policy);
      if added.Err? {
        return Err(added.error);
      }
      r := PolicyKeyOf(policy);
    }

    /** `get_available_policies`: every stored key once. */
    method GetAvailablePolicies() returns (keys: seq<string>)
      ensures Distinct(keys)
      ensures forall k :: k in keys <==> k in database.policies
    {
      keys := database.FetchPolicyKeys();
    }

    // ------------------------------------------------------------ bindings

    /** `_add_room_to_db`. */
    method AddRoomToDb(policyKey: string, roomKey: string, roomId: string) returns (r: Result<()>)
      modifies database
      ensures (policyKey, roomKey) in old(database.rooms) ==> r == Err(IntegrityError) && database.rooms == old(database.rooms)
      ensures (policyKey, roomKey) !in old(database.rooms) ==>
        r == Ok(()) && database.rooms == old(database.rooms)[(policyKey, roomKey) := roomId]
      ensures database.policies == old(database.policies)
    {
      r := database.InsertRoom(policyKey, roomKey, roomId);
    }

    /** `_remove_room_from_db`. */
    method RemoveRoomFromDb(policyKey: string, roomKey: string)
      modifies database
      ensures database.rooms == old(database.rooms) - {(policyKey, roomKey)}
      ensures database.policies == old(database.policies)
    {
      database.DeleteRoom(policyKey, roomKey);
    }

    /** `_get_room_from_db`: the bound room if the secretary can read it; a
        binding whose room answers 403 is dropped and reported missing;
        any other error is raised with the binding kept. */
    method GetRoomFromDb(policyKey: string, roomKey: string) returns (r: Result<string>)
      requires client.server.Valid()
      modifies database
      ensures r == Lookup(client.server, old(database.rooms), (policyKey, roomKey))
      ensures database.rooms == if r == Err(DatabaseEntryNotFound) then old(database.rooms) - {(policyKey, roomKey)}
                                else old(database.rooms)
      ensures database.policies == old(database.policies)
    {
      var row := database.FetchRoom(policyKey, roomKey);
      if row.None? {
        return Err(DatabaseEntryNotFound);
      }
      var state := client.GetRoomState(row.value);
      if state.Err? {
        if state.error == Forbidden(403) {
          RemoveRoomFromDb(policyKey, roomKey);
          return Err(DatabaseEntryNotFound);
        }
        return Err(state.error);
      }
      r := Ok(row.value);
    }

    /** `_create_room` with the call to an abstract create: the settings of
        the room policy, defaults filled in, become one new room. */
    method CreateRoom(roomPolicy: Dict<Json>) returns (r: Result<string>)
      modifies client
      ensures (r, client.server) == CreateOutcome(old(client.server), client.mxid, roomPolicy)
    {
      var settings :- CreateArguments(client.mxid, roomPolicy);
      r := client.CreateRoom(PolicyRequest(settings));
    }

    /** `_ensure_room_exists`: a readable bound room, and any error other
        than a missing binding, is returned as it is and nothing is created;
        otherwise (no binding, or one whose room answers 403) one room is
        created and bound. The binding is then the returned id, and no
        other binding changes. */
    method EnsureRoomExists(policyKey: string, roomKey: string, roomPolicy: Dict<Json>) returns (r: Result<string>)
      requires client.server.Valid()
      modifies client, database
      ensures var found := Lookup(old(client.server), old(database.rooms), (policyKey, roomKey));
        found != Err(DatabaseEntryNotFound) ==>
          r == found && client.server == old(client.server) && database.rooms == old(database.rooms)
      ensures var found := Lookup(old(client.server), old(database.rooms), (policyKey, roomKey));
        found == Err(DatabaseEntryNotFound) ==>
          && (r, client.server) == CreateOutcome(old(client.server), client.mxid, roomPolicy)
          && database.rooms == if r.Ok? then old(database.rooms)[(policyKey, roomKey) := r.value]
                               else old(database.rooms) - {(policyKey, roomKey)}
      ensures (r, client.server, database.rooms)
        == ExistsOutcome(old(client.server), old(database.rooms), client.mxid, (policyKey, roomKey), roomPolicy)
      ensures r.Ok? ==> (policyKey, roomKey) in database.rooms && database.rooms[(policyKey, roomKey)] == r.value
      ensures database.rooms - {(policyKey, roomKey)} == old(database.rooms) - {(policyKey, roomKey)}
      ensures database.policies == old(database.policies)
      ensures old(client.server.log) <= client.server.log
      ensures client.server.Valid()
    {
      ghost var rooms0 := database.rooms;
      var found := GetRoomFromDb(policyKey, roomKey);
      if found != Err(DatabaseEntryNotFound) {
        return found;
      }
      r := CreateRoom(roomPolicy);
      KeyRemoved(rooms0, (policyKey, roomKey), if r.Ok? then r.value else "");
      if r.Err? {
        return;
      }
      var added := AddRoomToDb(policyKey, roomKey, r.value);
      assert added == Ok(());
    }

    /** `_set_room_name`: read the name, write it only when it differs. */
    method SetRoomName(roomId: string, value: Json) returns (r: Result<()>)
      modifies client
      ensures (r, client.server) == RenameOutcome(old(client.server), roomId, value)
    {
      var content :- client.GetRoomName(roomId);
      if NameDiffers(content, value) {
        r := client.PutRoomName(roomId, value);
      } else {
        r := Ok(());
      }
    }

    /** `_set_room_name` as written: the comparison is with the whole
        content dict. */
    method SetRoomNameAsWritten(roomId: string, value: Json) returns (r: Result<()>)
      modifies client
      ensures (r, client.server) == RenameOutcomeAsWritten(old(client.server), roomId, value)
    {
      var content :- client.GetRoomName(roomId);
      if NameDiffersAsWritten(content, value) {
        r := client.PutRoomName(roomId, value);
      } else {
        r := Ok(());
      }
    }

    /** `_ensure_room_config`: of all settings only `room_name` reaches the
        server; the other known keys go to setters that do nothing and
        unknown keys are skipped. */
    method EnsureRoomConfig(roomId: string, roomPolicy: Dict<Json>) returns (r: Result<()>)
      modifies client
      ensures "room_name" !in Keys(roomPolicy) ==> r == Ok(()) && client.server == old(client.server)
      ensures "room_name" in Keys(roomPolicy) ==>
        (r, client.server) == RenameOutcome(old(client.server), roomId, Setting(roomPolicy, "room_name", JNull))
      ensures (r, client.server) == ConfigOutcome(old(client.server), roomId, roomPolicy)
    {
      InKeys(roomPolicy, "room_name");
      var i := 0;
      while i < |roomPolicy|
        invariant 0 <= i <= |roomPolicy|
        invariant (exists j :: 0 <= j < i && roomPolicy[j].0 == "room_name") ==>
          client.server == RenameOutcome(old(client.server), roomId, Setting(roomPolicy, "room_name", JNull)).1
          && RenameOutcome(old(client.server), roomId, Setting(roomPolicy, "room_name", JNull)).0.Ok?
        invariant (forall j :: 0 <= j < i ==> roomPolicy[j].0 != "room_name") ==> client.server == old(client.server)
      {
        var key := roomPolicy[i].0;
        if key == "room_name" {
          var named := SetRoomName(roomId, roomPolicy[i].1);
          if named.Err? {
            return named;
          }
        } else if key in StubSettings {
          // _set_room_avatar, _set_room_topic, ... are empty
        }
        i := i + 1;
      }
      r := Ok(());
    }

    /** `_ensure_room_users` with the invitation awaited: one invitation
        per invitee, in order. */
    method EnsureRoomUsers(roomId: string, roomPolicy: Dict<Json>) returns (r: Result<()>)
      modifies client
      ensures r.Ok? <==> InviteeIds(roomPolicy).Ok?
      ensures r.Err? ==> r.error == InviteeIds(roomPolicy).error && client.server == old(client.server)
      ensures r.Ok? ==> client.server == old(client.server).(log := old(client.server.log) + Invitations(roomId, InviteeIds(roomPolicy).value))
    {
      var users :- InviteeIds(roomPolicy);
      var i := 0;
      while i < |users|
        invariant 0 <= i <= |users|
        invariant client.server.log == old(client.server.log) + Invitations(roomId, users[..i])
        invariant client.server == old(client.server).(log := client.server.log)
      {
        client.InviteUser(roomId, users[i]);
        InvitationsNext(roomId, users, i);
        i := i + 1;
      }
      assert users[..i] == users;
      r := Ok(());
    }

    /** `_ensure_room_users` as written: `invite_user` is called without
        `await`, so the coroutine never runs and no invitation is sent. */
    method EnsureRoomUsersAsWritten(roomId: string, roomPolicy: Dict<Json>) returns (r: Result<()>)
      ensures r.Ok? <==> InviteeIds(roomPolicy).Ok?
      ensures r.Err? ==> r.error == InviteeIds(roomPolicy).error
      ensures client.server == old(client.server)
    {
      var users :- InviteeIds(roomPolicy);
      r := Ok(());
    }

    /** The invitee expansion of `ensure_policy`, loop by loop. */
    method ExpandInvitees(policy: Json, roomPolicy: Json) returns (r: Result<Dict<Json>>)
      ensures r == RoomInvitees(policy, roomPolicy)
      ensures r.Ok? ==> roomPolicy.JObj? && "invitees" in Keys(roomPolicy.fields)
    {
      var inviteesValue :- Index(roomPolicy, "invitees");
      var entries :- AsDict(inviteesValue);
      RoomInviteesOf(policy, roomPolicy, entries);
      var invitees: Dict<Json> := [];
      ghost var done: seq<(string, Json)> := [];
      var i := 0;
      while i < |entries|
        invariant 0 <= i <= |entries|
        invariant Contributions(policy, entries[..i]) == Ok(done)
        invariant invitees == PutEach([], done)
      {
        var next, extended := ExpandEntry(policy, entries, i, invitees, done);
        if next.Err? {
          return Err(next.error);
        }
        invitees, done := next.value, extended;
        i := i + 1;
      }
      assert entries[..i] == entries;
      r := Ok(invitees);
    }

    /** One pass of `ensure_policy`'s loop, for the room `roomKey` of
        `policy`: on success the room is bound under the policy key, carries
        the name its room policy asks for, and every expanded invitee has
        been invited into it; no other binding changes and no other room is
        renamed. */
    method EnsureRoom(policy: Json, roomKey: string, roomPolicyJson: Json) returns (r: Result<()>)
      requires client.server.Valid()
      modifies client, database
      ensures (r, client.server, database.rooms)
        == PassOutcome(old(client.server), old(database.rooms), client.mxid, policy, roomKey, roomPolicyJson)
      ensures database.policies == old(database.policies)
      ensures client.server.Valid()
    {
      PassFacts(client.server, database.rooms, client.mxid, policy, roomKey, roomPolicyJson);
      var invitees :- ExpandInvitees(policy, roomPolicyJson);
      var roomPolicy := Put(roomPolicyJson.fields, "invitees", JObj(invitees));
      var policyKey :- PolicyKeyOf(policy);
      assert KeyText(policy) == policyKey;
      r := ReconcileRoom(policyKey, roomKey, roomPolicy, invitees);
    }

    /** The rest of the pass, once the invitees are expanded into the room
        policy: the room exists and is bound, its name is reconciled, and
        every invitee is invited into it. */
    method ReconcileRoom(policyKey: string, roomKey: string, roomPolicy: Dict<Json>, ghost invitees: Dict<Json>)
      returns (r: Result<()>)
      requires client.server.Valid()
      requires Get(roomPolicy, "invitees") == Some(JObj(invitees))
      modifies client, database
      ensures (r, client.server, database.rooms)
        == ReconcileOutcome(old(client.server), old(database.rooms), client.mxid, (policyKey, roomKey), roomPolicy, Keys(invitees))
      ensures database.policies == old(database.policies)
    {
      var roomId :- EnsureRoomExists(policyKey, roomKey, roomPolicy);
      var configured := EnsureRoomConfig(roomId, roomPolicy);
      if configured.Err? {
        return configured;
      }
      InviteeIdsOfExpanded(roomPolicy, invitees);
      var invited := EnsureRoomUsers(roomId, roomPolicy);
      assert invited.Ok?;
      // _ensure_room_bot_actions is empty
      r := Ok(());
    }

    /** `ensure_policy`: for each room of the stored policy, in order: expand
        the invitees, make sure the room exists and is bound, reconcile its
        name and invite its invitees; the first failing room ends it. On
        success every room key of the policy is bound under its policy key,
        its invitees are invited and its name is the one asked for; bindings
        of other policy keys and the policies table never change, and the
        log only grows. */
    method EnsurePolicy(policyName: string) returns (r: Result<()>)
      requires client.server.Valid()
      modifies client, database
      ensures policyName !in old(database.policies) ==>
        r == Err(DatabaseEntryNotFound) && client.server == old(client.server) && database.rooms == old(database.rooms)
      ensures policyName in old(database.policies) ==>
        (r, client.server, database.rooms)
          == PolicyRun(old(client.server), old(database.rooms), client.mxid, old(database.policies)[policyName])
      ensures r.Ok? ==> policyName in old(database.policies)
      ensures r.Ok? ==> forall roomKey :: roomKey in RoomKeys(old(database.policies)[policyName]) ==>
        (KeyText(old(database.policies)[policyName]), roomKey) in database.rooms
      ensures r.Ok? ==> PolicyEnsured(client.server, database.rooms, old(database.policies)[policyName])
      ensures policyName in old(database.policies) ==>
        OtherPolicies(database.rooms, KeyText(old(database.policies)[policyName]))
          == OtherPolicies(old(database.rooms), KeyText(old(database.policies)[policyName]))
      ensures database.policies == old(database.policies)
      ensures old(client.server.log) <= client.server.log
      ensures client.server.Valid()
    {
      ghost var s0, rooms0 := client.server, database.rooms;
      var policy :- GetPolicy(policyName);
      PolicyRunFacts(s0, rooms0, client.mxid, policy);
      var rooms :- RoomsOf(policy);
      r := EnsureRooms(policy, rooms);
      RoomKeysCovered(policy, rooms);
    }

    /** The loop of `ensure_policy`: one pass per room, in order, until one
        fails. */
    method EnsureRooms(policy: Json, rooms: Dict<Json>) returns (r: Result<()>)
      requires client.server.Valid()
      modifies client, database
      ensures (r, client.server, database.rooms)
        == PolicyOutcome(old(client.server), old(database.rooms), client.mxid, policy, rooms)
      ensures database.policies == old(database.policies)
    {
      ghost var s0, rooms0 := client.server, database.rooms;
      var i := 0;
      while i < |rooms|
        invariant 0 <= i <= |rooms|
        invariant database.policies == old(database.policies)
        invariant (Ok(()), client.server, database.rooms) == PolicyOutcome(s0, rooms0, client.mxid, policy, rooms[..i])
        invariant client.server.Valid()
      {
        var done := EnsureNextRoom(policy, rooms, i, s0, rooms0);
        if done.Err? {
          return done;
        }
        i := i + 1;
      }
      assert rooms[..i] == rooms;
      r := Ok(());
    }

    /** One pass of `ensure_policy`'s loop, for `rooms[i]`, after the passes
        before it went through: the run goes on, or ends with this pass's
        error. */
    method EnsureNextRoom(policy: Json, rooms: Dict<Json>, i: nat, ghost s0: Server,
                          ghost rooms0: map<(string, string), string>) returns (r: Result<()>)
      requires i < |rooms| && client.server.Valid()
      requires (Ok(()), client.server, database.rooms) == PolicyOutcome(s0, rooms0, client.mxid, policy, rooms[..i])
      modifies client, database
      ensures r.Ok? ==>
        (Ok(()), client.server, database.rooms) == PolicyOutcome(s0, rooms0, client.mxid, policy, rooms[..i + 1])
      ensures r.Err? ==> (r, client.server, database.rooms) == PolicyOutcome(s0, rooms0, client.mxid, policy, rooms)
      ensures database.policies == old(database.policies)
      ensures client.server.Valid()
    {
      ghost var s, bound := client.server, database.rooms;
      r := EnsureRoom(policy, rooms[i].0, rooms[i].1);
      PolicyStep(s0, rooms0, client.mxid, policy, rooms, i, s, bound, (r, client.server, database.rooms));
    }

    /** `ensure_all_policies`: `ensure_policy` for every stored key. */
    method EnsureAllPolicies() returns (r: Result<()>)
      requires client.server.Valid()
      modifies client, database
      ensures database.policies == old(database.policies)
      ensures old(client.server.log) <= client.server.log
      ensures client.server.Valid()
    {
      var keys := GetAvailablePolicies();
      var i := 0;
      while i < |keys|
        invariant 0 <= i <= |keys|
        invariant database.policies == old(database.policies)
        invariant old(client.server.log) <= client.server.log
        invariant client.server.Valid()
      {
        var ensured :- EnsurePolicy(keys[i]);
        i := i + 1;
      }
      r := Ok(());
    }

    /** `forget_policy`: exactly the bindings of the policy key go. */
    method ForgetPolicy(policyKey: string)
      modifies database
      ensures database.rooms == OtherPolicies(old(database.rooms), policyKey)
      ensures database.policies == old(database.policies)
    {
      database.DeleteRoomsOf(policyKey);
    }

    /** `ensure_policy_destroyed`: every bound room is deleted, in the
        order `ids` the bindings are fetched in, then the bindings are
        forgotten; a failed deletion ends it with the bindings kept. It
        fails, with a 403, exactly when two bindings share a room (the bot
        has left it by the second deletion) or some bound room is one the
        server would not let the bot delete. On success the server is the one
        where each bound room was deleted in turn; in any case the log is a
        prefix of that one's, and rooms not bound under the key keep their
        members and stay joined. */
    method EnsurePolicyDestroyed(policyKey: string) returns (r: Result<()>, ghost ids: seq<string>)
      modifies client, database
      ensures (set id | id in ids) == BoundRooms(old(database.rooms), policyKey)
      ensures r.Ok? <==> (BindingsApart(old(database.rooms), policyKey)
                          && forall k :: k in old(database.rooms) && k.0 == policyKey ==>
                               Rooms.DeletionAllowed(old(client.server), client.mxid, old(database.rooms)[k]))
      ensures r.Err? ==> r.error == Forbidden(403)
      ensures DeletedEach(client.server, old(client.server), client.mxid, ids, r.Ok?)
      ensures r.Ok? ==> forall k :: k in old(database.rooms) && k.0 == policyKey ==>
        Leave(old(database.rooms)[k]) in client.server.log[|old(client.server.log)|..]
      ensures r.Ok? ==> database.rooms == OtherPolicies(old(database.rooms), policyKey)
      ensures r.Err? ==> database.rooms == old(database.rooms)
      ensures database.policies == old(database.policies)
      ensures old(client.server.Valid()) ==> client.server.Valid()
    {
      var bound, keys := database.FetchRoomIdsOf(policyKey);
      ids := bound;
      BoundRoomsListed(database.rooms, policyKey, bound, keys);
      BoundDistinct(database.rooms, policyKey, bound, keys);
      ghost var rooms0, s0 := database.rooms, client.server;
      r := DeleteEach(bound);
      DestroyedFacts(rooms0, policyKey, bound, s0, client.server, client.mxid, r.Ok?);
      if r.Err? {
        return;
      }
      ForgetPolicy(policyKey);
    }

    /** The deletion loop of `ensure_policy_destroyed`: `delete_room` for
        each room in turn until one fails. It fails, with a 403, exactly
        when some room is listed twice (the bot has left it by the second
        time) or is one the server would not let the bot delete; on success
        the server is the one where each room was deleted in turn, and in
        any case its log is a prefix of that one's. Rooms not in `rooms`
        keep their members and stay joined. */
    method DeleteEach(rooms: seq<string>) returns (r: Result<()>)
      modifies client
      ensures r.Ok? <==> Distinct(rooms) && forall room :: room in rooms ==> Rooms.DeletionAllowed(old(client.server), client.mxid, room)
      ensures r.Err? ==> r.error == Forbidden(403)
      ensures DeletedEach(client.server, old(client.server), client.mxid, rooms, r.Ok?)
      ensures old(client.server.Valid()) ==> client.server.Valid()
    {
      ghost var s0 := client.server;
      var i := 0;
      r := Ok(());
      DeletingStart(s0, client.mxid, rooms);
      while i < |rooms|
        invariant i <= |rooms| && r == Ok(()) && Deleting(client.server, s0, client.mxid, rooms, i)
        invariant old(client.server.Valid()) ==> client.server.Valid()
      {
        ghost var before := client.server;
        DeletedAllowed(before, s0, client.mxid, rooms[..i], rooms[i]);
        var deleted := Rooms.DeleteRoom(client, rooms[i]);
        if deleted.Err? {
          DeletingStopped(before, client.server, s0, client.mxid, rooms, i);
          r := deleted;
          break;
        }
        DeletingNext(before, client.server, s0, client.mxid, rooms, i);
        i := i + 1;
      }
      if r.Ok? {
        DeletingDone(client.server, s0, client.mxid, rooms);
      }
    }

    /** `_am_i_alone`. */
    method AmIAlone(roomId: string, ignoreBots: bool) returns (r: Result<bool>)
      ensures roomId in client.server.joined && roomId in client.server.members ==>
        r == Ok(Alone(client.server.members[roomId], mxid, ignoreBots))
      ensures !(roomId in client.server.joined && roomId in client.server.members) ==> r == Err(Forbidden(403))
    {
      var members :- client.GetJoinedMembers(roomId);
      r := Ok(Alone(members, mxid, ignoreBots));
    }

    /** `delete_all_rooms`: every joined room the sweep chooses is deleted;
        failed deletions are collected and the sweep goes on; a room whose
        members cannot be read ends the sweep. The bindings are not read. */
    method DeleteAllRooms(onlyAbandoned: bool)
      returns (r: Result<string>, ghost selected: seq<string>, ghost failed: seq<(string, Error)>, ghost writes: seq<seq<Write>>)
      requires client.server.Valid()
      modifies client
      ensures r.Err? <==> exists room :: room in old(client.server.joined) && room !in old(client.server.members)
      ensures r.Err? ==> r.error == Forbidden(403)
      ensures r.Ok? ==> selected == SweepSelection(old(client.server.joined), old(client.server.members), noticeRoom, onlyAbandoned, mxid)
      ensures r.Ok? ==> r.value == SweepMessage(failed)
      ensures r.Ok? ==> forall room :: room in selected ==>
        (Succeeded(room, failed) <==> Rooms.DeletionAllowed(old(client.server), client.mxid, room))
      ensures r.Ok? ==> forall f :: f in failed ==> f.1 == Forbidden(403)
      ensures Swept(client.server, old(client.server), client.mxid, selected, failed)
      ensures SweepLog(client.server, old(client.server), client.mxid, selected, failed, writes)
      ensures forall room :: room in old(client.server.members) && room !in selected ==>
        room in client.server.members && client.server.members[room] == old(client.server.members)[room]
      ensures old(client.server.log) <= client.server.log
      ensures client.server.Valid()
    {
      var joined := client.GetJoinedRooms();
      ghost var s0 := client.server;
      var swept, failures;
      ghost var n;
      swept, n, selected, failures, writes := SweepRooms(joined, onlyAbandoned, s0);
      SweepEnded(client.server, s0, client.mxid, joined, n, noticeRoom, onlyAbandoned, mxid, selected, failures, writes);
      if swept.Err? {
        return Err(swept.error), selected, failures, writes;
      }
      r, failed := Ok(SweepMessage(failures)), failures;
    }

    /** The loop of `delete_all_rooms` over the joined rooms: it looks at
        each room in turn and stops at the first whose members cannot be
        read; `n` rooms have been looked at. */
    method SweepRooms(joined: seq<string>, onlyAbandoned: bool, ghost s0: Server)
      returns (r: Result<()>, ghost n: nat, ghost selected: seq<string>, failures: seq<(string, Error)>,
               ghost writes: seq<seq<Write>>)
      requires joined == s0.joined && Distinct(joined) && client.server == s0 && s0.Valid()
      modifies client
      ensures n <= |joined|
      ensures Sweeping(client.server, s0, client.mxid, joined, n, noticeRoom, onlyAbandoned, mxid, selected, failures, writes)
      ensures r.Ok? ==> n == |joined|
      ensures r.Err? ==> n < |joined| && joined[n] !in s0.members && r.error == Forbidden(403)
    {
      r, failures := Ok(()), [];
      selected, writes := [], [];
      var i := 0;
      SweepStarts(s0, client.mxid, joined, noticeRoom, onlyAbandoned, mxid);
      while i < |joined|
        invariant i <= |joined| && r == Ok(())
        invariant Sweeping(client.server, s0, client.mxid, joined, i, noticeRoom, onlyAbandoned, mxid, selected, failures, writes)
      {
        var alone;
        ghost var next;
        alone, next, failures, writes := SweepJoinedRoom(joined, i, onlyAbandoned, s0, selected, failures, writes);
        if alone.Err? {
          r := Err(alone.error);
          break;
        }
        selected, i := next, i + 1;
      }
      n := i;
    }

    /** The sweep's step for the joined room `joined[i]`: read its
        members, and delete it when the sweep chooses it; the deletion
        fails, with a 403, exactly when the server would not let it be
        deleted. A room whose members cannot be read ends the sweep with
        nothing changed. */
    method SweepJoinedRoom(joined: seq<string>, i: nat, onlyAbandoned: bool, ghost s0: Server,
                           ghost selected: seq<string>, failures: seq<(string, Error)>, ghost parts: seq<seq<Write>>)
      returns (alone: Result<bool>, ghost next: seq<string>, updated: seq<(string, Error)>,
               ghost extended: seq<seq<Write>>)
      requires i < |joined| && Distinct(joined) && joined[i] in s0.joined
      requires Sweeping(client.server, s0, client.mxid, joined, i, noticeRoom, onlyAbandoned, mxid, selected, failures, parts)
      modifies client
      ensures alone.Err? <==> joined[i] !in s0.members
      ensures alone.Err? ==> alone.error == Forbidden(403)
      ensures alone.Err? ==> client.server == old(client.server) && next == selected && updated == failures && extended == parts
      ensures alone.Ok? ==>
        next == if Chosen(joined[i], s0.members, noticeRoom, onlyAbandoned, mxid) then selected + [joined[i]] else selected
      ensures alone.Ok? && !Chosen(joined[i], s0.members, noticeRoom, onlyAbandoned, mxid) ==>
        client.server == old(client.server) && updated == failures && extended == parts
      ensures alone.Ok? && Chosen(joined[i], s0.members, noticeRoom, onlyAbandoned, mxid) ==>
        (Rooms.DeletionAllowed(s0, client.mxid, joined[i]) ==> updated == failures)
      ensures alone.Ok? && Chosen(joined[i], s0.members, noticeRoom, onlyAbandoned, mxid) ==>
        (!Rooms.DeletionAllowed(s0, client.mxid, joined[i]) ==> updated == failures + [(joined[i], Forbidden(403))])
      ensures alone.Ok? ==> Sweeping(client.server, s0, client.mxid, joined, i + 1, noticeRoom, onlyAbandoned, mxid,
                                     next, updated, extended)
    {
      var room := joined[i];
      ghost var before := client.server;
      SweepSelectionNext(joined, i, s0.members, noticeRoom, onlyAbandoned, mxid);
      assert room !in selected;
      assert SweepFrame(before, s0, selected);
      alone := AmIAlone(room, true);
      updated, extended, next := failures, parts, selected;
      if alone.Ok? {
        assert room in s0.members && alone.value == Alone(s0.members[room], mxid, true);
        var chosen := noticeRoom != Some(room) && (!onlyAbandoned || alone.value);
        if chosen {
          updated, extended := SweepRoom(room, s0, selected, failures, parts);
          next := selected + [room];
        }
        SweepingNext(before, client.server, s0, client.mxid, joined, i, noticeRoom, onlyAbandoned, mxid, selected,
                     failures, parts, chosen, updated, extended);
      }
    }

    /** The sweep's step for a chosen room: `delete_room`, with a failure
        recorded instead of raised. A room the server lets the bot delete is
        left; any other gets one failure, a 403. */
    method SweepRoom(room: string, ghost s0: Server, ghost selected: seq<string>,
                     failures: seq<(string, Error)>, ghost parts: seq<seq<Write>>)
      returns (updated: seq<(string, Error)>, ghost extended: seq<seq<Write>>)
      requires Swept(client.server, s0, client.mxid, selected, failures)
      requires SweepLog(client.server, s0, client.mxid, selected, failures, parts)
      requires room !in selected && room in s0.members && room in s0.joined
      modifies client
      ensures Rooms.DeletionAllowed(s0, client.mxid, room) ==> updated == failures
      ensures !Rooms.DeletionAllowed(s0, client.mxid, room) ==> updated == failures + [(room, Forbidden(403))]
      ensures Swept(client.server, s0, client.mxid, selected + [room], updated)
      ensures SweepLog(client.server, s0, client.mxid, selected + [room], updated, extended)
      ensures old(client.server.log) <= client.server.log
    {
      ghost var before := client.server;
      Rooms.AllowedKept(s0, before, client.mxid, room);
      var deleted := Rooms.DeleteRoom(client, room);
      updated := failures;
      if deleted.Err? {
        updated := failures + [(room, deleted.error)];
      }
      extended := parts + [client.server.log[|before.log|..]];
      SweepLogNext(before, client.server, s0, client.mxid, selected, failures, updated, parts, room);
      SweptNext(before, client.server, s0, client.mxid, selected, failures, updated, room, deleted.Ok?);
    }

    /** `set_notice_room`: an id equal to the current one changes nothing;
        another id replaces it, and the reply names the previous room when
        there was a (non-empty) one. */
    method SetNoticeRoom(roomId: string) returns (reply: string)
      modifies this
      ensures noticeRoom == Some(roomId)
      ensures old(noticeRoom) == Some(roomId) ==>
        reply == "This room is already set as maintenance room for this session (" + roomId + ")."
      ensures old(noticeRoom) != Some(roomId) && !Truthy(old(noticeRoom)) ==>
        reply == "This room is now set as maintenance room for this session (" + roomId + ")"
      ensures old(noticeRoom) != Some(roomId) && Truthy(old(noticeRoom)) ==>
        reply == "This room is now set as maintenance room for this session (" + roomId + ")"
                 + " ... was " + old(noticeRoom).value + " before."
    {
      if noticeRoom == Some(roomId) {
        return "This room is already set as maintenance room for this session (" + roomId + ").";
      }
      var previous := noticeRoom;
      noticeRoom := Some(roomId);
      reply := "This room is now set as maintenance room for this session (" + roomId + ")";
      if Truthy(previous) {
        reply := reply + " ... was " + previous.value + " before.";
      }
    }
  }

  /** Writing names and the log leaves the server's invariant alone. */
  lemma KeptValid(s: Server, t: Server)
    requires t == s.(names := t.names, log := t.log)
    ensures s.Valid() <==> t.Valid()
  {
  }

  /** One more joined room: the selection grows by it exactly when it is
      chosen, and a room listed once is not yet selected. */
  lemma SweepSelectionNext(joined: seq<string>, i: nat, members: map<string, seq<string>>, notice: Option<string>,
                           onlyAbandoned: bool, mxid: string)
    requires i < |joined| && Distinct(joined)
    ensures joined[i] !in SweepSelection(joined[..i], members, notice, onlyAbandoned, mxid)
    ensures Chosen(joined[i], members, notice, onlyAbandoned, mxid) ==>
      SweepSelection(joined[..i + 1], members, notice, onlyAbandoned, mxid)
      == SweepSelection(joined[..i], members, notice, onlyAbandoned, mxid) + [joined[i]]
    ensures !Chosen(joined[i], members, notice, onlyAbandoned, mxid) ==>
      SweepSelection(joined[..i + 1], members, notice, onlyAbandoned, mxid)
      == SweepSelection(joined[..i], members, notice, onlyAbandoned, mxid)
  {
    assert joined[..i + 1][..i] == joined[..i];
    SweepSelectionMembers(joined[..i], members, notice, onlyAbandoned, mxid);
    var prefix := SweepSelection(joined[..i], members, notice, onlyAbandoned, mxid);
    assert prefix + [] == prefix;
    assert joined[i] !in joined[..i] by {
      forall j | 0 <= j < i ensures joined[..i][j] != joined[i] {
        DistinctAt(joined, j, i);
      }
    }
  }

  /** One more chosen room: its deletion's writes, whole or cut short, are
      the writes `delete_room` would issue on the server the sweep started
      from, since nothing that decides them has changed for a room not yet
      chosen. */
  lemma SweepLogNext(before: Server, after: Server, s0: Server, mxid: string, selected: seq<string>,
                     failures: seq<(string, Error)>, updated: seq<(string, Error)>, parts: seq<seq<Write>>, room: string)
    requires SweepLog(before, s0, mxid, selected, failures, parts)
    requires before.aliases == s0.aliases && room in s0.members && room in before.members
    requires before.members[room] == s0.members[room] && room !in selected
    requires before.log <= after.log && after.log[|before.log|..] <= Rooms.DeletionWrites(before, mxid, room)
    requires Succeeded(room, updated) ==> after.log == before.log + Rooms.DeletionWrites(before, mxid, room)
    requires forall x :: Succeeded(x, updated) ==> Succeeded(x, failures)
    ensures SweepLog(after, s0, mxid, selected + [room], updated, parts + [after.log[|before.log|..]])
  {
    var step := after.log[|before.log|..];
    LogExtended(before.log, after.log, s0.log, parts);
    StepWrites(before, after, s0, mxid, room, updated);
    PartsBounded(s0, mxid, selected, parts, room, step);
    PartsComplete(s0, mxid, selected, failures, updated, parts, room, step);
  }

  /** A log that grew from one made of `parts` is made of `parts` and the
      new writes. */
  lemma LogExtended(before: seq<Write>, after: seq<Write>, start: seq<Write>, parts: seq<seq<Write>>)
    requires before == start + Flatten(parts) && before <= after
    ensures after == start + Flatten(parts + [after[|before|..]])
  {
    var extended := parts + [after[|before|..]];
    assert extended[..|extended| - 1] == parts;
    assert after == before + after[|before|..];
  }

  /** The writes of one sweep step are those of deleting the room as the
      sweep found it, all of them when no failure was recorded. */
  lemma StepWrites(before: Server, after: Server, s0: Server, mxid: string, room: string,
                   updated: seq<(string, Error)>)
    requires before.aliases == s0.aliases && room in s0.members && room in before.members
    requires before.members[room] == s0.members[room]
    requires before.log <= after.log && after.log[|before.log|..] <= Rooms.DeletionWrites(before, mxid, room)
    requires Succeeded(room, updated) ==> after.log == before.log + Rooms.DeletionWrites(before, mxid, room)
    ensures after.log[|before.log|..] <= Rooms.DeletionWrites(s0, mxid, room)
    ensures Succeeded(room, updated) ==> after.log[|before.log|..] == Rooms.DeletionWrites(s0, mxid, room)
  {
    SameDeletionWrites(before, s0, mxid, room);
  }

  /** One more chosen room swept: deleted when the server allowed it, with
      a 403 recorded otherwise, and nothing else touched. */
  lemma SweptNext(before: Server, after: Server, s0: Server, mxid: string, selected: seq<string>,
                  failures: seq<(string, Error)>, updated: seq<(string, Error)>, room: string, ok: bool)
    requires Swept(before, s0, mxid, selected, failures)
    requires room !in selected && room in s0.members
    requires ok <==> Rooms.DeletionAllowed(s0, mxid, room)
    requires ok ==> updated == failures && after.joined == Without(before.joined, room)
    requires !ok ==> updated == failures + [(room, Forbidden(403))] && after.joined == before.joined
    requires after.Valid()
    requires after.aliases == before.aliases && after.protectedAliases == before.protectedAliases
    requires after.unkickable == before.unkickable && after.members.Keys == before.members.Keys
    requires forall other :: other in before.members && other != room ==> after.members[other] == before.members[other]
    ensures Swept(after, s0, mxid, selected + [room], updated)
  {
    var chosen := selected + [room];
    forall x | x in chosen && Succeeded(x, updated) ensures x !in after.joined {
      if x != room {
        assert x in selected && Succeeded(x, failures);
      }
    }
    forall x | x in chosen ensures Succeeded(x, updated) <==> Rooms.DeletionAllowed(s0, mxid, x) {
      if x != room {
        assert x in selected;
        assert Succeeded(x, updated) <==> Succeeded(x, failures);
      } else if !ok {
        assert (room, Forbidden(403)) in updated;
      }
    }
  }

  /** Each run of writes stays a prefix of its room's deletion writes when
      one more room's run is added. */
  lemma PartsBounded(s0: Server, mxid: string, selected: seq<string>, parts: seq<seq<Write>>,
                     room: string, step: seq<Write>)
    requires |parts| == |selected|
    requires forall k :: 0 <= k < |parts| ==> parts[k] <= Rooms.DeletionWrites(s0, mxid, selected[k])
    requires step <= Rooms.DeletionWrites(s0, mxid, room)
    ensures forall k :: 0 <= k < |parts| + 1 ==>
      (parts + [step])[k] <= Rooms.DeletionWrites(s0, mxid, (selected + [room])[k])
  {
    var chosen, extended := selected + [room], parts + [step];
    forall k | 0 <= k < |extended| ensures extended[k] <= Rooms.DeletionWrites(s0, mxid, chosen[k]) {
      if k < |parts| {
        assert extended[k] == parts[k] && chosen[k] == selected[k];
      }
    }
  }

  /** A room with no failure recorded after one more room is swept had all
      its deletion writes made. */
  lemma PartsComplete(s0: Server, mxid: string, selected: seq<string>, failures: seq<(string, Error)>,
                      updated: seq<(string, Error)>, parts: seq<seq<Write>>, room: string, step: seq<Write>)
    requires |parts| == |selected|
    requires forall k :: 0 <= k < |parts| && Succeeded(selected[k], failures) ==>
      parts[k] == Rooms.DeletionWrites(s0, mxid, selected[k])
    requires Succeeded(room, updated) ==> step == Rooms.DeletionWrites(s0, mxid, room)
    requires forall x :: Succeeded(x, updated) ==> Succeeded(x, failures)
    ensures forall k :: 0 <= k < |parts| + 1 && Succeeded((selected + [room])[k], updated) ==>
      (parts + [step])[k] == Rooms.DeletionWrites(s0, mxid, (selected + [room])[k])
  {
    var chosen, extended := selected + [room], parts + [step];
    forall k | 0 <= k < |extended| && Succeeded(chosen[k], updated)
      ensures extended[k] == Rooms.DeletionWrites(s0, mxid, chosen[k])
    {
      if k < |parts| {
        assert extended[k] == parts[k] && chosen[k] == selected[k];
        assert Succeeded(selected[k], failures);
      }
    }
  }

  /** A room whose aliases and members are as they were is deleted with
      the same writes. */
  lemma SameDeletionWrites(s: Server, s0: Server, mxid: string, room: string)
    requires s.aliases == s0.aliases && room in s0.members && room in s.members && s.members[room] == s0.members[room]
    ensures Rooms.DeletionWrites(s, mxid, room) == Rooms.DeletionWrites(s0, mxid, room)
  {
  }

  /** Where the sweep ended after looking at `n` joined rooms: what it
      leaves, and, when it looked at all of them, that each one's members
      could be read and the chosen rooms are the sweep's selection. */
  lemma SweepEnded(s: Server, s0: Server, mxid: string, joined: seq<string>, n: nat, notice: Option<string>,
                   onlyAbandoned: bool, me: string, selected: seq<string>, failures: seq<(string, Error)>,
                   parts: seq<seq<Write>>)
    requires n <= |joined|
    requires Sweeping(s, s0, mxid, joined, n, notice, onlyAbandoned, me, selected, failures, parts)
    ensures Swept(s, s0, mxid, selected, failures) && SweepLog(s, s0, mxid, selected, failures, parts)
    ensures s.Valid() && s0.log <= s.log
    ensures forall room :: room in s0.members && room !in selected ==> room in s.members && s.members[room] == s0.members[room]
    ensures forall room :: room in selected ==> (Succeeded(room, failures) <==> Rooms.DeletionAllowed(s0, mxid, room))
    ensures forall f :: f in failures ==> f.1 == Forbidden(403)
    ensures n == |joined| ==> selected == SweepSelection(joined, s0.members, notice, onlyAbandoned, me)
    ensures n == |joined| ==> forall room :: room in joined ==> room in s0.members
  {
    SweptUntouched(s, s0, mxid, selected, failures);
    SweepLogGrows(s, s0, mxid, selected, failures, parts);
    if n == |joined| {
      assert joined[..n] == joined;
    }
  }

  /** The rooms the sweep has not chosen keep their members. */
  lemma SweptUntouched(s: Server, s0: Server, mxid: string, selected: seq<string>, failures: seq<(string, Error)>)
    requires Swept(s, s0, mxid, selected, failures)
    ensures s.Valid()
    ensures forall room :: room in s0.members && room !in selected ==> room in s.members && s.members[room] == s0.members[room]
  {
  }

  /** A deletion loop's progress against the server `s0` it started from:
      the rooms in `done` could be deleted then, are now empty and no longer
      joined, and nothing else that decides whether a room may be deleted
      has changed. */
  ghost predicate DeletedFrom(s: Server, s0: Server, mxid: string, done: seq<string>) {
    && s.aliases == s0.aliases && s.protectedAliases == s0.protectedAliases && s.unkickable == s0.unkickable
    && s.members.Keys == s0.members.Keys
    && (forall room :: room in done ==> Rooms.DeletionAllowed(s0, mxid, room) && s.members[room] == [] && room !in s.joined)
    && (forall room :: room in s0.members && room !in done ==> s.members[room] == s0.members[room])
    && (forall room :: room !in done ==> (room in s.joined <==> room in s0.joined))
  }

  /** What deleting `rooms` in turn leaves, `ok` telling whether every
      deletion went through: only the log, the members and the joined rooms
      change; the log is a prefix of the one where every deletion went
      through, and on success the server is that one (where every room has
      been left, by `DeletedAllLeaves`) and every room was one the bot could
      delete; rooms not in `rooms` keep their members and stay joined. */
  ghost predicate DeletedEach(s: Server, s0: Server, mxid: string, rooms: seq<string>, ok: bool) {
    && s == s0.(log := s.log, members := s.members, joined := s.joined)
    && s0.log <= s.log && s.log <= DeletedAll(s0, mxid, rooms).log
    && (ok ==> s == DeletedAll(s0, mxid, rooms) && DeletedFrom(s, s0, mxid, rooms))
    && (forall room :: room in s0.joined && room !in rooms ==> room in s.joined)
    && (forall room :: room in s0.members && room !in rooms ==> room in s.members && s.members[room] == s0.members[room])
  }

  /** The server after deleting `rooms` in order, each deletion going
      through. */
  function DeletedAll(s: Server, mxid: string, rooms: seq<string>): Server
    decreases |rooms|
  {
    if rooms == [] then s
    else Rooms.Deleted(DeletedAll(s, mxid, rooms[..|rooms| - 1]), mxid, rooms[|rooms| - 1])
  }

  /** A deletion loop over `rooms` after its first `i` deletions went
      through: those rooms are listed once, the server is the one where
      they were deleted, they could be deleted at the start and are now
      empty, and rooms not in `rooms` are still joined. */
  ghost predicate Deleting(s: Server, s0: Server, mxid: string, rooms: seq<string>, i: nat)
    requires i <= |rooms|
  {
    && Distinct(rooms[..i])
    && s == DeletedAll(s0, mxid, rooms[..i])
    && s == s0.(log := s.log, members := s.members, joined := s.joined)
    && s0.log <= s.log
    && DeletedFrom(s, s0, mxid, rooms[..i])
    && (forall room :: room in s0.joined && room !in rooms ==> room in s.joined)
  }

  lemma DeletingStart(s0: Server, mxid: string, rooms: seq<string>)
    ensures Deleting(s0, s0, mxid, rooms, 0)
  {
    assert rooms[..0] == [];
  }

  /** One more deletion that went through extends the loop's progress. */
  lemma DeletingNext(s: Server, t: Server, s0: Server, mxid: string, rooms: seq<string>, i: nat)
    requires i < |rooms| && Deleting(s, s0, mxid, rooms, i)
    requires Rooms.DeletionAllowed(s, mxid, rooms[i])
    requires t == Rooms.Deleted(s, mxid, rooms[i])
    ensures Deleting(t, s0, mxid, rooms, i + 1)
  {
    DeletedAllowed(s, s0, mxid, rooms[..i], rooms[i]);
    DistinctNext(rooms, i);
    DeletedAllNext(s0, mxid, rooms, i);
    DeletedNext(s, t, s0, mxid, rooms, i);
    JoinedNext(s, t, s0, mxid, rooms, i);
  }

  lemma JoinedNext(s: Server, t: Server, s0: Server, mxid: string, rooms: seq<string>, i: nat)
    requires i < |rooms|
    requires forall room :: room in s0.joined && room !in rooms ==> room in s.joined
    requires t.joined == Without(s.joined, rooms[i])
    ensures forall room :: room in s0.joined && room !in rooms ==> room in t.joined
  {
  }

  /** A refused deletion of `rooms[i]` ends the loop: that room was
      deleted earlier in the loop, or could not be deleted at the start
      either; and the log is cut short of the full run's. */
  lemma DeletingStopped(s: Server, t: Server, s0: Server, mxid: string, rooms: seq<string>, i: nat)
    requires i < |rooms| && Deleting(s, s0, mxid, rooms, i)
    requires !Rooms.DeletionAllowed(s, mxid, rooms[i])
    requires t == s.(log := t.log, members := t.members, joined := t.joined)
    requires s.log <= t.log && t.log[|s.log|..] <= Rooms.DeletionWrites(s, mxid, rooms[i])
    requires t.joined == s.joined
    requires t.members.Keys == s.members.Keys
    requires forall other :: other in s.members && other != rooms[i] ==> t.members[other] == s.members[other]
    ensures rooms[i] in rooms[..i] || !Rooms.DeletionAllowed(s0, mxid, rooms[i])
    ensures !(Distinct(rooms) && forall room :: room in rooms ==> Rooms.DeletionAllowed(s0, mxid, room))
    ensures DeletedEach(t, s0, mxid, rooms, false)
  {
    RefusedRoom(s, s0, mxid, rooms, i);
    DeletedAllNext(s0, mxid, rooms, i);
    StoppedEach(s, t, s0, mxid, rooms, i);
  }

  /** What a loop stopped at `rooms[i]` leaves, from plain facts about the
      server before and after the refused deletion. */
  lemma StoppedEach(s: Server, t: Server, s0: Server, mxid: string, rooms: seq<string>, i: nat)
    requires i < |rooms|
    requires s == s0.(log := s.log, members := s.members, joined := s.joined)
    requires t == s.(log := t.log, members := t.members, joined := t.joined)
    requires s0.log <= s.log && s.log + Rooms.DeletionWrites(s, mxid, rooms[i]) <= DeletedAll(s0, mxid, rooms).log
    requires s.log <= t.log && t.log[|s.log|..] <= Rooms.DeletionWrites(s, mxid, rooms[i])
    requires t.joined == s.joined
    requires forall room :: room in s0.joined && room !in rooms ==> room in s.joined
    requires s.members.Keys == s0.members.Keys && t.members.Keys == s.members.Keys
    requires forall room :: room in s0.members && room !in rooms[..i] ==> s.members[room] == s0.members[room]
    requires forall other :: other in s.members && other != rooms[i] ==> t.members[other] == s.members[other]
    ensures DeletedEach(t, s0, mxid, rooms, false)
  {
    StoppedPrefix(s0.log, s.log, t.log, Rooms.DeletionWrites(s, mxid, rooms[i]), DeletedAll(s0, mxid, rooms).log);
    forall room | room in s0.members && room !in rooms
      ensures room in t.members && t.members[room] == s0.members[room]
    {
      assert room !in rooms[..i] && room != rooms[i];
    }
  }

  /** A room the loop cannot delete was deleted earlier in it, or could not
      be deleted at the start; either way not every room could be deleted
      once. */
  lemma RefusedRoom(s: Server, s0: Server, mxid: string, rooms: seq<string>, i: nat)
    requires i < |rooms| && DeletedFrom(s, s0, mxid, rooms[..i])
    requires !Rooms.DeletionAllowed(s, mxid, rooms[i])
    ensures rooms[i] in rooms[..i] || !Rooms.DeletionAllowed(s0, mxid, rooms[i])
    ensures !(Distinct(rooms) && forall room :: room in rooms ==> Rooms.DeletionAllowed(s0, mxid, room))
  {
    DeletedAllowed(s, s0, mxid, rooms[..i], rooms[i]);
    if rooms[i] in rooms[..i] {
      Repeated(rooms, i);
    } else {
      assert rooms[i] in rooms;
    }
  }

  /** A loop that got through every room leaves the server where all of
      them were deleted. */
  lemma DeletingDone(s: Server, s0: Server, mxid: string, rooms: seq<string>)
    requires Deleting(s, s0, mxid, rooms, |rooms|)
    ensures Distinct(rooms) && forall room :: room in rooms ==> Rooms.DeletionAllowed(s0, mxid, room)
    ensures DeletedEach(s, s0, mxid, rooms, true)
  {
    assert rooms[..|rooms|] == rooms;
  }

  /** The room ids bound under `policyKey`. */
  function BoundRooms(rooms: map<(string, string), string>, policyKey: string): set<string> {
    set k | k in rooms && k.0 == policyKey :: rooms[k]
  }

  /** Every bound room may be deleted exactly when every fetched id may. */
  lemma BoundAllowed(rooms: map<(string, string), string>, policyKey: string, bound: seq<string>, s: Server, mxid: string)
    requires (set id | id in bound) == BoundRooms(rooms, policyKey)
    ensures (forall room :: room in bound ==> Rooms.DeletionAllowed(s, mxid, room))
        <==> (forall k :: k in rooms && k.0 == policyKey ==> Rooms.DeletionAllowed(s, mxid, rooms[k]))
    ensures forall k :: k in rooms && k.0 == policyKey ==> rooms[k] in bound
  {
    forall k | k in rooms && k.0 == policyKey ensures rooms[k] in bound {
      assert rooms[k] in BoundRooms(rooms, policyKey);
    }
    if forall k :: k in rooms && k.0 == policyKey ==> Rooms.DeletionAllowed(s, mxid, rooms[k]) {
      forall room | room in bound ensures Rooms.DeletionAllowed(s, mxid, room) {
        assert room in BoundRooms(rooms, policyKey);
      }
    }
  }

  /** No two bindings under `policyKey` name the same room. */
  ghost predicate BindingsApart(rooms: map<(string, string), string>, policyKey: string) {
    forall k, k' :: k in rooms && k' in rooms && k.0 == policyKey && k'.0 == policyKey && k != k' ==> rooms[k] != rooms[k']
  }

  /** The ids fetched for the bindings, one per binding, are listed once
      exactly when no two bindings share a room. */
  lemma BoundDistinct(rooms: map<(string, string), string>, policyKey: string, ids: seq<string>,
                      keys: seq<(string, string)>)
    requires |ids| == |keys| && Distinct(keys)
    requires forall i :: 0 <= i < |keys| ==> keys[i] in rooms && keys[i].0 == policyKey && ids[i] == rooms[keys[i]]
    requires forall k :: k in rooms && k.0 == policyKey ==> k in keys
    ensures Distinct(ids) <==> BindingsApart(rooms, policyKey)
  {
    if Distinct(ids) {
      forall k, k' | k in rooms && k' in rooms && k.0 == policyKey && k'.0 == policyKey && k != k'
        ensures rooms[k] != rooms[k']
      {
        var i :| 0 <= i < |keys| && keys[i] == k;
        var j :| 0 <= j < |keys| && keys[j] == k';
        if i < j {
          DistinctAt(ids, i, j);
        } else {
          DistinctAt(ids, j, i);
        }
      }
    }
    if BindingsApart(rooms, policyKey) {
      forall i, j | 0 <= i < j < |ids| ensures ids[i] != ids[j] {
        DistinctAt(keys, i, j);
      }
      DistinctPairs(ids);
    }
  }

  /** What deleting the fetched ids says about the bindings: every bound
      room could be deleted, and has been left, exactly when no two
      bindings share a room and every fetched id could be deleted. */
  lemma DestroyedFacts(rooms: map<(string, string), string>, policyKey: string, bound: seq<string>,
                       s0: Server, s: Server, mxid: string, ok: bool)
    requires (set id | id in bound) == BoundRooms(rooms, policyKey)
    requires Distinct(bound) <==> BindingsApart(rooms, policyKey)
    requires ok <==> Distinct(bound) && forall room :: room in bound ==> Rooms.DeletionAllowed(s0, mxid, room)
    requires DeletedEach(s, s0, mxid, bound, ok)
    ensures ok <==> (BindingsApart(rooms, policyKey)
                     && forall k :: k in rooms && k.0 == policyKey ==> Rooms.DeletionAllowed(s0, mxid, rooms[k]))
    ensures ok ==> forall k :: k in rooms && k.0 == policyKey ==> Leave(rooms[k]) in s.log[|s0.log|..]
  {
    BoundAllowed(rooms, policyKey, bound, s0, mxid);
    DeletedAllLeaves(s0, mxid, bound);
  }

  /** Fetched ids are exactly the bound ones. */
  lemma BoundRoomsListed(rooms: map<(string, string), string>, policyKey: string, ids: seq<string>,
                          keys: seq<(string, string)>)
    requires |ids| == |keys|
    requires forall i :: 0 <= i < |keys| ==> keys[i] in rooms && keys[i].0 == policyKey && ids[i] == rooms[keys[i]]
    requires forall k :: k in rooms && k.0 == policyKey ==> rooms[k] in ids
    ensures (set id | id in ids) == BoundRooms(rooms, policyKey)
  {
    forall id | id in ids ensures id in BoundRooms(rooms, policyKey) {
      var i :| 0 <= i < |ids| && ids[i] == id;
      assert rooms[keys[i]] == id;
    }
  }

  /** Deleting one more room is one more `Deleted` step, and the log of the
      run so far and of that step is a prefix of the whole run's. */
  lemma DeletedAllNext(s: Server, mxid: string, rooms: seq<string>, i: nat)
    requires i < |rooms|
    ensures DeletedAll(s, mxid, rooms[..i + 1]) == Rooms.Deleted(DeletedAll(s, mxid, rooms[..i]), mxid, rooms[i])
    ensures DeletedAll(s, mxid, rooms[..i + 1]).log <= DeletedAll(s, mxid, rooms).log
  {
    assert rooms[..i + 1][..i] == rooms[..i];
    DeletedAllGrows(s, mxid, rooms, i + 1);
  }

  /** Deleting more rooms only adds to the log. */
  lemma {:induction false} DeletedAllGrows(s: Server, mxid: string, rooms: seq<string>, i: nat)
    requires i <= |rooms|
    ensures DeletedAll(s, mxid, rooms[..i]).log <= DeletedAll(s, mxid, rooms).log
    decreases |rooms|
  {
    if i == |rooms| {
      assert rooms[..i] == rooms;
    } else {
      var n := |rooms| - 1;
      assert rooms[..n][..i] == rooms[..i];
      DeletedAllGrows(s, mxid, rooms[..n], i);
    }
  }

  /** Every room of a run of deletions has been left, after whatever
      was logged before it. */
  lemma DeletedAllLeaves(s: Server, mxid: string, rooms: seq<string>)
    ensures s.log <= DeletedAll(s, mxid, rooms).log
    ensures forall room :: room in rooms ==> Leave(room) in DeletedAll(s, mxid, rooms).log[|s.log|..]
  {
    DeletedAllGrows(s, mxid, rooms, 0);
    assert rooms[..0] == [];
    forall room | room in rooms ensures Leave(room) in DeletedAll(s, mxid, rooms).log[|s.log|..] {
      DeletedAllLeft(s, mxid, rooms, room);
    }
  }

  /** One room of a run of deletions has been left, after whatever was
      logged before the run. */
  lemma {:induction false} DeletedAllLeft(s: Server, mxid: string, rooms: seq<string>, room: string)
    requires room in rooms
    ensures s.log <= DeletedAll(s, mxid, rooms).log
    ensures Leave(room) in DeletedAll(s, mxid, rooms).log[|s.log|..]
    decreases |rooms|
  {
    var n := |rooms| - 1;
    var t := DeletedAll(s, mxid, rooms[..n]);
    var step := Rooms.DeletionWrites(t, mxid, rooms[n]);
    DeletedAllLog(s, mxid, rooms);
    DeletedAllGrows(s, mxid, rooms[..n], 0);
    assert rooms[..n][..0] == [];
    if room == rooms[n] {
      Rooms.DeletionLeaves(t, mxid, room);
      LogAdded(s.log, t.log, step, Leave(room));
    } else {
      assert room in rooms[..n] by {
        var j :| 0 <= j < |rooms| && rooms[j] == room;
        assert rooms[..n][j] == room;
      }
      DeletedAllLeft(s, mxid, rooms[..n], room);
      LogKept(s.log, t.log, step, Leave(room));
    }
  }

  /** The log of a run of deletions is that of the run without its last
      room, then the writes deleting that room. */
  lemma DeletedAllLog(s: Server, mxid: string, rooms: seq<string>)
    requires rooms != []
    ensures var t := DeletedAll(s, mxid, rooms[..|rooms| - 1]);
      DeletedAll(s, mxid, rooms).log == t.log + Rooms.DeletionWrites(t, mxid, rooms[|rooms| - 1])
  {
  }

  /** A write logged after `start` stays logged after it when the log grows. */
  lemma LogKept(start: seq<Write>, l: seq<Write>, step: seq<Write>, w: Write)
    requires start <= l && w in l[|start|..]
    ensures start <= l + step && w in (l + step)[|start|..]
  {
    assert (l + step)[|start|..] == l[|start|..] + step;
  }

  /** A write among those appended is logged after `start`. */
  lemma LogAdded(start: seq<Write>, l: seq<Write>, step: seq<Write>, w: Write)
    requires start <= l && w in step
    ensures start <= l + step && w in (l + step)[|start|..]
  {
    assert (l + step)[|start|..] == l[|start|..] + step;
  }

  /** A deletion cut short leaves a log that is a prefix of the one where
      it went through, and so of any run extending that. */
  lemma StoppedPrefix<T>(l0: seq<T>, mid: seq<T>, l: seq<T>, step: seq<T>, whole: seq<T>)
    requires l0 <= mid && mid <= l && l[|mid|..] <= step && mid + step <= whole
    ensures l0 <= l && l <= whole
  {
    assert l == mid + l[|mid|..];
  }

  /** During such a loop, a room not yet deleted may be deleted exactly
      when it could be at the start, and a room already deleted may not be
      deleted again: the bot has left it. */
  lemma DeletedAllowed(s: Server, s0: Server, mxid: string, done: seq<string>, room: string)
    requires DeletedFrom(s, s0, mxid, done)
    ensures room !in done ==> (Rooms.DeletionAllowed(s, mxid, room) <==> Rooms.DeletionAllowed(s0, mxid, room))
    ensures room in done ==> !Rooms.DeletionAllowed(s, mxid, room)
  {
    if room !in done {
      Rooms.AllowedKept(s0, s, mxid, room);
    }
  }

  /** A successful deletion of `rooms[i]` extends the loop's progress. */
  lemma DeletedNext(s: Server, t: Server, s0: Server, mxid: string, rooms: seq<string>, i: nat)
    requires i < |rooms| && DeletedFrom(s, s0, mxid, rooms[..i])
    requires Rooms.DeletionAllowed(s, mxid, rooms[i])
    requires t.aliases == s.aliases && t.protectedAliases == s.protectedAliases && t.unkickable == s.unkickable
    requires t.members == s.members[rooms[i] := []]
    requires t.joined == Without(s.joined, rooms[i])
    ensures DeletedFrom(t, s0, mxid, rooms[..i + 1])
  {
    DeletedAllowed(s, s0, mxid, rooms[..i], rooms[i]);
    assert rooms[..i + 1] == rooms[..i] + [rooms[i]];
    assert t.members.Keys == s.members.Keys;
  }

  /** Binding a key after dropping it is binding it over the old map. */
  lemma KeyRemoved(rooms: map<(string, string), string>, key: (string, string), id: string)
    ensures key !in rooms - {key}
    ensures (rooms - {key})[key := id] == rooms[key := id]
    ensures (rooms - {key})[key := id] - {key} == rooms - {key}
  {
  }

  lemma InvitationsNext(roomId: string, users: seq<string>, i: nat)
    requires i < |users|
    ensures Invitations(roomId, users[..i + 1]) == Invitations(roomId, users[..i]) + [Invite(roomId, users[i])]
  {
    assert users[..i + 1] == users[..i] + [users[i]];
    InvitationsSnoc(roomId, users[..i], users[i]);
  }

  lemma InvitationsSnoc(roomId: string, users: seq<string>, u: string)
    ensures Invitations(roomId, users + [u]) == Invitations(roomId, users) + [Invite(roomId, u)]
  {
    if users != [] {
      assert (users + [u])[1..] == users[1..] + [u];
      InvitationsSnoc(roomId, users[1..], u);
    }
  }

  lemma RoomKeysCovered(policy: Json, rooms: Dict<Json>)
    requires RoomsOf(policy) == Ok(rooms)
    ensures forall roomKey :: roomKey in RoomKeys(policy) ==> exists j :: 0 <= j < |rooms| && rooms[j].0 == roomKey
  {
    forall roomKey | roomKey in RoomKeys(policy) ensures exists j :: 0 <= j < |rooms| && rooms[j].0 == roomKey {
      InKeys(rooms, roomKey);
    }
  }

  /** The body of the invitee loop for entry `i`: a user id is assigned its
      level, a group name assigns it to every member of the group, and a
      group without a usable member list ends the expansion. */
  method ExpandEntry(policy: Json, entries: seq<(string, Json)>, i: nat, invitees: Dict<Json>, ghost done: seq<(string, Json)>)
    returns (r: Result<Dict<Json>>, ghost extended: seq<(string, Json)>)
    requires i < |entries| && Contributions(policy, entries[..i]) == Ok(done)
    requires invitees == PutEach([], done)
    ensures r.Ok? ==> Contributions(policy, entries[..i + 1]) == Ok(extended) && r.value == PutEach([], extended)
    ensures r.Err? ==> Contributions(policy, entries) == Err(r.error)
  {
    var user := entries[i].0;
    var level := entries[i].1;
    ContributionsNext(policy, entries, i, done);
    if StartsWith(user, "@") {
      PutEachSnoc([], done, user, level);
      r, extended := Ok(Put(invitees, user, level)), done + [(user, level)];
    } else {
      var members := GroupMembers(policy, user);
      if members.Err? {
        ContributionsFirstError(policy, entries, i);
        return Err(members.error), done;
      }
      extended := done + Assign(members.value, level);
      var expanded := PutMembers(invitees, members.value, level);
      PutEachConcat([], done, Assign(members.value, level));
      r := Ok(expanded);
    }
  }

  lemma RoomInviteesOf(policy: Json, roomPolicy: Json, entries: Dict<Json>)
    requires Index(roomPolicy, "invitees") == Ok(JObj(entries))
    ensures RoomInvitees(policy, roomPolicy) == Expanded(policy, entries)
  {
  }

  /** `for u in members: invitees[u] = pl`. */
  method PutMembers(invitees: Dict<Json>, members: seq<string>, level: Json) returns (d: Dict<Json>)
    ensures d == PutEach(invitees, Assign(members, level))
  {
    d := invitees;
    var j := 0;
    while j < |members|
      invariant 0 <= j <= |members|
      invariant d == PutEach(invitees, Assign(members[..j], level))
    {
      AssignSnoc(members, j, level);
      PutEachSnoc(invitees, Assign(members[..j], level), members[j], level);
      d := Put(d, members[j], level);
      j := j + 1;
    }
    assert members[..j] == members;
  }

  lemma AssignSnoc(members: seq<string>, j: nat, level: Json)
    requires j < |members|
    ensures Assign(members[..j + 1], level) == Assign(members[..j], level) + [(members[j], level)]
  {
  }

  lemma ContributionsNext(policy: Json, entries: seq<(string, Json)>, i: nat, done: seq<(string, Json)>)
    requires i < |entries| && Contributions(policy, entries[..i]) == Ok(done)
    ensures StartsWith(entries[i].0, "@") ==> Contributions(policy, entries[..i + 1]) == Ok(done + [entries[i]])
    ensures !StartsWith(entries[i].0, "@") && GroupMembers(policy, entries[i].0).Ok? ==>
      Contributions(policy, entries[..i + 1]) == Ok(done + Assign(GroupMembers(policy, entries[i].0).value, entries[i].1))
  {
    assert entries[..i + 1][..i] == entries[..i];
  }


  lemma BindingsKept(before: map<(string, string), string>, after: map<(string, string), string>, pk: string, roomKey: string)
    requires after - {(pk, roomKey)} == before - {(pk, roomKey)}
    ensures OtherPolicies(after, pk) == OtherPolicies(before, pk)
    ensures forall k :: k in before && k != (pk, roomKey) ==> k in after && after[k] == before[k]
  {
    forall k | k in before && k != (pk, roomKey) ensures k in after && after[k] == before[k] {
      assert k in before - {(pk, roomKey)};
    }
    forall k | k in after && k != (pk, roomKey) ensures k in before {
      assert k in after - {(pk, roomKey)};
    }
  }

  // ---------------------------------------------------------------- ensure_policy lemmas

  /** Room `entry` of `policy` is bound under the policy key and, when the
      room policy asks for a name, the bound room carries it. */
  ghost predicate Named(t: Server, after: map<(string, string), string>, policy: Json, entry: (string, Json)) {
    && (KeyText(policy), entry.0) in after
    && (WantedNameOf(entry.1).Some? ==>
          after[(KeyText(policy), entry.0)] in t.names
          && t.names[after[(KeyText(policy), entry.0)]] == WantedNameOf(entry.1).value)
  }

  /** What a successful `ensure_policy` leaves: every room of the policy is
      bound and its invitees are invited into it, and every room whose
      bound id no later room shares carries the name its policy asks for. */
  ghost predicate PolicyEnsured(t: Server, after: map<(string, string), string>, policy: Json) {
    && RoomsOf(policy).Ok?
    && (forall j :: 0 <= j < |RoomsOf(policy).value| ==> Invited(t, after, policy, RoomsOf(policy).value[j]))
    && (forall j :: 0 <= j < |RoomsOf(policy).value| && LastBinding(after, KeyText(policy), RoomsOf(policy).value, j) ==>
          Named(t, after, policy, RoomsOf(policy).value[j]))
  }

  /** A reconcile pass keeps the server valid, only adds to the log and to
      the joined rooms and touches no binding but `key`; on success `key`
      is bound, the bound room carries the wanted name, every user is
      invited into it and no other room was renamed. */
  lemma ReconcileFacts(s: Server, rooms: map<(string, string), string>, mxid: string, key: (string, string),
                       roomPolicy: Dict<Json>, users: seq<string>)
    requires s.Valid()
    ensures var o := ReconcileOutcome(s, rooms, mxid, key, roomPolicy, users);
      PassKeeps(s, o.1, rooms, o.2, key)
    ensures var o := ReconcileOutcome(s, rooms, mxid, key, roomPolicy, users);
      o.0.Ok? ==> PassDone(s, o.1, o.2, key, WantedName(roomPolicy), users)
  {
    ExistsFacts(s, rooms, mxid, key, roomPolicy);
    var found := ExistsOutcome(s, rooms, mxid, key, roomPolicy);
    if found.0.Ok? {
      ConfigFacts(found.1, found.0.value, roomPolicy);
      var configured := ConfigOutcome(found.1, found.0.value, roomPolicy);
      if configured.0.Ok? {
        ReconcileStep(s, found.1, configured.1, rooms, found.2, key, found.0.value, WantedName(roomPolicy), users);
      }
    }
  }

  /** `_ensure_room_config` changes only names and the log, only adds to
      the log, and on success gives `roomId` the wanted name and leaves
      every other name alone. */
  lemma ConfigFacts(s: Server, roomId: string, roomPolicy: Dict<Json>)
    ensures var c := ConfigOutcome(s, roomId, roomPolicy);
      c.1 == s.(names := c.1.names, log := c.1.log) && s.log <= c.1.log
    ensures var c := ConfigOutcome(s, roomId, roomPolicy);
      c.0.Ok? ==> (&& (WantedName(roomPolicy).Some? ==> roomId in c.1.names && c.1.names[roomId] == WantedName(roomPolicy).value)
                   && forall x :: x in s.names && x != roomId ==> x in c.1.names && c.1.names[x] == s.names[x])
  {
  }

  /** The invitations after a found or created room and its rename: what
      each step kept adds up to what the pass keeps and leaves. */
  lemma ReconcileStep(s: Server, s1: Server, s2: Server, rooms: map<(string, string), string>,
                      after: map<(string, string), string>, key: (string, string), roomId: string,
                      wanted: Option<Json>, users: seq<string>)
    requires PassKeeps(s, s1, rooms, after, key) && key in after && after[key] == roomId
    requires forall x :: x in s.names && x != roomId ==> x in s1.names && s1.names[x] == s.names[x]
    requires s2 == s1.(names := s2.names, log := s2.log) && s1.log <= s2.log
    requires wanted.Some? ==> roomId in s2.names && s2.names[roomId] == wanted.value
    requires forall x :: x in s1.names && x != roomId ==> x in s2.names && s2.names[x] == s1.names[x]
    ensures PassKeeps(s, s2.(log := s2.log + Invitations(roomId, users)), rooms, after, key)
    ensures PassDone(s, s2.(log := s2.log + Invitations(roomId, users)), after, key, wanted, users)
  {
    KeptValid(s1, s2);
    InvitationsInvite(roomId, users);
  }

  /** `_ensure_room_exists` keeps the server valid, only adds to the log and
      to the joined rooms and touches no binding but `key`; on success `key`
      is bound to the returned room, and no other room's name changed. */
  lemma ExistsFacts(s: Server, rooms: map<(string, string), string>, mxid: string, key: (string, string),
                    roomPolicy: Dict<Json>)
    requires s.Valid()
    ensures var o := ExistsOutcome(s, rooms, mxid, key, roomPolicy);
      PassKeeps(s, o.1, rooms, o.2, key)
    ensures var o := ExistsOutcome(s, rooms, mxid, key, roomPolicy);
      o.0.Ok? ==> (&& key in o.2 && o.2[key] == o.0.value
                   && forall x :: x in s.names && x != o.0.value ==> x in o.1.names && o.1.names[x] == s.names[x])
  {
    if Lookup(s, rooms, key) == Err(DatabaseEntryNotFound) {
      var created := CreateOutcome(s, mxid, roomPolicy);
      KeyRemoved(rooms, key, if created.0.Ok? then created.0.value else "");
    }
  }

  /** A pass for another room key keeps an earlier room bound and invited:
      it touches only its own binding and only adds to the log. */
  lemma InvitedKept(t: Server, t': Server, after: map<(string, string), string>, after': map<(string, string), string>,
                    policy: Json, entry: (string, Json), key: (string, string))
    requires Invited(t, after, policy, entry)
    requires t.log <= t'.log && after' - {key} == after - {key} && key != (KeyText(policy), entry.0)
    ensures Invited(t', after', policy, entry)
  {
    InPrefix(t.log, t'.log);
    assert (KeyText(policy), entry.0) in after - {key};
  }

  /** A pass for another room key, bound to another room, keeps an earlier
      room's name: it renames only its own bound room. */
  lemma NamedKept(t: Server, t': Server, after: map<(string, string), string>, after': map<(string, string), string>,
                  policy: Json, entry: (string, Json), key: (string, string))
    requires Named(t, after, policy, entry)
    requires after' - {key} == after - {key} && key != (KeyText(policy), entry.0)
    requires key in after' && after'[key] != after[(KeyText(policy), entry.0)]
    requires forall x :: x in t.names && x != after'[key] ==> x in t'.names && t'.names[x] == t.names[x]
    ensures Named(t', after', policy, entry)
  {
    assert (KeyText(policy), entry.0) in after - {key};
  }

  /** Entry `j` is last with its room among `entries` only if it is among
      all but the last entry, whose pass touched only its own binding. */
  lemma LastBindingPrefix(before: map<(string, string), string>, after: map<(string, string), string>, pk: string,
                          entries: seq<(string, Json)>, j: nat)
    requires UniqueKeys(entries) && j < |entries| - 1
    requires after - {(pk, entries[|entries| - 1].0)} == before - {(pk, entries[|entries| - 1].0)}
    requires LastBinding(after, pk, entries, j)
    ensures LastBinding(before, pk, entries[..|entries| - 1], j)
  {
    var n := |entries| - 1;
    var keyN := (pk, entries[n].0);
    forall j' | j < j' < n && (pk, entries[..n][j'].0) in before && (pk, entries[..n][j].0) in before
      ensures before[(pk, entries[..n][j'].0)] != before[(pk, entries[..n][j].0)]
    {
      assert entries[..n][j'] == entries[j'] && entries[..n][j] == entries[j];
      assert (pk, entries[j'].0) in before - {keyN} && (pk, entries[j].0) in before - {keyN};
    }
  }

  /** The same for a whole pass, with the invitees expanded from the room
      policy: the name it asks for is the one the written-back dict asks
      for, since only `invitees` was assigned. */
  lemma PassFacts(s: Server, rooms: map<(string, string), string>, mxid: string, policy: Json,
                  roomKey: string, roomPolicy: Json)
    requires s.Valid()
    ensures var o := PassOutcome(s, rooms, mxid, policy, roomKey, roomPolicy);
      PassKeeps(s, o.1, rooms, o.2, (KeyText(policy), roomKey))
    ensures var o := PassOutcome(s, rooms, mxid, policy, roomKey, roomPolicy);
      o.0.Ok? ==> (&& Invited(o.1, o.2, policy, (roomKey, roomPolicy))
                   && Named(o.1, o.2, policy, (roomKey, roomPolicy))
                   && forall x :: x in s.names && x != o.2[(KeyText(policy), roomKey)] ==>
                        x in o.1.names && o.1.names[x] == s.names[x])
  {
    match RoomInvitees(policy, roomPolicy)
    case Err(_) =>
    case Ok(invitees) =>
      match PolicyKeyOf(policy)
      case Err(_) =>
      case Ok(pk) =>
        var expanded := Put(roomPolicy.fields, "invitees", JObj(invitees));
        assert Get(expanded, "room_name") == Get(roomPolicy.fields, "room_name");
        assert WantedName(expanded) == WantedNameOf(roomPolicy);
        ReconcileFacts(s, rooms, mxid, (pk, roomKey), expanded, Keys(invitees));
  }

  /** Passes over `entries` keep the server valid, only add to the log and
      to the joined rooms, and leave the bindings of other policy keys
      alone. */
  lemma {:induction false} PolicyKeeps(s: Server, rooms: map<(string, string), string>, mxid: string, policy: Json,
                                       entries: seq<(string, Json)>)
    requires s.Valid()
    ensures var o := PolicyOutcome(s, rooms, mxid, policy, entries);
      && o.1.Valid() && s.log <= o.1.log && (forall x :: x in s.joined ==> x in o.1.joined)
      && OtherPolicies(o.2, KeyText(policy)) == OtherPolicies(rooms, KeyText(policy))
    decreases |entries|
  {
    if entries != [] {
      var last := entries[|entries| - 1];
      PolicyKeeps(s, rooms, mxid, policy, entries[..|entries| - 1]);
      var before := PolicyOutcome(s, rooms, mxid, policy, entries[..|entries| - 1]);
      if before.0.Ok? {
        PassFacts(before.1, before.2, mxid, policy, last.0, last.1);
        BindingsKept(before.2, PassOutcome(before.1, before.2, mxid, policy, last.0, last.1).2, KeyText(policy), last.0);
      }
    }
  }

  /** After successful passes over distinct room keys, every room is bound
      and its expanded invitees are invited into it: a later pass touches
      only its own binding and only adds to the log. */
  lemma {:induction false} PolicyBound(s: Server, rooms: map<(string, string), string>, mxid: string, policy: Json,
                                       entries: seq<(string, Json)>)
    requires s.Valid() && UniqueKeys(entries)
    ensures var o := PolicyOutcome(s, rooms, mxid, policy, entries);
      o.0.Ok? ==> forall j :: 0 <= j < |entries| ==> Invited(o.1, o.2, policy, entries[j])
    decreases |entries|
  {
    if entries != [] {
      var n := |entries| - 1;
      PolicyBound(s, rooms, mxid, policy, entries[..n]);
      PolicyKeeps(s, rooms, mxid, policy, entries[..n]);
      var before := PolicyOutcome(s, rooms, mxid, policy, entries[..n]);
      if before.0.Ok? {
        PassFacts(before.1, before.2, mxid, policy, entries[n].0, entries[n].1);
        var o := PassOutcome(before.1, before.2, mxid, policy, entries[n].0, entries[n].1);
        if o.0.Ok? {
          PolicyBoundStep(before.1, o.1, before.2, o.2, policy, entries, entries[..n]);
        }
      }
    }
  }

  /** One more successful pass keeps every earlier room of the policy bound
      and invited, and adds its own. */
  lemma PolicyBoundStep(t: Server, t': Server, after: map<(string, string), string>, after': map<(string, string), string>,
                        policy: Json, entries: seq<(string, Json)>, prefix: seq<(string, Json)>)
    requires UniqueKeys(entries) && entries != [] && prefix == entries[..|entries| - 1]
    requires forall j :: 0 <= j < |prefix| ==> Invited(t, after, policy, prefix[j])
    requires PassKeeps(t, t', after, after', (KeyText(policy), entries[|entries| - 1].0))
    requires Invited(t', after', policy, entries[|entries| - 1])
    ensures forall j :: 0 <= j < |entries| ==> Invited(t', after', policy, entries[j])
  {
    var n := |entries| - 1;
    forall j | 0 <= j < n ensures Invited(t', after', policy, entries[j]) {
      assert prefix[j] == entries[j];
      InvitedKept(t, t', after, after', policy, entries[j], (KeyText(policy), entries[n].0));
    }
  }

  /** After successful passes over distinct room keys, a room whose bound
      id no later room shares carries the name its policy asks for: a later
      pass renames only its own bound room. */
  lemma {:induction false} PolicyNamed(s: Server, rooms: map<(string, string), string>, mxid: string, policy: Json,
                                       entries: seq<(string, Json)>)
    requires s.Valid() && UniqueKeys(entries)
    ensures var o := PolicyOutcome(s, rooms, mxid, policy, entries);
      o.0.Ok? ==> forall j :: 0 <= j < |entries| && LastBinding(o.2, KeyText(policy), entries, j) ==>
        Named(o.1, o.2, policy, entries[j])
    decreases |entries|
  {
    if entries != [] {
      var n := |entries| - 1;
      PolicyNamed(s, rooms, mxid, policy, entries[..n]);
      PolicyBound(s, rooms, mxid, policy, entries[..n]);
      PolicyKeeps(s, rooms, mxid, policy, entries[..n]);
      var before := PolicyOutcome(s, rooms, mxid, policy, entries[..n]);
      if before.0.Ok? {
        PassFacts(before.1, before.2, mxid, policy, entries[n].0, entries[n].1);
        var o := PassOutcome(before.1, before.2, mxid, policy, entries[n].0, entries[n].1);
        if o.0.Ok? {
          PolicyNamedStep(before.1, o.1, before.2, o.2, policy, entries, entries[..n]);
        }
      }
    }
  }

  /** One more successful pass, which renames only its own bound room, keeps
      the name of every earlier room whose bound id no later room shares,
      and adds its own. */
  lemma PolicyNamedStep(t: Server, t': Server, after: map<(string, string), string>, after': map<(string, string), string>,
                        policy: Json, entries: seq<(string, Json)>, prefix: seq<(string, Json)>)
    requires UniqueKeys(entries) && entries != [] && prefix == entries[..|entries| - 1]
    requires forall j :: 0 <= j < |prefix| ==> Invited(t, after, policy, prefix[j])
    requires forall j :: 0 <= j < |prefix| && LastBinding(after, KeyText(policy), prefix, j) ==>
      Named(t, after, policy, prefix[j])
    requires PassKeeps(t, t', after, after', (KeyText(policy), entries[|entries| - 1].0))
    requires Named(t', after', policy, entries[|entries| - 1])
    requires forall x :: x in t.names && x != after'[(KeyText(policy), entries[|entries| - 1].0)] ==>
      x in t'.names && t'.names[x] == t.names[x]
    ensures forall j :: 0 <= j < |entries| && LastBinding(after', KeyText(policy), entries, j) ==>
      Named(t', after', policy, entries[j])
  {
    var n := |entries| - 1;
    var pk := KeyText(policy);
    var keyN := (pk, entries[n].0);
    forall j | 0 <= j < n && LastBinding(after', pk, entries, j) ensures Named(t', after', policy, entries[j]) {
      assert prefix[j] == entries[j];
      LastBindingPrefix(after, after', pk, entries, j);
      assert (pk, entries[j].0) in after' - {keyN} by {
        assert (pk, entries[j].0) in after - {keyN};
      }
      NamedKept(t, t', after, after', policy, entries[j], keyN);
    }
  }

  /** The run over one more entry is one more pass after a successful run. */
  lemma PolicyOutcomeNext(s: Server, rooms: map<(string, string), string>, mxid: string, policy: Json,
                          entries: seq<(string, Json)>, i: nat)
    requires i < |entries|
    ensures var before := PolicyOutcome(s, rooms, mxid, policy, entries[..i]);
      before.0.Ok? ==>
        PolicyOutcome(s, rooms, mxid, policy, entries[..i + 1])
          == PassOutcome(before.1, before.2, mxid, policy, entries[i].0, entries[i].1)
  {
    assert entries[..i + 1][..i] == entries[..i];
  }

  /** The run over `entries[..i + 1]` after the one over `entries[..i]` went
      through: this pass's outcome, which when it fails is the whole run's. */
  lemma PolicyStep(s0: Server, rooms0: map<(string, string), string>, mxid: string, policy: Json,
                   entries: seq<(string, Json)>, i: nat, s: Server, rooms: map<(string, string), string>,
                   pass: (Result<()>, Server, map<(string, string), string>))
    requires i < |entries|
    requires (Ok(()), s, rooms) == PolicyOutcome(s0, rooms0, mxid, policy, entries[..i])
    requires pass == PassOutcome(s, rooms, mxid, policy, entries[i].0, entries[i].1)
    ensures pass.0.Ok? ==> (Ok(()), pass.1, pass.2) == PolicyOutcome(s0, rooms0, mxid, policy, entries[..i + 1])
    ensures pass.0.Err? ==> pass == PolicyOutcome(s0, rooms0, mxid, policy, entries)
  {
    PolicyOutcomeNext(s0, rooms0, mxid, policy, entries, i);
    if pass.0.Err? {
      PolicyErrSticks(s0, rooms0, mxid, policy, entries, i);
    }
  }

  /** A failing pass ends the run: what follows it is never reached. */
  lemma {:induction false} PolicyErrSticks(s: Server, rooms: map<(string, string), string>, mxid: string, policy: Json,
                                           entries: seq<(string, Json)>, i: nat)
    requires i < |entries|
    requires PolicyOutcome(s, rooms, mxid, policy, entries[..i + 1]).0.Err?
    ensures PolicyOutcome(s, rooms, mxid, policy, entries) == PolicyOutcome(s, rooms, mxid, policy, entries[..i + 1])
    decreases |entries|
  {
    if i + 1 == |entries| {
      assert entries[..i + 1] == entries;
    } else {
      var prefix := entries[..|entries| - 1];
      assert prefix[..i + 1] == entries[..i + 1];
      PolicyErrSticks(s, rooms, mxid, policy, prefix, i);
    }
  }

  /** `ensure_policy` on a stored policy keeps the server valid, only adds
      to the log and to the joined rooms, leaves other policy keys' bindings
      alone, and on success leaves the policy ensured. */
  lemma PolicyRunFacts(s: Server, rooms: map<(string, string), string>, mxid: string, policy: Json)
    requires s.Valid()
    ensures var o := PolicyRun(s, rooms, mxid, policy);
      && o.1.Valid() && s.log <= o.1.log && (forall x :: x in s.joined ==> x in o.1.joined)
      && OtherPolicies(o.2, KeyText(policy)) == OtherPolicies(rooms, KeyText(policy))
    ensures var o := PolicyRun(s, rooms, mxid, policy);
      o.0.Ok? ==> PolicyEnsured(o.1, o.2, policy)
  {
    if RoomsOf(policy).Ok? {
      var entries := RoomsOf(policy).value;
      PolicyKeeps(s, rooms, mxid, policy, entries);
      PolicyBound(s, rooms, mxid, policy, entries);
      PolicyNamed(s, rooms, mxid, policy, entries);
    }
  }

  lemma InPrefix<T>(a: seq<T>, b: seq<T>)
    requires a <= b
    ensures forall x :: x in a ==> x in b
  {
    forall x | x in a ensures x in b {
      var i :| 0 <= i < |a| && a[i] == x;
      assert b[i] == x;
    }
  }
}
