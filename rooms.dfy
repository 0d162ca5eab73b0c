/** secretary/rooms.py: creating a room with its power levels, and deleting a
    room by removing its aliases, kicking its members, leaving and forgetting
    it. */
module Rooms {
  import opened Results
  import opened Seqs
  import opened Dicts
  import opened Documents
  import opened Client
  import Util

  // ---------------------------------------------------------------- create_room

  /** The value of a non-empty string of decimal digits. */
  function DecimalValue(s: string): nat
    requires forall i :: 0 <= i < |s| ==> '0' <= s[i] <= '9'
  {
    if s == [] then 0
    else 10 * DecimalValue(s[..|s| - 1]) + (s[|s| - 1] as int - '0' as int)
  }

  /** Python's `int(pl)` on a policy value: integers as they are, booleans
      as 0 and 1, digit strings by their value; other strings raise
      ValueError and the remaining values TypeError. */
  function IntOf(j: Json): Result<int> {
    match j
    case JInt(i) => Ok(i)
    case JBool(b) => Ok(if b then 1 else 0)
    case JStr(s) =>
      if s != [] && forall i :: 0 <= i < |s| ==> '0' <= s[i] <= '9' then Ok(DecimalValue(s))
      else Err(ValueError("int"))
    case _ => Err(TypeError)
  }

  /** `int(pl)` for each invitee in order, stopping at the first value that
      is not a number. */
  function IntValues(kvs: seq<(string, Json)>): (r: Result<seq<(string, int)>>)
    ensures r.Ok? ==> |r.value| == |kvs|
    ensures r.Ok? ==> forall i :: 0 <= i < |kvs| ==> r.value[i].0 == kvs[i].0 && IntOf(kvs[i].1) == Ok(r.value[i].1)
  {
    if kvs == [] then Ok([])
    else
      var n := |kvs| - 1;
      var init :- IntValues(kvs[..n]);
      var v :- IntOf(kvs[n].1);
      Ok(init + [(kvs[n].0, v)])
  }

  /** The conversion fails exactly when some value is not a number. */
  lemma {:induction false} IntValuesFail(kvs: seq<(string, Json)>)
    ensures IntValues(kvs).Err? <==> exists i :: 0 <= i < |kvs| && IntOf(kvs[i].1).Err?
  {
    if kvs != [] {
      var n := |kvs| - 1;
      IntValuesFail(kvs[..n]);
      if exists i :: 0 <= i < n && IntOf(kvs[..n][i].1).Err? {
        var i :| 0 <= i < n && IntOf(kvs[..n][i].1).Err?;
        assert kvs[i] == kvs[..n][i];
      }
      if exists i :: 0 <= i < |kvs| && IntOf(kvs[i].1).Err? {
        var i :| 0 <= i < |kvs| && IntOf(kvs[i].1).Err?;
        if i < n { assert kvs[..n][i] == kvs[i]; }
      }
    }
  }

  lemma IntValuesSnoc(kvs: seq<(string, Json)>, i: nat, ints: seq<(string, int)>, v: int)
    requires i < |kvs| && IntValues(kvs[..i]) == Ok(ints) && IntOf(kvs[i].1) == Ok(v)
    ensures IntValues(kvs[..i + 1]) == Ok(ints + [(kvs[i].0, v)])
  {
    assert kvs[..i + 1][..i] == kvs[..i];
  }

  /** The error is that of the first value that is not a number. */
  lemma {:induction false} IntValuesFirstError(kvs: seq<(string, Json)>, i: nat)
    requires i < |kvs| && IntValues(kvs[..i]).Ok? && IntOf(kvs[i].1).Err?
    ensures IntValues(kvs) == Err(IntOf(kvs[i].1).error)
  {
    var n := |kvs| - 1;
    if i == n {
      assert kvs[..n] == kvs[..i];
    } else {
      assert kvs[..n][..i] == kvs[..i] && kvs[..n][i] == kvs[i];
      IntValuesFirstError(kvs[..n], i);
    }
  }

  /** The `users` map of the power-level override: the bot at 9001, then
      every invitee at `int(pl)`, so an invitee that is the bot itself
      overrides 9001. */
  function PowerLevels(mxid: string, invitees: Dict<Json>): (r: Result<Dict<int>>)
    ensures r.Err? <==> exists i :: 0 <= i < |invitees| && IntOf(invitees[i].1).Err?
    ensures r.Err? ==> r == IntValues(invitees).PropagateFailure()
  {
    IntValuesFail(invitees);
    var ints :- IntValues(invitees);
    var bot: Dict<int> := [(mxid, 9001)];
    Ok(PutEach(bot, ints))
  }

  /** Each invitee holds `int` of its policy level, the bot 9001 unless it
      is itself an invitee, and nobody else has an entry. */
  lemma PowerLevelsGet(mxid: string, invitees: Dict<Json>, users: Dict<int>, u: string)
    requires PowerLevels(mxid, invitees) == Ok(users)
    ensures u in Keys(invitees) ==>
      (Get(invitees, u).Some? && Get(users, u).Some? && IntOf(Get(invitees, u).value) == Ok(Get(users, u).value))
    ensures u !in Keys(invitees) ==> Get(users, u) == (if u == mxid then Some(9001) else None)
  {
    var ints := IntValues(invitees).value;
    IntValuesUnique(invitees, ints);
    var bot: Dict<int> := [(mxid, 9001)];
    assert users == PutEach(bot, ints);
    GetPutEach(bot, ints, u);
    LastValueUnique(ints, u);
    if u in Keys(invitees) {
      InviteeLevel(invitees, ints, u);
    } else {
      UnboundKey(invitees, ints, u);
      assert Keys(bot) == [mxid];
    }
  }

  lemma InviteeLevel(invitees: Dict<Json>, ints: Dict<int>, u: string)
    requires IntValues(invitees) == Ok(ints)
    requires u in Keys(invitees)
    ensures Get(invitees, u).Some? && Get(ints, u).Some? && IntOf(Get(invitees, u).value) == Ok(Get(ints, u).value)
  {
    InKeys(invitees, u);
    var i :| 0 <= i < |invitees| && invitees[i].0 == u;
    assert ints[i].0 == u;
  }

  lemma IntValuesUnique(invitees: Dict<Json>, ints: seq<(string, int)>)
    requires IntValues(invitees) == Ok(ints)
    ensures UniqueKeys(ints)
  {
    forall i, j | 0 <= i < j < |ints| ensures ints[i].0 != ints[j].0 {
      assert ints[i].0 == invitees[i].0 && ints[j].0 == invitees[j].0;
    }
  }

  lemma UnboundKey(invitees: Dict<Json>, ints: Dict<int>, u: string)
    requires |ints| == |invitees| && forall i :: 0 <= i < |ints| ==> ints[i].0 == invitees[i].0
    requires u !in Keys(invitees)
    ensures Get(ints, u) == None
  {
    InKeys(invitees, u);
    InKeys(ints, u);
  }

  /** The loop of create_room that fills `pl_override["users"]`. */
  method BuildPowerLevels(mxid: string, invitees: Dict<Json>) returns (r: Result<Dict<int>>)
    ensures r == PowerLevels(mxid, invitees)
  {
    ghost var bot: Dict<int> := [(mxid, 9001)];
    var users: Dict<int> := [(mxid, 9001)];
    ghost var ints: seq<(string, int)> := [];
    var i := 0;
    while i < |invitees|
      invariant 0 <= i <= |invitees|
      invariant IntValues(invitees[..i]) == Ok(ints)
      invariant users == PutEach(bot, ints)
    {
      var level := IntOf(invitees[i].1);
      if level.Err? {
        IntValuesFirstError(invitees, i);
        return Err(level.error);
      }
      IntValuesSnoc(invitees, i, ints, level.value);
      PutEachSnoc(bot, ints, invitees[i].0, level.value);
      ints := ints + [(invitees[i].0, level.value)];
      users := Put(users, invitees[i].0, level.value);
      i := i + 1;
    }
    assert invitees[..i] == invitees;
    r := Ok(users);
  }

  /** The creation content of a space. */
  function SpaceContent(): Json {
    JObj([("type", JStr("m.space"))])
  }

  /** What create_room asks the client for: a name other than "help" and the
      empty name, a topic that is "No topic set." when none is given, the
      invitee keys as the invite list, the power-level users, and the space
      creation content exactly for spaces. */
  function CreationRequest(mxid: string, roomName: string, invitees: Dict<Json>, isSpace: bool, topic: Option<string>): (r: Result<CreateRequest>)
    ensures roomName == "help" || roomName == "" ==> r == Err(ValueError("room name"))
    ensures roomName != "help" && roomName != "" ==> (r.Ok? <==> PowerLevels(mxid, invitees).Ok?)
    ensures r.Ok? ==> r.value.Request? && r.value.name == roomName && r.value.invitees == Keys(invitees)
    ensures r.Ok? ==> r.value.powerLevelUsers == PowerLevels(mxid, invitees).value
    ensures r.Ok? ==> (r.value.creationContent == Some(SpaceContent()) <==> isSpace)
    ensures r.Ok? ==> (r.value.creationContent == None <==> !isSpace)
    ensures r.Ok? ==> r.value.topic != ""
    ensures r.Ok? && topic.Some? && topic.value != "" ==> r.value.topic == topic.value
  {
    if roomName == "help" || roomName == "" then Err(ValueError("room name"))
    else
      var users :- PowerLevels(mxid, invitees);
      var topicText := if topic.None? || topic.value == "" then "No topic set." else topic.value;
      Ok(Request(roomName, topicText, Keys(invitees), users, if isSpace then Some(SpaceContent()) else None))
  }

  /** `create_room(client, room_name, invitees, is_space, topic)`: nothing
      reaches the client before the name is checked and the power levels are
      built; then exactly one room is created. */
  method CreateRoom(client: MatrixClient, roomName: string, invitees: Dict<Json>, isSpace: bool, topic: Option<string>)
    returns (r: Result<string>)
    modifies client
    ensures CreationRequest(client.mxid, roomName, invitees, isSpace, topic).Err? ==>
      r == Err(CreationRequest(client.mxid, roomName, invitees, isSpace, topic).error)
      && client.server == old(client.server)
    ensures CreationRequest(client.mxid, roomName, invitees, isSpace, topic).Ok? && old(client.server.idSupply) == [] ==>
      r == Err(ServerError) && client.server == old(client.server)
    ensures CreationRequest(client.mxid, roomName, invitees, isSpace, topic).Ok? && old(client.server.idSupply) != [] ==>
      && r == Ok(old(client.server.idSupply)[0])
      && client.server == Created(old(client.server), client.mxid, CreationRequest(client.mxid, roomName, invitees, isSpace, topic).value)
  {
    if roomName == "help" || roomName == "" {
      return Err(ValueError("room name"));
    }
    var topicText := if topic.None? || topic.value == "" then "No topic set." else topic.value;
    var users :- BuildPowerLevels(client.mxid, invitees);
    var request := Request(roomName, topicText, Keys(invitees), users, if isSpace then Some(SpaceContent()) else None);
    r := client.CreateRoom(request);
  }

  // ---------------------------------------------------------------- alias localparts

  /** One line of `re.sub(r"#(.*):.*", r'\1', ...)`: from the first `#` that
      a colon follows, the greedy group runs to the LAST colon of the line,
      and the match runs to the end of the line. */
  function SubstituteLine(line: string): string {
    var i := FirstIndex(line, '#');
    var j := LastIndex(line, ':');
    if i < j then line[..i] + line[i + 1..j] else line
  }

  /** `re.sub(r"#(.*):.*", r'\1', alias)` as _delete_aliases writes it; `.`
      stops at line breaks, so each line is substituted on its own. */
  function AliasLocalpartAsWritten(alias: string): string
    decreases |alias|
  {
    var n := Util.LineEnd(alias);
    if n == |alias| then SubstituteLine(alias)
    else SubstituteLine(alias[..n]) + "\n" + AliasLocalpartAsWritten(alias[n + 1..])
  }

  /** The localpart of `#localpart:server_name`: the text between the sigil
      and the FIRST colon, since the Matrix identifier grammar allows no colon
      in a localpart but one in a server name with a port. Anything that is
      not alias-shaped is passed on unchanged. */
  function AliasLocalpart(alias: string): string {
    var k := FirstIndex(alias, ':');
    if |alias| > 0 && alias[0] == '#' && k < |alias| then alias[1..k] else alias
  }

  /** The localpart comes back out of every alias built from it. */
  lemma AliasLocalpartRoundTrip(localpart: string, serverName: string)
    requires ':' !in localpart
    ensures AliasLocalpart("#" + localpart + ":" + serverName) == localpart
  {
    var s := "#" + localpart + ":" + serverName;
    var k := |localpart| + 1;
    assert s[k] == ':';
    forall i | 0 <= i < k ensures s[i] != ':' {
      if i > 0 { assert s[i] == localpart[i - 1]; }
    }
    assert FirstIndex(s, ':') == k;
    assert s[1..k] == localpart;
  }

  /** `#` at the front and no line break: the substitution keeps everything
      between the sigil and the last colon. */
  lemma {:induction false} AsWrittenKeepsToLastColon(s: string, j: nat)
    requires |s| > 0 && s[0] == '#' && '\n' !in s
    requires 0 < j < |s| && s[j] == ':' && ':' !in s[j + 1..]
    ensures AliasLocalpartAsWritten(s) == s[1..j]
  {
    Util.LineEndNoBreak(s);
    assert FirstIndex(s, '#') == 0;
    forall k | j < k < |s| ensures s[k] != ':' {
      assert s[k] == s[j + 1..][k - j - 1];
    }
    assert LastIndex(s, ':') == j;
  }

  /** Where the server name has no colon, as written and corrected agree. */
  lemma AliasLocalpartAgrees(localpart: string, serverName: string)
    requires ':' !in localpart && ':' !in serverName
    requires '\n' !in localpart && '\n' !in serverName
    ensures AliasLocalpartAsWritten("#" + localpart + ":" + serverName) == localpart
    ensures AliasLocalpart("#" + localpart + ":" + serverName) == localpart
  {
    var s := "#" + localpart + ":" + serverName;
    var front := "#" + localpart;
    var tail := ":" + serverName;
    var j := |front|;
    assert s == front + tail by { Regroup(front, ":", serverName); }
    SplitAt(front, tail);
    assert s[j] == ':' && s[j + 1..] == serverName by {
      assert s[j..] == tail;
    }
    assert '\n' !in s;
    AsWrittenKeepsToLastColon(s, j);
    assert s[1..j] == localpart by {
      SplitAt("#", localpart);
      assert s[1..j] == s[..j][1..];
    }
    AliasLocalpartRoundTrip(localpart, serverName);
  }

  lemma SplitAt(a: string, b: string)
    ensures (a + b)[..|a|] == a && (a + b)[|a|..] == b
  {
  }

  lemma Regroup(a: string, b: string, c: string)
    ensures a + b + c == a + (b + c)
  {
  }

  /** With a port in the server name, the greedy group swallows the host:
      `#l:host:port` gives `l:host`, where the localpart is `l`. */
  lemma AliasLocalpartWithPort(alias: string, localpart: string, host: string, port: string)
    requires alias == "#" + localpart + ":" + host + ":" + port
    requires ':' !in localpart && ':' !in port
    requires '\n' !in localpart && '\n' !in host && '\n' !in port
    ensures AliasLocalpartAsWritten(alias) == localpart + ":" + host
    ensures AliasLocalpart(alias) == localpart
  {
    var body := localpart + ":" + host;
    var front := "#" + localpart + ":" + host;
    var tail := ":" + port;
    var j := |front|;
    assert front == "#" + body by { Regroup("#", localpart + ":", host); Regroup("#", localpart, ":"); }
    assert alias == front + tail by { Regroup(front, ":", port); }
    SplitAt(front, tail);
    assert alias[j] == ':' && alias[j + 1..] == port by {
      assert alias[j..] == tail;
    }
    assert '\n' !in alias;
    AsWrittenKeepsToLastColon(alias, j);
    assert alias[1..j] == body by {
      SplitAt("#", body);
      assert alias[1..j] == alias[..j][1..];
    }
    assert alias == "#" + localpart + ":" + (host + ":" + port) by {
      Regroup("#" + localpart + ":", host, ":");
      Regroup("#" + localpart + ":", host + ":", port);
    }
    AliasLocalpartRoundTrip(localpart, host + ":" + port);
  }

  /** The alias `#room:example.org:8448` of a server on port 8448, written
      out part by part: as written it gives `room:example.org`. */
  lemma AliasWithPortExample(alias: string)
    requires alias == "#" + "room" + ":" + "example.org" + ":" + "8448"
    ensures AliasLocalpartAsWritten(alias) == "room" + ":" + "example.org"
    ensures AliasLocalpart(alias) == "room"
  {
    var l, h, p := "room", "example.org", "8448";
    assert ':' !in l && '\n' !in l;
    assert ':' !in p && '\n' !in p;
    assert '\n' !in h;
    AliasLocalpartWithPort(alias, l, h, p);
  }

  // ---------------------------------------------------------------- delete_room

  const KickReason := "Room deletion."

  /** One removal per alias, in order. */
  function AliasRemovals(aliases: seq<string>): seq<Write> {
    seq(|aliases|, i requires 0 <= i < |aliases| => RemoveAlias(AliasLocalpart(aliases[i])))
  }

  /** One kick per user, in order. */
  function Kicks(room: string, users: seq<string>): seq<Write> {
    seq(|users|, i requires 0 <= i < |users| => Kick(room, users[i], KickReason))
  }

  function AliasesIn(s: Server, room: string): seq<string> {
    if room in s.aliases then s.aliases[room] else []
  }

  function MembersIn(s: Server, room: string): seq<string> {
    if room in s.members then s.members[room] else []
  }

  /** Everything delete_room issues when nothing goes wrong: alias removals,
      then kicks of everyone but the bot, then leave, then forget. */
  function DeletionWrites(s: Server, mxid: string, room: string): seq<Write> {
    AliasRemovals(AliasesIn(s, room)) + Kicks(room, Without(MembersIn(s, room), mxid)) + [Leave(room), Forget(room)]
  }

  /** Deleting a room leaves it. */
  lemma DeletionLeaves(s: Server, mxid: string, room: string)
    ensures Leave(room) in DeletionWrites(s, mxid, room)
  {
    var w := DeletionWrites(s, mxid, room);
    assert w[|w| - 2] == Leave(room);
  }

  /** The server after `delete_room` went through: its writes are logged,
      the room has no members left and the bot no longer has it joined. */
  function Deleted(s: Server, mxid: string, room: string): Server {
    s.(log := s.log + DeletionWrites(s, mxid, room), members := s.members[room := []], joined := Without(s.joined, room))
  }

  /** The bot is in the room, the server lets it see the room, and it
      refuses none of the alias removals and kicks. */
  predicate DeletionAllowed(s: Server, mxid: string, room: string) {
    && room in s.joined
    && room in s.aliases
    && room in s.members
    && (forall a :: a in s.aliases[room] ==> AliasLocalpart(a) !in s.protectedAliases)
    && (forall u :: u in Without(s.members[room], mxid) ==> (room, u) !in s.unkickable)
  }

  /** Whether a room may be deleted depends only on whether the bot is in
      it, on its aliases and members and on what the server refuses: a state
      that kept those answers as before. */
  lemma AllowedKept(s0: Server, s: Server, mxid: string, room: string)
    requires s.aliases == s0.aliases && s.protectedAliases == s0.protectedAliases && s.unkickable == s0.unkickable
    requires s.members.Keys == s0.members.Keys
    requires room in s.joined <==> room in s0.joined
    requires room in s0.members ==> s.members[room] == s0.members[room]
    ensures DeletionAllowed(s, mxid, room) <==> DeletionAllowed(s0, mxid, room)
  {
  }

  /** A deleted room can no longer be deleted: the bot has left it. */
  lemma DeletedNotAllowed(s: Server, mxid: string, room: string)
    ensures !DeletionAllowed(Deleted(s, mxid, room), mxid, room)
  {
  }

  /** The loop of `_delete_aliases`: one removal per localpart, in order; a
      refused removal is raised again and ends the loop. */
  method RemoveEach(client: MatrixClient, parts: seq<string>) returns (r: Result<()>)
    modifies client
    ensures r.Ok? <==> forall j :: 0 <= j < |parts| ==> parts[j] !in old(client.server.protectedAliases)
    ensures r.Err? ==> r.error == Forbidden(403)
    ensures client.server == old(client.server).(log := client.server.log)
    ensures old(client.server.log) <= client.server.log
    ensures client.server.log[|old(client.server.log)|..] <= Removals(parts)
    ensures r.Ok? ==> client.server.log == old(client.server.log) + Removals(parts)
  {
    ghost var log0 := client.server.log;
    var i := 0;
    while i < |parts|
      invariant 0 <= i <= |parts|
      invariant forall j :: 0 <= j < i ==> parts[j] !in client.server.protectedAliases
      invariant client.server == old(client.server).(log := log0 + Removals(parts[..i]))
    {
      var removed := client.RemoveRoomAlias(parts[i]);
      RemovalsNext(parts, i);
      if removed.Err? {
        return Err(removed.error);
      }
      i := i + 1;
    }
    assert parts[..i] == parts;
    r := Ok(());
  }

  /** One removal per localpart, in order. */
  function Removals(parts: seq<string>): (w: seq<Write>)
    ensures |w| == |parts|
  {
    seq(|parts|, i requires 0 <= i < |parts| => RemoveAlias(parts[i]))
  }

  /** One more localpart: its removal is appended, and the removals so far
      are a prefix of all of them. */
  lemma RemovalsNext(parts: seq<string>, i: nat)
    requires i < |parts|
    ensures Removals(parts[..i + 1]) == Removals(parts[..i]) + [RemoveAlias(parts[i])]
    ensures Removals(parts[..i]) <= Removals(parts)
  {
  }

  /** `_delete_aliases` with the corrected localpart: one removal per alias. */
  method DeleteAliases(client: MatrixClient, room: string) returns (r: Result<()>)
    modifies client
    ensures r.Ok? <==> (room in old(client.server.joined) && room in old(client.server.aliases)
      && forall a :: a in old(client.server.aliases)[room] ==> AliasLocalpart(a) !in old(client.server.protectedAliases))
    ensures r.Err? ==> r.error == Forbidden(403)
    ensures client.server == old(client.server).(log := client.server.log)
    ensures old(client.server.log) <= client.server.log
    ensures client.server.log[|old(client.server.log)|..] <= AliasRemovals(AliasesIn(old(client.server), room))
    ensures r.Ok? ==> client.server.log == old(client.server.log) + AliasRemovals(AliasesIn(old(client.server), room))
  {
    var got := client.GetRoomAliases(room);
    if got.Err? {
      return Err(got.error);
    }
    var aliases := got.value;
    var parts := seq(|aliases|, i requires 0 <= i < |aliases| => AliasLocalpart(aliases[i]));
    assert Removals(parts) == AliasRemovals(aliases);
    r := RemoveEach(client, parts);
    if r.Err? {
      ghost var j :| 0 <= j < |parts| && parts[j] in old(client.server.protectedAliases);
      assert aliases[j] in aliases;
    } else {
      forall a | a in aliases ensures AliasLocalpart(a) !in old(client.server.protectedAliases) {
        var j :| 0 <= j < |aliases| && aliases[j] == a;
        assert parts[j] == AliasLocalpart(a);
      }
    }
  }

  /** The removals `_delete_aliases` issues as written: for each alias, the
      text the greedy substitution leaves. */
  function AliasRemovalsAsWritten(aliases: seq<string>): seq<Write> {
    seq(|aliases|, i requires 0 <= i < |aliases| => RemoveAlias(AliasLocalpartAsWritten(aliases[i])))
  }

  /** `_delete_aliases` as written: each alias is removed by the text the
      greedy substitution leaves; a refused removal is raised again and ends
      the loop. */
  method DeleteAliasesAsWritten(client: MatrixClient, room: string) returns (r: Result<()>)
    modifies client
    ensures r.Ok? <==> (room in old(client.server.joined) && room in old(client.server.aliases)
      && forall a :: a in old(client.server.aliases)[room] ==> AliasLocalpartAsWritten(a) !in old(client.server.protectedAliases))
    ensures r.Err? ==> r.error == Forbidden(403)
    ensures client.server == old(client.server).(log := client.server.log)
    ensures old(client.server.log) <= client.server.log
    ensures client.server.log[|old(client.server.log)|..] <= AliasRemovalsAsWritten(AliasesIn(old(client.server), room))
    ensures r.Ok? ==> client.server.log == old(client.server.log) + AliasRemovalsAsWritten(AliasesIn(old(client.server), room))
  {
    var got := client.GetRoomAliases(room);
    if got.Err? {
      return Err(got.error);
    }
    var aliases := got.value;
    var parts := seq(|aliases|, i requires 0 <= i < |aliases| => AliasLocalpartAsWritten(aliases[i]));
    assert Removals(parts) == AliasRemovalsAsWritten(aliases);
    r := RemoveEach(client, parts);
    if r.Err? {
      ghost var j :| 0 <= j < |parts| && parts[j] in old(client.server.protectedAliases);
      assert aliases[j] in aliases;
    } else {
      forall a | a in aliases ensures AliasLocalpartAsWritten(a) !in old(client.server.protectedAliases) {
        var j :| 0 <= j < |aliases| && aliases[j] == a;
        assert parts[j] == AliasLocalpartAsWritten(a);
      }
    }
  }

  /** For an alias of a server with a port, the loop as written asks the
      server to remove `room:example.org`, the corrected loop `room`. */
  lemma AliasRemovalsWithPort(aliases: seq<string>)
    requires aliases == ["#" + "room" + ":" + "example.org" + ":" + "8448"]
    ensures AliasRemovalsAsWritten(aliases) == [RemoveAlias("room" + ":" + "example.org")]
    ensures AliasRemovals(aliases) == [RemoveAlias("room")]
  {
    AliasWithPortExample(aliases[0]);
  }

  /** `_kick_all_users`: every joined member but the bot is kicked, in member
      order; a refused kick is raised again and ends the loop. */
  method KickAllUsers(client: MatrixClient, room: string) returns (r: Result<()>)
    modifies client
    ensures r.Ok? <==> (room in old(client.server.joined) && room in old(client.server.members)
      && forall u :: u in Without(old(client.server.members)[room], client.mxid) ==> (room, u) !in old(client.server.unkickable))
    ensures r.Err? ==> r.error == Forbidden(403)
    ensures client.server == old(client.server).(log := client.server.log, members := client.server.members)
    ensures old(client.server.log) <= client.server.log
    ensures client.server.log[|old(client.server.log)|..] <= Kicks(room, Without(MembersIn(old(client.server), room), client.mxid))
    ensures r.Ok? ==> client.server.log == old(client.server.log) + Kicks(room, Without(old(client.server.members)[room], client.mxid))
    ensures client.server.members.Keys == old(client.server.members).Keys
    ensures forall other :: other in old(client.server.members) && other != room ==>
      client.server.members[other] == old(client.server.members)[other]
    ensures r.Ok? ==>
      client.server.members[room] == Removed(old(client.server.members)[room], Without(old(client.server.members)[room], client.mxid))
    ensures old(client.server.Valid()) ==> client.server.Valid()
  {
    var got := client.GetJoinedMembers(room);
    if got.Err? {
      return Err(got.error);
    }
    var members := got.value;
    var others := Without(members, client.mxid);
    ghost var s0 := client.server;
    var i := 0;
    r := Ok(());
    while i < |others|
      invariant 0 <= i <= |others| && r == Ok(())
      invariant forall j :: 0 <= j < i ==> (room, others[j]) !in s0.unkickable
      invariant client.server.log == s0.log + Kicks(room, others[..i])
      invariant client.server.members == s0.members[room := Removed(members, others[..i])]
      invariant client.server == s0.(log := client.server.log, members := client.server.members)
      invariant old(client.server.Valid()) ==> client.server.Valid()
    {
      var kicked := client.KickUser(room, others[i], KickReason);
      if kicked.Err? {
        KicksPrefix(room, others, i);
        assert client.server.log[|s0.log|..] == Kicks(room, others[..i]);
        r := Err(kicked.error);
        break;
      }
      KickNext(room, members, others, i);
      i := i + 1;
    }
    if r.Ok? {
      assert others[..i] == others;
    }
  }

  lemma KickNext(room: string, members: seq<string>, others: seq<string>, i: nat)
    requires i < |others|
    ensures Kicks(room, others[..i + 1]) == Kicks(room, others[..i]) + [Kick(room, others[i], KickReason)]
    ensures Removed(members, others[..i + 1]) == Without(Removed(members, others[..i]), others[i])
  {
    assert others[..i + 1][..i] == others[..i];
  }

  lemma KicksPrefix(room: string, others: seq<string>, i: nat)
    requires i <= |others|
    ensures Kicks(room, others[..i]) <= Kicks(room, others)
  {
  }

  /** Once everyone but the bot is kicked and the bot has left, nobody is
      left. */
  lemma EmptiedRoom(members: seq<string>, mxid: string)
    ensures Without(Removed(members, Without(members, mxid)), mxid) == []
  {
    var left := Without(Removed(members, Without(members, mxid)), mxid);
    RemovedMembers(members, Without(members, mxid));
    NoElements(left);
  }

  /** `delete_room`: alias removals, then kicks, then leave, then forget;
      the first refusal ends it. */
  method DeleteRoom(client: MatrixClient, room: string) returns (r: Result<()>)
    modifies client
    ensures r.Ok? <==> DeletionAllowed(old(client.server), client.mxid, room)
    ensures r.Err? ==> r.error == Forbidden(403)
    ensures old(client.server.log) <= client.server.log
    ensures client.server.log[|old(client.server.log)|..] <= DeletionWrites(old(client.server), client.mxid, room)
    ensures r.Ok? ==> client.server.log == old(client.server.log) + DeletionWrites(old(client.server), client.mxid, room)
    ensures client.server == old(client.server).(log := client.server.log, members := client.server.members, joined := client.server.joined)
    ensures r.Ok? ==> client.server.joined == Without(old(client.server.joined), room)
    ensures r.Err? ==> client.server.joined == old(client.server.joined)
    ensures client.server.members.Keys == old(client.server.members).Keys
    ensures forall other :: other in old(client.server.members) && other != room ==>
      client.server.members[other] == old(client.server.members)[other]
    ensures r.Ok? ==> client.server.members[room] == []
    ensures r.Ok? ==> client.server == Deleted(old(client.server), client.mxid, room)
    ensures old(client.server.Valid()) ==> client.server.Valid()
  {
    ghost var s0 := client.server;
    var removed := DeleteAliases(client, room);
    LogKeepsValid(s0, client.server);
    if removed.Err? {
      AliasesRefused(s0, client.server, client.mxid, room);
      return removed;
    }
    ghost var s1 := client.server;
    var kicked := KickAllUsers(client, room);
    if kicked.Err? {
      KicksRefused(s0, s1, client.server, client.mxid, room);
      return kicked;
    }
    ghost var s2 := client.server;
    client.LeaveRoom(room);
    ghost var s3 := client.server;
    client.ForgetRoom(room);
    LogKeepsValid(s3, client.server);
    DeletionDone(s0, s1, s2, s3, client.server, client.mxid, room);
    r := Ok(());
  }

  /** `delete_room` stopped by a refused alias removal: the room could not
      be deleted, and only some of its alias removals were made. */
  lemma AliasesRefused(s0: Server, t: Server, mxid: string, room: string)
    requires t == s0.(log := t.log)
    requires s0.log <= t.log && t.log[|s0.log|..] <= AliasRemovals(AliasesIn(s0, room))
    requires !(room in s0.joined && room in s0.aliases
               && forall a :: a in s0.aliases[room] ==> AliasLocalpart(a) !in s0.protectedAliases)
    ensures !DeletionAllowed(s0, mxid, room)
    ensures t.log[|s0.log|..] <= DeletionWrites(s0, mxid, room)
  {
    assert s0.log + [] == s0.log;
    RefusedPart(s0.log, [], t.log, AliasRemovals(AliasesIn(s0, room)),
                Kicks(room, Without(MembersIn(s0, room), mxid)) + [Leave(room), Forget(room)]);
  }

  /** `delete_room` stopped by a refused kick: the room could not be
      deleted, and its alias removals and some of its kicks were made. */
  lemma KicksRefused(s0: Server, s1: Server, t: Server, mxid: string, room: string)
    requires s1 == s0.(log := s1.log) && s1.log == s0.log + AliasRemovals(AliasesIn(s0, room))
    requires t == s1.(log := t.log, members := t.members)
    requires s1.log <= t.log && t.log[|s1.log|..] <= Kicks(room, Without(MembersIn(s1, room), mxid))
    requires !(room in s1.joined && room in s1.members
               && forall u :: u in Without(s1.members[room], mxid) ==> (room, u) !in s1.unkickable)
    ensures !DeletionAllowed(s0, mxid, room)
    ensures s0.log <= t.log && t.log[|s0.log|..] <= DeletionWrites(s0, mxid, room)
  {
    RefusedPart(s0.log, AliasRemovals(AliasesIn(s0, room)), t.log,
                Kicks(room, Without(MembersIn(s0, room), mxid)), [Leave(room), Forget(room)]);
  }

  /** `delete_room` that went through: the room could be deleted, and the
      server is the one where it was, by way of each step's state. */
  lemma DeletionDone(s0: Server, s1: Server, s2: Server, s3: Server, t: Server, mxid: string, room: string)
    requires room in s0.joined && room in s0.aliases
    requires forall a :: a in s0.aliases[room] ==> AliasLocalpart(a) !in s0.protectedAliases
    requires s1 == s0.(log := s1.log) && s1.log == s0.log + AliasRemovals(AliasesIn(s0, room))
    requires room in s1.members && forall u :: u in Without(s1.members[room], mxid) ==> (room, u) !in s1.unkickable
    requires s2 == s1.(log := s2.log, members := s2.members)
    requires s2.log == s1.log + Kicks(room, Without(s1.members[room], mxid))
    requires s2.members.Keys == s1.members.Keys
    requires forall other :: other in s1.members && other != room ==> s2.members[other] == s1.members[other]
    requires s2.members[room] == Removed(s1.members[room], Without(s1.members[room], mxid))
    requires s3 == s2.(joined := Without(s2.joined, room),
                       members := if room in s2.members then s2.members[room := Without(s2.members[room], mxid)]
                                  else s2.members,
                       log := s2.log + [Leave(room)])
    requires t == s3.(log := s3.log + [Forget(room)])
    ensures DeletionAllowed(s0, mxid, room)
    ensures s0.log <= t.log && t.log[|s0.log|..] == DeletionWrites(s0, mxid, room)
    ensures t.log == s0.log + DeletionWrites(s0, mxid, room)
    ensures t.members[room] == [] && t.joined == Without(s0.joined, room)
    ensures t == Deleted(s0, mxid, room)
  {
    EmptiedRoom(s1.members[room], mxid);
    AllParts(s0.log, AliasRemovals(AliasesIn(s0, room)), Kicks(room, Without(MembersIn(s0, room), mxid)),
             [Leave(room), Forget(room)], t.log);
    assert t.members == s0.members[room := []];
  }

  /** Only the log changed, so validity is kept. */
  lemma LogKeepsValid(s: Server, t: Server)
    requires t == s.(log := t.log)
    ensures s.Valid() ==> t.Valid()
  {
  }

  /** A run of writes cut short after `a` and part of `b` is a prefix of
      the whole run. */
  lemma RefusedPart<T>(l0: seq<T>, a: seq<T>, l: seq<T>, b: seq<T>, rest: seq<T>)
    requires l0 + a <= l && l[|l0 + a|..] <= b
    ensures l0 <= l && l[|l0|..] <= a + b + rest
  {
    assert l[|l0|..] == a + l[|l0 + a|..];
  }

  lemma AllParts<T>(l0: seq<T>, a: seq<T>, b: seq<T>, c: seq<T>, l: seq<T>)
    requires l == l0 + a + b + c
    ensures l0 <= l && l[|l0|..] == a + b + c
  {
  }
}
