/** The mautrix client the secretary drives, as an abstract homeserver: what
    the bot can read, what the server refuses, and an append-only log of
    every write the bot issues. Each client call is one atomic step. */
module Client {
  import opened Results
  import opened Seqs
  import opened Dicts
  import opened Documents

  /** The settings of a room as the secretary reads them from a room policy,
      with the defaults filled in (`_create_room`). */
  datatype RoomSettings = RoomSettings(
    roomName: Json,
    invitees: Json,
    serverName: string,
    isSpace: Json,
    parentSpaces: seq<Json>,
    alias: Json,
    topic: Json,
    suggested: Json,
    joinRule: Json,
    encrypt: Json)

  /** What a room is created from: the keyword arguments rooms.create_room
      hands to `client.create_room`, or the settings of a room policy. */
  datatype CreateRequest =
    | Request(name: string, topic: string, invitees: seq<string>,
              powerLevelUsers: Dict<int>, creationContent: Option<Json>)
    | PolicyRequest(settings: RoomSettings)

  /** The name a created room starts with. */
  function RequestedName(req: CreateRequest): Json {
    match req
    case Request(name, _, _, _, _) => JStr(name)
    case PolicyRequest(settings) => settings.roomName
  }

  /** A write the bot issues to the homeserver. */
  datatype Write =
    | Create(request: CreateRequest, roomId: string)
    | PutName(roomId: string, content: Dict<Json>)
    | Invite(roomId: string, userId: string)
    | Kick(roomId: string, userId: string, reason: string)
    | RemoveAlias(localpart: string)
    | Leave(roomId: string)
    | Forget(roomId: string)

  /** The homeserver as the bot sees it. */
  datatype Server = Server(
    stateErrors: map<string, Error>,    // rooms whose state the bot may not read, with the error
    names: map<string, Json>,           // the `name` of each room's m.room.name state
    members: map<string, seq<string>>,  // the joined members of each room the bot can see
    aliases: map<string, seq<string>>,  // the local aliases of each room the bot can see
    joined: seq<string>,                // the rooms the bot has joined
    unkickable: set<(string, string)>,  // (room, user) kicks the server refuses
    protectedAliases: set<string>,      // alias localparts the server refuses to remove
    idSupply: seq<string>,              // the ids the next created rooms get
    log: seq<Write>)                    // every write issued so far, oldest first
  {
    /** Joined rooms are listed once, a room lists each member once (the
        joined members are keyed by user id), new ids are new, and a refused
        read fails with an HTTP error. */
    predicate Valid() {
      && Distinct(joined)
      && (forall room, i, j :: room in members && 0 <= i < j < |members[room]| ==> members[room][i] != members[room][j])
      && Distinct(idSupply)
      && (forall id :: id in idSupply ==> id !in joined)
      && (forall room :: room in stateErrors ==> FromServer(stateErrors[room]))
    }
  }

  /** The errors a homeserver answers with. */
  predicate FromServer(e: Error) {
    e.Forbidden? || e.NotFound? || e.ServerError?
  }

  /** The server after creating a room: it takes the next id, the bot is its
      only member and it has the requested name and no aliases. */
  function Created(s: Server, mxid: string, req: CreateRequest): (t: Server)
    requires s.idSupply != []
    ensures s.Valid() ==> t.Valid()
  {
    var id := s.idSupply[0];
    var t := s.(idSupply := s.idSupply[1..],
                joined := s.joined + [id],
                members := s.members[id := [mxid]],
                aliases := s.aliases[id := []],
                names := s.names[id := RequestedName(req)],
                stateErrors := s.stateErrors - {id},
                log := s.log + [Create(req, id)]);
    assert s.Valid() ==> t.Valid() by {
      if s.Valid() {
        assert id in s.idSupply;
        DistinctSnoc(s.joined, id);
        forall x | x in t.idSupply ensures x !in t.joined {
          var k :| 0 <= k < |t.idSupply| && t.idSupply[k] == x;
          assert s.idSupply[k + 1] == x;
        }
      }
    }
    t
  }

  class MatrixClient {
    const mxid: string
    var server: Server

    constructor (mxid: string, server: Server)
      ensures this.mxid == mxid && this.server == server
    {
      this.mxid := mxid;
      this.server := server;
    }

    /** `get_room_state`: fails with the server's error for a room the bot
        may not read. */
    method GetRoomState(roomId: string) returns (r: Result<()>)
      ensures r.Err? <==> roomId in server.stateErrors
      ensures r.Err? ==> r.error == server.stateErrors[roomId]
    {
      if roomId in server.stateErrors {
        r := Err(server.stateErrors[roomId]);
      } else {
        r := Ok(());
      }
    }

    /** GET of the m.room.name state: its content `{'name': ...}`; a room
        without a name state gives M_NOT_FOUND. */
    method GetRoomName(roomId: string) returns (r: Result<Json>)
      ensures roomId in server.stateErrors ==> r == Err(server.stateErrors[roomId])
      ensures roomId !in server.stateErrors && roomId !in server.names ==> r == Err(NotFound)
      ensures roomId !in server.stateErrors && roomId in server.names ==>
        r == Ok(JObj([("name", server.names[roomId])]))
    {
      if roomId in server.stateErrors {
        r := Err(server.stateErrors[roomId]);
      } else if roomId !in server.names {
        r := Err(NotFound);
      } else {
        r := Ok(JObj([("name", server.names[roomId])]));
      }
    }

    /** PUT of the m.room.name state with content `{'name': value}`: the
        server takes state events only from a member of the room, so a room
        the bot has not joined (or has left) refuses it with a 403. */
    method PutRoomName(roomId: string, value: Json) returns (r: Result<()>)
      modifies this
      ensures roomId !in old(server.joined) ==> r == Err(Forbidden(403)) && server == old(server)
      ensures roomId in old(server.joined) ==> r == Ok(())
      ensures roomId in old(server.joined) ==>
        server == old(server).(names := old(server.names)[roomId := value],
                               log := old(server.log) + [PutName(roomId, [("name", value)])])
    {
      if roomId !in server.joined {
        r := Err(Forbidden(403));
      } else {
        server := server.(names := server.names[roomId := value],
                          log := server.log + [PutName(roomId, [("name", value)])]);
        r := Ok(());
      }
    }

    /** `create_room`: the server hands out the next id, or fails when it
        has none left. */
    method CreateRoom(req: CreateRequest) returns (r: Result<string>)
      modifies this
      ensures old(server.idSupply) == [] ==> r == Err(ServerError) && server == old(server)
      ensures old(server.idSupply) != [] ==>
        r == Ok(old(server.idSupply)[0]) && server == Created(old(server), mxid, req)
    {
      if server.idSupply == [] {
        r := Err(ServerError);
      } else {
        r := Ok(server.idSupply[0]);
        server := Created(server, mxid, req);
      }
    }

    /** `invite_user`. */
    method InviteUser(roomId: string, userId: string)
      modifies this
      ensures server == old(server).(log := old(server.log) + [Invite(roomId, userId)])
    {
      server := server.(log := server.log + [Invite(roomId, userId)]);
    }

    /** `kick_user`: a refused kick raises MForbidden with status 403. */
    method KickUser(roomId: string, userId: string, reason: string) returns (r: Result<()>)
      modifies this
      ensures old(server.Valid()) ==> server.Valid()
      ensures (roomId, userId) in old(server.unkickable) ==>
        r == Err(Forbidden(403)) && server == old(server)
      ensures (roomId, userId) !in old(server.unkickable) ==> r == Ok(())
      ensures (roomId, userId) !in old(server.unkickable) ==>
        server == old(server).(
          members := if roomId in old(server.members)
                     then old(server.members)[roomId := Without(old(server.members)[roomId], userId)]
                     else old(server.members),
          log := old(server.log) + [Kick(roomId, userId, reason)])
    {
      if (roomId, userId) in server.unkickable {
        r := Err(Forbidden(403));
      } else {
        var members := if roomId in server.members
                       then server.members[roomId := Without(server.members[roomId], userId)]
                       else server.members;
        if server.Valid() && roomId in server.members {
          WithoutApart(server.members[roomId], userId);
        }
        server := server.(members := members, log := server.log + [Kick(roomId, userId, reason)]);
        r := Ok(());
      }
    }

    /** `remove_room_alias`: a refused removal raises MForbidden with status 403. */
    method RemoveRoomAlias(localpart: string) returns (r: Result<()>)
      modifies this
      ensures localpart in old(server.protectedAliases) ==>
        r == Err(Forbidden(403)) && server == old(server)
      ensures localpart !in old(server.protectedAliases) ==>
        r == Ok(()) && server == old(server).(log := old(server.log) + [RemoveAlias(localpart)])
    {
      if localpart in server.protectedAliases {
        r := Err(Forbidden(403));
      } else {
        server := server.(log := server.log + [RemoveAlias(localpart)]);
        r := Ok(());
      }
    }

    /** `leave_room`: the room is no longer joined and the bot no longer a
        member of it, so its members and aliases can no longer be read and
        its state no longer written. */
    method LeaveRoom(roomId: string)
      modifies this
      ensures server == old(server).(
        joined := Without(old(server.joined), roomId),
        members := if roomId in old(server.members)
                   then old(server.members)[roomId := Without(old(server.members)[roomId], mxid)]
                   else old(server.members),
        log := old(server.log) + [Leave(roomId)])
      ensures old(server.Valid()) ==> server.Valid()
    {
      var members := if roomId in server.members
                     then server.members[roomId := Without(server.members[roomId], mxid)]
                     else server.members;
      if server.Valid() {
        WithoutDistinct(server.joined, roomId);
        if roomId in server.members {
          WithoutApart(server.members[roomId], mxid);
        }
      }
      server := server.(joined := Without(server.joined, roomId), members := members,
                        log := server.log + [Leave(roomId)]);
    }

    /** `forget_room`. */
    method ForgetRoom(roomId: string)
      modifies this
      ensures server == old(server).(log := old(server.log) + [Forget(roomId)])
    {
      server := server.(log := server.log + [Forget(roomId)]);
    }

    /** `get_joined_members`, in the server's order; a room the bot has not
        joined (or has left), or cannot see, raises MForbidden. */
    method GetJoinedMembers(roomId: string) returns (r: Result<seq<string>>)
      ensures roomId in server.joined && roomId in server.members ==> r == Ok(server.members[roomId])
      ensures !(roomId in server.joined && roomId in server.members) ==> r == Err(Forbidden(403))
    {
      if roomId in server.joined && roomId in server.members {
        r := Ok(server.members[roomId]);
      } else {
        r := Err(Forbidden(403));
      }
    }

    /** GET of the room's `aliases` list; a room the bot has not joined (or
        has left), or cannot see, raises MForbidden. */
    method GetRoomAliases(roomId: string) returns (r: Result<seq<string>>)
      ensures roomId in server.joined && roomId in server.aliases ==> r == Ok(server.aliases[roomId])
      ensures !(roomId in server.joined && roomId in server.aliases) ==> r == Err(Forbidden(403))
    {
      if roomId in server.joined && roomId in server.aliases {
        r := Ok(server.aliases[roomId]);
      } else {
        r := Err(Forbidden(403));
      }
    }

    /** `get_joined_rooms`. */
    method GetJoinedRooms() returns (rooms: seq<string>)
      ensures rooms == server.joined
    {
      rooms := server.joined;
    }
  }
}
