/** The secretary's two tables (secretary/database.py): `rooms`, with primary
    key (policy_key, room_key), and `policies`, with primary key policy_key.
    A map holds at most one row per key, which is what the primary keys
    guarantee; the statements the secretary runs are the methods below. */
module Tables {
  import opened Results
  import opened Seqs
  import opened Documents

  /** The bindings whose policy key is not `policyKey`. */
  function OtherPolicies(rooms: map<(string, string), string>, policyKey: string): (r: map<(string, string), string>)
    ensures forall k :: k in r <==> k in rooms && k.0 != policyKey
    ensures forall k :: k in r ==> r[k] == rooms[k]
  {
    map k | k in rooms && k.0 != policyKey :: rooms[k]
  }

  class Database {
    var rooms: map<(string, string), string>
    var policies: map<string, Json>

    constructor ()
      ensures rooms == map[] && policies == map[]
    {
      rooms := map[];
      policies := map[];
    }

    /** `SELECT ... FROM rooms WHERE policy_key=$1 AND room_key=$2`. */
    method FetchRoom(policyKey: string, roomKey: string) returns (row: Option<string>)
      ensures row.Some? <==> (policyKey, roomKey) in rooms
      ensures row.Some? ==> row.value == rooms[(policyKey, roomKey)]
    {
      if (policyKey, roomKey) in rooms {
        row := Some(rooms[(policyKey, roomKey)]);
      } else {
        row := None;
      }
    }

    /** `INSERT INTO rooms`: a key that is already bound violates the
        primary key. */
    method InsertRoom(policyKey: string, roomKey: string, roomId: string) returns (r: Result<()>)
      modifies this
      ensures (policyKey, roomKey) in old(rooms) ==> r == Err(IntegrityError) && rooms == old(rooms)
      ensures (policyKey, roomKey) !in old(rooms) ==>
        r == Ok(()) && rooms == old(rooms)[(policyKey, roomKey) := roomId]
      ensures policies == old(policies)
    {
      if (policyKey, roomKey) in rooms {
        r := Err(IntegrityError);
      } else {
        rooms := rooms[(policyKey, roomKey) := roomId];
        r := Ok(());
      }
    }

    /** `DELETE FROM rooms WHERE policy_key=$1 AND room_key=$2`. */
    method DeleteRoom(policyKey: string, roomKey: string)
      modifies this
      ensures rooms == old(rooms) - {(policyKey, roomKey)}
      ensures policies == old(policies)
    {
      rooms := rooms - {(policyKey, roomKey)};
    }

    /** `DELETE FROM rooms WHERE policy_key = $1`. */
    method DeleteRoomsOf(policyKey: string)
      modifies this
      ensures rooms == OtherPolicies(old(rooms), policyKey)
      ensures policies == old(policies)
    {
      rooms := OtherPolicies(rooms, policyKey);
    }

    /** `SELECT matrix_room_id FROM rooms WHERE policy_key = $1`: one row per
        binding of the policy, in no particular order. `keys` says which
        binding each row comes from. */
    method FetchRoomIdsOf(policyKey: string) returns (ids: seq<string>, ghost keys: seq<(string, string)>)
      ensures |ids| == |keys| && Distinct(keys)
      ensures forall i :: 0 <= i < |keys| ==> keys[i] in rooms && keys[i].0 == policyKey && ids[i] == rooms[keys[i]]
      ensures forall k :: k in rooms && k.0 == policyKey ==> k in keys
      ensures forall i :: 0 <= i < |ids| ==> exists k :: k in rooms && k.0 == policyKey && rooms[k] == ids[i]
      ensures forall k :: k in rooms && k.0 == policyKey ==> rooms[k] in ids
    {
      var todo := set k | k in rooms && k.0 == policyKey;
      ids, keys := [], [];
      while todo != {}
        invariant forall k :: k in todo ==> k in rooms && k.0 == policyKey
        invariant |ids| == |keys| && Distinct(keys)
        invariant forall i :: 0 <= i < |keys| ==> keys[i] in rooms && keys[i].0 == policyKey && ids[i] == rooms[keys[i]]
        invariant forall k :: k in keys ==> k !in todo
        invariant forall k :: k in rooms && k.0 == policyKey ==> k in keys || k in todo
        decreases |todo|
      {
        var k :| k in todo;
        DistinctSnoc(keys, k);
        ids, keys := ids + [rooms[k]], keys + [k];
        todo := todo - {k};
      }
      forall k | k in rooms && k.0 == policyKey ensures rooms[k] in ids {
        var j :| 0 <= j < |keys| && keys[j] == k;
        assert ids[j] == rooms[k];
      }
      forall i | 0 <= i < |ids| ensures exists k :: k in rooms && k.0 == policyKey && rooms[k] == ids[i] {
        var k := keys[i];
        assert k in rooms && k.0 == policyKey && rooms[k] == ids[i];
      }
    }

    /** `INSERT INTO policies ... ON CONFLICT (policy_key) DO UPDATE`: the
        key ends up with exactly one row, holding the new document. */
    method UpsertPolicy(policyKey: string, document: Json)
      modifies this
      ensures policies == old(policies)[policyKey := document]
      ensures rooms == old(rooms)
    {
      policies := policies[policyKey := document];
    }

    /** `SELECT policy_key, policy_json FROM policies WHERE policy_key=$1`. */
    method FetchPolicy(policyKey: string) returns (row: Option<Json>)
      ensures row.Some? <==> policyKey in policies
      ensures row.Some? ==> row.value == policies[policyKey]
    {
      if policyKey in policies {
        row := Some(policies[policyKey]);
      } else {
        row := None;
      }
    }

    /** `SELECT policy_key FROM policies`: every stored key once, in no
        particular order. */
    method FetchPolicyKeys() returns (keys: seq<string>)
      ensures Distinct(keys)
      ensures forall k :: k in keys <==> k in policies
    {
      var todo := policies.Keys;
      keys := [];
      while todo != {}
        invariant todo <= policies.Keys
        invariant Distinct(keys)
        invariant forall k :: k in keys ==> k in policies && k !in todo
        invariant forall k :: k in policies ==> k in keys || k in todo
        decreases |todo|
      {
        var k :| k in todo;
        DistinctSnoc(keys, k);
        keys := keys + [k];
        todo := todo - {k};
      }
    }
  }
}
