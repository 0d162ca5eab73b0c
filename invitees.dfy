/** The invitee expansion of `ensure_policy`: each room policy's `invitees`
    dict maps user ids (keys starting with `@`) and group names to power
    levels; a group name stands for every member of `user_groups[name]`,
    and a later entry overrides an earlier one for the same user. */
module Invitees {
  import opened Results
  import opened Seqs
  import opened Dicts
  import opened Documents

  /** `policy['user_groups'][group]`, iterated, as user ids: a dict group
      gives its keys and a string group its characters, as Python's `for`
      does. */
  function GroupMembers(policy: Json, group: string): Result<seq<string>> {
    var groups :- Index(policy, "user_groups");
    var members :- Index(groups, group);
    var items :- Iterate(members);
    Strings(items)
  }

  /** Every member of `members` at level `level`. */
  function Assign(members: seq<string>, level: Json): seq<(string, Json)> {
    seq(|members|, i requires 0 <= i < |members| => (members[i], level))
  }

  /** The assignments `invitees[u] = pl` the loop makes, in order: a user
      key is assigned as it is, a group key once per member. */
  function Contributions(policy: Json, entries: seq<(string, Json)>): Result<seq<(string, Json)>> {
    if entries == [] then Ok([])
    else
      var n := |entries| - 1;
      var init :- Contributions(policy, entries[..n]);
      if StartsWith(entries[n].0, "@") then Ok(init + [entries[n]])
      else
        var members :- GroupMembers(policy, entries[n].0);
        Ok(init + Assign(members, entries[n].1))
  }

  /** The expanded invitees dict of one room policy's entries. */
  function Expanded(policy: Json, entries: seq<(string, Json)>): Result<Dict<Json>> {
    var assignments :- Contributions(policy, entries);
    Ok(PutEach([], assignments))
  }

  /** The expansion of `room_policy['invitees']`: a room policy without the
      key raises KeyError, a non-dict room policy or invitees value TypeError. */
  function RoomInvitees(policy: Json, roomPolicy: Json): (r: Result<Dict<Json>>)
    ensures r.Ok? ==> roomPolicy.JObj? && "invitees" in Keys(roomPolicy.fields)
  {
    var invitees :- Index(roomPolicy, "invitees");
    var entries :- AsDict(invitees);
    Expanded(policy, entries)
  }

  // ---------------------------------------------------------------- reference definition

  /** Entry `entry` names user `u`: directly, or through a group `u` is a
      member of. */
  predicate Invites(policy: Json, entry: (string, Json), u: string) {
    if StartsWith(entry.0, "@") then entry.0 == u
    else GroupMembers(policy, entry.0).Ok? && u in GroupMembers(policy, entry.0).value
  }

  /** The level of the last entry that names `u`. */
  function LastInvite(policy: Json, entries: seq<(string, Json)>, u: string): Option<Json> {
    if entries == [] then None
    else if Invites(policy, entries[|entries| - 1], u) then Some(entries[|entries| - 1].1)
    else LastInvite(policy, entries[..|entries| - 1], u)
  }

  lemma {:induction false} LastValueAssign(members: seq<string>, level: Json, u: string)
    ensures LastValue(Assign(members, level), u) == if u in members then Some(level) else None
  {
    if members != [] {
      var n := |members| - 1;
      assert Assign(members, level)[..n] == Assign(members[..n], level);
      LastValueAssign(members[..n], level, u);
      assert members == members[..n] + [members[n]];
    }
  }

  /** The assignments leave each user at the level of the last entry that
      names them. */
  lemma {:induction false} ContributionsLast(policy: Json, entries: seq<(string, Json)>, u: string)
    requires Contributions(policy, entries).Ok?
    ensures LastValue(Contributions(policy, entries).value, u) == LastInvite(policy, entries, u)
  {
    if entries != [] {
      var n := |entries| - 1;
      var init := Contributions(policy, entries[..n]).value;
      ContributionsLast(policy, entries[..n], u);
      if StartsWith(entries[n].0, "@") {
        LastValueConcat(init, [entries[n]], u);
      } else {
        var members := GroupMembers(policy, entries[n].0).value;
        LastValueConcat(init, Assign(members, entries[n].1), u);
        LastValueAssign(members, entries[n].1, u);
      }
    }
  }

  /** Later entries win: a user holds the level of the last entry that names
      them, directly or through a group. */
  lemma ExpandedLastWins(policy: Json, entries: seq<(string, Json)>, u: string)
    requires Expanded(policy, entries).Ok?
    ensures Get(Expanded(policy, entries).value, u) == LastInvite(policy, entries, u)
  {
    var empty: Dict<Json> := [];
    GetPutEach(empty, Contributions(policy, entries).value, u);
    ContributionsLast(policy, entries, u);
  }

  /** The last entry naming `u` decides its level; a user no entry names is
      not invited. */
  lemma {:induction false} LastInviteAt(policy: Json, entries: seq<(string, Json)>, u: string, i: int)
    requires -1 <= i < |entries|
    requires i >= 0 ==> Invites(policy, entries[i], u)
    requires forall j :: i < j < |entries| ==> !Invites(policy, entries[j], u)
    ensures LastInvite(policy, entries, u) == if i >= 0 then Some(entries[i].1) else None
  {
    if entries != [] && i < |entries| - 1 {
      var n := |entries| - 1;
      assert !Invites(policy, entries[n], u);
      LastInviteAt(policy, entries[..n], u, i);
    }
  }

  /** A group entry whose member list cannot be had. */
  predicate BadGroup(policy: Json, entry: (string, Json)) {
    !StartsWith(entry.0, "@") && GroupMembers(policy, entry.0).Err?
  }

  /** One entry more fails exactly when the entries before it fail or it is
      a bad group. */
  lemma ContributionsStep(policy: Json, entries: seq<(string, Json)>)
    requires entries != []
    ensures Contributions(policy, entries).Err? <==>
      Contributions(policy, entries[..|entries| - 1]).Err? || BadGroup(policy, entries[|entries| - 1])
  {
  }

  /** The expansion fails exactly when some group entry has no usable
      member list. */
  lemma {:induction false} ContributionsFail(policy: Json, entries: seq<(string, Json)>)
    ensures Contributions(policy, entries).Err? <==> exists i :: 0 <= i < |entries| && BadGroup(policy, entries[i])
  {
    if entries != [] {
      var n := |entries| - 1;
      var init := entries[..n];
      ContributionsFail(policy, init);
      ContributionsStep(policy, entries);
      if exists i :: 0 <= i < n && BadGroup(policy, init[i]) {
        var i :| 0 <= i < n && BadGroup(policy, init[i]);
        assert entries[i] == init[i];
      }
      if exists i :: 0 <= i < |entries| && BadGroup(policy, entries[i]) {
        var i :| 0 <= i < |entries| && BadGroup(policy, entries[i]);
        if i < n { assert init[i] == entries[i]; }
      }
    }
  }

  /** The expansion stops with the error of the first group that fails. */
  lemma {:induction false} ContributionsFirstError(policy: Json, entries: seq<(string, Json)>, i: nat)
    requires i < |entries| && Contributions(policy, entries[..i]).Ok?
    requires !StartsWith(entries[i].0, "@") && GroupMembers(policy, entries[i].0).Err?
    ensures Contributions(policy, entries) == Err(GroupMembers(policy, entries[i].0).error)
  {
    var n := |entries| - 1;
    if i == n {
      assert entries[..n] == entries[..i];
    } else {
      assert entries[..n][..i] == entries[..i] && entries[..n][i] == entries[i];
      ContributionsFirstError(policy, entries[..n], i);
    }
  }

  // ---------------------------------------------------------------- examples

  lemma StringsOf(items: seq<Json>, ids: seq<string>)
    requires |items| == |ids| && forall i :: 0 <= i < |ids| ==> items[i] == JStr(ids[i])
    ensures Strings(items) == Ok(ids)
  {
    assert forall i :: 0 <= i < |items| ==> items[i].JStr?;
    var r := Strings(items).value;
    assert |r| == |ids|;
    forall i | 0 <= i < |ids| ensures r[i] == ids[i] {
      assert JStr(r[i]) == items[i];
    }
    assert r == ids;
  }

  lemma StaffMembers(policy: Json)
    requires policy == JObj([("user_groups", JObj([("staff", JArr([JStr("@a:x.org"), JStr("@b:x.org")]))]))])
    ensures GroupMembers(policy, "staff") == Ok(["@a:x.org", "@b:x.org"])
  {
    var staff := JArr([JStr("@a:x.org"), JStr("@b:x.org")]);
    var groupFields: Dict<Json> := [("staff", staff)];
    var policyFields: Dict<Json> := [("user_groups", JObj(groupFields))];
    assert policy.fields == policyFields;
    assert Get(policyFields, "user_groups") == Some(JObj(groupFields));
    assert Get(groupFields, "staff") == Some(staff);
    StringsOf(staff.items, ["@a:x.org", "@b:x.org"]);
  }

  /** A staff group at 50 and one of its members again at 100: the later
      entry wins for that member, the other member keeps 50. */
  lemma GroupThenUserExample(policy: Json, entries: seq<(string, Json)>)
    requires policy == JObj([("user_groups", JObj([("staff", JArr([JStr("@a:x.org"), JStr("@b:x.org")]))]))])
    requires entries == [("staff", JInt(50)), ("@a:x.org", JInt(100))]
    ensures Expanded(policy, entries).Ok?
    ensures Get(Expanded(policy, entries).value, "@a:x.org") == Some(JInt(100))
    ensures Get(Expanded(policy, entries).value, "@b:x.org") == Some(JInt(50))
    ensures Get(Expanded(policy, entries).value, "staff") == None
  {
    var ids := ["@a:x.org", "@b:x.org"];
    StaffMembers(policy);
    assert "staff"[0] == 's' && "@a:x.org"[..1] == "@";
    assert !StartsWith("staff", "@") && StartsWith("@a:x.org", "@");
    assert Contributions(policy, entries[..1]) == Ok(Assign(ids, JInt(50))) by {
      var first := entries[..1];
      assert first[..0] == [] && first[0] == ("staff", JInt(50));
      assert Contributions(policy, first[..0]) == Ok([]);
      var empty: seq<(string, Json)> := [];
      assert empty + Assign(ids, JInt(50)) == Assign(ids, JInt(50));
    }
    var cs := Assign(ids, JInt(50)) + [("@a:x.org", JInt(100))];
    assert Contributions(policy, entries) == Ok(cs);
    ExampleLastValues(cs);
    var empty: Dict<Json> := [];
    GetPutEach(empty, cs, "@a:x.org");
    GetPutEach(empty, cs, "@b:x.org");
    GetPutEach(empty, cs, "staff");
  }

  lemma ExampleLastValues(cs: seq<(string, Json)>)
    requires cs == [("@a:x.org", JInt(50)), ("@b:x.org", JInt(50)), ("@a:x.org", JInt(100))]
    ensures LastValue(cs, "@a:x.org") == Some(JInt(100))
    ensures LastValue(cs, "@b:x.org") == Some(JInt(50))
    ensures LastValue(cs, "staff") == None
  {
    assert cs[..2] == [("@a:x.org", JInt(50)), ("@b:x.org", JInt(50))];
    assert cs[..2][..1] == [("@a:x.org", JInt(50))];
    assert "@b:x.org"[1] != "@a:x.org"[1] && "staff"[0] != "@a:x.org"[0] && "staff"[0] != "@b:x.org"[0];
    var one := cs[..2][..1];
    assert one[..0] == [];
    assert LastValue(one, "staff") == LastValue(one[..0], "staff") == None;
  }

  /** A group written as `{'users': [...]}` is iterated as a dict, so its
      one "member" is the key `users`. */
  lemma DictGroupExample(policy: Json, group: Json)
    requires group == JObj([("users", JArr([JStr("@bot.dev:x.org")]))])
    requires policy == JObj([("user_groups", JObj([("all", group)]))])
    ensures GroupMembers(policy, "all") == Ok(["users"])
  {
    var groupFields: Dict<Json> := [("all", group)];
    var policyFields: Dict<Json> := [("user_groups", JObj(groupFields))];
    assert policy.fields == policyFields;
    assert Get(policyFields, "user_groups") == Some(JObj(groupFields));
    assert Get(groupFields, "all") == Some(group);
    assert KeyValues(group.fields) == [JStr("users")];
    StringsOf([JStr("users")], ["users"]);
  }
}
