/** The user-id-to-name map built by `fetchUsers`, and the places where the
    page looks a name up in it and falls back when the lookup gives nothing. */
module Names {

  import opened Records

  /** `user.name || user.email`. */
  function DisplayName(u: UserData): (n: string)
    ensures u.name != "" ==> n == u.name
    ensures u.name == "" ==> n == u.email
  {
    if u.name != "" then u.name else u.email
  }

  /** The map after the `forEach` has visited `users` in order: each visit
      writes its user's entry, so a later user with the same id overwrites an
      earlier one. */
  function NamesMap(users: seq<UserData>): (m: map<string, string>)
    ensures m.Keys == set i | 0 <= i < |users| :: users[i].id
    ensures |users| > 0 ==> m[users[|users| - 1].id] == DisplayName(users[|users| - 1])
  {
    if users == [] then map[]
    else
      var n := |users| - 1;
      var init := users[..n];
      assert forall i :: 0 <= i < n ==> init[i] == users[i];
      assert (set i | 0 <= i < |users| :: users[i].id) == (set i | 0 <= i < n :: init[i].id) + {users[n].id};
      NamesMap(init)[users[n].id := DisplayName(users[n])]
  }

  /** No user after position `i` has the same id: `users[i]` wrote the final entry. */
  predicate LastWithId(users: seq<UserData>, i: nat)
    requires i < |users|
  {
    forall j :: i < j < |users| ==> users[j].id != users[i].id
  }

  predicate DistinctIds(users: seq<UserData>)
  {
    forall i, j :: 0 <= i < j < |users| ==> users[i].id != users[j].id
  }

  /** The entry of an id holds the display name of the last user with that id. */
  lemma {:induction false} NamesMapValue(users: seq<UserData>, i: nat)
    requires i < |users| && LastWithId(users, i)
    ensures users[i].id in NamesMap(users) && NamesMap(users)[users[i].id] == DisplayName(users[i])
    decreases |users|
  {
    var n := |users| - 1;
    if i < n {
      var init := users[..n];
      assert init[i] == users[i];
      assert LastWithId(init, i);
      NamesMapValue(init, i);
    }
  }

  /** One entry per user id, holding the display name of the last user with that id. */
  lemma NamesMapEntries(users: seq<UserData>)
    ensures NamesMap(users).Keys == set i | 0 <= i < |users| :: users[i].id
    ensures forall i :: 0 <= i < |users| && LastWithId(users, i) ==>
      users[i].id in NamesMap(users) && NamesMap(users)[users[i].id] == DisplayName(users[i])
  {
    forall i | 0 <= i < |users| && LastWithId(users, i)
      ensures users[i].id in NamesMap(users) && NamesMap(users)[users[i].id] == DisplayName(users[i])
    {
      NamesMapValue(users, i);
    }
  }

  /** When no two users share an id, every user has exactly its own entry and
      the map has as many entries as there are users. The store does not
      promise this: a user document with its own `id` field overrides the
      document id the page puts in front of it. */
  lemma {:induction false} NamesMapDistinct(users: seq<UserData>)
    requires DistinctIds(users)
    ensures |NamesMap(users)| == |users|
    ensures forall i :: 0 <= i < |users| ==>
      users[i].id in NamesMap(users) && NamesMap(users)[users[i].id] == DisplayName(users[i])
    decreases |users|
  {
    NamesMapEntries(users);
    if users != [] {
      var n := |users| - 1;
      var init := users[..n];
      assert DistinctIds(init);
      NamesMapDistinct(init);
      assert users[n].id !in NamesMap(init);
    }
  }

  /** The `forEach` over the fetched users that fills `namesMap`. */
  method BuildNamesMap(users: seq<UserData>) returns (namesMap: map<string, string>)
    ensures namesMap == NamesMap(users)
    ensures namesMap.Keys == set i | 0 <= i < |users| :: users[i].id
    ensures forall i :: 0 <= i < |users| && LastWithId(users, i) ==>
      users[i].id in namesMap && namesMap[users[i].id] == DisplayName(users[i])
  {
    namesMap := map[];
    var k := 0;
    while k < |users|
      invariant 0 <= k <= |users|
      invariant namesMap == NamesMap(users[..k])
    {
      assert users[..k + 1][..k] == users[..k];
      namesMap := namesMap[users[k].id := DisplayName(users[k])];
      k := k + 1;
    }
    assert users[..k] == users;
    NamesMapEntries(users);
  }

  /** The on-screen Employee cell, `userNames[record.userId] || record.userId`:
      the mapped name when there is a non-empty one, the raw id otherwise. */
  function TableEmployee(userNames: map<string, string>, userId: string): (cell: string)
    ensures userId in userNames && userNames[userId] != "" ==> cell == userNames[userId]
    ensures (userId !in userNames || userNames[userId] == "") ==> cell == userId
  {
    if userId in userNames && userNames[userId] != "" then userNames[userId] else userId
  }

  /** The PDF Employee cell, `userNames[record.userId] || 'Unknown'`. */
  function PdfEmployee(userNames: map<string, string>, userId: string): (cell: string)
    ensures cell != ""
    ensures userId in userNames && userNames[userId] != "" ==> cell == userNames[userId]
    ensures (userId !in userNames || userNames[userId] == "") ==> cell == "Unknown"
  {
    if userId in userNames && userNames[userId] != "" then userNames[userId] else "Unknown"
  }

  /** The PDF's "Employee:" line, `selectedUser === 'all' ? 'All Employees' :
      userNames[selectedUser]`. Interpolating a missing entry prints "undefined". */
  function PdfEmployeeHeading(userNames: map<string, string>, selectedUser: string): (line: string)
    ensures selectedUser == AllUsers ==> line == "All Employees"
    ensures selectedUser != AllUsers && selectedUser in userNames ==> line == userNames[selectedUser]
    ensures selectedUser != AllUsers && selectedUser !in userNames ==> line == "undefined"
  {
    if selectedUser == AllUsers then "All Employees"
    else if selectedUser in userNames then userNames[selectedUser]
    else "undefined"
  }

  /** With the map built from the users, the table shows a user's display
      name, or the raw id when that name is empty; an id no user has shows as
      itself. */
  lemma TableEmployeeFromUsers(users: seq<UserData>, userId: string)
    requires DistinctIds(users)
    ensures forall i :: 0 <= i < |users| && users[i].id == userId ==>
      TableEmployee(NamesMap(users), userId) == (if DisplayName(users[i]) != "" then DisplayName(users[i]) else userId)
    ensures (forall i :: 0 <= i < |users| ==> users[i].id != userId) ==>
      TableEmployee(NamesMap(users), userId) == userId
  {
    NamesMapEntries(users);
    NamesMapDistinct(users);
  }
}
