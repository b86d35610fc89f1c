/**
 * The server controller of the collaboration plugin: the record store of
 * registrations, selections, changes, shadows, heartbeats and server texts,
 * the helpers that read and write it, and the request cases that use them
 * (the heartbeat state machine with its sweep of dead collaborators, the
 * shadow upload, the selection query and the two resets).
 *
 * The store's `create` is an upsert that may fail: every call takes the
 * outcome as a boolean. The current time (`time()`, in seconds) is a
 * parameter. The connect and disconnect hooks are not defined by the
 * plugin; their calls are recorded, in order, in `hooks`.
 */
module Controller {
  import opened Wrappers

  type FileName = string

  /** The heartbeat period the server assumes, in seconds. */
  const MaxHeartbeatInterval: int := 5

  /** A stored selection, as decoded from the client's JSON; only a decoded `null` is PHP-empty. */
  datatype Selection = NullSelection | Range(startRow: int, startColumn: int, endRow: int, endColumn: int)

  type Change = string

  datatype Hook = Connect(user: User) | Disconnect(user: User)

  /** One entry of the reply to getUsersAndSelectionsForFile. */
  datatype UserSelection = UserSelection(selection: Selection, color: string)

  // ---------------------------------------------------------------------
  // Presence: the pure rules of the heartbeat state machine
  // ---------------------------------------------------------------------

  /**
   * A caller is newly connected when it has no heartbeat record or its last
   * heartbeat is more than 1.5 periods old; on whole seconds that is an age
   * of at least 8.
   */
  function IsNewlyConnected(heartbeat: map<User, int>, user: User, now: int): (b: bool)
    ensures b <==> user !in heartbeat || now - heartbeat[user] >= 8
  {
    user !in heartbeat || 2 * (now - heartbeat[user]) > 3 * MaxHeartbeatInterval
  }

  /** The heartbeat records after `updateHeartbeatMarker` at `now` with the given outcome of `create`. */
  function Touched(heartbeat: map<User, int>, user: User, now: int, createOk: bool): (r: map<User, int>)
    ensures r.Keys == heartbeat.Keys + (if createOk then {user} else {})
    ensures createOk ==> r[user] == now
    ensures forall u :: u in heartbeat && (u != user || !createOk) ==> r[u] == heartbeat[u]
  {
    if createOk then heartbeat[user := now] else heartbeat
  }

  /** The users the sweep considers dead: their last heartbeat is more than one period old. */
  function Stale(heartbeat: map<User, int>, now: int): (s: set<User>)
    ensures s <= heartbeat.Keys
    ensures forall u :: u in heartbeat && now - heartbeat[u] > MaxHeartbeatInterval ==> u in s
  {
    set u | u in heartbeat && now - heartbeat[u] > MaxHeartbeatInterval
  }

  /** The heartbeat records the sweep keeps. */
  function Alive(heartbeat: map<User, int>, now: int): (a: map<User, int>)
    ensures a.Keys <= heartbeat.Keys
    ensures forall u :: u in a ==> a[u] == heartbeat[u] && now - a[u] <= MaxHeartbeatInterval
  {
    map u | u in heartbeat && now - heartbeat[u] <= MaxHeartbeatInterval :: heartbeat[u]
  }

  /** A user whose heartbeat is at most one period old is not stale, and the sweep keeps its record. */
  lemma LiveUsersKept(heartbeat: map<User, int>, now: int)
    ensures forall u :: u in heartbeat && now - heartbeat[u] <= MaxHeartbeatInterval ==>
              u !in Stale(heartbeat, now) && u in Alive(heartbeat, now) && Alive(heartbeat, now)[u] == heartbeat[u]
  {
  }

  /** The records the sweep keeps are all but the stale ones. */
  lemma AliveIsUnswept(heartbeat: map<User, int>, now: int)
    ensures heartbeat - Stale(heartbeat, now) == Alive(heartbeat, now)
  {
    assert (heartbeat - Stale(heartbeat, now)).Keys == Alive(heartbeat, now).Keys;
  }

  /** The entries of m not keyed by user, plus those of user's entries still in kept. */
  ghost function KeptExcept<V>(m: map<(User, FileName), V>, user: User, kept: set<(User, FileName)>): map<(User, FileName), V>
  {
    map k | k in m && (k.0 != user || k in kept) :: m[k]
  }

  lemma KeptExceptStep<V>(m: map<(User, FileName), V>, user: User, kept: set<(User, FileName)>, entry: (User, FileName))
    requires entry in kept && entry.0 == user
    ensures KeptExcept(m, user, kept) - {entry} == KeptExcept(m, user, kept - {entry})
  {
  }

  lemma KeptExceptDone<V>(m: map<(User, FileName), V>, user: User)
    ensures KeptExcept(m, user, {}) == map k | k in m && k.0 != user :: m[k]
  {
  }

  /** The registrations left once every registration of the users in gone is removed. */
  function WithoutUsers(registered: set<(User, FileName)>, gone: set<User>): set<(User, FileName)>
  {
    set p | p in registered && p.0 !in gone
  }

  function Disconnects(users: seq<User>): (hs: seq<Hook>)
    ensures |hs| == |users|
    ensures forall k :: 0 <= k < |users| ==> hs[k] == Disconnect(users[k])
  {
    if users == [] then [] else Disconnects(users[..|users| - 1]) + [Disconnect(users[|users| - 1])]
  }

  /** One user of the sweep's pending set is looked at: the stale users seen so far grow by that user exactly when it is stale. */
  lemma SweepStep(heartbeat: map<User, int>, now: int, pending: set<User>, user: User)
    requires user in pending && pending <= heartbeat.Keys
    ensures Stale(heartbeat, now) - (pending - {user})
            == (Stale(heartbeat, now) - pending) + (if now - heartbeat[user] > MaxHeartbeatInterval then {user} else {})
  {
  }

  /** Dropping one more dead user keeps the sweep's bookkeeping in step. */
  lemma SweptStep(heartbeat: map<User, int>, registered: set<(User, FileName)>, swept: set<User>,
                  order: seq<User>, user: User)
    requires user !in swept && multiset(order) == multiset(swept)
    ensures (heartbeat - swept) - {user} == heartbeat - (swept + {user})
    ensures WithoutUsers(WithoutUsers(registered, swept), {user}) == WithoutUsers(registered, swept + {user})
    ensures multiset(order + [user]) == multiset(swept + {user})
    ensures Disconnects(order + [user]) == Disconnects(order) + [Disconnect(user)]
  {
    assert (order + [user])[..|order|] == order;
  }

  /** A disconnect hook appended after the hooks of the sweep so far is the hook of the next swept user. */
  lemma HooksStep(start: seq<Hook>, order: seq<User>, before: seq<Hook>, after: seq<Hook>, user: User)
    requires before == start + Disconnects(order)
    requires after == before + [Disconnect(user)]
    ensures after == start + Disconnects(order + [user])
  {
    assert (order + [user])[..|order|] == order;
  }

  /** The sweep keeps exactly the non-stale users, so the count it returns is what was there less the dead. */
  lemma AliveCount(heartbeat: map<User, int>, now: int)
    ensures Alive(heartbeat, now).Keys == heartbeat.Keys - Stale(heartbeat, now)
    ensures |Alive(heartbeat, now)| == |heartbeat| - |Stale(heartbeat, now)|
  {
    var a := Alive(heartbeat, now);
    var s := Stale(heartbeat, now);
    assert a.Keys == heartbeat.Keys - s;
    assert |heartbeat.Keys| == |a.Keys| + |s| by {
      assert heartbeat.Keys == a.Keys + s;
      assert a.Keys !! s;
    }
  }

  /** Every record left by the sweep is at most one period old, and a second sweep at the same time removes nothing. */
  lemma SweepIdempotent(heartbeat: map<User, int>, now: int)
    ensures forall u :: u in Alive(heartbeat, now) ==> now - Alive(heartbeat, now)[u] <= MaxHeartbeatInterval
    ensures Stale(Alive(heartbeat, now), now) == {}
    ensures Alive(Alive(heartbeat, now), now) == Alive(heartbeat, now)
  {
  }

  /** A caller whose heartbeat was just written survives its own sweep, so the count is at least one. */
  lemma CallerSurvives(heartbeat: map<User, int>, user: User, now: int)
    ensures var hb := Touched(heartbeat, user, now, true);
            user in Alive(hb, now) && Alive(hb, now)[user] == now && |Alive(hb, now)| >= 1
  {
    var hb := Touched(heartbeat, user, now, true);
    assert user in Alive(hb, now).Keys;
  }

  /** array_slice's start index for an offset: non-negative offsets count from the front, negative ones from the end. */
  function SliceStart(len: nat, offset: int): (s: nat)
    ensures s <= len
  {
    if offset >= 0 then (if offset <= len then offset else len)
    else if len + offset >= 0 then len + offset else 0
  }

  // ---------------------------------------------------------------------
  // The record store and the request cases
  // ---------------------------------------------------------------------

  class RecordStore {
    /** "registered" markers: (user, filename) pairs. */
    var registered: set<(User, FileName)>
    var selection: map<(User, FileName), Selection>
    /** "change" records: each holds a list of changes indexed by revision. */
    var change: map<(User, FileName), seq<Change>>
    var shadow: map<(User, FileName), string>
    /** "heartbeat" records: the last heartbeat time of each user, in seconds. */
    var heartbeat: map<User, int>
    /** "text" records: the server text of each file. */
    var text: map<FileName, string>
    var hooks: seq<Hook>

    constructor ()
      ensures registered == {} && selection == map[] && change == map[] && shadow == map[]
      ensures heartbeat == map[] && text == map[] && hooks == []
    {
      registered := {};
      selection := map[];
      change := map[];
      shadow := map[];
      heartbeat := map[];
      text := map[];
      hooks := [];
    }

    // ----- lookups -----

    function IsUserRegisteredForFile(filename: FileName, user: User): (b: bool)
      reads this
    {
      (user, filename) in registered
    }

    /** The users holding a registration for filename. */
    function GetRegisteredUsersForFile(filename: FileName): (users: set<User>)
      reads this
      ensures forall u :: u in users <==> IsUserRegisteredForFile(filename, u)
    {
      set p | p in registered && p.1 == filename :: p.0
    }

    /** Every user with a heartbeat record, with the time of that heartbeat. */
    function GetUsersAndHeartbeatTime(): (r: map<User, int>)
      reads this
    {
      heartbeat
    }

    function GetSelection(filename: FileName, user: User): (r: Option<Selection>)
      reads this
    {
      var key := (user, filename);
      if key in selection then Some(selection[key]) else None
    }

    /**
     * The changes from revision `fromRevision` on, keyed by their revision
     * (array_slice with preserved keys), or null when there is no record.
     */
    function GetChanges(filename: FileName, user: User, fromRevision: int): (r: Option<map<int, Change>>)
      reads this
      ensures r.None? <==> (user, filename) !in change
      ensures r.Some? && fromRevision >= 0 ==>
                forall k :: k in r.value <==> fromRevision <= k < |change[(user, filename)]|
      ensures r.Some? && fromRevision < 0 ==>
                forall k :: k in r.value <==> 0 <= k < |change[(user, filename)]| && |change[(user, filename)]| + fromRevision <= k
      ensures r.Some? ==> forall k :: k in r.value ==> 0 <= k < |change[(user, filename)]| && r.value[k] == change[(user, filename)][k]
    {
      var key := (user, filename);
      if key !in change then None
      else
        var all := change[key];
        var start := SliceStart(|all|, fromRevision);
        Some(map k | start <= k < |all| :: all[k])
    }

    function GetShadow(filename: FileName, user: User): (r: Option<string>)
      reads this
    {
      var key := (user, filename);
      if key in shadow then Some(shadow[key]) else None
    }

    function ExistsServerText(filename: FileName): (b: bool)
      reads this
    {
      filename in text
    }

    function GetServerText(filename: FileName): (r: Option<string>)
      reads this
    {
      if filename in text then Some(text[filename]) else None
    }

    // ----- writers -----

    /** `setShadow`: when `create` succeeds, reading the shadow back gives the value stored; no other shadow changes. */
    method SetShadow(filename: FileName, user: User, value: string, createOk: bool)
      modifies this`shadow
      ensures shadow == if createOk then old(shadow)[(user, filename) := value] else old(shadow)
      ensures createOk ==> GetShadow(filename, user) == Some(value)
      ensures forall f, u :: (u, f) != (user, filename) ==> GetShadow(f, u) == old(GetShadow(f, u))
    {
      if !createOk {
        return;
      }
      shadow := shadow[(user, filename) := value];
    }

    /** `setServerText`: when `create` succeeds, reading the text back gives the value stored; no other text changes. */
    method SetServerText(filename: FileName, value: string, createOk: bool)
      modifies this`text
      ensures text == if createOk then old(text)[filename := value] else old(text)
      ensures createOk ==> GetServerText(filename) == Some(value)
      ensures forall f :: f != filename ==> GetServerText(f) == old(GetServerText(f))
    {
      if !createOk {
        return;
      }
      text := text[filename := value];
    }

    /** `registerToFile`: an existing registration answers true and changes nothing; otherwise the answer is whether `create` succeeded. */
    method RegisterToFile(user: User, filename: FileName, createOk: bool) returns (ok: bool)
      modifies this`registered
      ensures ok <==> old(IsUserRegisteredForFile(filename, user)) || createOk
      ensures registered == old(registered) + (if ok then {(user, filename)} else {})
      ensures ok ==> IsUserRegisteredForFile(filename, user)
    {
      if (user, filename) in registered {
        return true;
      }
      if createOk {
        registered := registered + {(user, filename)};
        return true;
      }
      return false;
    }

    /** `unregisterFromAllFiles`: removes every registration of user and nothing else. */
    method UnregisterFromAllFiles(user: User)
      modifies this`registered
      ensures registered == WithoutUsers(old(registered), {user})
    {
      var entries := set p | p in registered && p.0 == user;
      while entries != {}
        invariant entries <= old(registered)
        invariant registered == WithoutUsers(old(registered), {user}) + entries
        decreases entries
      {
        var entry :| entry in entries;
        registered := registered - {entry};
        entries := entries - {entry};
      }
    }

    /** `updateHeartbeatMarker`: the user's heartbeat becomes now, when `create` succeeds. */
    method UpdateHeartbeatMarker(user: User, now: int, createOk: bool) returns (ok: bool)
      modifies this`heartbeat
      ensures ok == createOk
      ensures heartbeat == Touched(old(heartbeat), user, now, createOk)
      ensures ok ==> user in GetUsersAndHeartbeatTime() && GetUsersAndHeartbeatTime()[user] == now
    {
      if !createOk {
        return false;
      }
      heartbeat := heartbeat[user := now];
      return true;
    }

    method RemoveHeartbeatMarker(user: User)
      modifies this`heartbeat
      ensures heartbeat == old(heartbeat) - {user}
      ensures user !in GetUsersAndHeartbeatTime()
      ensures forall u :: u != user && u in old(GetUsersAndHeartbeatTime()) ==>
                u in GetUsersAndHeartbeatTime() && GetUsersAndHeartbeatTime()[u] == old(GetUsersAndHeartbeatTime())[u]
    {
      if user in heartbeat {
        heartbeat := heartbeat - {user};
      }
    }

    // ----- request cases -----

    /**
     * The "sendHeartbeat" case. The caller's heartbeat is overwritten;
     * a newly connected caller with an old record first gets the disconnect
     * hook for its previous session, then every newly connected caller gets
     * the connect hook. Then every user whose heartbeat is more than one
     * period old loses its registrations and heartbeat and gets the
     * disconnect hook (in the store's order, which is unspecified here:
     * `sweptOrder` is that order). The answer is the number of heartbeat
     * records left.
     */
    method SendHeartbeat(activeUser: User, now: int, createOk: bool)
      returns (isUserNewlyConnected: bool, collaboratorCount: nat, ghost sweptOrder: seq<User>)
      modifies this`heartbeat, this`registered, this`hooks
      ensures isUserNewlyConnected == IsNewlyConnected(old(heartbeat), activeUser, now)
      ensures var hb := Touched(old(heartbeat), activeUser, now, createOk);
              heartbeat == Alive(hb, now)
              && registered == WithoutUsers(old(registered), Stale(hb, now))
              && multiset(sweptOrder) == multiset(Stale(hb, now))
      ensures hooks == old(hooks)
                       + (if activeUser in old(heartbeat) && isUserNewlyConnected then [Disconnect(activeUser)] else [])
                       + (if isUserNewlyConnected then [Connect(activeUser)] else [])
                       + Disconnects(sweptOrder)
      ensures collaboratorCount == |heartbeat|
      ensures createOk ==> activeUser in heartbeat && heartbeat[activeUser] == now && collaboratorCount >= 1
    {
      isUserNewlyConnected := true;
      if activeUser in heartbeat {
        var heartbeatTime := heartbeat[activeUser];
        var heartbeatInterval := now - heartbeatTime;
        isUserNewlyConnected := 2 * heartbeatInterval > 3 * MaxHeartbeatInterval;
        if isUserNewlyConnected {
          hooks := hooks + [Disconnect(activeUser)];
        }
      }

      var _ := UpdateHeartbeatMarker(activeUser, now, createOk);

      ghost var reconnect := if activeUser in old(heartbeat) && isUserNewlyConnected then [Disconnect(activeUser)] else [];
      assert hooks == old(hooks) + reconnect;
      if isUserNewlyConnected {
        hooks := hooks + [Connect(activeUser)];
      }

      ghost var beforeSweep := hooks;
      assert beforeSweep == old(hooks) + reconnect + (if isUserNewlyConnected then [Connect(activeUser)] else []);
      sweptOrder := SweepDead(now);
      collaboratorCount := |GetUsersAndHeartbeatTime()|;
      if createOk {
        CallerSurvives(old(heartbeat), activeUser, now);
      }
    }

    /** A dead user loses its registrations and heartbeat and gets the disconnect hook. */
    method DropDeadUser(user: User)
      modifies this`heartbeat, this`registered, this`hooks
      ensures registered == WithoutUsers(old(registered), {user})
      ensures heartbeat == old(heartbeat) - {user}
      ensures hooks == old(hooks) + [Disconnect(user)]
    {
      UnregisterFromAllFiles(user);
      RemoveHeartbeatMarker(user);
      hooks := hooks + [Disconnect(user)];
    }

    /**
     * The loop of the "sendHeartbeat" case over every heartbeat record: a
     * user whose heartbeat is more than one period old loses its
     * registrations and heartbeat and gets the disconnect hook.
     */
    method SweepDead(now: int) returns (ghost sweptOrder: seq<User>)
      modifies this`heartbeat, this`registered, this`hooks
      ensures heartbeat == Alive(old(heartbeat), now)
      ensures registered == WithoutUsers(old(registered), Stale(old(heartbeat), now))
      ensures multiset(sweptOrder) == multiset(Stale(old(heartbeat), now))
      ensures hooks == old(hooks) + Disconnects(sweptOrder)
    {
      var usersAndHeartbeatTime := GetUsersAndHeartbeatTime();
      var pending := usersAndHeartbeatTime.Keys;
      ghost var swept: set<User> := {};
      sweptOrder := [];
      while pending != {}
        invariant pending <= usersAndHeartbeatTime.Keys
        invariant swept == Stale(usersAndHeartbeatTime, now) - pending
        invariant heartbeat == usersAndHeartbeatTime - swept
        invariant registered == WithoutUsers(old(registered), swept)
        invariant multiset(sweptOrder) == multiset(swept)
        invariant hooks == old(hooks) + Disconnects(sweptOrder)
        decreases pending
      {
        var user :| user in pending;
        var heartbeatTime := usersAndHeartbeatTime[user];
        SweepStep(usersAndHeartbeatTime, now, pending, user);
        if now - heartbeatTime > MaxHeartbeatInterval {
          ghost var hooksBefore := hooks;
          DropDeadUser(user);
          SweptStep(usersAndHeartbeatTime, old(registered), swept, sweptOrder, user);
          HooksStep(old(hooks), sweptOrder, hooksBefore, hooks, user);
          swept := swept + {user};
          sweptOrder := sweptOrder + [user];
        }
        pending := pending - {user};
      }
      AliveIsUnswept(usersAndHeartbeatTime, now);
    }

    /**
     * The "sendShadow" case: a missing file name or shadow is an error and
     * changes nothing. Otherwise the caller's shadow is stored, and the server
     * text becomes the shadow when the file has no server text or nobody is
     * registered for it.
     */
    method SendShadow(filename: Option<FileName>, activeUser: User, shadowText: Option<string>,
                      shadowCreateOk: bool, textCreateOk: bool) returns (r: Result<()>)
      modifies this`shadow, this`text
      ensures r.Err? <==> !Truthy(filename) || !Truthy(shadowText)
      ensures r.Err? ==> shadow == old(shadow) && text == old(text)
      ensures r.Ok? ==> shadow == if shadowCreateOk then old(shadow)[(activeUser, filename.value) := shadowText.value]
                                  else old(shadow)
      ensures r.Ok? ==> var seed := filename.value !in old(text) || GetRegisteredUsersForFile(filename.value) == {};
                        text == if seed && textCreateOk then old(text)[filename.value := shadowText.value] else old(text)
    {
      if !Truthy(filename) {
        return Err("Missing file path.");
      }
      if !Truthy(shadowText) {
        return Err("Missing shadow.");
      }
      SetShadow(filename.value, activeUser, shadowText.value, shadowCreateOk);
      var registeredUsersForFileCount := |GetRegisteredUsersForFile(filename.value)|;
      if !ExistsServerText(filename.value) || registeredUsersForFileCount == 0 {
        SetServerText(filename.value, shadowText.value, textCreateOk);
      }
      r := Ok(());
    }

    /**
     * The "getUsersAndSelectionsForFile" case: every other user registered
     * for the file whose selection is not empty, with that selection and the
     * user's color. `colorOf` stands for getColorForUser.
     */
    method GetUsersAndSelectionsForFile(filename: Option<FileName>, activeUser: User, colorOf: User -> string)
      returns (r: Result<map<User, UserSelection>>)
      ensures r.Err? <==> !Truthy(filename)
      ensures r.Ok? ==> forall u :: u in r.value <==>
                          IsUserRegisteredForFile(filename.value, u) && u != activeUser &&
                          (u, filename.value) in selection && !selection[(u, filename.value)].NullSelection?
      ensures r.Ok? ==> forall u :: u in r.value ==>
                          r.value[u] == UserSelection(selection[(u, filename.value)], colorOf(u))
    {
      if !Truthy(filename) {
        return Err("Missing file path.");
      }
      var file := filename.value;
      var usersAndSelections: map<User, UserSelection> := map[];
      var users := GetRegisteredUsersForFile(file);
      var pending := users;
      while pending != {}
        invariant pending <= users
        invariant forall u :: u in usersAndSelections <==>
                    u in users - pending && u != activeUser &&
                    (u, file) in selection && !selection[(u, file)].NullSelection?
        invariant forall u :: u in usersAndSelections ==>
                    (u, file) in selection && usersAndSelections[u] == UserSelection(selection[(u, file)], colorOf(u))
        decreases pending
      {
        var user :| user in pending;
        if user != activeUser {
          var sel := GetSelection(file, user);
          if sel.Some? && !sel.value.NullSelection? {
            usersAndSelections := usersAndSelections[user := UserSelection(sel.value, colorOf(user))];
          }
        }
        pending := pending - {user};
      }
      r := Ok(usersAndSelections);
    }

    /**
     * The "resetSelection" case: deletes every selection and change record of
     * the caller. The all-files flag is read from the parameter "resetALl",
     * so without a file name the request is an error.
     */
    method ResetSelection(activeUser: User, filename: Option<FileName>, resetALl: Option<string>) returns (r: Result<()>)
      modifies this`selection, this`change
      ensures r.Err? <==> !Truthy(filename) && !Truthy(resetALl)
      ensures r.Err? ==> selection == old(selection) && change == old(change)
      ensures r.Ok? ==> selection == map k | k in old(selection) && k.0 != activeUser :: old(selection)[k]
      ensures r.Ok? ==> change == map k | k in old(change) && k.0 != activeUser :: old(change)[k]
      ensures r.Ok? ==> forall f :: GetSelection(f, activeUser).None? && GetChanges(f, activeUser, 0).None?
      ensures forall f, u :: u != activeUser ==> GetSelection(f, u) == old(GetSelection(f, u))
    {
      if !Truthy(filename) && !Truthy(resetALl) {
        return Err("Missing file path.");
      }
      var entries := set k | k in selection && k.0 == activeUser;
      while entries != {}
        invariant entries <= old(selection).Keys
        invariant selection == KeptExcept(old(selection), activeUser, entries)
        invariant change == old(change)
        decreases entries
      {
        var entry :| entry in entries;
        KeptExceptStep(old(selection), activeUser, entries, entry);
        selection := selection - {entry};
        entries := entries - {entry};
      }
      KeptExceptDone(old(selection), activeUser);
      var changeEntries := set k | k in change && k.0 == activeUser;
      while changeEntries != {}
        invariant changeEntries <= old(change).Keys
        invariant change == KeptExcept(old(change), activeUser, changeEntries)
        invariant selection == map k | k in old(selection) && k.0 != activeUser :: old(selection)[k]
        decreases changeEntries
      {
        var entry :| entry in changeEntries;
        KeptExceptStep(old(change), activeUser, changeEntries, entry);
        change := change - {entry};
        changeEntries := changeEntries - {entry};
      }
      KeptExceptDone(old(change), activeUser);
      r := Ok(());
    }

    /** The "resetFile" case: deletes every server text. */
    method ResetFile()
      modifies this`text
      ensures text == map[]
      ensures forall f :: !ExistsServerText(f)
    {
      var entries := text.Keys;
      while entries != {}
        invariant text.Keys == entries
        decreases entries
      {
        var entry :| entry in entries;
        text := text - {entry};
        entries := entries - {entry};
      }
    }
  }
}
