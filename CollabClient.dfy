/**
 * The client-side state machines of the collaboration plugin: the
 * enable/disable switch driven by the heartbeat reply, the throttle on
 * selection posts, and the reconciliation of the displayed collaborator
 * selections with the server's reply.
 *
 * Requests sent through `echo` are recorded, in order, in `sent`; the
 * on-screen selection markers that are taken down are recorded in
 * `removedMarkers`. Timers are not run: a deferred post is the delay it
 * was scheduled with.
 */
module CollabClient {
  import opened Wrappers

  /** The minimum interval between two selection posts, in milliseconds. */
  const MinSelectionInterval: int := 250

  /** The handlers subscribed to the periodic 'chrono.kilo' event. */
  datatype Handler = UpdateCollaboratorsSelections | SynchronizeText

  /** What the client sends, or triggers, in the order it does so. */
  datatype Request =
    | SynchronizeRound                                          // a call of the throttled synchronizeText
    | Reset(action: string, filename: Option<string>, resetAll: bool)
    | SelectionChange(filename: Option<string>, selection: Range)  // postSelectionChange
    | UsersAndSelections(file: string)                          // getUsersAndSelectionsForFile

  /**
   * A selection range as the client sends and receives it: the JSON form of
   * the server's `Controller.Selection.Range`. Shown pairs it with the
   * user's display color.
   */
  datatype Range = Range(startRow: int, startColumn: int, endRow: int, endColumn: int)
  datatype Shown = Shown(selection: Range, color: string)

  /** JavaScript truthiness of a string that may be null: only null and "" are falsy. */
  predicate NonEmpty(v: Option<string>): (b: bool)
    ensures Truthy(v) ==> b
    ensures v == Some("0") ==> b && !Truthy(v)
  {
    v.Some? && v.value != ""
  }

  datatype ThrottleDecision = PostNow | Defer(delay: int)

  /**
   * The throttle decision of `onSelectionChange`: the gap since the last
   * change (zero on the very first call) decides between posting now and
   * deferring the post until the interval has elapsed.
   */
  function Throttle(last: Option<int>, now: int): (d: ThrottleDecision)
    ensures d.Defer? <==> (last.None? || now - last.value < MinSelectionInterval)
    ensures d.Defer? ==> 0 < d.delay
    ensures d.Defer? && (last.None? || last.value <= now) ==> d.delay <= MinSelectionInterval
    ensures d.Defer? && last.Some? ==> now + d.delay == last.value + MinSelectionInterval
    ensures last.None? ==> d == Defer(MinSelectionInterval)
  {
    var interval := if last.None? then 0 else now - last.value;
    if interval < MinSelectionInterval then Defer(MinSelectionInterval - interval) else PostNow
  }

  /**
   * Whether JavaScript's `username in reply` holds: the reply's own keys, or
   * a name the reply object inherits (`inherited`: the members of
   * Object.prototype such as "constructor", and "length" and the array
   * methods when the server's empty reply decodes to `[]`).
   */
  predicate InReply(username: string, reply: map<string, Shown>, inherited: set<string>)
  {
    username in reply || username in inherited
  }

  /** The displayed usernames a reply drops: those `in` does not find in it, or all of them when the reply is null. */
  function Dropped(displayed: Option<map<string, Shown>>, reply: Option<map<string, Shown>>, inherited: set<string>)
    : (r: set<string>)
    ensures displayed.Some? ==> r <= displayed.value.Keys
    ensures forall u :: u in r <==>
              displayed.Some? && u in displayed.value && (reply.None? || !InReply(u, reply.value, inherited))
    ensures reply.Some? ==> r !! inherited
  {
    if displayed.None? then {}
    else if reply.None? then displayed.value.Keys
    else displayed.value.Keys - reply.value.Keys - inherited
  }

  /** Appending one more removed marker after start keeps start and adds that user to the removed ones. */
  lemma MarkerStep(start: seq<string>, markers: seq<string>, removed: set<string>, username: string)
    requires |start| <= |markers| && markers[..|start|] == start
    requires multiset(markers[|start|..]) == multiset(removed) && username !in removed
    ensures (markers + [username])[..|start|] == start
    ensures multiset((markers + [username])[|start|..]) == multiset(removed + {username})
  {
    assert (markers + [username])[|start|..] == markers[|start|..] + [username];
  }

  /** One username taken from the pending ones keeps the loop's account of what was removed. */
  lemma SettleStep(before: map<string, Shown>, reply: Option<map<string, Shown>>, inherited: set<string>,
                   pending: set<string>, removed: set<string>, username: string, removed': set<string>)
    requires username in pending && pending <= before.Keys && removed <= before.Keys - pending
    requires forall u :: u in removed <==>
               u in before.Keys - pending && (reply.None? || !InReply(u, reply.value, inherited))
    requires removed' == if reply.None? || !InReply(username, reply.value, inherited) then removed + {username} else removed
    ensures username !in removed
    ensures removed' <= before.Keys - (pending - {username})
    ensures forall u :: u in removed' <==>
              u in before.Keys - (pending - {username}) && (reply.None? || !InReply(u, reply.value, inherited))
    ensures before - removed' == if removed' == removed then before - removed else (before - removed) - {username}
  {
  }

  class Collab {
    /** The file this client collaborates on; null when none. */
    var activeFilePath: Option<string>
    /** The collaborator selections on screen, by username; null after a null reply. */
    var displayedSelections: Option<map<string, Shown>>
    var enabled: bool
    var kiloHandlers: set<Handler>
    var lastSelectionChange: Option<int>
    /** The delay of the pending deferred selection post, if one was scheduled. */
    var deferredPost: Option<int>
    var sent: seq<Request>
    var removedMarkers: seq<string>

    /** Both periodic handlers are subscribed exactly while collaboration is enabled. */
    ghost predicate Valid()
      reads this
    {
      kiloHandlers == (if enabled then {Handler.UpdateCollaboratorsSelections, Handler.SynchronizeText} else {})
    }

    constructor ()
      ensures Valid() && !enabled
      ensures activeFilePath == None && displayedSelections == Some(map[])
      ensures lastSelectionChange == None && deferredPost == None
      ensures sent == [] && removedMarkers == []
    {
      activeFilePath := None;
      displayedSelections := Some(map[]);
      enabled := false;
      kiloHandlers := {};
      lastSelectionChange := None;
      deferredPost := None;
      sent := [];
      removedMarkers := [];
    }

    /**
     * `setStatus`: starting subscribes both periodic handlers and synchronizes
     * at once; stopping unsubscribes them and asks the server to reset (with
     * the action name the client actually sends). Setting the current value
     * again does nothing. `editorPath` is the editor's active path.
     */
    method SetStatus(enable: bool, editorPath: Option<string>)
      requires Valid()
      modifies this`enabled, this`kiloHandlers, this`sent
      ensures Valid()
      ensures enabled == enable
      ensures enable == old(enabled) ==> kiloHandlers == old(kiloHandlers) && sent == old(sent)
      ensures enable && !old(enabled) ==> sent == old(sent) + [SynchronizeRound]
      ensures !enable && old(enabled) ==> sent == old(sent) + [Reset("resetFile", editorPath, true)]
    {
      if enable && !enabled {
        enabled := true;
        kiloHandlers := kiloHandlers + {Handler.UpdateCollaboratorsSelections};
        kiloHandlers := kiloHandlers + {Handler.SynchronizeText};
        sent := sent + [SynchronizeRound];
      } else if !enable && enabled {
        enabled := false;
        kiloHandlers := kiloHandlers - {Handler.UpdateCollaboratorsSelections};
        kiloHandlers := kiloHandlers - {Handler.SynchronizeText};
        ResetSelection(None, true, editorPath);
      }
    }

    /**
     * `resetSelection`: asks the server to reset, falling back to the editor's
     * path; without a path and without resetAll it sends nothing.
     */
    method ResetSelection(path: Option<string>, resetAll: bool, editorPath: Option<string>)
      modifies this`sent
      ensures var p := if NonEmpty(path) then path else editorPath;
              sent == if !NonEmpty(p) && !resetAll then old(sent) else old(sent) + [Reset("resetFile", p, resetAll)]
    {
      var p := if NonEmpty(path) then path else editorPath;
      if !NonEmpty(p) && !resetAll {
        return;
      }
      sent := sent + [Reset("resetFile", p, resetAll)];
    }

    /** The heartbeat reply: collaboration runs exactly when someone else is connected. */
    method HeartbeatSettled(collaboratorCount: int, editorPath: Option<string>)
      requires Valid()
      modifies this`enabled, this`kiloHandlers, this`sent
      ensures Valid()
      ensures enabled <==> collaboratorCount > 1
      ensures enabled == old(enabled) ==> kiloHandlers == old(kiloHandlers) && sent == old(sent)
      ensures enabled && !old(enabled) ==> sent == old(sent) + [SynchronizeRound]
      ensures !enabled && old(enabled) ==> sent == old(sent) + [Reset("resetFile", editorPath, true)]
    {
      SetStatus(collaboratorCount > 1, editorPath);
    }

    /**
     * `onSelectionChange` at time `now` (milliseconds): a change within the
     * minimum interval of the previous one replaces the pending deferred post
     * by one due when the interval has elapsed; otherwise the selection is
     * posted at once, with the editor's path and selection range.
     */
    method OnSelectionChange(now: int, editorPath: Option<string>, selection: Range)
      modifies this`lastSelectionChange, this`deferredPost, this`sent
      ensures lastSelectionChange == Some(now)
      ensures match Throttle(old(lastSelectionChange), now)
              case Defer(delay) => deferredPost == Some(delay) && sent == old(sent)
              case PostNow => deferredPost == old(deferredPost) && sent == old(sent) + [SelectionChange(editorPath, selection)]
    {
      if lastSelectionChange.None? {
        lastSelectionChange := Some(now);
      }
      var interval := now - lastSelectionChange.value;
      lastSelectionChange := Some(now);
      if interval < MinSelectionInterval {
        var intervalDifference := MinSelectionInterval - interval;
        deferredPost := Some(intervalDifference);
      } else {
        PostSelectionChange(editorPath, selection);
      }
    }

    /** `postSelectionChange`: posts the editor's path and its selection range. */
    method PostSelectionChange(editorPath: Option<string>, selection: Range)
      modifies this`sent
      ensures sent == old(sent) + [SelectionChange(editorPath, selection)]
    {
      sent := sent + [SelectionChange(editorPath, selection)];
    }

    /** `updateCollaboratorsSelections`, request half: nothing is asked when no file is active. */
    method UpdateCollaboratorsSelections() returns (requested: bool)
      modifies this`sent
      ensures requested <==> activeFilePath.Some?
      ensures sent == if requested then old(sent) + [UsersAndSelections(activeFilePath.value)] else old(sent)
    {
      if activeFilePath.None? {
        return false;
      }
      sent := sent + [UsersAndSelections(activeFilePath.value)];
      requested := true;
    }

    /** `removeSelection`: takes the user's marker down and forgets the displayed selection. */
    method RemoveSelection(username: string)
      requires displayedSelections.Some?
      modifies this`displayedSelections, this`removedMarkers
      ensures displayedSelections == Some(old(displayedSelections).value - {username})
      ensures removedMarkers == old(removedMarkers) + [username]
    {
      removedMarkers := removedMarkers + [username];
      displayedSelections := Some(displayedSelections.value - {username});
    }

    /**
     * `updateCollaboratorsSelections`, reply half: every displayed username
     * that `in` does not find in the reply has its marker removed, exactly
     * once, and the reply becomes the displayed state. `inherited` holds the
     * names the reply object inherits.
     */
    method SelectionsSettled(reply: Option<map<string, Shown>>, inherited: set<string>)
      modifies this`displayedSelections, this`removedMarkers
      ensures displayedSelections == reply
      ensures |old(removedMarkers)| <= |removedMarkers|
      ensures removedMarkers[..|old(removedMarkers)|] == old(removedMarkers)
      ensures multiset(removedMarkers[|old(removedMarkers)|..])
              == multiset(Dropped(old(displayedSelections), reply, inherited))
    {
      ghost var start := removedMarkers;
      if displayedSelections.Some? {
        ghost var before := displayedSelections.value;
        var pending := displayedSelections.value.Keys;
        ghost var removedNow: set<string> := {};
        while pending != {}
          invariant displayedSelections.Some?
          invariant pending <= before.Keys && removedNow <= before.Keys - pending
          invariant displayedSelections.value == before - removedNow
          invariant forall u :: u in removedNow <==>
                      u in before.Keys - pending && (reply.None? || !InReply(u, reply.value, inherited))
          invariant |start| <= |removedMarkers| && removedMarkers[..|start|] == start
          invariant multiset(removedMarkers[|start|..]) == multiset(removedNow)
          decreases pending
        {
          var username :| username in pending;
          ghost var removedNext := if reply.None? || !InReply(username, reply.value, inherited)
                                   then removedNow + {username} else removedNow;
          SettleStep(before, reply, inherited, pending, removedNow, username, removedNext);
          if reply.None? || !InReply(username, reply.value, inherited) {
            MarkerStep(start, removedMarkers, removedNow, username);
            RemoveSelection(username);
          }
          removedNow := removedNext;
          pending := pending - {username};
        }
        assert removedNow == Dropped(Some(before), reply, inherited);
      }
      displayedSelections := reply;
    }
  }
}
