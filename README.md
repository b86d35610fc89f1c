# Atheos Collaborate — a verified model of its core

This project models the core of the Atheos "Collaborate" plugin in Dafny. The plugin lets several
users edit one file together. It has three parts, and each becomes one module:

- `Collaborate.dfy` covers the collaboration registry of `class.collaborate.php`. It keeps one record
  per shared path: the path, the fingerprint that names the working copy, the ordered list of
  collaborators and the creation time. It also keeps the working copies, stored under their
  fingerprints. The class `Collaborate.Collaborate` holds both stores, together with the requesting
  user and the fingerprint function.
- `Controller.dfy` covers the server controller `controller.arc.php`. The class
  `Controller.RecordStore` holds the record store: registrations, selections, change lists, shadows,
  heartbeats and server texts. Its methods are the lookup and write helpers and the request cases
  `sendHeartbeat`, `sendShadow`, `getUsersAndSelectionsForFile`, `resetSelection` and `resetFile`.
  The heartbeat case holds the presence state machine. A caller whose last heartbeat is more than
  1.5 periods old is newly connected. Every user whose heartbeat is more than one period old is
  swept: its registrations and heartbeat are removed and it gets the disconnect hook.
- `CollabClient.dfy` covers the client state machines of `init.js`:
  - `setStatus`, which starts and stops collaboration;
  - the 250 ms throttle of `onSelectionChange`;
  - the reconciliation of the displayed collaborator selections with the server's reply in
    `updateCollaboratorsSelections`.
- `AceDeltas.dfy` covers `diffToAceDeltas` in `init.js`. It turns the tokens of a diff ("=n", "+text",
  "-n") into editor insert and remove deltas, tracking a 1-based row and column over the original
  text. The imperative loop is proved equal to a left-to-right fold. The fold is then proved to mean
  the following:
  - the cursor sits at the end of the text produced so far;
  - each edit token yields exactly one delta, in token order;
  - an insertion is an empty range at the current position;
  - a removal spans the removed characters.
- `Wrappers.dfy` holds `Option`, `Result` and `Truthy`. `Truthy` is PHP truthiness for request
  parameters: a missing parameter, "" and "0" are all false.

Things outside the plugin become parameters of the model:

- The outcome of the store's `create` becomes a boolean `createOk`.
- The current time becomes `now`.
- md5 becomes the `getHash` function field.
- `getColorForUser` becomes the function parameter `colorOf`.
- The document bytes that `copy` reads become an `Option<string>`.

The connect and disconnect hooks, which the plugin calls but does not define, are recorded in order
in a `hooks` log. Requests the client sends are recorded in order in `sent`.

Some behaviour of the code is worth stating on its own:

- As corrected, when two users register on a fresh path and the first one unregisters, the record is
  deleted, because at most one collaborator is left (`Collaborate.TwoRegisterOneLeaves`). As written,
  the caller is never taken off the list, so both stay listed and the record stays (see Findings).
- On a reconnect, the heartbeat case only calls the disconnect hook for the old session. The sweep of
  dead users removes their registrations and heartbeats but keeps their selections.
- A failed store `create` is not reported: `setShadow` and `setServerText` give up silently, and
  `sendShadow` still answers success.
- A shadow of "" or "0" is rejected as missing, because PHP treats both as false.
- The comment at controller.arc.php:122-124 speaks of "no or only one user registered", but line 126
  seeds the server text only when nobody is registered (`== 0`). `SendShadow` follows the code.

## Model

| member | source | states |
|---|---|---|
| Collaborate.RemoveAll | class.collaborate.php:83-84 | The caller no longer appears in the result. Every other name stays, as often as it was listed: the multiset of names is the old one with the caller's count set to 0. The length drops by exactly the number of times the caller was listed. |
| Collaborate.RemoveAllAppend | class.collaborate.php:83-84 | Taking the caller out keeps the order of the others: the result for `a + b` is the result for `a` followed by the result for `b`. |
| Collaborate.RemoveAllAbsent | class.collaborate.php:83-84 | Taking out a user who is not listed leaves the list unchanged. |
| Collaborate.RemoveAllAppended | class.collaborate.php:83-84 | Appending a user who is not already listed, and then taking that user out, gives the original list back. |
| Collaborate.AfterRegister | class.collaborate.php:42-72 | A path with no record gets `{path, hash, [user], now}`. Otherwise the user is appended at the end, with no duplicate check, so the list grows by exactly one and its prefix is kept; the record keeps its path, fingerprint and time. Other paths are unchanged. |
| Collaborate.AfterUnregister | class.collaborate.php:78-96 | Corrected unregister. When the record or the caller is missing, the store is unchanged. Otherwise the caller is no longer listed. The record is gone exactly when at most one collaborator is left; a record that stays keeps at least two. Other paths are unchanged. |
| Collaborate.AfterUnregisterAsWritten | class.collaborate.php:78-96 | Unregister as written. The store either stays the same or loses the whole record for that path. A record that stays is unchanged. |
| Collaborate.AsWrittenKeepsCaller | class.collaborate.php:83-84 | As written, a caller with a non-empty name is never taken off a record. |
| Collaborate.AsWrittenCounterexample | class.collaborate.php:83-89 | With the record ["alice", "bob", "carol"], alice stays listed as written. The corrected version leaves ["bob", "carol"]. |
| Collaborate.UnregisterIdempotent | class.collaborate.php:79-92 | Unregistering twice has the same effect as unregistering once. |
| Collaborate.RegisterUnregisterFresh | class.collaborate.php:42-96 | Registering on an unshared path and then unregistering restores the store. |
| Collaborate.RegisterUnregisterJoined | class.collaborate.php:59-89 | Joining a record that at least two others share, and then leaving it, restores the store. |
| Collaborate.TwoRegisterOneLeaves | class.collaborate.php:87-89 | Two users register on a fresh path and the first one unregisters: the record is deleted. |
| Collaborate.Collaborate.constructor | class.collaborate.php:30-36 | The object holds the requesting user and the given stores. Given a store whose records are filed under their own paths and list at least one collaborator, it establishes the record invariant that the other methods keep. |
| Collaborate.Collaborate.InitCollab | class.collaborate.php:124-136 | A record listing only the caller is filed under the path. The working copy is stored under the hash when the copy succeeds. The hash is returned, and the record invariant is kept. |
| Collaborate.Collaborate.DeleteCollab | class.collaborate.php:141-149 | The record and the working copy are gone. Nothing else changes. The result is `getHash(path)`. Deleting the one record that may break the record invariant restores it. |
| Collaborate.Collaborate.Register | class.collaborate.php:42-72 | The new store is `AfterRegister`. A new record answers `RegisteredNew(getHash(path))` together with the working copy. Joining answers the hash and the working copy's contents, and leaves the copies alone. The "could not initialize" branch is modelled; the ensures prove it is never taken, because a fingerprint has 32 characters and so is truthy. |
| Collaborate.Collaborate.Unregister | class.collaborate.php:78-96 | With a path: the new store is `AfterUnregister`, and the working copy is removed exactly when the record is. Without a path: the answer is the work-in-progress notice when `all` is set, and nothing otherwise. Nothing changes. |
| Wrappers.Truthy | controller.arc.php:46 | A PHP-truthy parameter is present and not empty, and every string of two or more characters is truthy. |
| Controller.IsNewlyConnected | controller.arc.php:149-156 | The caller is newly connected exactly when it has no heartbeat, or its heartbeat is more than 1.5 periods old (at least 8 whole seconds). |
| Controller.Touched | controller.arc.php:168 | The caller gets a heartbeat record at `now` exactly when `create` succeeds. Every other record is kept. |
| Controller.Stale | controller.arc.php:178 | The swept users are heartbeat holders and include every user more than one period old. `LiveUsersKept` gives the converse: no user at most one period old is swept. `AliveIsUnswept` proves they are exactly the users the sweep does not keep. |
| Controller.LiveUsersKept | controller.arc.php:176-185 | A user whose heartbeat is at most one period old is not stale, and the sweep keeps its record with the same time. |
| Controller.Alive | controller.arc.php:176-185 | The kept records are a part of the heartbeats, each at most one period old, with its time kept. `LiveUsersKept` gives the converse: every heartbeat at most one period old is kept. |
| Controller.AliveIsUnswept | controller.arc.php:176-185 | The records the sweep keeps are all the records except the stale ones. |
| Controller.AliveCount | controller.arc.php:176-188 | The sweep keeps exactly the users that are not stale. The count it leaves is the old count minus the number of stale users. |
| Controller.SweepIdempotent | controller.arc.php:176-185 | After the sweep, every heartbeat is at most one period old. A second sweep at the same time removes nothing. |
| Controller.CallerSurvives | controller.arc.php:168-188 | A caller whose heartbeat was just written survives its own sweep, so the count is at least 1. |
| Controller.SliceStart | controller.arc.php:297 | The start index `array_slice` uses never goes past the end of the list. |
| Controller.RecordStore.GetRegisteredUsersForFile | controller.arc.php:270-279 | Exactly the users registered for the file. |
| Controller.RecordStore.GetChanges | controller.arc.php:293-298 | Null exactly when there is no record. Otherwise the changes from `fromRevision` on, with their revisions kept as keys. A negative offset counts from the end. |
| Controller.RecordStore.SetShadow | controller.arc.php:302-316 | When `create` succeeds, `getShadow` reads back the stored value. Every other `getShadow` answer, null or not, is unchanged. |
| Controller.RecordStore.SetServerText | controller.arc.php:318-340 | When `create` succeeds, `getServerText` reads back the stored value (so `existsServerText` holds). Every other `getServerText` answer is unchanged. |
| Controller.RecordStore.RegisterToFile | controller.arc.php:205-238 | An existing registration (`isUserRegisteredForFile`) answers true and changes nothing. Otherwise the answer is whether `create` succeeded, and the registration exists exactly then. After a true answer, `isUserRegisteredForFile` holds. |
| Controller.RecordStore.UnregisterFromAllFiles | controller.arc.php:213-219 | Every registration of the user is removed, and nothing else. |
| Controller.RecordStore.UpdateHeartbeatMarker | controller.arc.php:242-248 | When `create` succeeds, the user's heartbeat becomes `now`, and `getUsersAndHeartbeatTime` then lists the user at `now`. The result says whether it did. |
| Controller.RecordStore.RemoveHeartbeatMarker | controller.arc.php:250-267 | The user's heartbeat record is gone, so `getUsersAndHeartbeatTime` no longer lists the user. Every other user it listed stays listed with the same time. |
| Controller.RecordStore.SendHeartbeat | controller.arc.php:141-192 | `isUserNewlyConnected` is `IsNewlyConnected`. A disconnect hook for the old session fires only when a record existed. Then comes the connect hook, then one disconnect per stale user. The heartbeats left are the live ones, and stale users lose every registration. The answer is the number of heartbeats left, at least 1 when the caller's write succeeded. |
| Controller.RecordStore.DropDeadUser | controller.arc.php:178-184 | The dead user loses its registrations and heartbeat and gets the disconnect hook. |
| Controller.RecordStore.SweepDead | controller.arc.php:176-185 | Afterwards the heartbeats are `Alive` and the registrations are those of the non-stale users. One disconnect hook fires per stale user: `sweptOrder` is a permutation of the stale set. |
| Controller.RecordStore.SendShadow | controller.arc.php:115-131 | Missing file name or shadow: an error, and nothing changes. Otherwise the caller's shadow is stored. The server text becomes the shadow exactly when the file had no text or nobody is registered for it. |
| Controller.RecordStore.GetUsersAndSelectionsForFile | controller.arc.php:91-113 | Missing file name: an error. Otherwise the reply holds exactly the other users registered for the file with a non-null selection, each with that selection and `colorOf(user)`. It never holds the caller. |
| Controller.RecordStore.ResetSelection | controller.arc.php:59-73 | Without a file name and without `resetALl`: an error, and nothing changes. Otherwise every selection and change record of the caller is deleted, so `getSelection` and `getChanges` answer null for the caller on every file, and every other record is kept: `getSelection` for any other user is unchanged. |
| Controller.RecordStore.ResetFile | controller.arc.php:75-79 | No server text is left. |
| CollabClient.Throttle | init.js:241-257 | The post is deferred exactly when the gap is under 250 ms, and the first call has gap 0. The deferred post falls due 250 ms after the previous change, a delay that is always positive and at most 250 when the clock has not gone back. |
| CollabClient.Dropped | init.js:286-299 | The usernames to take down are exactly the displayed ones that JavaScript's `in` does not find in the reply (neither an own key nor an inherited name), or all of them when the reply is null. An inherited name is never taken down. |
| CollabClient.NonEmpty | init.js:120-121 | JavaScript truthiness of a path: every PHP-truthy string is JS-truthy, and "0" is JS-truthy though PHP-falsy. |
| CollabClient.Collab.constructor | init.js:30-48 | A new client collaborates on no file, shows no selections, is disabled with no handlers subscribed, and has sent nothing. |
| CollabClient.Collab.SetStatus | init.js:96-116 | Afterwards `enabled == enable`, and both periodic handlers are subscribed exactly while enabled. Setting the same value again changes nothing. Starting synchronizes once; stopping sends the reset request. |
| CollabClient.Collab.ResetSelection | init.js:119-135 | The path falls back to the editor's path. Without a path and without `resetAll`, nothing is sent. Otherwise one request is sent, under the action name `resetFile`. |
| CollabClient.Collab.HeartbeatSettled | init.js:198-204 | Collaboration is enabled exactly when more than one collaborator is connected. When that does not change the status, nothing is sent and the handlers stay. Starting sends one synchronize round; stopping sends the reset request for the editor's path. |
| CollabClient.Collab.OnSelectionChange | init.js:241-257 | `lastSelectionChange` becomes now. A deferred post replaces the pending one with the `Throttle` delay and posts nothing; otherwise the editor's path and selection are posted once. |
| CollabClient.Collab.PostSelectionChange | init.js:259-273 | Exactly one selection post is sent, carrying the editor's path and selection range. |
| CollabClient.Collab.UpdateCollaboratorsSelections | init.js:277-285 | A request is made exactly when a file is active, and it is for that file. |
| CollabClient.Collab.RemoveSelection | init.js:373-377 | The user's marker is taken down, and the user is no longer displayed. |
| CollabClient.Collab.SelectionsSettled | init.js:286-301 | Each username `Dropped` names, with `in` seeing the reply's inherited names too, has its marker taken down exactly once, after the earlier ones. The displayed selections become the reply. |
| AceDeltas.Substring | init.js:544 | JavaScript's `substring` gives the exact slice when the end is within the text, and never more characters than asked for. |
| AceDeltas.NewlineCountAppend | init.js:531-555 | Newlines add up over a concatenation. The last line of `a + b` runs into `a` only when `b` has no newline. |
| AceDeltas.Walk | init.js:502-509 | Walking over the characters never moves the row back and keeps the column at least 1. |
| AceDeltas.Advance | init.js:531-538 | The split-based update of the "+" branch never moves the row back and keeps the column at least 1. |
| AceDeltas.AdvanceFromEnd | init.js:531-538 | Moving from the end of a text p over s lands on the end of p + s. |
| AceDeltas.Emit | init.js:513-571 | A "+" or "-" token pushes exactly one delta, "=" and a token not understood push none, and every coordinate pushed is at least 0. |
| AceDeltas.Step | init.js:498-574 | The offset advances by n on "=" and "-" and never on "+". Row and column do not move on "-". Row and column stay at least 1. |
| AceDeltas.WalkUnchanged | init.js:502-509 | The character loop of the "=" branch computes `Walk`. |
| AceDeltas.ApplyToken | init.js:496-574 | One pass of the switch moves the cursor by `Step` and appends the token's `Emit` delta. |
| AceDeltas.DiffToAceDeltas | init.js:483-583 | The result is `Deltas`: empty when a token is not understood, and otherwise exactly one delta per "+" or "-" token. |
| AceDeltas.EmittedAt | init.js:493-575 | The edit token at j yields the delta numbered by the edits before it, and later tokens leave that delta in place. |
| AceDeltas.WalkIsAdvance | init.js:502-538 | Walking over the characters of a slice moves the row and column exactly as the split-based update of the "+" branch would. |
| AceDeltas.CursorMeaning | init.js:488-574 | While the tokens consume no more than the original text: after n tokens, the offset is what the tokens consumed. (row - 1, col - 1) is the end of the text produced so far, made of the kept slices and the insertions. |
| AceDeltas.InsertDeltaShape | init.js:513-529 | An insert delta is the empty range at the end of the produced text and carries the inserted text. |
| AceDeltas.RemoveDeltaShape | init.js:541-571 | For a removal within the original text, a remove delta starts at the end of the produced text and ends where the removed slice would end after it. So with no newline it stays on the same row, n columns on; otherwise it ends at the new row count and last-line length. It carries the count. |
| AceDeltas.EditDeltaShape | init.js:513-571 | The delta of an edit token (a removal within the original text) at a cursor at the end of the produced text is `EditDelta`. |
| AceDeltas.DeltaAt | init.js:483-583 | For a diff that stays within the original text, the delta of the edit token at j is `EditDelta` of the text produced before j: an insertion at its end, or a removal of the next n original characters. |
| AceDeltas.CoordinatesNonNegative | init.js:488-571 | Every coordinate of every returned delta is at least 0. |

## Findings

| source | as written | input that shows it | evidently intended | confidence | as-written member | corrected member |
|---|---|---|---|---|---|---|
| class.collaborate.php:83-84 | Unregister looks the caller up as `$this->user`, a property the class does not declare, so the lookup is null. It then unsets the list entry under that null key, which removes nothing from a list indexed by position. | A record for "/ws/a.txt" listing ["alice", "bob", "carol"]; alice unregisters. As written, alice stays listed. | The caller (`activeUser`, line 18) is taken off the list, and the record is deleted once at most one collaborator is left. | not executed | Collaborate.AsWrittenCounterexample | Collaborate.Collaborate.Unregister |

`Collaborate.AfterUnregisterAsWritten` and `Collaborate.AsWrittenKeepsCaller` describe the code as
written. `Collaborate.AfterUnregister` is the corrected definition, and `Collaborate.Collaborate.Unregister`
uses it. Registration never checks for duplicates, so the corrected removal takes out every occurrence
of the caller.

## Left out

- The `syncText` and `postSynchronizeText` round trip is not modelled. It rests on the diff-match-patch
  library and on file locking. The client's throttled `synchronizeText` is recorded only as a
  `SynchronizeRound` request.
- Computing the delta string is not modelled: `diff_toDelta`, `split('\t')`, `decodeURI` and
  `parseInt`. The model starts from decoded tokens. For a "-" token, the delta's text is the decimal
  form of the count; a non-canonical count such as "012" is not distinguished.
- `updateSelection` in class.collaborate.php is not modelled. It reads undefined variables and passes
  `registerToFile` its arguments in swapped order.
- controller.php is dispatch only, and it is not part of this model, nor is the notice sent before
  the switch. Each case is modelled as if reached.
- The `register`, `unregister`, `sendSelectionChange` and `syncText` cases of controller.arc.php only
  forward to the class, so they are not modelled separately.
- File-system effects are modelled as maps: the working-copy files and the marker files. The
  constructor's `mkdir` of the working-copy directory is not modelled; the map of working copies
  stands for that directory, which is taken to exist. The store's `select` and `create` are taken to be exact lookups and upserts. Whether `create` fails
  is a parameter.
- Clocks, md5, `getColorForUser` and the bytes read from disk are parameters. The connect and
  disconnect hooks are recorded in a log and not run.
- Controller.RecordStore.SweepDead: the store's iteration order is not known, so the order of the
  disconnect hooks is stated only up to permutation (`sweptOrder`).
- Collaborate.Collaborate.Register: the register case only reaches `register` with a non-empty path.
  The model does not repeat that check.
- Client UI and timers are not modelled: `displaySelections`, tooltips, listeners, `setInterval`,
  `setTimeout` and `clearTimeout`. A deferred post is recorded as its delay and never fires.
  `activeFilePath` is never assigned by the client, so it is an ordinary field here.
- Concurrency is not modelled: every request runs on its own, start to finish.
- `Common::send` is not part of this model. Every "error" answer is taken to end the request, so
  `SendShadow`, `ResetSelection` and `GetUsersAndSelectionsForFile` change nothing on an error. The
  same assumption makes the "Collaborate not complete" notice of controller.arc.php:36 end every
  request; the cases are modelled as if that notice did not stop them.
- init.js measures text in UTF-16 code units (`charAt`, `substring`, `.length` and the "=n" and "-n"
  counts). A Dafny `char` is a Unicode scalar value, so for a text with a character outside the
  Basic Multilingual Plane the model's lengths, offsets and columns differ from the client's.
- Controller.Selection: a stored selection is either a decoded `null` or a range. PHP's `empty()` is
  also true for a decoded `false`, `0`, `""` or `[]`; such selections are not modelled.
- CollabClient.Dropped: the names the reply inherits are a parameter (`inherited`); which names
  those are (Object.prototype's members, or an array's when the reply is `[]`) is not modelled.
- CollabClient.Collab.SelectionsSettled: takes the reply's inherited names as the same parameter. The
  for-in loop of init.js:292 visits the displayed usernames in insertion order; the model does not keep
  that order, so the removals are stated only as a multiset.
- Controller.RecordStore.SendHeartbeat: the heartbeat case reads `time()` twice, for the age test
  (controller.arc.php:145) and for the stored heartbeat (controller.arc.php:246). Both reads are taken
  to give the same `now`.
