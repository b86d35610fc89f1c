/**
 * The collaboration registry of class.collaborate.php: one record per
 * shared document (its path, the fingerprint naming its working copy, the
 * list of collaborators and the time it was created) and the working
 * copies themselves, stored under the fingerprint of the document path.
 *
 * The record store ("collaborate" scroll) is a map from path to record;
 * the working-copy directory is a map from fingerprint to contents. The
 * fingerprint function (md5 in the source) is a parameter, the clock is a
 * `now` argument, and the document's bytes on disk are an argument of the
 * operations that copy them.
 */
module Collaborate {
  import opened Wrappers

  type Path = string

  /** A 32-character fingerprint, as md5 renders one in hexadecimal. */
  type Fingerprint = s: string | |s| == 32 witness "00000000000000000000000000000000"

  datatype CollabRecord = CollabRecord(path: Path, name: Fingerprint, collaborators: seq<User>, time: int)

  /** What an operation answers the client with. */
  datatype Reply =
    | RegisteredNew(hash: Fingerprint)                          // a new record and working copy were made
    | RegisteredJoined(hash: Fingerprint, content: Option<string>)  // joined; None when the copy cannot be read
    | Unregistered
    | InitFailed                                                // "Could not initialize collaboration."
    | UnregisterAllWip                                          // the "unregister all is a WIP" notice
    | NoReply

  /** The collaborator list with every occurrence of `x` taken out, the others kept in order. */
  function RemoveAll(s: seq<User>, x: User): (r: seq<User>)
    ensures x !in r
    ensures forall y :: y in r <==> y in s && y != x
    ensures |r| == |s| - multiset(s)[x]
    ensures multiset(r) == multiset(s)[x := 0]
  {
    if s == [] then []
    else
      assert s == [s[0]] + s[1..];
      if s[0] == x then RemoveAll(s[1..], x) else [s[0]] + RemoveAll(s[1..], x)
  }

  /** Taking a user out of two lists joined end to end keeps their order: the remainders are joined the same way. */
  lemma {:induction false} RemoveAllAppend(a: seq<User>, b: seq<User>, x: User)
    ensures RemoveAll(a + b, x) == RemoveAll(a, x) + RemoveAll(b, x)
  {
    if a == [] {
      assert a + b == b;
    } else {
      assert (a + b)[0] == a[0];
      assert (a + b)[1..] == a[1..] + b;
      RemoveAllAppend(a[1..], b, x);
    }
  }

  /** Taking out a user who is not listed changes nothing. */
  lemma {:induction false} RemoveAllAbsent(s: seq<User>, x: User)
    requires x !in s
    ensures RemoveAll(s, x) == s
  {
    if s != [] {
      RemoveAllAbsent(s[1..], x);
    }
  }

  /** Taking out a user appended to a list that did not hold it gives the list back. */
  lemma {:induction false} RemoveAllAppended(s: seq<User>, x: User)
    requires x !in s
    ensures RemoveAll(s + [x], x) == s
  {
    if s == [] {
    } else {
      assert (s + [x])[1..] == s[1..] + [x];
      RemoveAllAppended(s[1..], x);
    }
  }

  /**
   * The store after `register(path)` by `user`: a document nobody shares yet
   * gets a fresh record listing only the user; otherwise the user is
   * appended to the existing list, with no check for being listed already.
   */
  function AfterRegister(records: map<Path, CollabRecord>, path: Path, user: User, hash: Fingerprint, now: int)
    : (r: map<Path, CollabRecord>)
    ensures path in r && user in r[path].collaborators
    ensures path !in records ==> r[path] == CollabRecord(path, hash, [user], now)
    ensures path in records ==>
              |r[path].collaborators| == |records[path].collaborators| + 1
              && r[path].collaborators[..|records[path].collaborators|] == records[path].collaborators
              && r[path].collaborators[|records[path].collaborators|] == user
    ensures path in records ==> r[path] == records[path].(collaborators := r[path].collaborators)
    ensures forall p :: p != path ==> (p in r <==> p in records) && (p in r ==> r[p] == records[p])
  {
    if path !in records then records[path := CollabRecord(path, hash, [user], now)]
    else
      var rec := records[path];
      records[path := rec.(collaborators := rec.collaborators + [user])]
  }

  /**
   * The store after `user` unregisters from `path`, as the operation is
   * evidently meant to behave: a caller who is listed is taken out, and
   * the record is deleted when at most one collaborator is left.
   */
  function AfterUnregister(records: map<Path, CollabRecord>, path: Path, user: User): (r: map<Path, CollabRecord>)
    ensures path !in records || user !in records[path].collaborators ==> r == records
    ensures path in r ==> user !in r[path].collaborators
    ensures path in r && user in records[path].collaborators ==> |r[path].collaborators| >= 2
    ensures path !in r <==>
              path !in records
              || (user in records[path].collaborators && |RemoveAll(records[path].collaborators, user)| <= 1)
    ensures path in r && user in records[path].collaborators ==>
              r[path] == records[path].(collaborators := RemoveAll(records[path].collaborators, user))
    ensures forall p :: p != path ==> (p in r <==> p in records) && (p in r ==> r[p] == records[p])
  {
    if path in records && user in records[path].collaborators then
      var rec := records[path];
      var remaining := RemoveAll(rec.collaborators, user);
      if |remaining| <= 1 then records - {path}
      else records[path := rec.(collaborators := remaining)]
    else records
  }

  /**
   * The store after `unregister(path)` as the source has it: the caller is
   * looked up through a property the class does not have, so it is null;
   * null is loosely in the list only when some username is the empty
   * string, and unsetting the list's entry under the null key removes
   * nothing from a list indexed by position. What is left is the deletion
   * of a record listing at most one collaborator.
   */
  function AfterUnregisterAsWritten(records: map<Path, CollabRecord>, path: Path): (r: map<Path, CollabRecord>)
    ensures r == records || (path in records && r == records - {path})
    ensures path in r ==> r[path] == records[path]
  {
    if path in records && "" in records[path].collaborators && |records[path].collaborators| <= 1 then
      records - {path}
    else records
  }

  /** The source's unregister never takes a caller with a non-empty name off a record. */
  lemma AsWrittenKeepsCaller(records: map<Path, CollabRecord>, path: Path, user: User)
    requires user != "" && path in records && user in records[path].collaborators
    ensures path in AfterUnregisterAsWritten(records, path)
    ensures user in AfterUnregisterAsWritten(records, path)[path].collaborators
  {
  }

  /** A record shared by alice, bob and carol: alice stays listed as written, and is taken off as intended. */
  lemma AsWrittenCounterexample()
    ensures var rec := CollabRecord("/ws/a.txt", "00000000000000000000000000000000", ["alice", "bob", "carol"], 0);
            var records := map["/ws/a.txt" := rec];
            "alice" in AfterUnregisterAsWritten(records, "/ws/a.txt")["/ws/a.txt"].collaborators
            && AfterUnregister(records, "/ws/a.txt", "alice")["/ws/a.txt"].collaborators == ["bob", "carol"]
  {
    var rec := CollabRecord("/ws/a.txt", "00000000000000000000000000000000", ["alice", "bob", "carol"], 0);
    assert RemoveAll(rec.collaborators, "alice") == ["bob", "carol"] by {
      assert rec.collaborators[1..] == ["bob", "carol"];
      RemoveAllAbsent(["bob", "carol"], "alice");
    }
  }

  /** Unregistering twice is the same as unregistering once. */
  lemma UnregisterIdempotent(records: map<Path, CollabRecord>, path: Path, user: User)
    ensures AfterUnregister(AfterUnregister(records, path, user), path, user) == AfterUnregister(records, path, user)
  {
  }

  /** Registering on a document nobody shares, then unregistering, leaves the store as it was. */
  lemma RegisterUnregisterFresh(records: map<Path, CollabRecord>, path: Path, user: User, hash: Fingerprint, now: int)
    requires path !in records
    ensures AfterUnregister(AfterRegister(records, path, user, hash, now), path, user) == records
  {
    var r := AfterUnregister(AfterRegister(records, path, user, hash, now), path, user);
    assert RemoveAll([user], user) == [];
    assert r.Keys == records.Keys;
  }

  /**
   * Joining a record shared by at least two others, then leaving it, gives
   * the record back as it was.
   */
  lemma RegisterUnregisterJoined(records: map<Path, CollabRecord>, path: Path, user: User, hash: Fingerprint, now: int)
    requires path in records && user !in records[path].collaborators
    requires |records[path].collaborators| >= 2
    ensures AfterUnregister(AfterRegister(records, path, user, hash, now), path, user) == records
  {
    var cs := records[path].collaborators;
    RemoveAllAppended(cs, user);
    var r := AfterUnregister(AfterRegister(records, path, user, hash, now), path, user);
    assert r.Keys == records.Keys;
  }

  /**
   * Two users register on a fresh document and the first unregisters: the
   * record is deleted, because only one collaborator would be left.
   */
  lemma TwoRegisterOneLeaves(records: map<Path, CollabRecord>, path: Path, a: User, b: User, hash: Fingerprint, t1: int, t2: int)
    requires path !in records && a != b
    ensures var s1 := AfterRegister(records, path, a, hash, t1);
            var s2 := AfterRegister(s1, path, b, hash, t2);
            AfterUnregister(s2, path, a) == records
  {
    var s1 := AfterRegister(records, path, a, hash, t1);
    var s2 := AfterRegister(s1, path, b, hash, t2);
    assert s2[path].collaborators == [a, b];
    assert RemoveAll([a, b], a) == [b] by {
      assert [a, b][1..] == [b];
      RemoveAllAbsent([b], a);
    }
    assert AfterUnregister(s2, path, a).Keys == records.Keys;
  }

  class Collaborate {
    /** The user the request is made by. */
    const activeUser: User
    /** The fingerprint of a path (md5 in the source). */
    const getHash: Path -> Fingerprint
    var records: map<Path, CollabRecord>
    /** The working copies, by fingerprint. */
    var copies: map<Fingerprint, string>

    /** Every record is filed under its own path and lists at least one collaborator. */
    ghost predicate Valid()
      reads this
    {
      forall p :: p in records ==> records[p].path == p && |records[p].collaborators| >= 1
    }

    /** The record invariant for every path but `path`, whose record is about to be deleted. */
    ghost predicate ValidExcept(path: Path)
      reads this
    {
      forall p :: p in records && p != path ==> records[p].path == p && |records[p].collaborators| >= 1
    }

    constructor (activeUser: User, getHash: Path -> Fingerprint, records: map<Path, CollabRecord>, copies: map<Fingerprint, string>)
      requires forall p :: p in records ==> records[p].path == p && |records[p].collaborators| >= 1
      ensures Valid()
      ensures this.activeUser == activeUser && this.getHash == getHash
      ensures this.records == records && this.copies == copies
    {
      this.activeUser := activeUser;
      this.getHash := getHash;
      this.records := records;
      this.copies := copies;
    }

    /**
     * `initCollab`: copies the document to its working copy (a copy that
     * fails, `source == None`, leaves the copies alone), files a record
     * listing only the caller and answers the fingerprint it was given.
     */
    method InitCollab(hash: Fingerprint, path: Path, now: int, source: Option<string>) returns (h: Fingerprint)
      requires Valid()
      modifies this`records, this`copies
      ensures Valid()
      ensures h == hash
      ensures records == old(records)[path := CollabRecord(path, hash, [activeUser], now)]
      ensures copies == if source.Some? then old(copies)[hash := source.value] else old(copies)
    {
      if source.Some? {
        copies := copies[hash := source.value];
      }
      records := records[path := CollabRecord(path, hash, [activeUser], now)];
      h := hash;
    }

    /** `deleteCollab`: removes the working copy and the record, and answers the fingerprint. */
    method DeleteCollab(path: Path) returns (h: Fingerprint)
      requires ValidExcept(path)
      modifies this`records, this`copies
      ensures Valid()
      ensures h == getHash(path)
      ensures records == old(records) - {path}
      ensures copies == old(copies) - {getHash(path)}
    {
      h := getHash(path);
      copies := copies - {h};
      records := records - {path};
    }

    /**
     * `register`: on a document without a record, starts the collaboration
     * (record and working copy); otherwise appends the caller and answers
     * the working copy's contents.
     */
    method Register(path: Path, now: int, source: Option<string>) returns (reply: Reply)
      requires Valid()
      modifies this`records, this`copies
      ensures Valid()
      ensures records == AfterRegister(old(records), path, activeUser, getHash(path), now)
      ensures path !in old(records) ==>
                reply == RegisteredNew(getHash(path))
                && copies == if source.Some? then old(copies)[getHash(path) := source.value] else old(copies)
      ensures path in old(records) ==>
                copies == old(copies)
                && reply == RegisteredJoined(getHash(path),
                                             if getHash(path) in copies then Some(copies[getHash(path)]) else None)
    {
      var hash := getHash(path);
      if path !in records {
        var res := InitCollab(hash, path, now, source);
        // A fingerprint has 32 characters, so it is always truthy.
        reply := if Truthy(Some(res)) then RegisteredNew(hash) else InitFailed;
      } else {
        var results := records[path];
        results := results.(collaborators := results.collaborators + [activeUser]);
        records := records[path := results];
        var content := if hash in copies then Some(copies[hash]) else None;
        reply := RegisteredJoined(hash, content);
      }
    }

    /**
     * `unregister`, corrected: a listed caller is taken off the document's
     * record, and the record and its working copy go once at most one
     * collaborator is left. Without a path, `all` only yields the
     * work-in-progress notice.
     */
    method Unregister(path: Option<Path>, all: bool) returns (reply: Reply)
      requires Valid()
      modifies this`records, this`copies
      ensures Valid()
      ensures Truthy(path) ==>
                reply == Unregistered
                && records == AfterUnregister(old(records), path.value, activeUser)
                && copies == if path.value in old(records) && path.value !in records
                             then old(copies) - {getHash(path.value)} else old(copies)
      ensures !Truthy(path) ==>
                reply == (if all then UnregisterAllWip else NoReply)
                && records == old(records) && copies == old(copies)
    {
      if Truthy(path) {
        var p := path.value;
        if p in records && activeUser in records[p].collaborators {
          var results := records[p];
          results := results.(collaborators := RemoveAll(results.collaborators, activeUser));
          records := records[p := results];
          if |results.collaborators| <= 1 {
            var h := DeleteCollab(p);
          }
        }
        reply := Unregistered;
      } else if all {
        reply := UnregisterAllWip;
      } else {
        reply := NoReply;
      }
    }
  }
}
