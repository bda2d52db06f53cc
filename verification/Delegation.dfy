/** API keys delegated from other keys: the ancestry a policy operation works on, and who may
    approve whose requests. */
module Delegation {
  import opened Basics

  /** Registered keys with the key they were delegated from; unknown IDs are roots. */
  type Keys = map<string, Option<string>>

  const MAX_DEPTH := 64

  function Parent(keys: Keys, id: string): Option<string>
  {
    if id in keys then keys[id] else None
  }

  /** id, its parent, its parent's parent and so on up to a root. */
  ghost predicate PathToRoot(keys: Keys, id: string, path: seq<string>)
  {
    && path != [] && path[0] == id
    && (forall i | 0 <= i < |path| - 1 :: Parent(keys, path[i]) == Some(path[i + 1]))
    && Parent(keys, path[|path| - 1]) == None
  }

  // ----- paths are unique and never repeat a key

  lemma Tail(keys: Keys, id: string, path: seq<string>, n: nat)
    requires PathToRoot(keys, id, path) && n < |path|
    ensures PathToRoot(keys, path[n], path[n..])
  {
    var rest := path[n..];
    forall i | 0 <= i < |rest| - 1 ensures Parent(keys, rest[i]) == Some(rest[i + 1]) {
      assert rest[i] == path[n + i] && rest[i + 1] == path[n + i + 1];
    }
  }

  lemma FirstStep(keys: Keys, id: string, path: seq<string>)
    requires PathToRoot(keys, id, path)
    ensures |path| > 1 ==> Parent(keys, id) == Some(path[1])
    ensures |path| == 1 ==> Parent(keys, id) == None
  {
    if |path| > 1 {
      assert Parent(keys, path[0]) == Some(path[0 + 1]);
    }
  }

  lemma {:induction false} PathIsUnique(keys: Keys, id: string, p: seq<string>, q: seq<string>)
    requires PathToRoot(keys, id, p) && PathToRoot(keys, id, q)
    ensures p == q
    decreases |p|
  {
    FirstStep(keys, id, p);
    FirstStep(keys, id, q);
    if |p| > 1 {
      Tail(keys, id, p, 1);
      Tail(keys, id, q, 1);
      PathIsUnique(keys, p[1], p[1..], q[1..]);
      assert p == [id] + p[1..] && q == [id] + q[1..];
    }
  }

  lemma PathNeverRepeats(keys: Keys, id: string, path: seq<string>)
    requires PathToRoot(keys, id, path)
    ensures forall i, j | 0 <= i < j < |path| :: path[i] != path[j]
  {
    forall i, j | 0 <= i < j < |path| ensures path[i] != path[j] {
      Tail(keys, id, path, i);
      Tail(keys, id, path, j);
      if path[i] == path[j] {
        PathIsUnique(keys, path[i], path[i..], path[j..]);
      }
    }
  }

  /** A key whose ancestry runs into a cycle has no path to a root. */
  lemma CycleHasNoPath(keys: Keys, id: string, path: seq<string>, cycle: seq<string>)
    requires |cycle| > 1 && cycle[0] == cycle[|cycle| - 1] == id
    requires forall i | 0 <= i < |cycle| - 1 :: Parent(keys, cycle[i]) == Some(cycle[i + 1])
    ensures !PathToRoot(keys, id, path)
  {
    if PathToRoot(keys, id, path) {
      FollowsCycle(keys, id, path, cycle, |cycle| - 1);
      PathNeverRepeats(keys, id, path);
    }
  }

  lemma {:induction false} FollowsCycle(keys: Keys, id: string, path: seq<string>, cycle: seq<string>, n: nat)
    requires |cycle| > 1 && cycle[0] == id && n < |cycle| && PathToRoot(keys, id, path)
    requires forall i | 0 <= i < |cycle| - 1 :: Parent(keys, cycle[i]) == Some(cycle[i + 1])
    ensures n < |path| && path[n] == cycle[n]
  {
    if n > 0 {
      FollowsCycle(keys, id, path, cycle, n - 1);
      assert Parent(keys, cycle[n - 1]) == Some(cycle[n]);
      assert n < |path| ==> Parent(keys, path[n - 1]) == Some(path[n]);
    }
  }

  // ----- reading the ancestry

  /** At most `limit` rows of the recursive ancestor query, nearest first. */
  function Rows(keys: Keys, id: string, limit: nat): seq<string>
    decreases limit
  {
    if limit == 0 then []
    else if Parent(keys, id).None? then [id]
    else [id] + Rows(keys, Parent(keys, id).value, limit - 1)
  }

  lemma {:induction false} RowsFollowPath(keys: Keys, id: string, path: seq<string>, limit: nat)
    requires PathToRoot(keys, id, path)
    ensures Rows(keys, id, limit) == path[..Min(limit, |path|)]
    decreases limit
  {
    if limit > 0 && |path| > 1 {
      Tail(keys, id, path, 1);
      RowsFollowPath(keys, path[1], path[1..], limit - 1);
      var n := Min(limit - 1, |path| - 1);
      assert path[..n + 1] == [id] + path[1..][..n];
    }
  }

  lemma {:induction false} ShortRowsArePath(keys: Keys, id: string, limit: nat)
    requires |Rows(keys, id, limit)| < limit
    ensures PathToRoot(keys, id, Rows(keys, id, limit))
    decreases limit
  {
    if Parent(keys, id).Some? {
      var rest := Rows(keys, Parent(keys, id).value, limit - 1);
      ShortRowsArePath(keys, Parent(keys, id).value, limit - 1);
      var path := [id] + rest;
      forall i | 0 <= i < |path| - 1 ensures Parent(keys, path[i]) == Some(path[i + 1]) {
        if i > 0 {
          assert path[i] == rest[i - 1] && path[i + 1] == rest[i];
        }
      }
    }
  }

  lemma {:induction false} RowsBounded(keys: Keys, id: string, limit: nat)
    ensures |Rows(keys, id, limit)| <= limit
    ensures limit > 0 ==> Rows(keys, id, limit) != []
    decreases limit
  {
    if limit > 0 && Parent(keys, id).Some? {
      RowsBounded(keys, Parent(keys, id).value, limit - 1);
    }
  }

  ghost predicate WithinDepth(keys: Keys, id: string)
  {
    exists path :: PathToRoot(keys, id, path) && |path| <= MAX_DEPTH
  }

  /** The full path to the root, or an error when there is none of at most 64 keys; a cycle
      among the parents is an error too. */
  method KeyAncestry(keys: Keys, id: string) returns (r: Option<seq<string>>)
    ensures r.Some? <==> WithinDepth(keys, id)
    ensures r.Some? ==> PathToRoot(keys, id, r.value) && |r.value| <= MAX_DEPTH
  {
    hide Rows, PathToRoot;
    var rows := Rows(keys, id, MAX_DEPTH + 1);
    RowsBounded(keys, id, MAX_DEPTH + 1);
    var ids: seq<string> := [];
    for depth := 0 to |rows|
      invariant depth <= MAX_DEPTH && ids == rows[..depth]
    {
      if depth >= MAX_DEPTH {
        forall path | PathToRoot(keys, id, path) ensures |path| > MAX_DEPTH {
          RowsFollowPath(keys, id, path, MAX_DEPTH + 1);
        }
        return None;
      }
      ids := ids + [rows[depth]];
    }
    assert ids == rows;
    ShortRowsArePath(keys, id, MAX_DEPTH + 1);
    r := Some(ids);
  }

  ghost function Ancestry(keys: Keys, id: string): (path: seq<string>)
    requires WithinDepth(keys, id)
    ensures PathToRoot(keys, id, path)
  {
    var path :| PathToRoot(keys, id, path) && |path| <= MAX_DEPTH;
    path
  }

  ghost function Root(keys: Keys, id: string): string
    requires WithinDepth(keys, id)
  {
    var path := Ancestry(keys, id);
    path[|path| - 1]
  }

  // ----- independent approval

  /** Neither the initiator nor a descendant of it, and inside its tree only the tree's root. */
  ghost predicate Independent(keys: Keys, initiator: string, approver: string)
  {
    && WithinDepth(keys, initiator) && WithinDepth(keys, approver)
    && initiator !in Ancestry(keys, approver)
    && (Root(keys, initiator) == Root(keys, approver) ==> approver == Root(keys, initiator))
  }

  method IndependentApprover(keys: Keys, initiator: string, approver: string, master: bool) returns (allowed: bool)
    ensures allowed <==> master || Independent(keys, initiator, approver)
  {
    if master {
      return true;
    }
    if initiator == approver {
      return false;
    }
    var initiatorIds := KeyAncestry(keys, initiator);
    if initiatorIds.None? {
      return false;
    }
    var approverIds := KeyAncestry(keys, approver);
    if approverIds.None? {
      return false;
    }
    var ids := approverIds.value;
    PathIsUnique(keys, approver, ids, Ancestry(keys, approver));
    PathIsUnique(keys, initiator, initiatorIds.value, Ancestry(keys, initiator));
    for i := 0 to |ids|
      invariant initiator !in ids[..i]
    {
      if ids[i] == initiator {
        return false;
      }
    }
    assert ids[..|ids|] == ids;
    var sameRoot := initiatorIds.value[|initiatorIds.value| - 1] == ids[|ids| - 1];
    assert approver == ids[|ids| - 1] <==> |ids| == 1 by {
      PathNeverRepeats(keys, approver, ids);
    }
    if sameRoot && |ids| != 1 {
      return false;
    }
    return true;
  }

  /** Two keys may approve each other's requests only across trees. */
  lemma MutualApproversAreStrangers(keys: Keys, a: string, b: string)
    requires Independent(keys, a, b) && Independent(keys, b, a)
    ensures Root(keys, a) != Root(keys, b)
  {
    assert Ancestry(keys, a)[0] == a;
  }

  /** An independent approver that shares an ancestor with the initiator is that ancestor, a root. */
  lemma RelativesApproveOnlyAsRoot(keys: Keys, initiator: string, approver: string, shared: string)
    requires Independent(keys, initiator, approver)
    requires shared in Ancestry(keys, initiator) && shared in Ancestry(keys, approver)
    ensures approver in Ancestry(keys, initiator) && Parent(keys, approver).None? && shared == approver
  {
    var p, q := Ancestry(keys, initiator), Ancestry(keys, approver);
    var i :| 0 <= i < |p| && p[i] == shared;
    var j :| 0 <= j < |q| && q[j] == shared;
    Tail(keys, initiator, p, i);
    Tail(keys, approver, q, j);
    PathIsUnique(keys, shared, p[i..], q[j..]);
    assert p[i..][|p| - i - 1] == q[j..][|q| - j - 1];
    PathNeverRepeats(keys, approver, q);
    assert q[|q| - 1] == q[0];
  }

  // ----- registering keys

  /** A new key names no parent or a registered one whose ancestry leaves room for one more. */
  function Register(keys: Keys, id: string, parent: Option<string>): Option<Keys>
  {
    if id in keys || parent == Some(id) then None
    else if parent.None? then Some(keys[id := parent])
    else if parent.value !in keys || |Rows(keys, parent.value, MAX_DEPTH)| >= MAX_DEPTH then None
    else Some(keys[id := parent])
  }

  function RegisterAll(keys: Keys, requests: seq<(string, Option<string>)>): Keys
  {
    if requests == [] then keys
    else
      var before := RegisterAll(keys, requests[..|requests| - 1]);
      var (id, parent) := requests[|requests| - 1];
      Register(before, id, parent).GetOr(before)
  }

  ghost predicate AllWithinDepth(keys: Keys)
  {
    && (forall id | id in keys :: WithinDepth(keys, id))
    && (forall id | id in keys && keys[id].Some? :: keys[id].value in keys)
  }

  /** A path through registered keys is untouched by a new key. */
  lemma {:induction false} PathKept(keys: Keys, id: string, path: seq<string>, newcomer: string, parent: Option<string>)
    requires PathToRoot(keys, id, path) && id in keys && newcomer !in keys && AllWithinDepth(keys)
    ensures PathToRoot(keys[newcomer := parent], id, path)
    decreases |path|
  {
    if |path| > 1 {
      Tail(keys, id, path, 1);
      PathKept(keys, path[1], path[1..], newcomer, parent);
      var rest, later := path[1..], keys[newcomer := parent];
      forall i | 0 <= i < |path| - 1 ensures Parent(later, path[i]) == Some(path[i + 1]) {
        if i > 0 {
          assert path[i] == rest[i - 1] && path[i + 1] == rest[i];
        }
      }
      assert path[|path| - 1] == rest[|rest| - 1];
    }
  }

  lemma RegisterKeeps(keys: Keys, id: string, parent: Option<string>)
    requires AllWithinDepth(keys) && Register(keys, id, parent).Some?
    ensures var later := Register(keys, id, parent).value;
      AllWithinDepth(later) && forall k | k in keys :: WithinDepth(later, k) && Ancestry(later, k) == Ancestry(keys, k)
  {
    hide Rows, PathToRoot;
    var later := Register(keys, id, parent).value;
    forall k | k in keys ensures WithinDepth(later, k) && Ancestry(later, k) == Ancestry(keys, k) {
      var path :| PathToRoot(keys, k, path) && |path| <= MAX_DEPTH;
      PathKept(keys, k, path, id, parent);
      PathIsUnique(keys, k, path, Ancestry(keys, k));
      PathIsUnique(later, k, path, Ancestry(later, k));
    }
    NewcomerWithinDepth(keys, id, parent);
  }

  lemma NewcomerWithinDepth(keys: Keys, id: string, parent: Option<string>)
    requires AllWithinDepth(keys) && Register(keys, id, parent).Some?
    ensures WithinDepth(Register(keys, id, parent).value, id)
  {
    var later := keys[id := parent];
    if parent.None? {
      assert PathToRoot(later, id, [id]);
    } else {
      var rest := Rows(keys, parent.value, MAX_DEPTH);
      ShortRowsArePath(keys, parent.value, MAX_DEPTH);
      PathKept(keys, parent.value, rest, id, parent);
      var path := [id] + rest;
      forall i | 0 <= i < |path| - 1 ensures Parent(later, path[i]) == Some(path[i + 1]) {
        if i > 0 {
          assert path[i] == rest[i - 1] && path[i + 1] == rest[i];
        }
      }
      assert PathToRoot(later, id, path);
    }
  }

  /** However keys are registered, every key's ancestry can be read and never changes again. */
  lemma {:induction false} AncestryNeverChanges(keys: Keys, requests: seq<(string, Option<string>)>)
    requires AllWithinDepth(keys)
    ensures AllWithinDepth(RegisterAll(keys, requests))
    ensures forall k | k in keys ::
      WithinDepth(RegisterAll(keys, requests), k) && Ancestry(RegisterAll(keys, requests), k) == Ancestry(keys, k)
    ensures forall k | k in keys :: k in RegisterAll(keys, requests)
  {
    hide AllWithinDepth, WithinDepth, Ancestry;
    assert forall k | k in keys :: WithinDepth(keys, k) by { DepthOf(keys); }
    if requests != [] {
      var (id, parent) := requests[|requests| - 1];
      var before := RegisterAll(keys, requests[..|requests| - 1]);
      AncestryNeverChanges(keys, requests[..|requests| - 1]);
      if Register(before, id, parent).Some? {
        RegisterKeeps(before, id, parent);
      }
    }
  }

  lemma DepthOf(keys: Keys)
    requires AllWithinDepth(keys)
    ensures forall k | k in keys :: WithinDepth(keys, k)
  {
  }

  /** Delegating more keys makes no registered key an approver, and costs none its independence. */
  lemma IndependenceNeverChanges(keys: Keys, requests: seq<(string, Option<string>)>, initiator: string, approver: string)
    requires AllWithinDepth(keys) && initiator in keys && approver in keys
    ensures Independent(RegisterAll(keys, requests), initiator, approver) <==> Independent(keys, initiator, approver)
  {
    hide RegisterAll, WithinDepth, Ancestry, AllWithinDepth, PathToRoot;
    AncestryNeverChanges(keys, requests);
    DepthOf(keys);
  }

  // ----- exactly when independence lasts

  /** The approver is registered, and so is the requester unless the approver is a root. */
  predicate Lasting(keys: Keys, initiator: string, approver: string)
  {
    approver in keys && (initiator in keys || keys[approver].None?)
  }

  ghost predicate StaysIndependent(keys: Keys, initiator: string, approver: string)
  {
    forall requests: seq<(string, Option<string>)> :: Independent(RegisterAll(keys, requests), initiator, approver)
  }

  lemma RootOfItself(keys: Keys, id: string)
    requires Parent(keys, id).None?
    ensures WithinDepth(keys, id) && Ancestry(keys, id) == [id] && Root(keys, id) == id
  {
    assert PathToRoot(keys, id, [id]);
    PathIsUnique(keys, id, [id], Ancestry(keys, id));
  }

  lemma {:induction false} PathIsRegistered(keys: Keys, id: string, path: seq<string>)
    requires AllWithinDepth(keys) && id in keys && PathToRoot(keys, id, path)
    ensures (forall k | k in path :: k in keys) && keys[path[|path| - 1]].None?
    decreases |path|
  {
    if |path| > 1 {
      FirstStep(keys, id, path);
      Tail(keys, id, path, 1);
      PathIsRegistered(keys, path[1], path[1..]);
      assert path == [id] + path[1..];
    }
  }

  lemma RootIsRegistered(keys: Keys, id: string)
    requires AllWithinDepth(keys) && id in keys
    ensures WithinDepth(keys, id) && Root(keys, id) in keys && keys[Root(keys, id)].None?
    ensures forall k | k in Ancestry(keys, id) :: k in keys
  {
    hide AllWithinDepth;
    DepthOf(keys);
    PathIsRegistered(keys, id, Ancestry(keys, id));
  }

  /** A root has room for a new key below it. */
  lemma UnderRoot(keys: Keys, id: string, root: string)
    requires AllWithinDepth(keys) && root in keys && keys[root].None? && id !in keys
    ensures var later := RegisterAll(keys, [(id, Some(root))]);
      WithinDepth(later, id) && Ancestry(later, id) == [id, root] && Root(later, id) == root
  {
    hide WithinDepth, Ancestry, AllWithinDepth;
    OneRegistration(keys, id, Some(root));
    assert Rows(keys, root, MAX_DEPTH) == [root];
    var later := keys[id := Some(root)];
    assert PathToRoot(later, id, [id, root]);
    AncestryIs(later, id, [id, root]);
  }

  lemma AncestryIs(keys: Keys, id: string, path: seq<string>)
    requires PathToRoot(keys, id, path) && |path| <= MAX_DEPTH
    ensures WithinDepth(keys, id) && Ancestry(keys, id) == path
  {
    PathIsUnique(keys, id, path, Ancestry(keys, id));
  }

  lemma OneRegistration(keys: Keys, id: string, parent: Option<string>)
    ensures RegisterAll(keys, [(id, parent)]) == Register(keys, id, parent).GetOr(keys)
  {
    hide Register;
    assert [(id, parent)][..0] == [];
  }

  /** An unknown approver can be registered below the requester's root. */
  lemma UnknownApproverLoses(keys: Keys, initiator: string, approver: string) returns (requests: seq<(string, Option<string>)>)
    requires AllWithinDepth(keys) && initiator in keys && approver !in keys
    ensures Independent(keys, initiator, approver)
    ensures !Independent(RegisterAll(keys, requests), initiator, approver)
  {
    hide WithinDepth, Ancestry, AllWithinDepth, RegisterAll, PathToRoot;
    RootIsRegistered(keys, initiator);
    RootOfItself(keys, approver);
    var root := Root(keys, initiator);
    requests := [(approver, Some(root))];
    UnderRoot(keys, approver, root);
    AncestryNeverChanges(keys, requests);
  }

  /** An unknown requester can be registered below the root of an approver that is not a root. */
  lemma UnknownRequesterLoses(keys: Keys, initiator: string, approver: string) returns (requests: seq<(string, Option<string>)>)
    requires AllWithinDepth(keys) && initiator !in keys && approver in keys && keys[approver].Some?
    ensures Independent(keys, initiator, approver)
    ensures !Independent(RegisterAll(keys, requests), initiator, approver)
  {
    hide WithinDepth, Ancestry, AllWithinDepth, RegisterAll, PathToRoot;
    RootIsRegistered(keys, approver);
    RootOfItself(keys, initiator);
    var root := Root(keys, approver);
    requests := [(initiator, Some(root))];
    UnderRoot(keys, initiator, root);
    AncestryNeverChanges(keys, requests);
  }

  /** Of two unknown keys the approver can be registered below the requester. */
  lemma BothUnknownLose(keys: Keys, initiator: string, approver: string) returns (requests: seq<(string, Option<string>)>)
    requires AllWithinDepth(keys) && initiator !in keys && approver !in keys
    ensures Independent(keys, initiator, approver) <==> initiator != approver
    ensures !Independent(RegisterAll(keys, requests), initiator, approver)
  {
    hide WithinDepth, Ancestry, AllWithinDepth, PathToRoot, Rows;
    RootOfItself(keys, initiator);
    RootOfItself(keys, approver);
    requests := [(initiator, None)];
    OneRegistration(keys, initiator, None);
    var between := RegisterAll(keys, requests);
    AncestryNeverChanges(keys, requests);
    if initiator == approver {
      RootOfItself(between, initiator);
    } else {
      UnderRoot(between, approver, initiator);
      OneRegistration(between, approver, Some(initiator));
      var both := requests + [(approver, Some(initiator))];
      assert both[..1] == requests;
      requests := both;
    }
  }

  lemma LastingIsForever(keys: Keys, requests: seq<(string, Option<string>)>, initiator: string, approver: string)
    requires AllWithinDepth(keys) && Independent(keys, initiator, approver) && Lasting(keys, initiator, approver)
    ensures Independent(RegisterAll(keys, requests), initiator, approver)
    ensures Lasting(RegisterAll(keys, requests), initiator, approver)
  {
    hide WithinDepth, Ancestry, AllWithinDepth, RegisterAll, PathToRoot;
    var later := RegisterAll(keys, requests);
    AncestryNeverChanges(keys, requests);
    KeysNeverChange(keys, requests);
    if initiator in keys {
      IndependenceNeverChanges(keys, requests, initiator, approver);
    } else {
      RootOfItself(later, approver);
      if initiator in later {
        DepthOf(later);
      } else {
        RootOfItself(later, initiator);
      }
    }
  }

  lemma {:induction false} KeysNeverChange(keys: Keys, requests: seq<(string, Option<string>)>)
    ensures forall k | k in keys :: k in RegisterAll(keys, requests) && RegisterAll(keys, requests)[k] == keys[k]
  {
    hide Rows;
    if requests != [] {
      KeysNeverChange(keys, requests[..|requests| - 1]);
    }
  }

  /** Independence survives everything that may be registered later if and only if the approver is
      registered, and the requester too unless the approver is a root. */
  lemma StaysIndependentIff(keys: Keys, initiator: string, approver: string)
    requires AllWithinDepth(keys)
    ensures StaysIndependent(keys, initiator, approver) <==>
            Independent(keys, initiator, approver) && Lasting(keys, initiator, approver)
  {
    hide Independent, RegisterAll, AllWithinDepth;
    NoRegistration(keys);
    if Independent(keys, initiator, approver) {
      if Lasting(keys, initiator, approver) {
        forall requests: seq<(string, Option<string>)> ensures Independent(RegisterAll(keys, requests), initiator, approver) {
          LastingIsForever(keys, requests, initiator, approver);
        }
      } else if approver in keys {
        var requests := UnknownRequesterLoses(keys, initiator, approver);
      } else if initiator in keys {
        var requests := UnknownApproverLoses(keys, initiator, approver);
      } else {
        var requests := BothUnknownLose(keys, initiator, approver);
      }
    }
  }

  lemma NoRegistration(keys: Keys)
    ensures RegisterAll(keys, []) == keys
  {
  }
}
