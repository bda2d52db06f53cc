/** Policy operations lock every key of an ancestry, in sorted order, until they commit. The lock of
    a key is an advisory lock numbered by a hash of the key, so two keys can share a lock; `slot` is
    that numbering. */
module Locks {
  import opened Basics
  import opened StringOrder
  import Delegation

  type Slot = string -> int

  // ----- the order in which an operation takes its locks

  function Insert(sorted: seq<string>, id: string): seq<string>
  {
    if sorted == [] then [id]
    else if Less(sorted[|sorted| - 1], id) then sorted + [id]
    else Insert(sorted[..|sorted| - 1], id) + [sorted[|sorted| - 1]]
  }

  lemma AscendingGrows(sorted: seq<string>, last: string)
    requires Ascending(sorted) && forall s | s in sorted :: Less(s, last)
    ensures Ascending(sorted + [last])
  {
    hide Less;
    var all := sorted + [last];
    forall i, j | 0 <= i < j < |all| ensures Less(all[i], all[j]) {
      assert all[i] == sorted[i] && all[i] in sorted;
    }
  }

  lemma {:induction false} InsertSorts(sorted: seq<string>, id: string)
    requires Ascending(sorted) && id !in sorted
    ensures Ascending(Insert(sorted, id))
    ensures multiset(Insert(sorted, id)) == multiset(sorted) + multiset{id}
  {
    hide Less;
    if sorted != [] {
      var n := |sorted| - 1;
      var front, last := sorted[..n], sorted[n];
      assert sorted == front + [last];
      if Less(last, id) {
        forall s | s in sorted ensures Less(s, id) {
          if s != last {
            Transitive(s, last, id);
          }
        }
        AscendingGrows(sorted, id);
      } else {
        Connected(last, id);
        InsertSorts(front, id);
        var inserted := Insert(front, id);
        forall s | s in inserted ensures Less(s, last) {
          assert s in multiset(inserted);
          assert s == id || s in front;
        }
        AscendingGrows(inserted, last);
      }
    }
  }

  /** A sorted copy of an ancestry, whose keys are distinct. */
  method LockOrder(ids: seq<string>) returns (ordered: seq<string>)
    requires forall i, j | 0 <= i < j < |ids| :: ids[i] != ids[j]
    ensures Ascending(ordered) && multiset(ordered) == multiset(ids)
  {
    ordered := [];
    for i := 0 to |ids|
      invariant Ascending(ordered) && multiset(ordered) == multiset(ids[..i])
    {
      assert ids[i] !in ordered by {
        assert ids[i] !in ids[..i];
        assert ids[i] !in multiset(ids[..i]);
      }
      InsertSorts(ordered, ids[i]);
      ordered := Insert(ordered, ids[i]);
      assert ids[..i + 1] == ids[..i] + [ids[i]];
    }
    assert ids[..|ids|] == ids;
  }

  /** The keys of an ancestry and the order in which they are locked; no lock is taken when the
      ancestry cannot be read. */
  method LockPolicyAncestry(keys: Delegation.Keys, id: string) returns (r: Option<(seq<string>, seq<string>)>)
    ensures r.Some? <==> Delegation.WithinDepth(keys, id)
    ensures r.Some? ==>
      Delegation.PathToRoot(keys, id, r.value.0) && Ascending(r.value.1) && multiset(r.value.1) == multiset(r.value.0)
  {
    hide Ascending, Delegation.PathToRoot, Delegation.WithinDepth;
    var ids := Delegation.KeyAncestry(keys, id);
    if ids.None? {
      return None;
    }
    Delegation.PathNeverRepeats(keys, id, ids.value);
    var ordered := LockOrder(ids.value);
    r := Some((ids.value, ordered));
  }

  // ----- the protocol

  /** An operation with the locks it needs, of which it holds the first `taken`. */
  datatype Operation = Operation(ordered: seq<string>, taken: nat)

  type State = map<int, Operation>

  datatype Event = Begin(op: int, ordered: seq<string>) | Take(op: int) | Leave(op: int)

  predicate Holds(slot: Slot, o: Operation, lock: int)
  {
    o.taken <= |o.ordered| && exists i | 0 <= i < o.taken :: slot(o.ordered[i]) == lock
  }

  ghost predicate WaitsFor(slot: Slot, s: State, p: int, q: int)
  {
    && p in s && q in s && p != q
    && s[p].taken < |s[p].ordered| && Holds(slot, s[q], slot(s[p].ordered[s[p].taken]))
  }

  ghost predicate Blocked(slot: Slot, s: State, p: int)
  {
    p in s && s[p].taken < |s[p].ordered| && exists q | q in s :: WaitsFor(slot, s, p, q)
  }

  /** An operation starts without locks, takes its next lock when no other operation holds it,
      and gives up all of them when it commits or rolls back. */
  ghost function Next(slot: Slot, s: State, e: Event): Option<State>
  {
    match e
    case Begin(p, ordered) => if p in s || !Ascending(ordered) then None else Some(s[p := Operation(ordered, 0)])
    case Take(p) =>
      if p !in s || s[p].taken >= |s[p].ordered| || Blocked(slot, s, p) then None
      else Some(s[p := s[p].(taken := s[p].taken + 1)])
    case Leave(p) => if p in s then Some(s - {p}) else None
  }

  ghost function Run(slot: Slot, events: seq<Event>): Option<State>
  {
    if events == [] then Some(map[])
    else
      match Run(slot, events[..|events| - 1])
      case None => None
      case Some(s) => Next(slot, s, events[|events| - 1])
  }

  ghost predicate WellFormed(o: Operation)
  {
    Ascending(o.ordered) && o.taken <= |o.ordered|
  }

  /** No lock is held by two operations. */
  ghost predicate Exclusive(slot: Slot, s: State)
  {
    && (forall p | p in s :: WellFormed(s[p]))
    && (forall p, q, i, j | p in s && q in s && p != q && 0 <= i < s[p].taken && 0 <= j < s[q].taken ::
          slot(s[p].ordered[i]) != slot(s[q].ordered[j]))
  }

  lemma NextKeepsExclusive(slot: Slot, s: State, e: Event)
    requires Exclusive(slot, s) && Next(slot, s, e).Some?
    ensures Exclusive(slot, Next(slot, s, e).value)
  {
    hide Ascending;
    if e.Take? {
      var p := e.op;
      var i := s[p].taken;
      forall q, j | q in s && q != p && 0 <= j < s[q].taken ensures slot(s[q].ordered[j]) != slot(s[p].ordered[i]) {
        assert !WaitsFor(slot, s, p, q);
      }
    } else if e.Begin? {
      assert s[e.op := Operation(e.ordered, 0)][e.op].taken == 0;
    }
  }

  lemma {:induction false} RunKeepsExclusive(slot: Slot, events: seq<Event>)
    requires Run(slot, events).Some?
    ensures Exclusive(slot, Run(slot, events).value)
  {
    hide Exclusive;
    if events == [] {
      assert Exclusive(slot, map[]) by { NobodyIsExclusive(slot); }
    } else {
      RunKeepsExclusive(slot, events[..|events| - 1]);
      NextKeepsExclusive(slot, Run(slot, events[..|events| - 1]).value, events[|events| - 1]);
    }
  }

  lemma NobodyIsExclusive(slot: Slot)
    ensures Exclusive(slot, map[])
  {
  }

  /** Operations that share a key are never in their locked sections together. */
  lemma LockedSectionsNeverOverlap(slot: Slot, events: seq<Event>, p: int, q: int, key: string)
    requires Run(slot, events).Some?
    requires var s := Run(slot, events).value; p in s && q in s && p != q && key in s[p].ordered && key in s[q].ordered
    ensures var s := Run(slot, events).value; s[p].taken < |s[p].ordered| || s[q].taken < |s[q].ordered|
  {
    hide Run, Ascending;
    RunKeepsExclusive(slot, events);
    var s := Run(slot, events).value;
    var i :| 0 <= i < |s[p].ordered| && s[p].ordered[i] == key;
    var j :| 0 <= j < |s[q].ordered| && s[q].ordered[j] == key;
  }

  // ----- circular waits

  ghost predicate CircularWait(slot: Slot, s: State, cycle: seq<int>)
  {
    && |cycle| > 1 && cycle[0] == cycle[|cycle| - 1]
    && forall i | 0 <= i < |cycle| - 1 :: WaitsFor(slot, s, cycle[i], cycle[i + 1])
  }

  ghost predicate Uses(s: State, keys: iset<string>)
  {
    forall p, i | p in s && 0 <= i < |s[p].ordered| :: s[p].ordered[i] in keys
  }

  /** Keys that share a lock have no key of another lock between them. */
  ghost predicate Contiguous(slot: Slot, keys: iset<string>)
  {
    forall a, b, c | a in keys && b in keys && c in keys && Less(a, b) && Less(b, c) && slot(a) == slot(c) :: slot(b) == slot(a)
  }

  /** The next key an operation needs. */
  function Awaited(s: State, p: int): string
  {
    if p in s && s[p].taken < |s[p].ordered| then s[p].ordered[s[p].taken] else ""
  }

  /** Whoever is waited for is itself waiting for a later key. */
  lemma WaitsAscend(slot: Slot, s: State, keys: iset<string>, p: int, q: int, r: int)
    requires Exclusive(slot, s) && Uses(s, keys) && Contiguous(slot, keys)
    requires WaitsFor(slot, s, p, q) && WaitsFor(slot, s, q, r)
    ensures Less(Awaited(s, p), Awaited(s, q))
  {
    var kp, kq := Awaited(s, p), Awaited(s, q);
    var i :| 0 <= i < s[q].taken && slot(s[q].ordered[i]) == slot(kp);
    var j :| 0 <= j < s[r].taken && slot(s[r].ordered[j]) == slot(kq);
    var held := s[q].ordered[i];
    assert Less(held, kq);
    assert slot(kq) != slot(kp);
    Connected(kp, kq);
  }

  lemma {:induction false} ChainAscends(slot: Slot, s: State, keys: iset<string>, cycle: seq<int>, i: nat)
    requires Exclusive(slot, s) && Uses(s, keys) && Contiguous(slot, keys) && CircularWait(slot, s, cycle)
    requires 0 < i < |cycle|
    ensures WaitsFor(slot, s, cycle[0], cycle[1]) && cycle[i] in s && s[cycle[i]].taken < |s[cycle[i]].ordered|
    ensures Less(Awaited(s, cycle[0]), Awaited(s, cycle[i]))
  {
    hide Exclusive, Contiguous, Uses, Holds;
    var next := if i == |cycle| - 1 then cycle[1] else cycle[i + 1];
    assert WaitsFor(slot, s, cycle[0], cycle[0 + 1]);
    assert WaitsFor(slot, s, cycle[i - 1], cycle[(i - 1) + 1]);
    assert WaitsFor(slot, s, cycle[i], next);
    WaitsAscend(slot, s, keys, cycle[i - 1], cycle[i], next);
    if i > 1 {
      ChainAscends(slot, s, keys, cycle, i - 1);
      Transitive(Awaited(s, cycle[0]), Awaited(s, cycle[i - 1]), Awaited(s, cycle[i]));
    }
  }

  ghost predicate NeverCircular(slot: Slot, keys: iset<string>)
  {
    forall events, cycle | Run(slot, events).Some? && Uses(Run(slot, events).value, keys) ::
      !CircularWait(slot, Run(slot, events).value, cycle)
  }

  lemma NoCircularWait(slot: Slot, keys: iset<string>, events: seq<Event>, cycle: seq<int>)
    requires Contiguous(slot, keys) && Run(slot, events).Some? && Uses(Run(slot, events).value, keys)
    ensures !CircularWait(slot, Run(slot, events).value, cycle)
  {
    hide Run, Exclusive, Contiguous, Uses, Less;
    var s := Run(slot, events).value;
    RunKeepsExclusive(slot, events);
    if CircularWait(slot, s, cycle) {
      ChainAscends(slot, s, keys, cycle, |cycle| - 1);
      Irreflexive(Awaited(s, cycle[0]));
    }
  }

  /** Two children of one parent wait for each other when they share a lock that the parent does
      not have, and the parent sorts between them. */
  lemma SharedLockDeadlocks(slot: Slot, a: string, b: string, c: string) returns (events: seq<Event>)
    requires Less(a, b) && Less(b, c) && slot(a) == slot(c) != slot(b)
    ensures var keys := map[b := None, a := Some(b), c := Some(b)];
      Delegation.PathToRoot(keys, a, [a, b]) && Delegation.PathToRoot(keys, c, [c, b])
    ensures Run(slot, events) == Some(map[1 := Operation([a, b], 1), 2 := Operation([b, c], 1)])
    ensures CircularWait(slot, map[1 := Operation([a, b], 1), 2 := Operation([b, c], 1)], [1, 2, 1])
  {
    hide Run, Less;
    Asymmetric(a, b);
    Asymmetric(b, c);
    var s1: State := map[1 := Operation([a, b], 0)];
    var s2: State := map[1 := Operation([a, b], 0), 2 := Operation([b, c], 0)];
    var s3: State := map[1 := Operation([a, b], 1), 2 := Operation([b, c], 0)];
    var s4: State := map[1 := Operation([a, b], 1), 2 := Operation([b, c], 1)];
    RunOf(slot);
    assert !Holds(slot, s2[2], slot(a)) && !Holds(slot, s3[1], slot(b));
    assert !Blocked(slot, s2, 1) && !Blocked(slot, s3, 2);
    assert s3 == s2[1 := s2[1].(taken := 1)] && s4 == s3[2 := s3[2].(taken := 1)];
    var e1 := [] + [Begin(1, [a, b])];
    var e2 := e1 + [Begin(2, [b, c])];
    var e3 := e2 + [Take(1)];
    events := e3 + [Take(2)];
    RunExtends(slot, [], Begin(1, [a, b]), s1);
    RunExtends(slot, e1, Begin(2, [b, c]), s2);
    RunExtends(slot, e2, Take(1), s3);
    RunExtends(slot, e3, Take(2), s4);
    assert s4[1].ordered[0] == a && s4[2].ordered[0] == b;
    assert WaitsFor(slot, s4, 1, 2) && WaitsFor(slot, s4, 2, 1);
  }

  lemma RunOf(slot: Slot)
    ensures Run(slot, []) == Some(map[])
  {
  }

  lemma RunExtends(slot: Slot, events: seq<Event>, e: Event, after: State)
    requires Run(slot, events).Some? && Next(slot, Run(slot, events).value, e) == Some(after)
    ensures Run(slot, events + [e]) == Some(after)
  {
    assert (events + [e])[..|events|] == events;
  }

  /** No reachable state has a circular wait if and only if keys sharing a lock are contiguous. */
  lemma NeverCircularIff(slot: Slot, keys: iset<string>)
    ensures NeverCircular(slot, keys) <==> Contiguous(slot, keys)
  {
    hide Run, Less;
    if Contiguous(slot, keys) {
      forall events, cycle | Run(slot, events).Some? && Uses(Run(slot, events).value, keys)
        ensures !CircularWait(slot, Run(slot, events).value, cycle)
      {
        NoCircularWait(slot, keys, events, cycle);
      }
    } else {
      var a, b, c :| a in keys && b in keys && c in keys && Less(a, b) && Less(b, c) && slot(a) == slot(c) && slot(b) != slot(a);
      var events := SharedLockDeadlocks(slot, a, b, c);
      assert Uses(Run(slot, events).value, keys);
      assert CircularWait(slot, Run(slot, events).value, [1, 2, 1]);
    }
  }

  // ----- the reachable states

  /** Taking the next locks one by one is never blocked on the way to an exclusive state. */
  lemma {:induction false} TakeSome(slot: Slot, s: State, p: int, events: seq<Event>) returns (more: seq<Event>)
    requires Exclusive(slot, s) && p in s && Run(slot, events) == Some(s[p := s[p].(taken := 0)])
    ensures Run(slot, more) == Some(s)
    decreases if p in s then s[p].taken else 0
  {
    hide Run, Ascending;
    if s[p].taken == 0 {
      assert s == s[p := s[p].(taken := 0)];
      more := events;
    } else {
      var before := s[p := s[p].(taken := s[p].taken - 1)];
      assert before[p := before[p].(taken := 0)] == s[p := s[p].(taken := 0)];
      FewerIsExclusive(slot, s, p);
      more := TakeSome(slot, before, p, events);
      NotBlocked(slot, s, p);
      assert before[p := before[p].(taken := before[p].taken + 1)] == s;
      RunExtends(slot, more, Take(p), s);
      more := more + [Take(p)];
    }
  }

  lemma FewerIsExclusive(slot: Slot, s: State, p: int)
    requires Exclusive(slot, s) && p in s && s[p].taken > 0
    ensures Exclusive(slot, s[p := s[p].(taken := s[p].taken - 1)])
  {
    hide Ascending;
  }

  lemma NotBlocked(slot: Slot, s: State, p: int)
    requires Exclusive(slot, s) && p in s && s[p].taken > 0
    ensures !Blocked(slot, s[p := s[p].(taken := s[p].taken - 1)], p)
  {
    hide Ascending;
  }

  lemma WithoutIsExclusive(slot: Slot, s: State, p: int)
    requires Exclusive(slot, s) && p in s
    ensures Exclusive(slot, s - {p}) && Ascending(s[p].ordered)
  {
    hide Ascending;
  }

  /** Every state in which no lock has two holders is reached by some run. */
  lemma {:induction false} ExclusiveIsReached(slot: Slot, s: State) returns (events: seq<Event>)
    requires Exclusive(slot, s)
    ensures Run(slot, events) == Some(s)
    decreases |s|
  {
    hide Run, Exclusive, Ascending;
    if s == map[] {
      RunOf(slot);
      events := [];
    } else {
      var p := Someone(s);
      WithoutIsExclusive(slot, s, p);
      events := ExclusiveIsReached(slot, s - {p});
      var begun := s[p := s[p].(taken := 0)];
      assert begun == (s - {p})[p := Operation(s[p].ordered, 0)];
      RunExtends(slot, events, Begin(p, s[p].ordered), begun);
      events := TakeSome(slot, s, p, events + [Begin(p, s[p].ordered)]);
    }
  }

  // ----- circular waits over a given set of lock lists

  ghost predicate Follow(s: State, lists: iset<seq<string>>)
  {
    forall p | p in s :: s[p].ordered in lists
  }

  /** Operations in a ring, each holding the first locks of its list and needing one that the next holds;
      no two hold the same lock. */
  ghost predicate Ring(slot: Slot, lists: iset<seq<string>>, ring: seq<Operation>)
  {
    && |ring| > 1
    && (forall i | 0 <= i < |ring| :: ring[i].ordered in lists && Ascending(ring[i].ordered) && ring[i].taken < |ring[i].ordered|)
    && (forall i, j | 0 <= i < j < |ring| :: Apart(slot, ring[i], ring[j]))
    && (forall i | 0 <= i < |ring| :: NeedsFrom(slot, ring[i], ring[if i + 1 < |ring| then i + 1 else 0]))
  }

  ghost predicate Apart(slot: Slot, o: Operation, q: Operation)
    requires o.taken <= |o.ordered| && q.taken <= |q.ordered|
  {
    forall i, j | 0 <= i < o.taken && 0 <= j < q.taken :: slot(o.ordered[i]) != slot(q.ordered[j])
  }

  ghost predicate NeedsFrom(slot: Slot, o: Operation, q: Operation)
    requires o.taken < |o.ordered|
  {
    Holds(slot, q, slot(o.ordered[o.taken]))
  }

  /** A circular wait contains one that passes no operation twice. */
  lemma {:induction false} SimpleCycle(slot: Slot, s: State, cycle: seq<int>) returns (simple: seq<int>)
    requires CircularWait(slot, s, cycle)
    ensures CircularWait(slot, s, simple) && forall i, j | 0 <= i < j < |simple| - 1 :: simple[i] != simple[j]
    decreases |cycle|
  {
    hide WaitsFor;
    simple := cycle;
    if i, j :| 0 <= i < j < |cycle| - 1 && cycle[i] == cycle[j] {
      var shorter := cycle[i..j + 1];
      forall k | 0 <= k < |shorter| - 1 ensures WaitsFor(slot, s, shorter[k], shorter[k + 1]) {
        assert shorter[k] == cycle[i + k] && shorter[k + 1] == cycle[i + k + 1];
      }
      simple := SimpleCycle(slot, s, shorter);
    }
  }

  lemma CycleIsRing(slot: Slot, s: State, lists: iset<seq<string>>, cycle: seq<int>) returns (ring: seq<Operation>)
    requires Exclusive(slot, s) && Follow(s, lists) && CircularWait(slot, s, cycle)
    ensures Ring(slot, lists, ring)
  {
    hide Ascending, Holds;
    var simple := SimpleCycle(slot, s, cycle);
    var n := |simple| - 1;
    forall i | 0 <= i < n ensures simple[i] in s && s[simple[i]].taken < |s[simple[i]].ordered| {
      assert WaitsFor(slot, s, simple[i], simple[i + 1]);
    }
    ring := seq(n, i requires 0 <= i < n => s[simple[i]]);
    assert WaitsFor(slot, s, simple[0], simple[0 + 1]);
    forall i | 0 <= i < n ensures NeedsFrom(slot, ring[i], ring[if i + 1 < n then i + 1 else 0]) {
      assert WaitsFor(slot, s, simple[i], simple[i + 1]);
      assert i + 1 == n ==> simple[i + 1] == simple[0];
    }
  }

  lemma RingIsCycle(slot: Slot, lists: iset<seq<string>>, ring: seq<Operation>) returns (s: State, cycle: seq<int>)
    requires Ring(slot, lists, ring)
    ensures Exclusive(slot, s) && Follow(s, lists) && CircularWait(slot, s, cycle)
  {
    hide Ascending, Holds;
    var n := |ring|;
    s := map i | 0 <= i < n :: ring[i];
    cycle := seq(n, i => i) + [0];
    forall i | 0 <= i < |cycle| - 1 ensures WaitsFor(slot, s, cycle[i], cycle[i + 1]) {
      assert cycle[i] == i && cycle[i + 1] == if i + 1 < n then i + 1 else 0;
      assert NeedsFrom(slot, ring[i], ring[if i + 1 < n then i + 1 else 0]);
    }
    forall p, q, i, j | p in s && q in s && p != q && 0 <= i < s[p].taken && 0 <= j < s[q].taken
      ensures slot(s[p].ordered[i]) != slot(s[q].ordered[j])
    {
      if p < q {
        assert Apart(slot, ring[p], ring[q]);
      } else {
        assert Apart(slot, ring[q], ring[p]);
      }
    }
  }

  ghost predicate NeverCircularOver(slot: Slot, lists: iset<seq<string>>)
  {
    forall events, cycle | Run(slot, events).Some? && Follow(Run(slot, events).value, lists) ::
      !CircularWait(slot, Run(slot, events).value, cycle)
  }

  /** No run over the given lists reaches a circular wait if and only if the lists form no ring. */
  lemma NeverCircularOverIff(slot: Slot, lists: iset<seq<string>>)
    ensures NeverCircularOver(slot, lists) <==> forall ring :: !Ring(slot, lists, ring)
  {
    hide Run, Exclusive, Follow, CircularWait, Ring;
    if ring :| Ring(slot, lists, ring) {
      var s, cycle := RingIsCycle(slot, lists, ring);
      var events := ExclusiveIsReached(slot, s);
      assert CircularWait(slot, Run(slot, events).value, cycle);
    }
    forall events, cycle | Run(slot, events).Some? && Follow(Run(slot, events).value, lists) &&
                           CircularWait(slot, Run(slot, events).value, cycle)
      ensures exists ring :: Ring(slot, lists, ring)
    {
      RunKeepsExclusive(slot, events);
      var ring := CycleIsRing(slot, Run(slot, events).value, lists, cycle);
    }
  }

  /** What operations on a delegation table lock: the sorted ancestries. */
  ghost function LockLists(keys: Delegation.Keys): iset<seq<string>>
  {
    iset id: string, l: seq<string> |
      Delegation.WithinDepth(keys, id) && Ascending(l) && multiset(l) == multiset(Delegation.Ancestry(keys, id)) :: l
  }

  /** On a given delegation table no reachable state has a circular wait if and only if its sorted
      ancestries form no ring. */
  lemma TableNeverCircularIff(slot: Slot, keys: Delegation.Keys)
    ensures NeverCircularOver(slot, LockLists(keys)) <==> forall ring :: !Ring(slot, LockLists(keys), ring)
  {
    hide *;
    NeverCircularOverIff(slot, LockLists(keys));
  }

  /** Only delegated keys can take part in a ring: without delegation there is no circular wait, however
      locks are shared. */
  lemma RootsNeverCircular(slot: Slot, keys: Delegation.Keys)
    requires forall id | id in keys :: keys[id].None?
    ensures NeverCircularOver(slot, LockLists(keys))
  {
    hide NeverCircularOver;
    TableNeverCircularIff(slot, keys);
    forall ring: seq<Operation> ensures !Ring(slot, LockLists(keys), ring) {
      if Ring(slot, LockLists(keys), ring) {
        assert NeedsFrom(slot, ring[0], ring[1]) by {
          assert NeedsFrom(slot, ring[0], ring[if 0 + 1 < |ring| then 0 + 1 else 0]);
        }
        LoneList(keys, ring[1].ordered);
      }
    }
  }

  lemma LoneList(keys: Delegation.Keys, list: seq<string>)
    requires (forall id | id in keys :: keys[id].None?) && list in LockLists(keys)
    ensures |list| == 1
  {
    hide Ascending;
    var id :| Delegation.WithinDepth(keys, id) && multiset(list) == multiset(Delegation.Ancestry(keys, id));
    Delegation.RootOfItself(keys, id);
    assert |multiset(list)| == |list|;
  }

  // ----- progress

  /** Following the waits leads to an operation that is not blocked. */
  lemma {:induction false} FollowWaits(slot: Slot, s: State, keys: iset<string>, p: int, passed: set<int>) returns (free: int)
    requires Exclusive(slot, s) && Uses(s, keys) && Contiguous(slot, keys)
    requires p in s && passed <= s.Keys
    requires forall v | v in passed :: Less(Awaited(s, v), Awaited(s, p))
    ensures free in s && !Blocked(slot, s, free)
    decreases |s.Keys - passed|
  {
    hide Exclusive, Contiguous, Uses, Holds, Less, Awaited;
    free := p;
    if Blocked(slot, s, p) {
      var q :| q in s && WaitsFor(slot, s, p, q);
      free := q;
      if Blocked(slot, s, q) {
        var r :| r in s && WaitsFor(slot, s, q, r);
        WaitsAscend(slot, s, keys, p, q, r);
        Irreflexive(Awaited(s, p));
        forall v | v in passed ensures Less(Awaited(s, v), Awaited(s, q)) {
          Transitive(Awaited(s, v), Awaited(s, p), Awaited(s, q));
        }
        assert s.Keys - (passed + {p}) == (s.Keys - passed) - {p};
        free := FollowWaits(slot, s, keys, q, passed + {p});
      }
    }
  }

  lemma Someone<K, V>(m: map<K, V>) returns (k: K)
    requires m != map[]
    ensures k in m
  {
    k :| k in m;
  }

  /** While operations are running, one of them can take its next lock or has them all. */
  lemma SomeoneProceeds(slot: Slot, keys: iset<string>, events: seq<Event>)
    requires Contiguous(slot, keys) && Run(slot, events).Some? && Uses(Run(slot, events).value, keys)
    requires Run(slot, events).value != map[]
    ensures exists p | p in Run(slot, events).value :: !Blocked(slot, Run(slot, events).value, p)
  {
    hide Run, Exclusive, Contiguous, Uses, Less, Holds;
    var s := Run(slot, events).value;
    RunKeepsExclusive(slot, events);
    var p := Someone(s);
    var free := FollowWaits(slot, s, keys, p, {});
  }
}
