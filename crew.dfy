/** Crew placement: removing and adding crew ids on docks and in the pools,
    the unique-placement invariant, and crew id allocation. */
module Crew {
  import opened Domain
  import opened Decimal
  import DockOps

  /** No element occurs twice. */
  ghost predicate NoDup(s: seq<string>)
  {
    forall i, j :: 0 <= i < j < |s| ==> s[i] != s[j]
  }

  lemma NoDupCons(x: string, s: seq<string>)
    ensures NoDup([x] + s) <==> x !in s && NoDup(s)
  {
    var t := [x] + s;
    if x !in s && NoDup(s) {
      forall i, j | 0 <= i < j < |t|
        ensures t[i] != t[j]
      {
        if i > 0 {
          assert t[i] == s[i - 1] && t[j] == s[j - 1];
        } else {
          assert t[j] == s[j - 1];
        }
      }
    }
    if NoDup(t) {
      forall i, j | 0 <= i < j < |s|
        ensures s[i] != s[j]
      {
        assert s[i] == t[i + 1] && s[j] == t[j + 1];
      }
      forall k | 0 <= k < |s|
        ensures s[k] != x
      {
        assert t[0] == x && t[k + 1] == s[k];
      }
    }
  }

  /** ids.filter(x => x !== id): every element except id, in the same order. */
  function Without(ids: seq<string>, id: string): (r: seq<string>)
    ensures forall x :: x in r <==> x in ids && x != id
    ensures |r| <= |ids|
    ensures id !in ids ==> r == ids
  {
    if ids == [] then []
    else if ids[0] == id then Without(ids[1..], id)
    else [ids[0]] + Without(ids[1..], id)
  }

  /** Filtering distributes over concatenation, so relative order is kept. */
  lemma {:induction false} WithoutConcat(a: seq<string>, b: seq<string>, id: string)
    ensures Without(a + b, id) == Without(a, id) + Without(b, id)
  {
    if a != [] {
      assert (a + b)[0] == a[0];
      assert (a + b)[1..] == a[1..] + b;
      WithoutConcat(a[1..], b, id);
      if a[0] != id {
        assert Without(a + b, id) == [a[0]] + Without(a[1..] + b, id);
        assert Without(a, id) == [a[0]] + Without(a[1..], id);
      } else {
        assert Without(a + b, id) == Without(a[1..] + b, id);
        assert Without(a, id) == Without(a[1..], id);
      }
    } else {
      assert a + b == b;
    }
  }

  /** Filtering never introduces a duplicate. */
  lemma {:induction false} WithoutNoDup(ids: seq<string>, id: string)
    requires NoDup(ids)
    ensures NoDup(Without(ids, id))
  {
    if ids != [] {
      assert ids == [ids[0]] + ids[1..];
      NoDupCons(ids[0], ids[1..]);
      WithoutNoDup(ids[1..], id);
      if ids[0] != id {
        NoDupCons(ids[0], Without(ids[1..], id));
      }
    }
  }

  lemma NoDupSnoc(s: seq<string>, x: string)
    requires NoDup(s) && x !in s
    ensures NoDup(s + [x])
  {
  }

  /** The crew ids of the pool list, in order. */
  function PoolIds(pool: seq<PoolEntry>): (r: seq<string>)
    ensures |r| == |pool|
    ensures forall i :: 0 <= i < |pool| ==> r[i] == pool[i].id
  {
    seq(|pool|, i requires 0 <= i < |pool| => pool[i].id)
  }

  /** pool.filter(c => c.id !== id). */
  function PoolWithout(pool: seq<PoolEntry>, id: string): (r: seq<PoolEntry>)
    ensures PoolIds(r) == Without(PoolIds(pool), id)
    ensures forall e :: e in r <==> e in pool && e.id != id
  {
    if pool == [] then []
    else
      assert PoolIds(pool) == [pool[0].id] + PoolIds(pool[1..]);
      var rest := PoolWithout(pool[1..], id);
      if pool[0].id == id then rest
      else
        assert PoolIds([pool[0]] + rest) == [pool[0].id] + PoolIds(rest);
        [pool[0]] + rest
  }

  /** The pool after a crew id is sent to a pool tag: an existing entry is
      retagged where it stands, otherwise a new entry goes to the front. */
  function PlaceInPool(pool: seq<PoolEntry>, id: string, tag: PoolTag): (r: seq<PoolEntry>)
    ensures id in PoolIds(pool) ==> PoolIds(r) == PoolIds(pool)
    ensures id !in PoolIds(pool) ==> PoolIds(r) == [id] + PoolIds(pool)
    ensures forall i :: 0 <= i < |r| && r[i].id == id ==> r[i].pool == tag
    ensures forall i :: 0 <= i < |r| && r[i].id != id ==> r[i] in pool
    ensures id in PoolIds(pool) ==> forall i :: 0 <= i < |r| && r[i].id != id ==> r[i] == pool[i]
    ensures id !in PoolIds(pool) ==> r == [PoolEntry(id, tag)] + pool
  {
    if id in PoolIds(pool) then
      seq(|pool|, i requires 0 <= i < |pool| => if pool[i].id == id then pool[i].(pool := tag) else pool[i])
    else
      [PoolEntry(id, tag)] + pool
  }

  /** Pool ids stay unique when a crew id is sent to a pool. */
  lemma PlaceInPoolNoDup(pool: seq<PoolEntry>, id: string, tag: PoolTag)
    requires NoDup(PoolIds(pool))
    ensures NoDup(PoolIds(PlaceInPool(pool, id, tag)))
    ensures id in PoolIds(PlaceInPool(pool, id, tag))
  {
    if id !in PoolIds(pool) {
      NoDupCons(id, PoolIds(pool));
    }
  }

  /** The first dock-list step of a drop: the crew id leaves the dock the
      payload names as its origin; no origin, no change. */
  function ClearFromDock(docks: seq<Dock>, fromDockId: Option<string>, crewId: string): (r: seq<Dock>)
    ensures |r| == |docks|
    ensures forall i :: 0 <= i < |docks| ==> r[i] == docks[i].(crewIds := r[i].crewIds)
    ensures forall i, x :: 0 <= i < |docks| ==>
      (x in r[i].crewIds <==> x in docks[i].crewIds && !(x == crewId && fromDockId == Some(docks[i].id)))
    ensures forall i :: 0 <= i < |docks| && NoDup(docks[i].crewIds) ==> NoDup(r[i].crewIds)
    ensures forall i :: 0 <= i < |docks| && fromDockId != Some(docks[i].id) ==> r[i] == docks[i]
    ensures forall i :: 0 <= i < |docks| && fromDockId == Some(docks[i].id) ==> r[i].crewIds == Without(docks[i].crewIds, crewId)
  {
    match fromDockId
    case None => docks
    case Some(from) =>
      var r := DockOps.MapDock(docks, from, (d: Dock) => d.(crewIds := Without(d.crewIds, crewId)));
      assert forall i :: 0 <= i < |docks| && NoDup(docks[i].crewIds) ==> NoDup(r[i].crewIds) by {
        forall i | 0 <= i < |docks| && NoDup(docks[i].crewIds)
          ensures NoDup(r[i].crewIds)
        {
          WithoutNoDup(docks[i].crewIds, crewId);
        }
      }
      r
  }

  /** The last dock-list step of a drop: the crew id is appended to the
      target dock unless it is already there. */
  function AddToDock(docks: seq<Dock>, dockId: string, crewId: string): (r: seq<Dock>)
    ensures |r| == |docks|
    ensures forall i :: 0 <= i < |docks| ==> r[i] == docks[i].(crewIds := r[i].crewIds)
    ensures forall i, x :: 0 <= i < |docks| ==>
      (x in r[i].crewIds <==> x in docks[i].crewIds || (x == crewId && docks[i].id == dockId))
    ensures forall i :: 0 <= i < |docks| && NoDup(docks[i].crewIds) ==> NoDup(r[i].crewIds)
    ensures forall i :: 0 <= i < |docks| && docks[i].id == dockId && crewId !in docks[i].crewIds ==>
      r[i].crewIds == docks[i].crewIds + [crewId]
    ensures forall i :: 0 <= i < |docks| && (docks[i].id != dockId || crewId in docks[i].crewIds) ==> r[i] == docks[i]
  {
    DockOps.MapDock(docks, dockId, (d: Dock) => if crewId in d.crewIds then d else d.(crewIds := d.crewIds + [crewId]))
  }

  /** The dock list after the crew id is taken off every dock. */
  function RemoveFromAllDocks(docks: seq<Dock>, crewId: string): (r: seq<Dock>)
    ensures |r| == |docks|
    ensures forall i :: 0 <= i < |docks| ==> r[i] == docks[i].(crewIds := Without(docks[i].crewIds, crewId))
    ensures forall i :: 0 <= i < |docks| && NoDup(docks[i].crewIds) ==> NoDup(r[i].crewIds)
  {
    var r := seq(|docks|, i requires 0 <= i < |docks| =>
      if crewId in docks[i].crewIds then docks[i].(crewIds := Without(docks[i].crewIds, crewId)) else docks[i]);
    assert forall i :: 0 <= i < |docks| && NoDup(docks[i].crewIds) ==> NoDup(r[i].crewIds) by {
      forall i | 0 <= i < |docks| && NoDup(docks[i].crewIds)
        ensures NoDup(r[i].crewIds)
      {
        WithoutNoDup(docks[i].crewIds, crewId);
      }
    }
    r
  }

  predicate Disjoint(a: seq<string>, b: seq<string>)
  {
    forall x :: x in a ==> x !in b
  }

  /** Every crew id is in at most one place: at most once in the pool list,
      at most once on a dock, never on two docks, never both on a dock and
      in the pool. */
  ghost predicate UniquePlacement(pool: seq<PoolEntry>, docks: seq<Dock>)
  {
    && NoDup(PoolIds(pool))
    && (forall i :: 0 <= i < |docks| ==> NoDup(docks[i].crewIds))
    && (forall i, j :: 0 <= i < |docks| && 0 <= j < |docks| && i != j ==> Disjoint(docks[i].crewIds, docks[j].crewIds))
    && (forall i :: 0 <= i < |docks| ==> Disjoint(docks[i].crewIds, PoolIds(pool)))
  }

  /** No two docks share an id. */
  ghost predicate DistinctIds(docks: seq<Dock>)
  {
    forall i, j :: 0 <= i < j < |docks| ==> docks[i].id != docks[j].id
  }

  /** The payload's origin is truthful: every dock holding the crew id is
      the dock the payload names. */
  ghost predicate OriginHolds(docks: seq<Dock>, crewId: string, fromDockId: Option<string>)
  {
    forall i :: 0 <= i < |docks| && crewId in docks[i].crewIds ==> fromDockId == Some(docks[i].id)
  }

  /** Dropping on a dock with a truthful payload keeps every crew id in at
      most one place, and leaves the crew id on the target dock only. */
  lemma DropToDockUnique(pool: seq<PoolEntry>, docks: seq<Dock>, dockId: string, crewId: string, fromDockId: Option<string>)
    requires UniquePlacement(pool, docks) && DistinctIds(docks)
    requires OriginHolds(docks, crewId, fromDockId)
    ensures var r := AddToDock(ClearFromDock(docks, fromDockId, crewId), dockId, crewId);
      UniquePlacement(PoolWithout(pool, crewId), r)
      && forall i :: 0 <= i < |r| ==> (crewId in r[i].crewIds <==> r[i].id == dockId)
  {
    var d1 := ClearFromDock(docks, fromDockId, crewId);
    var r := AddToDock(d1, dockId, crewId);
    var p := PoolWithout(pool, crewId);
    WithoutNoDup(PoolIds(pool), crewId);
    forall i, j | 0 <= i < |r| && 0 <= j < |r| && i != j
      ensures Disjoint(r[i].crewIds, r[j].crewIds)
    {
      assert Disjoint(docks[i].crewIds, docks[j].crewIds);
    }
    forall i | 0 <= i < |r|
      ensures Disjoint(r[i].crewIds, PoolIds(p))
    {
      assert Disjoint(docks[i].crewIds, PoolIds(pool));
    }
  }

  /** Repeating the same drop on a dock changes nothing further. */
  lemma DropToDockIdempotent(docks: seq<Dock>, dockId: string, crewId: string, fromDockId: Option<string>)
    ensures var once := AddToDock(ClearFromDock(docks, fromDockId, crewId), dockId, crewId);
      AddToDock(ClearFromDock(once, fromDockId, crewId), dockId, crewId) == once
  {
    var c1 := ClearFromDock(docks, fromDockId, crewId);
    var once := AddToDock(c1, dockId, crewId);
    var c2 := ClearFromDock(once, fromDockId, crewId);
    var twice := AddToDock(c2, dockId, crewId);
    forall i | 0 <= i < |docks|
      ensures twice[i] == once[i]
    {
      var d := docks[i];
      if fromDockId == Some(d.id) {
        assert c1[i].crewIds == Without(d.crewIds, crewId);
        if d.id == dockId {
          assert once[i].crewIds == c1[i].crewIds + [crewId];
          WithoutConcat(c1[i].crewIds, [crewId], crewId);
          assert c2[i].crewIds == c1[i].crewIds;
        } else {
          assert c2[i].crewIds == Without(c1[i].crewIds, crewId);
        }
      } else {
        assert c2[i] == once[i];
      }
    }
  }

  /** Dropping on a pool with a truthful payload keeps every crew id in at
      most one place, and puts the crew id in the pool and on no dock. */
  lemma DropToPoolUnique(pool: seq<PoolEntry>, docks: seq<Dock>, tag: PoolTag, crewId: string, fromDockId: Option<string>)
    requires UniquePlacement(pool, docks)
    requires OriginHolds(docks, crewId, fromDockId)
    ensures var r := ClearFromDock(docks, fromDockId, crewId);
      var p := PlaceInPool(pool, crewId, tag);
      UniquePlacement(p, r)
      && crewId in PoolIds(p)
      && forall i :: 0 <= i < |r| ==> crewId !in r[i].crewIds
  {
    var r := ClearFromDock(docks, fromDockId, crewId);
    var p := PlaceInPool(pool, crewId, tag);
    PlaceInPoolNoDup(pool, crewId, tag);
    forall i, j | 0 <= i < |r| && 0 <= j < |r| && i != j
      ensures Disjoint(r[i].crewIds, r[j].crewIds)
    {
      assert Disjoint(docks[i].crewIds, docks[j].crewIds);
    }
    forall i | 0 <= i < |r|
      ensures Disjoint(r[i].crewIds, PoolIds(p))
    {
      assert Disjoint(docks[i].crewIds, PoolIds(pool));
    }
  }

  /** The crew manager's quick move keeps every crew id in at most one place
      whatever the state, and leaves the crew id in the pool with the chosen
      tag and on no dock. */
  lemma MoveToUnique(pool: seq<PoolEntry>, docks: seq<Dock>, crewId: string, tag: PoolTag)
    requires UniquePlacement(pool, docks)
    ensures var r := RemoveFromAllDocks(docks, crewId);
      var p := PlaceInPool(pool, crewId, tag);
      UniquePlacement(p, r)
      && (forall i :: 0 <= i < |p| && p[i].id == crewId ==> p[i].pool == tag)
      && crewId in PoolIds(p)
      && forall i :: 0 <= i < |r| ==> crewId !in r[i].crewIds
  {
    var r := RemoveFromAllDocks(docks, crewId);
    var p := PlaceInPool(pool, crewId, tag);
    PlaceInPoolNoDup(pool, crewId, tag);
    forall i, j | 0 <= i < |r| && 0 <= j < |r| && i != j
      ensures Disjoint(r[i].crewIds, r[j].crewIds)
    {
      assert Disjoint(docks[i].crewIds, docks[j].crewIds);
    }
    forall i | 0 <= i < |r|
      ensures Disjoint(r[i].crewIds, PoolIds(p))
    {
      assert Disjoint(docks[i].crewIds, PoolIds(pool));
    }
  }

  /** Deleting a crew id keeps every other crew id in at most one place. */
  lemma DeleteUnique(pool: seq<PoolEntry>, docks: seq<Dock>, crewId: string)
    requires UniquePlacement(pool, docks)
    ensures UniquePlacement(PoolWithout(pool, crewId), RemoveFromAllDocks(docks, crewId))
  {
    var r := RemoveFromAllDocks(docks, crewId);
    var p := PoolWithout(pool, crewId);
    WithoutNoDup(PoolIds(pool), crewId);
    forall i, j | 0 <= i < |r| && 0 <= j < |r| && i != j
      ensures Disjoint(r[i].crewIds, r[j].crewIds)
    {
      assert Disjoint(docks[i].crewIds, docks[j].crewIds);
    }
    forall i | 0 <= i < |r|
      ensures Disjoint(r[i].crewIds, PoolIds(p))
    {
      assert Disjoint(docks[i].crewIds, PoolIds(pool));
    }
  }

  /** Deleting a crew id that is nowhere changes neither the pool nor the docks. */
  lemma DeleteUnknownNoop(pool: seq<PoolEntry>, docks: seq<Dock>, crewId: string)
    requires crewId !in PoolIds(pool)
    requires forall i :: 0 <= i < |docks| ==> crewId !in docks[i].crewIds
    ensures PoolWithout(pool, crewId) == pool
    ensures RemoveFromAllDocks(docks, crewId) == docks
  {
    var p := PoolWithout(pool, crewId);
    assert PoolIds(p) == PoolIds(pool);
    assert |p| == |pool|;
    forall i | 0 <= i < |pool|
      ensures p[i] == pool[i]
    {
      assert pool[i] in pool && pool[i].id != crewId;
      PoolWithoutIndex(pool, crewId, i);
    }
  }

  lemma {:induction false} PoolWithoutIndex(pool: seq<PoolEntry>, crewId: string, i: nat)
    requires crewId !in PoolIds(pool) && i < |pool|
    ensures |PoolWithout(pool, crewId)| == |pool| && PoolWithout(pool, crewId)[i] == pool[i]
  {
    assert pool[0].id == PoolIds(pool)[0];
    assert PoolIds(pool[1..]) == PoolIds(pool)[1..];
    if i > 0 {
      PoolWithoutIndex(pool[1..], crewId, i - 1);
    } else if |pool| > 1 {
      PoolWithoutIndex(pool[1..], crewId, 0);
    } else {
      assert pool[1..] == [];
    }
  }

  /** The candidate crew ids in the order they are tried: C01 to C99, then
      C100, C101 and so on. */
  function CandidateId(k: nat): (r: string)
    ensures |r| >= 3 && r[0] == 'C'
    ensures k < 10 ==> r == "C0" + NatToString(k)
    ensures k >= 10 ==> r == "C" + NatToString(k) && r[1] != '0'
    ensures k < 100 <==> |r| == 3
  {
    assert "C" + ("0" + NatToString(k)) == "C0" + NatToString(k);
    "C" + Pad2(k)
  }

  /** Different positions give different ids, so the scan never retries an id. */
  lemma CandidateIdInjective(a: nat, b: nat)
    requires CandidateId(a) == CandidateId(b)
    ensures a == b
  {
    assert Pad2(a) == CandidateId(a)[1..];
    assert Pad2(b) == CandidateId(b)[1..];
    Pad2Injective(a, b);
  }

  /** Whether some dock's crew list holds the id. */
  predicate OnSomeDock(docks: seq<Dock>, id: string)
  {
    exists i :: 0 <= i < |docks| && id in docks[i].crewIds
  }

  /** An id is taken when it has a (non-empty) name, a pool entry, or a place
      on a dock. */
  predicate Taken(names: map<string, string>, pool: seq<PoolEntry>, docks: seq<Dock>, id: string)
  {
    (id in names && names[id] != "") || id in PoolIds(pool) || OnSomeDock(docks, id)
  }

  /** Every id that Taken can hold of, as a finite set. */
  ghost function UsedIds(names: map<string, string>, pool: seq<PoolEntry>, docks: seq<Dock>): (u: set<string>)
    ensures forall id :: Taken(names, pool, docks, id) ==> id in u
  {
    names.Keys + (set x | x in PoolIds(pool)) + (set i, x | 0 <= i < |docks| && x in docks[i].crewIds :: x)
  }

  ghost function Tried(lo: nat, hi: nat): set<string>
  {
    set k | lo <= k < hi :: CandidateId(k)
  }

  lemma TriedStep(lo: nat, hi: nat)
    requires lo <= hi
    ensures Tried(lo, hi + 1) == Tried(lo, hi) + {CandidateId(hi)}
    ensures CandidateId(hi) !in Tried(lo, hi)
  {
    if CandidateId(hi) in Tried(lo, hi) {
      var j :| lo <= j < hi && CandidateId(j) == CandidateId(hi);
      CandidateIdInjective(j, hi);
    }
  }

  lemma RemainingShrinks(used: set<string>, tried: set<string>, x: string)
    requires x in used && x !in tried
    ensures |used - (tried + {x})| < |used - tried|
  {
    assert used - (tried + {x}) == (used - tried) - {x};
  }

  /** nextCrewId: the first candidate id that is not taken. */
  method NextCrewId(names: map<string, string>, pool: seq<PoolEntry>, docks: seq<Dock>) returns (id: string, ghost k: nat)
    ensures k >= 1 && id == CandidateId(k)
    ensures !Taken(names, pool, docks, id)
    ensures forall j :: 1 <= j < k ==> Taken(names, pool, docks, CandidateId(j))
  {
    var i := 1;
    while i < 100
      invariant 1 <= i <= 100
      invariant forall j :: 1 <= j < i ==> Taken(names, pool, docks, CandidateId(j))
    {
      id := "C" + Pad2(i);
      if !Taken(names, pool, docks, id) {
        return id, i;
      }
      i := i + 1;
    }
    var n := 100;
    ghost var used := UsedIds(names, pool, docks);
    while true
      invariant n >= 100
      invariant forall j :: 1 <= j < n ==> Taken(names, pool, docks, CandidateId(j))
      invariant Tried(100, n) <= used
      decreases |used - Tried(100, n)|
    {
      id := "C" + NatToString(n);
      assert id == CandidateId(n);
      if !Taken(names, pool, docks, id) {
        return id, n;
      }
      TriedStep(100, n);
      RemainingShrinks(used, Tried(100, n), id);
      n := n + 1;
    }
  }

  /** A freshly allocated id is on no dock and not in the pool, so adding it
      to the front of the pool keeps every crew id in at most one place. */
  lemma AddFreshUnique(pool: seq<PoolEntry>, docks: seq<Dock>, names: map<string, string>, id: string, tag: PoolTag)
    requires UniquePlacement(pool, docks)
    requires !Taken(names, pool, docks, id)
    ensures UniquePlacement([PoolEntry(id, tag)] + pool, docks)
  {
    var p := [PoolEntry(id, tag)] + pool;
    assert PoolIds(p) == [id] + PoolIds(pool);
    NoDupCons(id, PoolIds(pool));
    forall i | 0 <= i < |docks|
      ensures Disjoint(docks[i].crewIds, PoolIds(p))
    {
      assert Disjoint(docks[i].crewIds, PoolIds(pool));
    }
  }
}
