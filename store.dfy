/** The dock-yard store: the 21 docks, the crew pool, the crew names, the
    time records, the status filter and the search query, with the handlers
    the dashboard and the crew manager call. */
module Store {
  import opened Domain
  import opened Decimal
  import opened DockOps
  import opened Crew
  import Views

  const DockCount: nat := 21

  /** Dock number n as first created: Available, unassigned, no crew, no timer. */
  function InitDock(n: nat): Dock
  {
    Dock("dock_" + NatToString(n), "Dock " + NatToString(n), Available, None, [], None, None)
  }

  function InitDocks(): (ds: seq<Dock>)
    ensures |ds| == DockCount
    ensures forall i :: 0 <= i < DockCount ==> ds[i] == InitDock(i + 1)
  {
    seq(DockCount, i requires 0 <= i < DockCount => InitDock(i + 1))
  }

  const InitCrew: seq<PoolEntry> :=
    [PoolEntry("C01", Unassigned), PoolEntry("C02", Unassigned), PoolEntry("C03", Unassigned),
     PoolEntry("C04", Unassigned), PoolEntry("C05", Unassigned)]

  const InitNames: map<string, string> :=
    map["C01" := "김철수", "C02" := "이영희", "C03" := "박민수", "C04" := "최지우", "C05" := "John"]

  /** The dock list keeps the ids and names it was created with, in order. */
  ghost predicate Layout(docks: seq<Dock>)
  {
    |docks| == DockCount
    && forall i :: 0 <= i < |docks| ==> docks[i].id == InitDock(i + 1).id && docks[i].name == InitDock(i + 1).name
  }

  /** The created docks have pairwise different ids. */
  lemma LayoutDistinct(docks: seq<Dock>)
    requires Layout(docks)
    ensures DistinctIds(docks)
  {
    forall i, j | 0 <= i < j < |docks|
      ensures docks[i].id != docks[j].id
    {
      if docks[i].id == docks[j].id {
        var a, b := NatToString(i + 1), NatToString(j + 1);
        assert ("dock_" + a)[5..] == a;
        assert ("dock_" + b)[5..] == b;
        NatToStringInjective(i + 1, j + 1);
      }
    }
  }

  /** The index of the dock with the given id. */
  function DockIndex(docks: seq<Dock>, dockId: string): (r: Option<nat>)
    ensures r.Some? ==> r.value < |docks| && docks[r.value].id == dockId
    ensures r.None? <==> forall i :: 0 <= i < |docks| ==> docks[i].id != dockId
  {
    if docks == [] then None
    else if docks[0].id == dockId then Some(0)
    else
      var r := DockIndex(docks[1..], dockId);
      if r.Some? then Some(r.value + 1) else None
  }

  /** Toggling one dock's timer keeps the layout, the timer consistency and
      every crew list; an idle dock that cannot start is left as it was. */
  lemma ToggleDocks(docks: seq<Dock>, dockId: string, now: int)
    requires Layout(docks) && forall i :: 0 <= i < |docks| ==> TimerConsistent(docks[i])
    ensures var r := MapDock(docks, dockId, (d: Dock) => Toggled(d, now));
      Layout(r) && (forall i :: 0 <= i < |r| ==> TimerConsistent(r[i]))
      && (forall i :: 0 <= i < |r| ==> r[i].crewIds == docks[i].crewIds)
      && (forall i :: 0 <= i < |r| ==> r[i] == if docks[i].id == dockId then Toggled(docks[i], now) else docks[i])
    ensures var k := DockIndex(docks, dockId);
      k.Some? && docks[k.value].startedAt.None? && !Startable(docks[k.value].status) ==>
        MapDock(docks, dockId, (d: Dock) => Toggled(d, now)) == docks
  {
    var r := MapDock(docks, dockId, (d: Dock) => Toggled(d, now));
    forall i | 0 <= i < |r|
      ensures r[i] == if docks[i].id == dockId then Toggled(docks[i], now) else docks[i]
    {
    }
    var k := DockIndex(docks, dockId);
    if k.Some? && docks[k.value].startedAt.None? && !Startable(docks[k.value].status) {
      LayoutDistinct(docks);
      forall i | 0 <= i < |r|
        ensures r[i] == docks[i]
      {
        if docks[i].id == dockId {
          assert i == k.value;
        }
      }
    }
  }

  /** A step that only rewrites crew lists keeps the layout and the timers. */
  lemma CrewStepKeepsLayout(docks: seq<Dock>, r: seq<Dock>)
    requires Layout(docks) && forall i :: 0 <= i < |docks| ==> TimerConsistent(docks[i])
    requires |r| == |docks| && forall i :: 0 <= i < |docks| ==> r[i] == docks[i].(crewIds := r[i].crewIds)
    ensures Layout(r) && forall i :: 0 <= i < |r| ==> TimerConsistent(r[i])
  {
    forall i | 0 <= i < |r|
      ensures r[i].id == docks[i].id && r[i].name == docks[i].name && TimerConsistent(r[i])
    {
      assert r[i] == docks[i].(crewIds := r[i].crewIds);
    }
  }

  /** A step that keeps every dock's id, name and crew list, and leaves
      every timer consistent, keeps the layout and unique placement. */
  lemma SameShape(pool: seq<PoolEntry>, docks: seq<Dock>, r: seq<Dock>)
    requires Layout(docks)
    requires |r| == |docks|
    requires forall i :: 0 <= i < |r| ==> r[i].id == docks[i].id && r[i].name == docks[i].name && r[i].crewIds == docks[i].crewIds
    ensures Layout(r)
    ensures UniquePlacement(pool, docks) ==> UniquePlacement(pool, r)
  {
  }

  /** With every dock empty, a pool without repeats places everyone once. */
  lemma EmptyDocksPlacement(pool: seq<PoolEntry>, docks: seq<Dock>)
    requires NoDup(PoolIds(pool))
    requires forall i :: 0 <= i < |docks| ==> docks[i].crewIds == []
    ensures UniquePlacement(pool, docks)
  {
  }

  /** The opening state is valid and places every crew member once. */
  lemma OpeningValid()
    ensures Layout(InitDocks())
    ensures forall i :: 0 <= i < |InitDocks()| ==> TimerConsistent(InitDocks()[i])
    ensures UniquePlacement(InitCrew, InitDocks())
  {
    var ds := InitDocks();
    assert NoDup(PoolIds(InitCrew)) by {
      assert PoolIds(InitCrew) == ["C01", "C02", "C03", "C04", "C05"];
    }
    assert forall i :: 0 <= i < |ds| ==> ds[i].crewIds == [];
    EmptyDocksPlacement(InitCrew, ds);
  }

  class DockYard {
    var docks: seq<Dock>
    var crewPool: seq<PoolEntry>
    var crewNames: map<string, string>
    var records: seq<TimeRecord>
    var filterSet: set<Status>
    var query: string

    /** The dock layout never changes and every dock's timer fields are set
        together. */
    ghost predicate Valid()
      reads this
    {
      Layout(docks) && forall i :: 0 <= i < |docks| ==> TimerConsistent(docks[i])
    }

    /** The opening state: 21 idle docks, five unassigned crew members with
        their names, no records, every status shown, an empty search. */
    constructor ()
      ensures Valid()
      ensures docks == InitDocks() && crewPool == InitCrew && crewNames == InitNames
      ensures records == [] && filterSet == Views.AllStatuses() && query == ""
      ensures UniquePlacement(crewPool, docks)
    {
      docks := InitDocks();
      crewPool := InitCrew;
      crewNames := InitNames;
      records := [];
      filterSet := Views.AllStatuses();
      query := "";
      OpeningValid();
    }

    /** cycleStatus: the dock with the id moves to the next status; nothing
        else changes. */
    method CycleStatus(dockId: string)
      requires Valid()
      modifies this`docks
      ensures Valid()
      ensures forall i :: 0 <= i < |docks| ==>
        docks[i] == if old(docks[i]).id == dockId then old(docks[i]).(status := Next(old(docks[i]).status)) else old(docks[i])
      ensures old(UniquePlacement(crewPool, docks)) ==> UniquePlacement(crewPool, docks)
    {
      var r := MapDock(docks, dockId, Cycled);
      MapDockOnlyTarget(docks, dockId, Cycled);
      SameShape(crewPool, docks, r);
      docks := r;
    }

    /** setDockStatus: the dock with the id takes the chosen status. */
    method SetDockStatus(dockId: string, status: Status)
      requires Valid()
      modifies this`docks
      ensures Valid()
      ensures forall i :: 0 <= i < |docks| ==>
        docks[i] == if old(docks[i]).id == dockId then old(docks[i]).(status := status) else old(docks[i])
      ensures old(UniquePlacement(crewPool, docks)) ==> UniquePlacement(crewPool, docks)
    {
      var f := (d: Dock) => WithStatus(d, status);
      var r := MapDock(docks, dockId, f);
      MapDockOnlyTarget(docks, dockId, f);
      SameShape(crewPool, docks, r);
      docks := r;
    }

    /** saveDock: the dialog's patch overwrites status and assignment of the
        dock with the id; its timer and crew stay as they were. */
    method SaveDock(dockId: string, patch: Patch)
      requires Valid()
      modifies this`docks
      ensures Valid()
      ensures forall i :: 0 <= i < |docks| ==>
        docks[i] == if old(docks[i]).id == dockId then Patched(old(docks[i]), patch) else old(docks[i])
      ensures old(UniquePlacement(crewPool, docks)) ==> UniquePlacement(crewPool, docks)
    {
      var f := (d: Dock) => Patched(d, patch);
      var r := MapDock(docks, dockId, f);
      MapDockOnlyTarget(docks, dockId, f);
      SameShape(crewPool, docks, r);
      docks := r;
    }

    /** toggleTimer at time now: the dock with the id is toggled; stopping a
        running timer puts its record at the front of the record list. */
    method ToggleTimer(dockId: string, now: int)
      requires Valid()
      modifies this`docks, this`records
      ensures Valid()
      ensures forall i :: 0 <= i < |docks| ==>
        docks[i] == if old(docks[i]).id == dockId then Toggled(old(docks[i]), now) else old(docks[i])
      ensures var k := DockIndex(old(docks), dockId);
        if k.Some? && old(docks)[k.value].startedAt.Some?
        then records == [StopRecord(old(docks)[k.value], now)] + old(records)
        else records == old(records)
      ensures var k := DockIndex(old(docks), dockId);
        k.Some? && old(docks)[k.value].startedAt.None? && !Startable(old(docks)[k.value].status) ==>
          docks == old(docks)
      ensures old(UniquePlacement(crewPool, docks)) ==> UniquePlacement(crewPool, docks)
    {
      var k := DockIndex(docks, dockId);
      var r := MapDock(docks, dockId, (d: Dock) => Toggled(d, now));
      ToggleDocks(docks, dockId, now);
      SameShape(crewPool, docks, r);
      if k.Some? && docks[k.value].startedAt.Some? {
        records := [StopRecord(docks[k.value], now)] + records;
      }
      docks := r;
    }

    /** toggleFilter: the status is shown if it was hidden and hidden if it
        was shown. */
    method ToggleFilter(s: Status)
      requires Valid()
      modifies this`filterSet
      ensures Valid()
      ensures filterSet == Views.ToggleFilter(old(filterSet), s)
      ensures s in filterSet <==> s !in old(filterSet)
    {
      filterSet := Views.ToggleFilter(filterSet, s);
    }

    /** toggleAll: hide every status when all nine are shown, else show all. */
    method ToggleAll()
      requires Valid()
      modifies this`filterSet
      ensures Valid()
      ensures filterSet == Views.ToggleAll(old(filterSet))
    {
      filterSet := Views.ToggleAll(filterSet);
    }

    /** dropToDock: with a payload, the crew id leaves its origin dock and
        the pool, then joins the target dock unless already there. Without
        one nothing happens. */
    method DropToDock(dockId: string, p: Option<Payload>)
      requires Valid()
      modifies this`docks, this`crewPool
      ensures Valid()
      ensures Accepted(p).None? ==> docks == old(docks) && crewPool == old(crewPool)
      ensures Accepted(p).Some? ==>
        var crewId, from := p.value.crewId, p.value.fromDockId;
        docks == AddToDock(ClearFromDock(old(docks), from, crewId), dockId, crewId)
        && crewPool == PoolWithout(old(crewPool), crewId)
      ensures Accepted(p).Some? && old(UniquePlacement(crewPool, docks)) && old(OriginHolds(docks, p.value.crewId, p.value.fromDockId)) ==>
        UniquePlacement(crewPool, docks)
        && forall i :: 0 <= i < |docks| ==> (p.value.crewId in docks[i].crewIds <==> docks[i].id == dockId)
    {
      var acc := Accepted(p);
      if acc.None? {
        return;
      }
      var crewId, from := acc.value.crewId, acc.value.fromDockId;
      ghost var d0, p0 := docks, crewPool;
      docks := ClearFromDock(docks, from, crewId);
      crewPool := PoolWithout(crewPool, crewId);
      docks := AddToDock(docks, dockId, crewId);
      if UniquePlacement(p0, d0) && OriginHolds(d0, crewId, from) {
        LayoutDistinct(d0);
        DropToDockUnique(p0, d0, dockId, crewId, from);
      }
    }

    /** dropToPool: with a payload, the crew id leaves its origin dock and
        takes the pool's tag: its entry is retagged in place, or a new entry
        goes to the front of the pool. Without one nothing happens. */
    method DropToPool(tag: PoolTag, p: Option<Payload>)
      requires Valid()
      modifies this`docks, this`crewPool
      ensures Valid()
      ensures Accepted(p).None? ==> docks == old(docks) && crewPool == old(crewPool)
      ensures Accepted(p).Some? ==>
        var crewId, from := p.value.crewId, p.value.fromDockId;
        docks == ClearFromDock(old(docks), from, crewId) && crewPool == PlaceInPool(old(crewPool), crewId, tag)
      ensures Accepted(p).Some? && old(UniquePlacement(crewPool, docks)) && old(OriginHolds(docks, p.value.crewId, p.value.fromDockId)) ==>
        UniquePlacement(crewPool, docks)
        && p.value.crewId in PoolIds(crewPool)
        && forall i :: 0 <= i < |docks| ==> p.value.crewId !in docks[i].crewIds
    {
      var acc := Accepted(p);
      if acc.None? {
        return;
      }
      var crewId, from := acc.value.crewId, acc.value.fromDockId;
      ghost var d0, p0 := docks, crewPool;
      if from.Some? {
        docks := ClearFromDock(docks, from, crewId);
      }
      crewPool := PlaceInPool(crewPool, crewId, tag);
      if UniquePlacement(p0, d0) && OriginHolds(d0, crewId, from) {
        DropToPoolUnique(p0, d0, tag, crewId, from);
      }
    }

    /** The crew manager's moveTo: the crew id leaves every dock and takes
        the chosen pool's tag. */
    method MoveTo(crewId: string, tag: PoolTag)
      requires Valid()
      modifies this`docks, this`crewPool
      ensures Valid()
      ensures docks == RemoveFromAllDocks(old(docks), crewId)
      ensures crewPool == PlaceInPool(old(crewPool), crewId, tag)
      ensures old(UniquePlacement(crewPool, docks)) ==>
        UniquePlacement(crewPool, docks)
        && crewId in PoolIds(crewPool)
        && forall i :: 0 <= i < |docks| ==> crewId !in docks[i].crewIds
    {
      ghost var d0, p0 := docks, crewPool;
      docks := RemoveFromAllDocks(docks, crewId);
      crewPool := PlaceInPool(crewPool, crewId, tag);
      if UniquePlacement(p0, d0) {
        MoveToUnique(p0, d0, crewId, tag);
      }
    }

    /** addCrew: allocates the first free candidate id, names it (the id
        itself when the name is empty) and puts it at the front of the pool. */
    method AddCrew(name: string, tag: PoolTag) returns (id: string, ghost k: nat)
      requires Valid()
      modifies this`crewNames, this`crewPool
      ensures Valid()
      ensures k >= 1 && id == CandidateId(k)
      ensures !Taken(old(crewNames), old(crewPool), docks, id)
      ensures forall j :: 1 <= j < k ==> Taken(old(crewNames), old(crewPool), docks, CandidateId(j))
      ensures crewNames == old(crewNames)[id := if name == "" then id else name]
      ensures crewPool == [PoolEntry(id, tag)] + old(crewPool)
      ensures old(UniquePlacement(crewPool, docks)) ==> UniquePlacement(crewPool, docks)
    {
      id, k := NextCrewId(crewNames, crewPool, docks);
      if UniquePlacement(crewPool, docks) {
        AddFreshUnique(crewPool, docks, crewNames, id, tag);
      }
      crewNames := crewNames[id := if name == "" then id else name];
      crewPool := [PoolEntry(id, tag)] + crewPool;
    }

    /** renameCrew: the id's name becomes the new name, or the id itself when
        the new name is empty. */
    method RenameCrew(id: string, newName: string)
      requires Valid()
      modifies this`crewNames
      ensures Valid()
      ensures crewNames == old(crewNames)[id := if newName == "" then id else newName]
      ensures Views.DisplayName(crewNames, id) == if newName == "" then id else newName
    {
      crewNames := crewNames[id := if newName == "" then id else newName];
    }

    /** deleteCrew: the id leaves the pool, every dock and the name map; all
        other entries keep their order. */
    method DeleteCrew(id: string)
      requires Valid()
      modifies this`docks, this`crewPool, this`crewNames
      ensures Valid()
      ensures crewPool == PoolWithout(old(crewPool), id)
      ensures docks == RemoveFromAllDocks(old(docks), id)
      ensures crewNames == old(crewNames) - {id}
      ensures id !in PoolIds(crewPool) && id !in crewNames
      ensures forall i :: 0 <= i < |docks| ==> id !in docks[i].crewIds
      ensures old(UniquePlacement(crewPool, docks)) ==> UniquePlacement(crewPool, docks)
      ensures old(id !in crewNames && id !in PoolIds(crewPool) && forall i :: 0 <= i < |docks| ==> id !in docks[i].crewIds) ==>
        crewPool == old(crewPool) && docks == old(docks) && crewNames == old(crewNames)
    {
      if UniquePlacement(crewPool, docks) {
        DeleteUnique(crewPool, docks, id);
      }
      if id !in crewNames && id !in PoolIds(crewPool) && forall i :: 0 <= i < |docks| ==> id !in docks[i].crewIds {
        DeleteUnknownNoop(crewPool, docks, id);
        assert (crewNames - {id}).Keys == crewNames.Keys;
        assert crewNames - {id} == crewNames;
      }
      CrewStepKeepsLayout(docks, RemoveFromAllDocks(docks, id));
      crewPool := PoolWithout(crewPool, id);
      docks := RemoveFromAllDocks(docks, id);
      crewNames := crewNames - {id};
    }
  }

  lemma CandidateIdsSmall()
    ensures CandidateId(1) == "C01" && CandidateId(2) == "C02" && CandidateId(3) == "C03"
    ensures CandidateId(4) == "C04" && CandidateId(5) == "C05" && CandidateId(6) == "C06"
    ensures CandidateId(7) == "C07" && CandidateId(8) == "C08"
  {
    assert DigitChar(1) == '1' && DigitChar(2) == '2' && DigitChar(3) == '3' && DigitChar(4) == '4';
    assert DigitChar(5) == '5' && DigitChar(6) == '6' && DigitChar(7) == '7' && DigitChar(8) == '8';
  }

  /** The named crew are exactly candidates 1 to m, all with a name, the pool
      holds only named crew, and no dock holds anyone. */
  ghost predicate NamedUpTo(names: map<string, string>, pool: seq<PoolEntry>, docks: seq<Dock>, m: nat)
  {
    && names.Keys == Tried(1, m + 1)
    && (forall x :: x in names ==> names[x] != "")
    && (forall x :: x in PoolIds(pool) ==> x in names)
    && (forall i :: 0 <= i < |docks| ==> docks[i].crewIds == [])
  }

  /** The opening state has crew C01 to C05 named. */
  lemma OpeningNamedUpTo(docks: seq<Dock>)
    requires forall i :: 0 <= i < |docks| ==> docks[i].crewIds == []
    ensures NamedUpTo(InitNames, InitCrew, docks, 5)
  {
    OpeningKeys();
    assert PoolIds(InitCrew) == ["C01", "C02", "C03", "C04", "C05"];
  }

  lemma OpeningKeys()
    ensures InitNames.Keys == Tried(1, 6)
  {
    FirstFiveTried();
    CandidateIdsSmall();
  }

  /** Candidates 1 to 5 are the first five tried. */
  lemma FirstFiveTried()
    ensures Tried(1, 6) == {CandidateId(1), CandidateId(2), CandidateId(3), CandidateId(4), CandidateId(5)}
  {
    assert Tried(1, 1) == {};
    TriedStep(1, 1);
    TriedStep(1, 2);
    TriedStep(1, 3);
    TriedStep(1, 4);
    TriedStep(1, 5);
  }

  /** When crew 1 to m are the named ones, candidates 1 to m are taken and
      candidate m + 1 is free. */
  lemma NamedUpToTaken(names: map<string, string>, pool: seq<PoolEntry>, docks: seq<Dock>, m: nat)
    requires NamedUpTo(names, pool, docks, m)
    ensures forall j :: 1 <= j <= m ==> Taken(names, pool, docks, CandidateId(j))
    ensures !Taken(names, pool, docks, CandidateId(m + 1))
  {
    var x := CandidateId(m + 1);
    if x in names {
      assert x in Tried(1, m + 1);
      var j :| 1 <= j < m + 1 && CandidateId(j) == x;
      CandidateIdInjective(j, m + 1);
    }
    assert !OnSomeDock(docks, x);
    forall j | 1 <= j <= m
      ensures Taken(names, pool, docks, CandidateId(j))
    {
      assert CandidateId(j) in Tried(1, m + 1);
    }
  }

  /** The allocator's answer on such a state is candidate m + 1. */
  lemma AllocatesNext(names: map<string, string>, pool: seq<PoolEntry>, docks: seq<Dock>, m: nat, k: nat)
    requires NamedUpTo(names, pool, docks, m)
    requires k >= 1 && !Taken(names, pool, docks, CandidateId(k))
    requires forall j :: 1 <= j < k ==> Taken(names, pool, docks, CandidateId(j))
    ensures k == m + 1
  {
    NamedUpToTaken(names, pool, docks, m);
  }

  /** Naming one more key keeps every name non-empty. */
  lemma NamesStayNonEmpty(names: map<string, string>, n2: map<string, string>, k: string, name: string)
    requires (forall x :: x in names ==> names[x] != "") && name != ""
    requires n2 == names[k := name]
    ensures forall x :: x in n2 ==> n2[x] != ""
  {
    forall x | x in n2
      ensures n2[x] != ""
    {
      if x != k {
        assert n2[x] == names[x];
      }
    }
  }

  /** A pool entry added for a key that is also named keeps every pool id named. */
  lemma PoolStaysNamed(names: map<string, string>, n2: map<string, string>, pool: seq<PoolEntry>, p2: seq<PoolEntry>, k: string, name: string, tag: PoolTag)
    requires forall x :: x in PoolIds(pool) ==> x in names
    requires n2 == names[k := name] && p2 == [PoolEntry(k, tag)] + pool
    ensures forall x :: x in PoolIds(p2) ==> x in n2
  {
    assert PoolIds(p2) == [k] + PoolIds(pool);
    forall x | x in PoolIds(p2)
      ensures x in n2
    {
      if x != k {
        assert x in PoolIds(pool);
      }
    }
  }

  /** Adding candidate m + 1 under a non-empty name gives crew 1 to m + 1. */
  lemma NamedUpToStep(names: map<string, string>, pool: seq<PoolEntry>, docks: seq<Dock>, m: nat, name: string, tag: PoolTag)
    requires NamedUpTo(names, pool, docks, m) && name != ""
    ensures NamedUpTo(names[CandidateId(m + 1) := name], [PoolEntry(CandidateId(m + 1), tag)] + pool, docks, m + 1)
  {
    var id := CandidateId(m + 1);
    var n2 := names[id := name];
    var p2 := [PoolEntry(id, tag)] + pool;
    TriedStep(1, m + 1);
    assert n2.Keys == names.Keys + {id};
    NamesStayNonEmpty(names, n2, id, name);
    PoolStaysNamed(names, n2, pool, p2, id, name, tag);
  }

  /** On a store whose named crew are exactly candidates 1 to m, addCrew
      with a non-empty name allocates candidate m + 1, and afterwards the
      named crew are candidates 1 to m + 1. */
  method AddNextNamed(y: DockYard, m: nat, name: string, tag: PoolTag) returns (id: string)
    requires y.Valid() && NamedUpTo(y.crewNames, y.crewPool, y.docks, m) && name != ""
    modifies y`crewNames, y`crewPool
    ensures y.Valid() && NamedUpTo(y.crewNames, y.crewPool, y.docks, m + 1)
    ensures id == CandidateId(m + 1)
    ensures y.crewPool == [PoolEntry(id, tag)] + old(y.crewPool)
  {
    ghost var n0, p0 := y.crewNames, y.crewPool;
    ghost var k: nat;
    id, k := y.AddCrew(name, tag);
    AllocatesNext(n0, p0, y.docks, m, k);
    NamedUpToStep(n0, p0, y.docks, m, name, tag);
  }

  /** From the opening state, three crew additions get C06, C07 and C08,
      each at the front of the pool. */
  method ThreeAddsFromStart() returns (a: string, b: string, c: string, pool: seq<PoolEntry>)
    ensures a == "C06" && b == "C07" && c == "C08"
    ensures pool == [PoolEntry("C08", Unassigned), PoolEntry("C07", Unassigned), PoolEntry("C06", Unassigned)] + InitCrew
  {
    var y := new DockYard();
    CandidateIdsSmall();
    OpeningNamedUpTo(y.docks);
    a := AddNextNamed(y, 5, "Ana", Unassigned);
    b := AddNextNamed(y, 6, "Ben", Unassigned);
    c := AddNextNamed(y, 7, "Cho", Unassigned);
    pool := y.crewPool;
  }
}
