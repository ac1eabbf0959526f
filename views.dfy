/** The views derived from the store: the filtered dock grid, the status
    filter toggles, the utilization and crew-total figures, and the crew
    roster. */
module Views {
  import opened Domain
  import opened Crew

  // ---------------------------------------------------------------- search

  /** Lower-casing, for ASCII letters; every other character is unchanged. */
  function LowerChar(c: char): char
  {
    if 'A' <= c <= 'Z' then (c as int + 32) as char else c
  }

  function Lower(s: string): (r: string)
    ensures |r| == |s|
    ensures forall i :: 0 <= i < |s| ==> r[i] == LowerChar(s[i])
  {
    seq(|s|, i requires 0 <= i < |s| => LowerChar(s[i]))
  }

  predicate IsPrefix(p: string, s: string)
  {
    |p| <= |s| && s[..|p|] == p
  }

  /** s.includes(q). */
  function Contains(s: string, q: string): bool
  {
    if IsPrefix(q, s) then true
    else if s == [] then false
    else Contains(s[1..], q)
  }

  /** q occurs in s starting at position i. */
  predicate OccursAt(s: string, q: string, i: int)
  {
    0 <= i <= |s| - |q| && s[i..i + |q|] == q
  }

  /** Contains holds exactly when q occurs at some position of s. */
  lemma {:induction false} ContainsIff(s: string, q: string)
    ensures Contains(s, q) <==> exists i :: OccursAt(s, q, i)
  {
    if IsPrefix(q, s) {
      assert OccursAt(s, q, 0);
    } else if s == [] {
    } else {
      ContainsIff(s[1..], q);
      if exists i :: OccursAt(s, q, i) {
        var i :| OccursAt(s, q, i);
        if i != 0 {
          assert s[1..][i - 1..i - 1 + |q|] == q;
          assert OccursAt(s[1..], q, i - 1);
        }
      }
      if Contains(s[1..], q) {
        var i :| OccursAt(s[1..], q, i);
        assert s[i + 1..i + 1 + |q|] == q;
        assert OccursAt(s, q, i + 1);
      }
    }
  }

  /** The text a search runs over: name, trailer and carrier joined by
      spaces, with an absent assignment contributing empty parts. */
  function SearchText(d: Dock): (t: string)
    ensures |t| >= |d.name| + 2 && t[..|d.name|] == d.name && t[|d.name|] == ' '
    ensures d.assignment.None? ==> t == d.name + "  "
    ensures d.assignment.Some? ==>
      t == d.name + " " + d.assignment.value.trailer + " " + d.assignment.value.carrier
  {
    var trailer := if d.assignment.Some? then d.assignment.value.trailer else "";
    var carrier := if d.assignment.Some? then d.assignment.value.carrier else "";
    d.name + " " + trailer + " " + carrier
  }

  /** A dock is shown when its status is selected and, for a non-empty
      query, its lower-cased search text contains the lower-cased query. */
  predicate Shown(d: Dock, filter: set<Status>, query: string)
  {
    d.status in filter && (query == "" || Contains(Lower(SearchText(d)), Lower(query)))
  }

  /** visibleDocks: the shown docks, in dock order. */
  function VisibleDocks(docks: seq<Dock>, filter: set<Status>, query: string): (r: seq<Dock>)
    ensures |r| <= |docks|
    ensures forall d :: d in r <==> d in docks && Shown(d, filter, query)
  {
    if docks == [] then []
    else (if Shown(docks[0], filter, query) then [docks[0]] else []) + VisibleDocks(docks[1..], filter, query)
  }

  /** The view of a concatenation is the concatenation of the views, so
      the visible docks keep the dock order. */
  lemma {:induction false} VisibleConcat(a: seq<Dock>, b: seq<Dock>, filter: set<Status>, query: string)
    ensures VisibleDocks(a + b, filter, query) == VisibleDocks(a, filter, query) + VisibleDocks(b, filter, query)
  {
    if a == [] {
      assert a + b == b;
    } else {
      assert (a + b)[0] == a[0];
      assert (a + b)[1..] == a[1..] + b;
      VisibleConcat(a[1..], b, filter, query);
    }
  }

  /** With every status selected and no query, every dock is visible. */
  lemma {:induction false} VisibleAll(docks: seq<Dock>, query: string)
    requires query == ""
    ensures VisibleDocks(docks, AllStatuses(), query) == docks
  {
    if docks != [] {
      AllStatusesComplete();
      VisibleAll(docks[1..], query);
      assert docks == [docks[0]] + docks[1..];
    }
  }

  /** With only Available selected, an Available dock and a Loading dock
      give at most the Available dock, whatever the query; and exactly it
      when the query is empty or matches it. */
  lemma AvailableOnly(a: Dock, l: Dock, query: string)
    requires a.status == Available && l.status == Loading
    ensures var r := VisibleDocks([a, l], {Available}, query);
      l !in r && (query == "" || Contains(Lower(SearchText(a)), Lower(query)) ==> r == [a])
  {
    var r := VisibleDocks([a, l], {Available}, query);
    assert [a, l][1..] == [l];
    assert [l][1..] == [];
    if query == "" || Contains(Lower(SearchText(a)), Lower(query)) {
      assert r == [a] + VisibleDocks([l], {Available}, query);
    }
  }

  // --------------------------------------------------------------- filters

  function AllStatuses(): (all: set<Status>)
    ensures |all| == StatusCount
  {
    {Available, Scheduled, Unloading, Loading, LooseUnloading, Completed, Maintenance, Delayed, Starkist}
  }

  lemma AllStatusesComplete()
    ensures forall s: Status :: s in AllStatuses()
  {
    forall s: Status
      ensures s in AllStatuses()
    {
      match s
      case Available =>
      case Scheduled =>
      case Unloading =>
      case Loading =>
      case LooseUnloading =>
      case Completed =>
      case Maintenance =>
      case Delayed =>
      case Starkist =>
    }
  }

  /** A status set holds all nine statuses exactly when its size is nine. */
  lemma FullIffNine(f: set<Status>)
    ensures |f| == StatusCount <==> f == AllStatuses()
  {
    AllStatusesComplete();
    if |f| == StatusCount && f != AllStatuses() {
      var s :| s in AllStatuses() && s !in f;
      assert f <= AllStatuses() - {s};
      assert |AllStatuses() - {s}| == StatusCount - 1;
      SubsetCard(f, AllStatuses() - {s});
    }
  }

  lemma SubsetCard(a: set<Status>, b: set<Status>)
    requires a <= b
    ensures |a| <= |b|
  {
    assert b == a + (b - a);
  }

  /** toggleFilter: a status is added when absent and removed when present. */
  function ToggleFilter(f: set<Status>, s: Status): (r: set<Status>)
    ensures s in r <==> s !in f
    ensures forall t :: t != s ==> (t in r <==> t in f)
  {
    if s in f then f - {s} else f + {s}
  }

  /** Toggling the same status twice restores the selection. */
  lemma ToggleFilterTwice(f: set<Status>, s: Status)
    ensures ToggleFilter(ToggleFilter(f, s), s) == f
  {
  }

  /** toggleAll: clears a full selection, otherwise selects everything. */
  function ToggleAll(f: set<Status>): (r: set<Status>)
    ensures f == AllStatuses() ==> r == {}
    ensures f != AllStatuses() ==> r == AllStatuses()
  {
    FullIffNine(f);
    if |f| == StatusCount then {} else AllStatuses()
  }

  // ------------------------------------------------------------------ KPIs

  /** A dock counts as busy while its timer runs or its status is startable. */
  predicate Busy(d: Dock)
  {
    d.startedAt.Some? || Startable(d.status)
  }

  function BusyCount(docks: seq<Dock>): (n: nat)
    ensures n <= |docks|
    ensures n == |docks| <==> forall i :: 0 <= i < |docks| ==> Busy(docks[i])
    ensures n == 0 <==> forall i :: 0 <= i < |docks| ==> !Busy(docks[i])
  {
    if docks == [] then 0 else (if Busy(docks[0]) then 1 else 0) + BusyCount(docks[1..])
  }

  /** The busy count adds up over a split of the dock list ... */
  lemma {:induction false} BusyCountConcat(a: seq<Dock>, b: seq<Dock>)
    ensures BusyCount(a + b) == BusyCount(a) + BusyCount(b)
    decreases |a|
  {
    if a == [] {
      assert a + b == b;
    } else {
      assert (a + b)[0] == a[0];
      assert (a + b)[1..] == a[1..] + b;
      BusyCountConcat(a[1..], b);
    }
  }

  /** ... and a single dock counts one exactly when it is busy: together,
      the count is the length of docks.filter(busy). */
  lemma BusyCountOne(d: Dock)
    ensures BusyCount([d]) == if Busy(d) then 1 else 0
  {
    assert [d][1..] == [];
  }

  function Abs(x: int): nat
  {
    if x < 0 then -x else x
  }

  lemma MulMono(a: nat, b: nat, n: nat)
    requires a <= b
    ensures n * a <= n * b
  {
  }

  /** Math.round(100 * b / n) for 0 <= b <= n: the nearest integer to the
      percentage, halves rounded up. */
  function RoundedPercent(b: nat, n: nat): (pct: nat)
    requires 0 < n && b <= n
    ensures pct <= 100
    ensures 2 * Abs(100 * b - pct * n) <= n
    ensures (2 * pct - 1) * n <= 200 * b < (2 * pct + 1) * n
  {
    var q := (200 * b + n) / (2 * n);
    var p := q * n;
    assert 2 * n * q == 2 * p;
    assert 2 * p <= 200 * b + n < 2 * p + 2 * n;
    assert (2 * q - 1) * n == 2 * p - n && (2 * q + 1) * n == 2 * p + n;
    assert q <= 100 by {
      if q > 100 {
        MulMono(101, q, n);
      }
    }
    q
  }

  /** Utilization: the busy share of the docks as a percentage, rounded to
      the nearest integer with halves rounded up (Math.round). */
  function Utilization(docks: seq<Dock>): (pct: nat)
    requires |docks| > 0
    ensures pct <= 100
    ensures 2 * Abs(100 * BusyCount(docks) - pct * |docks|) <= |docks|
  {
    RoundedPercent(BusyCount(docks), |docks|)
  }

  /** With an odd number of docks the busy percentage is never exactly
      halfway between two integers, so the rounded value is the unique
      nearest one. */
  lemma OddNoTie(b: nat, n: nat)
    requires 0 < n && b <= n && n % 2 == 1
    ensures 2 * Abs(100 * b - RoundedPercent(b, n) * n) < n
  {
    var a := Abs(100 * b - RoundedPercent(b, n) * n);
    assert 2 * a <= n;
    assert n == 2 * (n / 2) + 1;
  }

  /** With the yard's 21 docks the rounding never meets a tie. */
  lemma UtilizationNoTie(docks: seq<Dock>)
    requires |docks| == 21
    ensures 2 * Abs(100 * BusyCount(docks) - Utilization(docks) * |docks|) < |docks|
  {
    var b, n := BusyCount(docks), |docks|;
    assert n % 2 == 1;
    OddNoTie(b, n);
  }

  /** Every crew id placed on a dock, dock by dock in dock order. */
  function AllCrew(docks: seq<Dock>): (r: seq<string>)
    ensures forall x :: x in r <==> exists i :: 0 <= i < |docks| && x in docks[i].crewIds
  {
    if docks == [] then []
    else
      var r := AllCrew(docks[..|docks| - 1]) + docks[|docks| - 1].crewIds;
      assert forall i :: 0 <= i < |docks| - 1 ==> docks[..|docks| - 1][i] == docks[i];
      r
  }

  /** The number shown as Crew Total: pool entries plus dock places. */
  function CrewTotal(pool: seq<PoolEntry>, docks: seq<Dock>): (n: nat)
    ensures n == |pool| + |AllCrew(docks)|
  {
    |pool| + SumCrew(docks)
  }

  function SumCrew(docks: seq<Dock>): (n: nat)
    ensures n == |AllCrew(docks)|
  {
    if docks == [] then 0 else SumCrew(docks[..|docks| - 1]) + |docks[|docks| - 1].crewIds|
  }

  // ---------------------------------------------------------------- roster

  /** Adds each element of xs to acc unless acc already has it, the way a
      JavaScript Set keeps first insertion order. */
  function AppendNew(acc: seq<string>, xs: seq<string>): seq<string>
    decreases |xs|
  {
    if xs == [] then acc
    else AppendNew(if xs[0] in acc then acc else acc + [xs[0]], xs[1..])
  }

  lemma {:induction false} AppendNewSnoc(acc: seq<string>, xs: seq<string>, x: string)
    ensures AppendNew(acc, xs + [x]) ==
      var r := AppendNew(acc, xs); if x in r then r else r + [x]
    decreases |xs|
  {
    if xs == [] {
      assert xs + [x] == [x];
      assert [x][1..] == [];
    } else {
      assert (xs + [x])[0] == xs[0];
      assert (xs + [x])[1..] == xs[1..] + [x];
      AppendNewSnoc(if xs[0] in acc then acc else acc + [xs[0]], xs[1..], x);
    }
  }

  lemma {:induction false} AppendNewConcat(acc: seq<string>, a: seq<string>, b: seq<string>)
    ensures AppendNew(acc, a + b) == AppendNew(AppendNew(acc, a), b)
    decreases |a|
  {
    if a == [] {
      assert a + b == b;
    } else {
      assert (a + b)[0] == a[0];
      assert (a + b)[1..] == a[1..] + b;
      AppendNewConcat(if a[0] in acc then acc else acc + [a[0]], a[1..], b);
    }
  }

  /** The result keeps acc as its prefix, holds exactly the elements of acc
      and xs, and adds no duplicate. */
  lemma {:induction false} AppendNewProps(acc: seq<string>, xs: seq<string>)
    ensures var r := AppendNew(acc, xs);
      |r| >= |acc| && r[..|acc|] == acc
      && (forall x :: x in r <==> x in acc || x in xs)
      && (NoDup(acc) ==> NoDup(r))
    decreases |xs|
  {
    if xs != [] {
      var next := if xs[0] in acc then acc else acc + [xs[0]];
      AppendNewProps(next, xs[1..]);
      assert xs == [xs[0]] + xs[1..];
      if xs[0] !in acc && NoDup(acc) {
        NoDupSnoc(acc, xs[0]);
      }
      var r := AppendNew(acc, xs);
      assert r[..|acc|] == r[..|next|][..|acc|];
    }
  }

  /** On a duplicate-free input that shares nothing with acc, every element
      is appended. */
  lemma {:induction false} AppendNewFresh(acc: seq<string>, xs: seq<string>)
    requires NoDup(acc + xs)
    ensures AppendNew(acc, xs) == acc + xs
    decreases |xs|
  {
    if xs != [] {
      assert xs[0] !in acc by {
        forall k | 0 <= k < |acc|
          ensures acc[k] != xs[0]
        {
          assert (acc + xs)[k] == acc[k] && (acc + xs)[|acc|] == xs[0];
        }
      }
      assert acc + xs == (acc + [xs[0]]) + xs[1..];
      AppendNewFresh(acc + [xs[0]], xs[1..]);
    }
  }

  /** The roster ids: pool ids first, then dock crew ids, each once. */
  function RosterIds(pool: seq<PoolEntry>, docks: seq<Dock>): seq<string>
  {
    AppendNew(AppendNew([], PoolIds(pool)), AllCrew(docks))
  }

  /** The roster lists every crew id in the pool or on a dock exactly once,
      starting with the pool's ids in pool order when they are unique. */
  lemma RosterIdsProps(pool: seq<PoolEntry>, docks: seq<Dock>)
    ensures NoDup(RosterIds(pool, docks))
    ensures forall x :: x in RosterIds(pool, docks) <==> x in PoolIds(pool) || exists i :: 0 <= i < |docks| && x in docks[i].crewIds
    ensures NoDup(PoolIds(pool)) ==>
      |RosterIds(pool, docks)| >= |pool| && RosterIds(pool, docks)[..|pool|] == PoolIds(pool)
  {
    var first := AppendNew([], PoolIds(pool));
    AppendNewProps([], PoolIds(pool));
    AppendNewProps(first, AllCrew(docks));
    if NoDup(PoolIds(pool)) {
      assert [] + PoolIds(pool) == PoolIds(pool);
      AppendNewFresh([], PoolIds(pool));
    }
  }

  lemma NoDupConcat(a: seq<string>, b: seq<string>)
    requires NoDup(a) && NoDup(b) && Disjoint(a, b)
    ensures NoDup(a + b)
  {
    var t := a + b;
    forall i, j | 0 <= i < j < |t|
      ensures t[i] != t[j]
    {
      if j < |a| {
        assert t[i] == a[i] && t[j] == a[j];
      } else if i >= |a| {
        assert t[i] == b[i - |a|] && t[j] == b[j - |a|];
      } else {
        assert t[i] == a[i] && t[j] == b[j - |a|];
        assert t[i] in a;
      }
    }
  }

  /** When every crew id is in one place, the dock crew lists together
      have no duplicate and share nothing with the pool. */
  lemma {:induction false} AllCrewNoDup(pool: seq<PoolEntry>, docks: seq<Dock>)
    requires UniquePlacement(pool, docks)
    ensures NoDup(AllCrew(docks)) && Disjoint(AllCrew(docks), PoolIds(pool))
    decreases |docks|
  {
    if docks != [] {
      var n := |docks| - 1;
      var init := docks[..n];
      assert forall i :: 0 <= i < n ==> init[i] == docks[i];
      assert UniquePlacement(pool, init) by {
        forall i, j | 0 <= i < n && 0 <= j < n && i != j
          ensures Disjoint(init[i].crewIds, init[j].crewIds)
        {
          assert Disjoint(docks[i].crewIds, docks[j].crewIds);
        }
      }
      AllCrewNoDup(pool, init);
      assert Disjoint(AllCrew(init), docks[n].crewIds) by {
        forall x | x in AllCrew(init)
          ensures x !in docks[n].crewIds
        {
          var i :| 0 <= i < n && x in init[i].crewIds;
          assert Disjoint(docks[i].crewIds, docks[n].crewIds);
        }
      }
      NoDupConcat(AllCrew(init), docks[n].crewIds);
      assert Disjoint(docks[n].crewIds, PoolIds(pool));
    }
  }

  /** When every crew id is in one place, the Crew Total equals the number
      of roster rows: no crew member is counted twice. */
  lemma CrewTotalIsRosterSize(pool: seq<PoolEntry>, docks: seq<Dock>)
    requires UniquePlacement(pool, docks)
    ensures CrewTotal(pool, docks) == |RosterIds(pool, docks)|
  {
    AllCrewNoDup(pool, docks);
    NoDupConcat(PoolIds(pool), AllCrew(docks));
    assert [] + PoolIds(pool) == PoolIds(pool);
    AppendNewFresh([], PoolIds(pool));
    AppendNewFresh(PoolIds(pool), AllCrew(docks));
  }

  /** The first pool entry with the id. */
  function FindPool(pool: seq<PoolEntry>, id: string): (r: Option<PoolEntry>)
    ensures r.Some? <==> id in PoolIds(pool)
    ensures r.Some? ==> r.value in pool && r.value.id == id
  {
    if pool == [] then None
    else if pool[0].id == id then Some(pool[0])
    else
      assert PoolIds(pool) == [pool[0].id] + PoolIds(pool[1..]);
      FindPool(pool[1..], id)
  }

  /** crewPool.find returns the first entry with the id. */
  lemma {:induction false} FindPoolFirst(pool: seq<PoolEntry>, id: string, k: nat)
    requires k < |pool| && pool[k].id == id
    requires forall j :: 0 <= j < k ==> pool[j].id != id
    ensures FindPool(pool, id) == Some(pool[k])
    decreases k
  {
    if k > 0 {
      assert pool[0].id != id;
      assert forall j :: 0 <= j < k - 1 ==> pool[1..][j] == pool[j + 1];
      FindPoolFirst(pool[1..], id, k - 1);
    }
  }

  /** The first dock whose crew list holds the id. */
  function FindDock(docks: seq<Dock>, id: string): (r: Option<nat>)
    ensures r.Some? <==> exists i :: 0 <= i < |docks| && id in docks[i].crewIds
    ensures r.Some? ==>
      r.value < |docks| && id in docks[r.value].crewIds && forall i :: 0 <= i < r.value ==> id !in docks[i].crewIds
  {
    if docks == [] then None
    else if id in docks[0].crewIds then Some(0)
    else
      var r := FindDock(docks[1..], id);
      if r.Some? then Some(r.value + 1) else None
  }

  /** crewNames[id] || id: the stored name when there is a non-empty one,
      else the id, so a crew member with an id is never shown blank. */
  function DisplayName(names: map<string, string>, id: string): (r: string)
    ensures r == id || (id in names && r == names[id])
    ensures id in names && names[id] != "" ==> r == names[id]
    ensures r == "" ==> id == ""
  {
    if id in names && names[id] != "" then names[id] else id
  }

  /** The location column: the pool's heading, else the dock's name, else "unknown". */
  function Location(pool: seq<PoolEntry>, docks: seq<Dock>, id: string): (r: string)
    ensures id in PoolIds(pool) ==> exists e :: e in pool && e.id == id && r == PoolLabel(e.pool)
    ensures id !in PoolIds(pool) && (exists i :: 0 <= i < |docks| && id in docks[i].crewIds) ==>
      exists i :: 0 <= i < |docks| && id in docks[i].crewIds && r == docks[i].name
    ensures id !in PoolIds(pool) && (forall i :: 0 <= i < |docks| ==> id !in docks[i].crewIds) ==> r == "unknown"
  {
    match FindPool(pool, id)
    case Some(e) => PoolLabel(e.pool)
    case None =>
      match FindDock(docks, id)
      case Some(i) => docks[i].name
      case None => "unknown"
  }

  datatype CrewRow = CrewRow(id: string, name: string, loc: string)

  function RowFor(pool: seq<PoolEntry>, docks: seq<Dock>, names: map<string, string>, id: string): CrewRow
  {
    CrewRow(id, DisplayName(names, id), Location(pool, docks, id))
  }

  /** A crew id with a pool entry is located under that entry's pool. */
  lemma PoolLocation(pool: seq<PoolEntry>, docks: seq<Dock>, id: string, a: nat)
    requires NoDup(PoolIds(pool)) && a < |pool| && pool[a].id == id
    ensures Location(pool, docks, id) == PoolLabel(pool[a].pool)
  {
    var ids := PoolIds(pool);
    assert ids[a] == id;
    var f := FindPool(pool, id).value;
    assert f == pool[a] by {
      var b :| 0 <= b < |pool| && pool[b] == f;
      assert ids[b] == id;
    }
  }

  /** A crew id on dock i, with unique placement, is located at that dock. */
  lemma DockLocation(pool: seq<PoolEntry>, docks: seq<Dock>, id: string, i: nat)
    requires UniquePlacement(pool, docks) && i < |docks| && id in docks[i].crewIds
    ensures Location(pool, docks, id) == docks[i].name
  {
    assert Disjoint(docks[i].crewIds, PoolIds(pool));
    var k := FindDock(docks, id).value;
    assert k != i ==> Disjoint(docks[i].crewIds, docks[k].crewIds);
  }

  /** Every roster id is found in the pool or on a dock, so the "unknown"
      location is never produced; with unique placement the location is the
      crew id's own pool heading or the name of the one dock holding it. */
  lemma RosterLocations(pool: seq<PoolEntry>, docks: seq<Dock>, id: string)
    requires id in RosterIds(pool, docks)
    ensures FindPool(pool, id).Some? || FindDock(docks, id).Some?
    ensures UniquePlacement(pool, docks) ==>
      (forall e :: e in pool && e.id == id ==> Location(pool, docks, id) == PoolLabel(e.pool))
      && (forall i :: 0 <= i < |docks| && id in docks[i].crewIds ==> Location(pool, docks, id) == docks[i].name)
  {
    RosterIdsProps(pool, docks);
    if UniquePlacement(pool, docks) {
      forall e | e in pool && e.id == id
        ensures Location(pool, docks, id) == PoolLabel(e.pool)
      {
        var a :| 0 <= a < |pool| && pool[a] == e;
        PoolLocation(pool, docks, id, a);
      }
      forall i | 0 <= i < |docks| && id in docks[i].crewIds
        ensures Location(pool, docks, id) == docks[i].name
      {
        DockLocation(pool, docks, id, i);
      }
    }
  }

  /** Adds each of xs to the insertion-ordered id set ids, skipping the ones
      already present, as repeated Set.add calls do. */
  method AddAll(ids: seq<string>, xs: seq<string>) returns (r: seq<string>)
    ensures r == AppendNew(ids, xs)
  {
    r := ids;
    var m := 0;
    assert xs[..0] == [];
    while m < |xs|
      invariant 0 <= m <= |xs|
      invariant r == AppendNew(ids, xs[..m])
    {
      assert xs[..m + 1] == xs[..m] + [xs[m]];
      AppendNewSnoc(ids, xs[..m], xs[m]);
      if xs[m] !in r {
        r := r + [xs[m]];
      }
      m := m + 1;
    }
    assert xs[..|xs|] == xs;
  }

  /** crewRows: collects the roster ids into an insertion-ordered set, pool
      entries first and then each dock's crew list, and maps each to its row. */
  method CrewRows(pool: seq<PoolEntry>, docks: seq<Dock>, names: map<string, string>) returns (rows: seq<CrewRow>)
    ensures |rows| == |RosterIds(pool, docks)|
    ensures forall k :: 0 <= k < |rows| ==> rows[k] == RowFor(pool, docks, names, RosterIds(pool, docks)[k])
  {
    var ids := AddAll([], PoolIds(pool));
    ghost var first := ids;
    var j := 0;
    while j < |docks|
      invariant 0 <= j <= |docks|
      invariant ids == AppendNew(first, AllCrew(docks[..j]))
    {
      AppendNewConcat(first, AllCrew(docks[..j]), docks[j].crewIds);
      assert docks[..j + 1][..j] == docks[..j];
      assert AllCrew(docks[..j + 1]) == AllCrew(docks[..j]) + docks[j].crewIds;
      ids := AddAll(ids, docks[j].crewIds);
      j := j + 1;
    }
    assert docks[..|docks|] == docks;
    rows := seq(|ids|, k requires 0 <= k < |ids| => RowFor(pool, docks, names, ids[k]));
  }
}
