/** The per-dock status and timer state machine: cycling, setting and editing
    a dock's status, and starting or stopping its timer. */
module DockOps {
  import opened Domain

  /** The status that follows s in the status table, wrapping after the last. */
  function Next(s: Status): (r: Status)
    ensures StatusIndex(r) == if StatusIndex(s) == StatusCount - 1 then 0 else StatusIndex(s) + 1
  {
    Statuses[(StatusIndex(s) + 1) % StatusCount]
  }

  /** The status reached from s after n cycles. */
  function CycleN(s: Status, n: nat): Status
  {
    if n == 0 then s else Next(CycleN(s, n - 1))
  }

  /** Stepping past the last position of the table wraps to the first. */
  lemma ModStep(x: nat)
    ensures (x + 1) % StatusCount == if x % StatusCount == StatusCount - 1 then 0 else x % StatusCount + 1
  {
    var q, r := x / StatusCount, x % StatusCount;
    assert x == StatusCount * q + r;
    assert x + 1 == StatusCount * q + (r + 1);
    if r == StatusCount - 1 {
      assert x + 1 == StatusCount * (q + 1);
    }
  }

  lemma {:induction false} CycleNIndex(s: Status, n: nat)
    ensures StatusIndex(CycleN(s, n)) == (StatusIndex(s) + n) % StatusCount
  {
    if n > 0 {
      var a := StatusIndex(s);
      var x := CycleN(s, n - 1);
      CycleNIndex(s, n - 1);
      var i := StatusIndex(x);
      assert i == (a + (n - 1)) % StatusCount;
      ModStep(a + (n - 1));
      assert StatusIndex(Next(x)) == if i == StatusCount - 1 then 0 else i + 1;
    }
  }

  lemma ModSmall(x: nat)
    requires x < 2 * StatusCount
    ensures x % StatusCount == if x < StatusCount then x else x - StatusCount
  {
    if x >= StatusCount {
      assert x == StatusCount * 1 + (x - StatusCount);
    }
  }

  lemma ModShift(a: nat, n: nat)
    requires a < StatusCount
    ensures (a + n) % StatusCount == (a + n % StatusCount) % StatusCount
  {
    var q, r := n / StatusCount, n % StatusCount;
    var y := a + r;
    ModSmall(y);
    assert a + n == StatusCount * q + y;
    if y < StatusCount {
      assert a + n == StatusCount * q + y;
    } else {
      assert a + n == StatusCount * (q + 1) + (y - StatusCount);
    }
  }

  /** Cycling n times gives back the status exactly when n is a multiple
      of nine, the size of the status table. */
  lemma CycleNRestore(s: Status, n: nat)
    ensures CycleN(s, n) == s <==> n % StatusCount == 0
  {
    var a, r, c := StatusIndex(s), n % StatusCount, CycleN(s, n);
    assert StatusIndex(c) == if a + r < StatusCount then a + r else a + r - StatusCount by {
      CycleNIndex(s, n);
      ModShift(a, n);
      ModSmall(a + r);
    }
    if r == 0 {
      assert Statuses[StatusIndex(c)] == c;
    } else {
      assert StatusIndex(c) != StatusIndex(s);
    }
  }

  /** The dock list with f applied to every dock whose id is dockId. */
  function MapDock(docks: seq<Dock>, dockId: string, f: Dock -> Dock): (r: seq<Dock>)
    ensures |r| == |docks|
  {
    seq(|docks|, i requires 0 <= i < |docks| => if docks[i].id == dockId then f(docks[i]) else docks[i])
  }

  /** Only docks with the given id change; the others keep their position and value. */
  lemma MapDockOnlyTarget(docks: seq<Dock>, dockId: string, f: Dock -> Dock)
    ensures forall i :: 0 <= i < |docks| && docks[i].id != dockId ==> MapDock(docks, dockId, f)[i] == docks[i]
    ensures forall i :: 0 <= i < |docks| && docks[i].id == dockId ==> MapDock(docks, dockId, f)[i] == f(docks[i])
  {
  }

  /** One press of the status badge. */
  function Cycled(d: Dock): (r: Dock)
    ensures r == d.(status := r.status)
    ensures r.status == Next(d.status)
  {
    d.(status := Next(d.status))
  }

  /** The status selector. */
  function WithStatus(d: Dock, s: Status): (r: Dock)
    ensures r == d.(status := r.status)
    ensures r.status == s
  {
    d.(status := s)
  }

  /** cycleStatus applied n times to the same dock. */
  function CycleTimes(docks: seq<Dock>, dockId: string, n: nat): seq<Dock>
  {
    if n == 0 then docks else MapDock(CycleTimes(docks, dockId, n - 1), dockId, Cycled)
  }

  lemma {:induction false} CycleTimesAt(docks: seq<Dock>, dockId: string, n: nat)
    ensures |CycleTimes(docks, dockId, n)| == |docks|
    ensures forall i :: 0 <= i < |docks| ==>
      CycleTimes(docks, dockId, n)[i] ==
        if docks[i].id == dockId then docks[i].(status := CycleN(docks[i].status, n)) else docks[i]
  {
    if n > 0 {
      CycleTimesAt(docks, dockId, n - 1);
      var prev := CycleTimes(docks, dockId, n - 1);
      forall i | 0 <= i < |docks|
        ensures CycleTimes(docks, dockId, n)[i] ==
          if docks[i].id == dockId then docks[i].(status := CycleN(docks[i].status, n)) else docks[i]
      {
        assert prev[i].id == docks[i].id;
        assert CycleTimes(docks, dockId, n)[i] == if prev[i].id == dockId then Cycled(prev[i]) else prev[i];
      }
    }
  }

  /** Cycling one dock nine times gives back the dock list it started from. */
  lemma NineCyclesRestoreDocks(docks: seq<Dock>, dockId: string)
    ensures CycleTimes(docks, dockId, StatusCount) == docks
  {
    CycleTimesAt(docks, dockId, StatusCount);
    forall i | 0 <= i < |docks|
      ensures CycleTimes(docks, dockId, StatusCount)[i] == docks[i]
    {
      CycleNRestore(docks[i].status, StatusCount);
    }
  }

  /** The fields the edit dialog saves. */
  datatype Patch = Patch(status: Status, assignment: Option<Assignment>)

  /** The patch the edit dialog builds: no assignment when carrier, trailer
      and destination are all empty, otherwise all three as typed. */
  function EditPatch(status: Status, carrier: string, trailer: string, destination: string): (p: Patch)
    ensures p.status == status
    ensures p.assignment.None? <==> carrier == "" && trailer == "" && destination == ""
    ensures p.assignment.Some? ==> p.assignment.value == Assignment(carrier, trailer, destination)
  {
    Patch(status, if carrier != "" || trailer != "" || destination != "" then Some(Assignment(carrier, trailer, destination)) else None)
  }

  /** saveDock: the patch overwrites status and assignment and nothing else. */
  function Patched(d: Dock, p: Patch): (r: Dock)
    ensures r.status == p.status && r.assignment == p.assignment
    ensures r.id == d.id && r.name == d.name && r.crewIds == d.crewIds
    ensures r.startedAt == d.startedAt && r.runningLabel == d.runningLabel
  {
    d.(status := p.status, assignment := p.assignment)
  }

  /** Reopening the dialog on a saved dock and saving again changes nothing. */
  lemma SaveIdempotent(d: Dock, p: Patch)
    ensures Patched(Patched(d, p), p) == Patched(d, p)
  {
  }

  /** toggleTimer on one dock at time now. A running timer stops and the dock
      becomes Completed; a stopped timer starts only from a startable status,
      capturing now and the status label; otherwise nothing changes. */
  function Toggled(d: Dock, now: int): (r: Dock)
    ensures r.id == d.id && r.name == d.name && r.crewIds == d.crewIds && r.assignment == d.assignment
    ensures r.startedAt.Some? <==> d.startedAt.None? && Startable(d.status)
    ensures r.startedAt.Some? ==> r.startedAt == Some(now) && r.runningLabel == Some(Label(d.status))
    ensures d.startedAt.Some? ==> r.status == Completed && r.runningLabel.None?
    ensures d.startedAt.None? ==> r.status == d.status
    ensures d.startedAt.None? && !Startable(d.status) ==> r == d
    ensures TimerConsistent(d) ==> TimerConsistent(r)
  {
    if d.startedAt.Some? then
      d.(startedAt := None, runningLabel := None, status := Completed)
    else if !Startable(d.status) then
      d
    else
      d.(startedAt := Some(now), runningLabel := Some(Label(d.status)))
  }

  /** The label a stopped operation is recorded under: the label captured at
      start, or the current status label when none was captured. */
  function RecordLabel(d: Dock): (r: string)
    ensures r != ""
    ensures d.runningLabel.Some? && d.runningLabel.value != "" ==> r == d.runningLabel.value
    ensures d.runningLabel.None? || d.runningLabel == Some("") ==> r == Label(d.status)
  {
    if d.runningLabel.Some? && d.runningLabel.value != "" then d.runningLabel.value else Label(d.status)
  }

  /** The time record that stopping d's timer at now produces. */
  function StopRecord(d: Dock, now: int): (r: TimeRecord)
    requires d.startedAt.Some?
    ensures r.dockId == d.id && r.dockName == d.name
    ensures r.startMs == d.startedAt.value && r.endMs == now
    ensures d.runningLabel.Some? && d.runningLabel.value != "" ==> r.labelText == d.runningLabel.value
    ensures d.runningLabel.None? || d.runningLabel == Some("") ==> r.labelText == Label(d.status)
    ensures d.assignment.None? ==> r.carrier == "" && r.trailer == "" && r.destination == ""
    ensures d.assignment.Some? ==>
      r.carrier == d.assignment.value.carrier && r.trailer == d.assignment.value.trailer && r.destination == d.assignment.value.destination
  {
    var a := if d.assignment.Some? then d.assignment.value else Assignment("", "", "");
    TimeRecord(d.id, d.name, d.startedAt.value, now, RecordLabel(d), a.carrier, a.trailer, a.destination)
  }

  /** Start then stop: the record carries the label captured at start, even
      if the status was changed while the timer ran, and the dock ends up
      Completed with no timer. */
  lemma StartThenStop(d: Dock, t0: int, t1: int, mid: Status)
    requires TimerConsistent(d) && d.startedAt.None? && Startable(d.status)
    ensures var running := Toggled(d, t0).(status := mid);
      StopRecord(running, t1).labelText == Label(d.status)
      && StopRecord(running, t1).startMs == t0 && StopRecord(running, t1).endMs == t1
      && Toggled(running, t1) == d.(status := Completed)
  {
    var l := Label(d.status);
    assert l != "" by {
      match d.status
      case Unloading =>
      case Loading =>
      case LooseUnloading =>
    }
  }
}
