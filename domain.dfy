/** The entities of the dock yard: statuses, pool tags, docks, crew pool
    entries, time records and the drag payload, with the status table and
    the startable set. */
module Domain {

  datatype Option<+T> = None | Some(value: T)

  /** The nine dock statuses, in the order the status table declares them. */
  datatype Status =
    | Available
    | Scheduled
    | Unloading
    | Loading
    | LooseUnloading
    | Completed
    | Maintenance
    | Delayed
    | Starkist

  /** The status table, in declared order; cycling walks it and wraps around. */
  const Statuses: seq<Status> :=
    [Available, Scheduled, Unloading, Loading, LooseUnloading,
     Completed, Maintenance, Delayed, Starkist]

  const StatusCount: nat := 9

  /** Position of a status in the status table. */
  function StatusIndex(s: Status): (i: nat)
    ensures i < StatusCount && Statuses[i] == s
  {
    match s
    case Available => 0
    case Scheduled => 1
    case Unloading => 2
    case Loading => 3
    case LooseUnloading => 4
    case Completed => 5
    case Maintenance => 6
    case Delayed => 7
    case Starkist => 8
  }

  /** The display label that the status table pairs with each status. */
  function Label(s: Status): string
  {
    match s
    case Available => "빈 도크"
    case Scheduled => "배정됨"
    case Unloading => "언로딩"
    case Loading => "로딩"
    case LooseUnloading => "루즈카고 언로딩"
    case Completed => "완료"
    case Maintenance => "보수중"
    case Delayed => "지연"
    case Starkist => "Starkist 전용"
  }

  /** A timer may be started only from these statuses. */
  predicate Startable(s: Status)
  {
    s == Unloading || s == Loading || s == LooseUnloading
  }

  /** The holding areas for crew that are not placed on a dock. */
  datatype PoolTag = Unassigned | OnBreak | Absent | StarkistReserved

  /** The heading shown for a pool; never blank. */
  function PoolLabel(p: PoolTag): (r: string)
    ensures r != ""
  {
    match p
    case Unassigned => "미배정 (Unassigned)"
    case OnBreak => "휴식 (On Break)"
    case Absent => "결근 (Absent)"
    case StarkistReserved => "Starkist C/D"
  }

  /** The four pool headings are pairwise different, so a heading tells
      which pool a crew member is in. */
  lemma PoolLabelInjective(p: PoolTag, q: PoolTag)
    requires PoolLabel(p) == PoolLabel(q)
    ensures p == q
  {
  }

  /** The vehicle data an operator records for a dock. */
  datatype Assignment = Assignment(carrier: string, trailer: string, destination: string)

  /** One loading dock. A timer runs exactly when startedAt is present. */
  datatype Dock = Dock(
    id: string,
    name: string,
    status: Status,
    assignment: Option<Assignment>,
    crewIds: seq<string>,
    startedAt: Option<int>,
    runningLabel: Option<string>)

  /** startedAt and runningLabel are set and cleared together. */
  predicate TimerConsistent(d: Dock)
  {
    d.startedAt.Some? <==> d.runningLabel.Some?
  }

  /** A crew member held in one of the pools. */
  datatype PoolEntry = PoolEntry(id: string, pool: PoolTag)

  /** One completed timed operation; created when a timer stops, never changed. */
  datatype TimeRecord = TimeRecord(
    dockId: string,
    dockName: string,
    startMs: int,
    endMs: int,
    labelText: string,
    carrier: string,
    trailer: string,
    destination: string)

  /** What a crew drag carries: the crew id and where it was picked up. */
  datatype Payload = Payload(crewId: string, fromDockId: Option<string>, fromPool: Option<PoolTag>)

  /** The payload a drop handler acts on: a missing payload, or one whose crew
      id is empty, is no payload at all. */
  function Accepted(p: Option<Payload>): (r: Option<Payload>)
    ensures r.Some? <==> p.Some? && p.value.crewId != ""
    ensures r.Some? ==> r == p
  {
    if p.Some? && p.value.crewId != "" then p else None
  }
}
