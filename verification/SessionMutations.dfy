/** Session mutations end to end: the client's bounded map of per-target lease
    cells, the lease and sequence discipline around every await, the exact-byte
    retry, and the hosts' replay registries. A step is one stretch of code
    between awaits, one host action, or one loss; runs are arbitrary
    interleavings of any number of mutations on any number of targets. */
module SessionMutations {
  import opened Basics
  import opened Replay

  const MAX_TARGETS: nat := 64
  const MAX_SEQUENCE: nat := 0xFFFF_FFFF_FFFF_FFFF

  type Target = nat
  /** One logical mutation: one call of the client's mutation request. */
  type Mutation = nat

  /** The lease and next sequence number kept for a target; cells are shared by
      reference, so a cell is named by the order in which it was made. */
  datatype LeaseCell = LeaseCell(target: Target, lease: Option<Lease>, next: nat)

  datatype Outcome = Refused | Succeeded | Denied | Unknown | Cancelled

  datatype Phase =
    | Waiting
    | Leasing
    | Sending(op: OperationId, attempt: nat, written: bool)
    | Done(outcome: Outcome)

  datatype Task = Task(target: Target, cell: nat, fingerprint: Fingerprint, phase: Phase)

  datatype Request = Request(mutation: Mutation, target: Target, op: OperationId, fingerprint: Fingerprint)

  /** `offered`: leases on their way to the client. `owner`: which mutation each
      lease was issued to. `used`: the id each mutation was given. `wire`: all
      requests ever written. `applied`: all requests a host has run. */
  datatype State = State(
    targets: map<Target, nat>,
    cells: seq<LeaseCell>,
    tasks: map<Mutation, Task>,
    offered: map<Mutation, Lease>,
    owner: map<(Target, Lease), Mutation>,
    used: map<Mutation, OperationId>,
    wire: seq<Request>,
    hosts: map<Target, Registry>,
    applied: seq<Request>)

  datatype Action =
    | Begin(m: Mutation, target: Target, fingerprint: Fingerprint, victim: Target)
    | Lock(m: Mutation)
    | Grant(m: Mutation)
    | ReceiveLease(m: Mutation)
    | LeaseFails(m: Mutation)
    | Write(m: Mutation)
    | AttemptFails(m: Mutation)
    | Answer(m: Mutation, outcome: Outcome)
    | Cancel(m: Mutation)
    | Deliver(i: nat)
    | Finish(target: Target, op: OperationId)
    | RetireLease(target: Target, ordinal: nat)
    | Restart(target: Target)
    | OtherIssue(target: Target)
    | OtherRegister(target: Target, op: OperationId, fingerprint: Fingerprint)

  /** The map starts with the local target (0) already in it. */
  function Initial(): State {
    State(map[0 := 0], [LeaseCell(0, None, 1)], map[], map[], map[], map[], [], map[], [])
  }

  function HostOf(s: State, t: Target): Registry {
    if t in s.hosts then s.hosts[t] else NewRegistry(0)
  }

  /** The mutation holds a handle on its cell. */
  predicate Active(s: State, m: Mutation) { m in s.tasks && !s.tasks[m].phase.Done? }

  /** The mutation holds its cell's lock. */
  predicate Holds(s: State, m: Mutation) {
    m in s.tasks && (s.tasks[m].phase.Leasing? || s.tasks[m].phase.Sending?)
  }

  /** Nothing but the map refers to this target's cell. */
  ghost predicate Inactive(s: State, t: Target) {
    t in s.targets && forall m :: Active(s, m) ==> s.tasks[m].cell != s.targets[t]
  }

  ghost predicate LockFree(s: State, cell: nat) {
    forall m :: Holds(s, m) ==> s.tasks[m].cell != cell
  }

  // ----- The client's steps ------------------------------------------------------

  function SetPhase(s: State, m: Mutation, phase: Phase): State
    requires m in s.tasks
  {
    s.(tasks := s.tasks[m := s.tasks[m].(phase := phase)])
  }

  function SetCell(s: State, m: Mutation, cell: LeaseCell): State
    requires m in s.tasks && s.tasks[m].cell < |s.cells|
  {
    s.(cells := s.cells[s.tasks[m].cell := cell])
  }

  /** A cell that has given its lease up. */
  function GiveUp(c: LeaseCell): LeaseCell { c.(lease := None, next := 1) }

  /** Taking the id (`lease`, `sequence`) from a cell, unless the numbers have run
      out. */
  function TakeNext(c: LeaseCell, lease: Lease, sequence: nat): (LeaseCell, Option<OperationId>) {
    if sequence >= MAX_SEQUENCE then (GiveUp(c), None)
    else (c.(lease := Some(lease), next := sequence + 1), Some(OperationId(lease, sequence)))
  }

  /** A cell after a request with this outcome. */
  function Settled(c: LeaseCell, outcome: Outcome): LeaseCell { if outcome.Unknown? then GiveUp(c) else c }

  /** The map with a cell for `target`, and without the evicted target if any. */
  function PutTarget<T>(targets: map<Target, T>, evicted: Option<Target>, target: Target, cell: T): map<Target, T> {
    (if evicted.Some? then targets - {evicted.value} else targets)[target := cell]
  }

  /** A new cell for a target that has none, after evicting `victim` if asked. */
  function Insert(s: State, a: Action, evict: bool): State
    requires a.Begin?
  {
    s.(targets := PutTarget(s.targets, if evict then Some(a.victim) else None, a.target, |s.cells|),
       cells := s.cells + [LeaseCell(a.target, None, 1)],
       tasks := s.tasks[a.m := Task(a.target, |s.cells|, a.fingerprint, Waiting)])
  }

  ghost function DoBegin(s: State, a: Action): State
    requires a.Begin?
  {
    if a.target in s.targets then
      s.(tasks := s.tasks[a.m := Task(a.target, s.targets[a.target], a.fingerprint, Waiting)])
    else if |s.targets| < MAX_TARGETS then Insert(s, a, false)
    else if exists t :: Inactive(s, t) then Insert(s, a, true)
    else s.(tasks := s.tasks[a.m := Task(a.target, 0, a.fingerprint, Done(Refused))])
  }

  /** With the lock held and a lease present: take the next sequence number. */
  function Assign(s: State, m: Mutation, lease: Lease, sequence: nat): State
    requires m in s.tasks && s.tasks[m].cell < |s.cells|
  {
    match TakeNext(s.cells[s.tasks[m].cell], lease, sequence)
    case (cell, None) => SetPhase(SetCell(s, m, cell), m, Done(Refused))
    case (cell, Some(op)) => SetPhase(SetCell(s, m, cell), m, Sending(op, 1, false)).(used := s.used[m := op])
  }

  function DoLock(s: State, m: Mutation): State
    requires m in s.tasks && s.tasks[m].cell < |s.cells|
  {
    var cell := s.cells[s.tasks[m].cell];
    match cell.lease
    case None => SetPhase(s, m, Leasing)
    case Some(lease) => Assign(s, m, lease, cell.next)
  }

  function DoReceiveLease(s: State, m: Mutation): State
    requires m in s.tasks && s.tasks[m].cell < |s.cells| && m in s.offered
  {
    Assign(s.(offered := s.offered - {m}), m, s.offered[m], 1)
  }

  function RequestOf(s: State, m: Mutation): Request
    requires m in s.tasks && m in s.used
  {
    Request(m, s.tasks[m].target, s.used[m], s.tasks[m].fingerprint)
  }

  function DoWrite(s: State, m: Mutation): State
    requires m in s.tasks && m in s.used && s.tasks[m].phase.Sending?
  {
    SetPhase(s, m, s.tasks[m].phase.(written := true)).(wire := s.wire + [RequestOf(s, m)])
  }

  /** Before the first write an error is final; after it the same bytes are tried
      once more; after that the outcome is unknown and the lease is dropped. */
  function DoAttemptFails(s: State, m: Mutation): State
    requires m in s.tasks && s.tasks[m].cell < |s.cells| && s.tasks[m].phase.Sending?
  {
    var phase := s.tasks[m].phase;
    if phase.attempt == 1 && !phase.written then SetPhase(s, m, Done(Refused))
    else if phase.attempt == 1 then SetPhase(s, m, Sending(phase.op, 2, false))
    else DoAnswer(s, m, Unknown)
  }

  function DoAnswer(s: State, m: Mutation, outcome: Outcome): State
    requires m in s.tasks && s.tasks[m].cell < |s.cells|
  {
    SetPhase(SetCell(s, m, Settled(s.cells[s.tasks[m].cell], outcome)), m, Done(outcome))
  }

  // ----- The hosts' steps --------------------------------------------------------

  function DoGrant(s: State, m: Mutation): State
    requires m in s.tasks
  {
    var t := s.tasks[m].target;
    var (registry, lease) := Issue(HostOf(s, t));
    s.(hosts := s.hosts[t := registry], offered := s.offered[m := lease], owner := s.owner[(t, lease) := m])
  }

  ghost function DoDeliver(s: State, i: nat): State
    requires i < |s.wire|
  {
    var r := s.wire[i];
    var (registry, registration) := Register(HostOf(s, r.target), r.op, r.fingerprint);
    s.(hosts := s.hosts[r.target := registry],
       applied := if registration.Execute? then s.applied + [r] else s.applied)
  }

  /** The host has run an operation with this request's id; whose request it was,
      the id does not say. */
  ghost predicate Ran(s: State, r: Request) {
    exists i :: 0 <= i < |s.applied| && SameOperation(s.applied[i], r)
  }

  predicate SameOperation(r: Request, q: Request) { r.target == q.target && r.op == q.op }

  // ----- Steps and runs ----------------------------------------------------------

  ghost predicate Enabled(s: State, a: Action) {
    match a
    case Begin(m, t, _, victim) =>
      m !in s.tasks && (t !in s.targets && (exists u :: Inactive(s, u)) ==> Inactive(s, victim))
    case Lock(m) =>
      m in s.tasks && s.tasks[m].phase.Waiting? && s.tasks[m].cell < |s.cells| && LockFree(s, s.tasks[m].cell)
    case Grant(m) => m in s.tasks && s.tasks[m].phase.Leasing? && m !in s.offered
    case ReceiveLease(m) => m in s.tasks && s.tasks[m].phase.Leasing? && s.tasks[m].cell < |s.cells| && m in s.offered
    case LeaseFails(m) => m in s.tasks && s.tasks[m].phase.Leasing?
    case Write(m) => m in s.tasks && s.tasks[m].phase.Sending? && m in s.used && !s.tasks[m].phase.written
    case AttemptFails(m) => m in s.tasks && s.tasks[m].phase.Sending? && s.tasks[m].cell < |s.cells|
    case Answer(m, outcome) =>
      && m in s.tasks && s.tasks[m].phase.Sending? && s.tasks[m].phase.written && s.tasks[m].cell < |s.cells|
      && m in s.used && (outcome.Succeeded? || outcome.Denied? || outcome.Unknown?)
      && (outcome.Succeeded? ==> Ran(s, RequestOf(s, m)))
    case Cancel(m) => Active(s, m)
    case Deliver(i) => i < |s.wire|
    case Finish(_, _) => true
    case RetireLease(t, ordinal) => CanRetire(HostOf(s, t), ordinal)
    case Restart(_) => true
    case OtherIssue(_) => true
    case OtherRegister(t, op, _) => (t, op.lease) !in s.owner
  }

  ghost function Do(s: State, a: Action): State
    requires Enabled(s, a)
  {
    match a
    case Begin(_, _, _, _) => DoBegin(s, a)
    case Lock(m) => DoLock(s, m)
    case Grant(m) => DoGrant(s, m)
    case ReceiveLease(m) => DoReceiveLease(s, m)
    case LeaseFails(m) => SetPhase(s, m, Done(Refused))
    case Write(m) => DoWrite(s, m)
    case AttemptFails(m) => DoAttemptFails(s, m)
    case Answer(m, outcome) => DoAnswer(s, m, outcome)
    case Cancel(m) => SetPhase(s, m, Done(Cancelled))
    case Deliver(i) => DoDeliver(s, i)
    case Finish(t, op) => s.(hosts := s.hosts[t := Complete(HostOf(s, t), op)])
    case RetireLease(t, ordinal) => s.(hosts := s.hosts[t := Retire(HostOf(s, t), ordinal)])
    case Restart(t) => s.(hosts := s.hosts[t := NewRegistry(HostOf(s, t).incarnation + 1)])
    case OtherIssue(t) => s.(hosts := s.hosts[t := Issue(HostOf(s, t)).0])
    case OtherRegister(t, op, fingerprint) =>
      s.(hosts := s.hosts[t := Register(HostOf(s, t), op, fingerprint).0])
  }

  ghost function Exec(run: seq<Action>): Option<State> {
    if run == [] then Some(Initial())
    else
      var before := Exec(run[..|run| - 1]);
      var a := run[|run| - 1];
      if before.Some? && Enabled(before.value, a) then Some(Do(before.value, a)) else None
  }

  // ----- What every reachable state satisfies --------------------------------------

  /** The map is bounded and maps each target to a cell of its own. */
  predicate MapInv(s: State) {
    && |s.targets| <= MAX_TARGETS
    && forall t :: t in s.targets ==> s.targets[t] < |s.cells| && s.cells[s.targets[t]].target == t
  }

  /** Every handle is the map's current cell for its target, and at most one
      mutation per cell holds the lock. */
  ghost predicate HandleInv(s: State) {
    && (forall m :: Active(s, m) ==> s.tasks[m].target in s.targets && s.targets[s.tasks[m].target] == s.tasks[m].cell)
    && (forall m, n :: Holds(s, m) && Holds(s, n) && s.tasks[m].cell == s.tasks[n].cell ==> m == n)
  }

  /** The lease of `t` was issued to `m`. */
  predicate Owns(s: State, m: Mutation, t: Target, lease: Lease) {
    (t, lease) in s.owner && s.owner[(t, lease)] == m
  }

  /** Issued leases are all different: each has one owner, which either still
      waits for it or has put it in its own cell. */
  ghost predicate LeaseInv(s: State) {
    && (forall t, lease :: (t, lease) in s.owner ==> Issued(HostOf(s, t), lease))
    && (forall m :: m in s.offered ==> m in s.tasks && Owns(s, m, s.tasks[m].target, s.offered[m]))
    && (forall c :: 0 <= c < |s.cells| && s.cells[c].lease.Some? ==>
        LeaseOf(s, c, s.cells[c].target, s.cells[c].lease.value))
  }

  /** The lease came to cell `c` and is no longer on its way. */
  predicate LeaseOf(s: State, c: nat, t: Target, lease: Lease) {
    && (t, lease) in s.owner
    && s.owner[(t, lease)] !in s.offered
    && s.owner[(t, lease)] in s.tasks
    && s.tasks[s.owner[(t, lease)]].cell == c
    && !s.tasks[s.owner[(t, lease)]].phase.Waiting? && !s.tasks[s.owner[(t, lease)]].phase.Leasing?
  }

  /** Ids in use are all different per target, and a cell's next number is above
      every number taken under its present lease. */
  ghost predicate OpsInv(s: State) {
    && (forall m :: m in s.used ==> UsedWell(s, m))
    && (forall m :: m in s.tasks && s.tasks[m].phase.Sending? ==> SendsUsed(s, m))
    && IdsDiffer(s)
  }

  ghost predicate IdsDiffer(s: State) {
    forall m, n ::
      (m in s.used && n in s.used && m in s.tasks && n in s.tasks && m != n && s.tasks[m].target == s.tasks[n].target)
      ==> s.used[m] != s.used[n]
  }

  predicate UsedWell(s: State, m: Mutation)
    requires m in s.used
  {
    && m in s.tasks && !s.tasks[m].phase.Waiting? && !s.tasks[m].phase.Leasing?
    && s.tasks[m].cell < |s.cells|
    && s.cells[s.tasks[m].cell].target == s.tasks[m].target
    && LeaseOf(s, s.tasks[m].cell, s.tasks[m].target, s.used[m].lease)
    && (s.cells[s.tasks[m].cell].lease == Some(s.used[m].lease) ==> s.used[m].sequence < s.cells[s.tasks[m].cell].next)
  }

  predicate SendsUsed(s: State, m: Mutation)
    requires m in s.tasks && s.tasks[m].phase.Sending?
  {
    m in s.used && s.used[m] == s.tasks[m].phase.op
  }

  /** How many times the mutation's bytes were written. */
  function Writes(wire: seq<Request>, m: Mutation): nat {
    if wire == [] then 0
    else Writes(wire[..|wire| - 1], m) + (if wire[|wire| - 1].mutation == m then 1 else 0)
  }

  /** What a mutation in this phase may have written. */
  predicate WritesFit(phase: Phase, writes: nat) {
    match phase
    case Waiting => writes == 0
    case Leasing => writes == 0
    case Sending(_, attempt, written) => 1 <= attempt <= 2 && writes == attempt - 1 + (if written then 1 else 0)
    case Done(outcome) => if outcome.Refused? then writes == 0 else writes <= 2 && (!outcome.Cancelled? ==> writes > 0)
  }

  predicate Genuine(s: State, r: Request) {
    r.mutation in s.tasks && r.mutation in s.used && r == RequestOf(s, r.mutation)
  }

  /** All writes of a mutation are the same bytes, and as many as its phase says. */
  ghost predicate WireInv(s: State) {
    && (forall i :: 0 <= i < |s.wire| ==> Genuine(s, s.wire[i]))
    && (forall m :: m in s.tasks ==> WritesFit(s.tasks[m].phase, Writes(s.wire, m)))
  }

  /** No operation ran twice, and none that ran can run again. */
  ghost predicate AppliedInv(s: State) {
    && (forall i :: 0 <= i < |s.applied| ==>
        s.applied[i] in s.wire && Spent(HostOf(s, s.applied[i].target), s.applied[i].op))
    && (forall i, j :: 0 <= i < j < |s.applied| ==> !SameOperation(s.applied[i], s.applied[j]))
  }

  ghost predicate SuccessInv(s: State) {
    forall m :: m in s.tasks && s.tasks[m].phase == Done(Succeeded) ==> m in s.used && RequestOf(s, m) in s.applied
  }

  /** The lease of an id whose outcome was not known is in no cell any more. */
  ghost predicate RetiredInv(s: State) {
    forall m :: m in s.used && m in s.tasks && s.tasks[m].phase == Done(Unknown) && s.tasks[m].cell < |s.cells| ==>
      s.cells[s.tasks[m].cell].lease != Some(s.used[m].lease)
  }

  ghost predicate Inv(s: State) {
    && MapInv(s) && HandleInv(s) && LeaseInv(s) && OpsInv(s)
    && WireInv(s) && AppliedInv(s) && SuccessInv(s) && RetiredInv(s)
  }

  // ----- The target map ------------------------------------------------------------

  lemma InsertCount<T>(targets: map<Target, T>, t: Target, c: T)
    ensures |targets[t := c]| <= |targets| + 1
  {
    assert targets[t := c].Keys == targets.Keys + {t};
  }

  lemma RemoveCount<T>(targets: map<Target, T>, victim: Target)
    requires victim in targets
    ensures |targets - {victim}| == |targets| - 1
  {
    assert (targets - {victim}).Keys == targets.Keys - {victim};
  }

  /** From `s` to `t` one active mutation moved on, changing at most its own cell. */
  ghost predicate Moves(s: State, t: State, m: Mutation) {
    && m in s.tasks && !s.tasks[m].phase.Done? && m in t.tasks
    && t.tasks == s.tasks[m := s.tasks[m].(phase := t.tasks[m].phase)]
    && t.targets == s.targets && t.hosts == s.hosts && t.owner == s.owner && t.applied == s.applied
    && s.wire <= t.wire
    && |t.cells| == |s.cells|
    && (forall c :: 0 <= c < |s.cells| ==> t.cells[c].target == s.cells[c].target)
    && (forall c :: 0 <= c < |s.cells| && c != s.tasks[m].cell ==> t.cells[c] == s.cells[c])
  }

  predicate IsMove(a: Action) {
    a.Lock? || a.ReceiveLease? || a.LeaseFails? || a.Write? || a.AttemptFails? || a.Answer? || a.Cancel?
  }

  /** The move takes no id; the cell keeps its lease or drops it. */
  ghost predicate Plain(s: State, t: State, m: Mutation) {
    && Moves(s, t, m) && s.tasks[m].cell < |s.cells|
    && t.offered == s.offered && t.used == s.used
    && (t.cells == s.cells || t.cells[s.tasks[m].cell].lease.None?)
    && (t.tasks[m].phase.Sending? ==> s.tasks[m].phase.Sending? && t.tasks[m].phase.op == s.tasks[m].phase.op)
    && (t.tasks[m].phase.Leasing? ==> s.tasks[m].phase.Waiting?)
    && !t.tasks[m].phase.Waiting?
  }

  /** The move takes the id (`lease`, `q`): the next one of its cell, or the first
      of the lease that was on its way to it. */
  ghost predicate Takes(s: State, t: State, m: Mutation, lease: Lease, q: nat) {
    && Moves(s, t, m) && s.tasks[m].cell < |s.cells|
    && t.used == s.used[m := OperationId(lease, q)] && t.wire == s.wire
    && t.tasks[m].phase == Sending(OperationId(lease, q), 1, false)
    && t.cells[s.tasks[m].cell].lease == Some(lease) && t.cells[s.tasks[m].cell].next == q + 1
    && (|| (&& s.tasks[m].phase.Waiting? && t.offered == s.offered
            && s.cells[s.tasks[m].cell].lease == Some(lease) && s.cells[s.tasks[m].cell].next == q)
        || (&& s.tasks[m].phase.Leasing? && m in s.offered && t.offered == s.offered - {m} && s.offered[m] == lease))
  }

  lemma AssignMoves(s: State, m: Mutation, lease: Lease, sequence: nat)
    requires Active(s, m) && s.tasks[m].cell < |s.cells|
    requires s.tasks[m].phase.Waiting? && s.cells[s.tasks[m].cell].lease == Some(lease)
    requires s.cells[s.tasks[m].cell].next == sequence
    ensures var t := Assign(s, m, lease, sequence);
      if sequence >= MAX_SEQUENCE then Plain(s, t, m) && t.wire == s.wire && t.tasks[m].phase == Done(Refused)
      else Takes(s, t, m, lease, sequence)
  {
    EndMoves(s, m, Refused);
  }

  lemma LockMoves(s: State, m: Mutation)
    requires Enabled(s, Lock(m))
    ensures var t := DoLock(s, m);
      var cell := s.cells[s.tasks[m].cell];
      if cell.lease.None? then Plain(s, t, m) && t.wire == s.wire && t.tasks[m].phase.Leasing?
      else if cell.next >= MAX_SEQUENCE then Plain(s, t, m) && t.wire == s.wire && t.tasks[m].phase == Done(Refused)
      else Takes(s, t, m, cell.lease.value, cell.next)
  {
    var cell := s.cells[s.tasks[m].cell];
    if cell.lease.Some? { AssignMoves(s, m, cell.lease.value, cell.next); }
  }

  lemma ReceiveMoves(s: State, m: Mutation)
    requires Enabled(s, ReceiveLease(m))
    ensures Takes(s, DoReceiveLease(s, m), m, s.offered[m], 1)
  {
  }

  lemma EndMoves(s: State, m: Mutation, outcome: Outcome)
    requires Active(s, m) && s.tasks[m].cell < |s.cells|
    ensures Plain(s, SetPhase(s, m, Done(outcome)), m)
    ensures Plain(s, SetPhase(SetCell(s, m, GiveUp(s.cells[s.tasks[m].cell])), m, Done(outcome)), m)
    ensures Plain(s, DoAnswer(s, m, outcome), m)
  {
  }

  lemma SendMoves(s: State, a: Action)
    requires Enabled(s, a) && (a.Write? || a.AttemptFails? || a.Answer?) && s.tasks[a.m].cell < |s.cells|
    ensures Plain(s, Do(s, a), a.m)
  {
    EndMoves(s, a.m, Refused);
    EndMoves(s, a.m, Unknown);
    if a.Answer? { EndMoves(s, a.m, a.outcome); }
  }

  /** Every client move is of one of the two kinds. */
  lemma ClientMoves(s: State, a: Action) returns (lease: Lease, q: nat)
    requires Enabled(s, a) && IsMove(a) && MapInv(s) && HandleInv(s)
    ensures Plain(s, Do(s, a), a.m) || Takes(s, Do(s, a), a.m, lease, q)
    ensures a.Lock? ==> LockFree(s, s.tasks[a.m].cell)
    ensures !a.Lock? && Holds(Do(s, a), a.m) ==> Holds(s, a.m)
  {
    lease, q := Lease(0, 0), 0;
    assert Active(s, a.m);
    if a.Lock? {
      LockMoves(s, a.m);
      var cell := s.cells[s.tasks[a.m].cell];
      if cell.lease.Some? { lease, q := cell.lease.value, cell.next; }
    } else if a.ReceiveLease? {
      ReceiveMoves(s, a.m);
      lease, q := s.offered[a.m], 1;
    } else if a.LeaseFails? || a.Cancel? {
      EndMoves(s, a.m, if a.Cancel? then Cancelled else Refused);
    } else {
      SendMoves(s, a);
    }
  }

  /** From `s` to `t` only hosts acted. */
  ghost predicate HostsAct(s: State, t: State) {
    && t.targets == s.targets && t.cells == s.cells && t.tasks == s.tasks && t.used == s.used && t.wire == s.wire
  }

  lemma OthersAreHosts(s: State, a: Action)
    requires Enabled(s, a) && !IsMove(a) && !a.Begin?
    ensures HostsAct(s, Do(s, a))
    ensures !a.Grant? ==> Do(s, a).owner == s.owner && Do(s, a).offered == s.offered
    ensures !a.Deliver? ==> Do(s, a).applied == s.applied
    ensures s.applied <= Do(s, a).applied
  {
  }

  lemma InsertMap(s: State, a: Action, evict: bool)
    requires a.Begin? && MapInv(s) && (if evict then a.victim in s.targets else |s.targets| < MAX_TARGETS)
    ensures MapInv(Insert(s, a, evict))
  {
    if evict {
      RemoveCount(s.targets, a.victim);
      InsertCount(s.targets - {a.victim}, a.target, |s.cells|);
    } else {
      InsertCount(s.targets, a.target, |s.cells|);
    }
  }

  lemma BeginMap(s: State, a: Action)
    requires a.Begin? && Enabled(s, a) && MapInv(s)
    ensures MapInv(DoBegin(s, a))
  {
    if a.target !in s.targets && (|s.targets| < MAX_TARGETS || exists t :: Inactive(s, t)) {
      InsertMap(s, a, |s.targets| >= MAX_TARGETS);
    }
  }

  lemma ReuseHandles(s: State, a: Action, t: State)
    requires a.Begin? && a.m !in s.tasks && HandleInv(s) && t.targets == s.targets && a.m in t.tasks
    requires t.tasks == s.tasks[a.m := t.tasks[a.m]] && t.tasks[a.m].target == a.target
    requires t.tasks[a.m].phase == Waiting ==> a.target in s.targets && t.tasks[a.m].cell == s.targets[a.target]
    requires t.tasks[a.m].phase.Waiting? || t.tasks[a.m].phase.Done?
    ensures HandleInv(t)
  {
    assert forall n :: n != a.m ==> (Active(t, n) <==> Active(s, n)) && (Holds(t, n) <==> Holds(s, n));
  }

  lemma BeginHandles(s: State, a: Action)
    requires a.Begin? && Enabled(s, a) && MapInv(s) && HandleInv(s)
    ensures HandleInv(DoBegin(s, a))
  {
    if a.target !in s.targets && (|s.targets| < MAX_TARGETS || exists t :: Inactive(s, t)) {
      InsertHandles(s, a, |s.targets| >= MAX_TARGETS);
    } else {
      ReuseHandles(s, a, DoBegin(s, a));
    }
  }

  lemma InsertHandles(s: State, a: Action, evict: bool)
    requires a.Begin? && a.m !in s.tasks && a.target !in s.targets && MapInv(s) && HandleInv(s)
    requires evict ==> Inactive(s, a.victim)
    ensures HandleInv(Insert(s, a, evict))
  {
    var t := Insert(s, a, evict);
    forall m | Active(t, m)
      ensures t.tasks[m].target in t.targets && t.targets[t.tasks[m].target] == t.tasks[m].cell
    {
      if m != a.m { assert Active(s, m); }
    }
    forall m | Holds(t, m)
      ensures Holds(s, m)
    {
    }
  }

  lemma MoveHandles(s: State, t: State, m: Mutation)
    requires Moves(s, t, m) && MapInv(s) && HandleInv(s)
    requires Holds(t, m) ==> Holds(s, m) || LockFree(s, s.tasks[m].cell)
    ensures MapInv(t) && HandleInv(t)
  {
    assert forall n :: n != m ==> (Active(t, n) <==> Active(s, n)) && (Holds(t, n) <==> Holds(s, n));
  }

  lemma HandleStep(s: State, a: Action)
    requires Enabled(s, a) && MapInv(s) && HandleInv(s)
    ensures MapInv(Do(s, a)) && HandleInv(Do(s, a))
  {
    if a.Begin? {
      BeginMap(s, a);
      BeginHandles(s, a);
    } else if IsMove(a) {
      var lease, q := ClientMoves(s, a);
      MoveHandles(s, Do(s, a), a.m);
    } else {
      OthersAreHosts(s, a);
    }
  }

  // ----- Leases and ids ------------------------------------------------------------

  lemma PlainLeases(s: State, t: State, m: Mutation)
    requires Plain(s, t, m) && LeaseInv(s) && OpsInv(s)
    ensures LeaseInv(t)
  {
  }

  lemma PlainOps(s: State, t: State, m: Mutation)
    requires Plain(s, t, m) && LeaseInv(s) && OpsInv(s)
    ensures OpsInv(t)
  {
    forall n | n in t.used ensures UsedWell(t, n) { assert UsedWell(s, n); }
  }

  lemma TakesLeases(s: State, t: State, m: Mutation, lease: Lease, q: nat)
    requires Takes(s, t, m, lease, q) && MapInv(s) && HandleInv(s) && LeaseInv(s)
    ensures LeaseInv(t)
    ensures LeaseOf(t, s.tasks[m].cell, s.tasks[m].target, lease)
  {
    assert Active(s, m);
    var c := s.tasks[m].cell;
    assert s.cells[c].target == s.tasks[m].target;
    if s.tasks[m].phase.Leasing? { assert Owns(s, m, s.tasks[m].target, lease); }
    forall d | 0 <= d < |t.cells| && t.cells[d].lease.Some?
      ensures LeaseOf(t, d, t.cells[d].target, t.cells[d].lease.value)
    {
      if d != c { assert LeaseOf(s, d, s.cells[d].target, s.cells[d].lease.value); }
    }
  }

  /** No mutation before this one on the same cell has the id being taken. */
  lemma TakenIsNew(s: State, t: State, m: Mutation, lease: Lease, q: nat, n: Mutation)
    requires Takes(s, t, m, lease, q) && MapInv(s) && HandleInv(s) && LeaseInv(s)
    requires n in s.used && UsedWell(s, n)
    ensures n != m && UsedWell(t, n)
    ensures s.tasks[n].target == s.tasks[m].target && s.used[n].lease == lease ==> s.used[n].sequence < q
  {
    assert Active(s, m);
    if s.tasks[m].phase.Leasing? { assert Owns(s, m, s.tasks[m].target, lease); }
  }

  lemma TakesIds(s: State, t: State, m: Mutation, lease: Lease, q: nat)
    requires Takes(s, t, m, lease, q) && MapInv(s) && HandleInv(s) && LeaseInv(s) && OpsInv(s)
    ensures IdsDiffer(t)
  {
    forall n | n in s.used
      ensures n != m && n in s.tasks
      ensures s.tasks[n].target == s.tasks[m].target ==> s.used[n] != OperationId(lease, q)
    {
      TakenIsNew(s, t, m, lease, q, n);
    }
  }

  lemma TakesOps(s: State, t: State, m: Mutation, lease: Lease, q: nat)
    requires Takes(s, t, m, lease, q) && MapInv(s) && HandleInv(s) && LeaseInv(s) && OpsInv(s)
    ensures OpsInv(t)
  {
    TakesIds(s, t, m, lease, q);
    forall n | n in t.used
      ensures UsedWell(t, n)
    {
      if n == m {
        assert Active(s, m);
        TakesLeases(s, t, m, lease, q);
      } else {
        TakenIsNew(s, t, m, lease, q, n);
      }
    }
  }

  /** From `s` to `t` one new mutation appeared, perhaps with a new empty cell. */
  ghost predicate Begins(s: State, t: State, m: Mutation) {
    && m !in s.tasks && m in t.tasks && t.tasks == s.tasks[m := t.tasks[m]] && !t.tasks[m].phase.Sending?
    && t.tasks[m].phase != Done(Succeeded) && WritesFit(t.tasks[m].phase, 0)
    && s.cells <= t.cells && (forall c :: |s.cells| <= c < |t.cells| ==> t.cells[c].lease.None?)
    && t.offered == s.offered && t.owner == s.owner && t.used == s.used
    && t.wire == s.wire && t.hosts == s.hosts && t.applied == s.applied
  }

  lemma InsertBegins(s: State, a: Action, evict: bool)
    requires a.Begin? && a.m !in s.tasks
    ensures Begins(s, Insert(s, a, evict), a.m)
  {
  }

  lemma BeginBegins(s: State, a: Action)
    requires a.Begin? && Enabled(s, a)
    ensures Begins(s, DoBegin(s, a), a.m)
  {
    InsertBegins(s, a, false);
    InsertBegins(s, a, true);
  }

  lemma BeginLeases(s: State, t: State, m: Mutation)
    requires Begins(s, t, m) && LeaseInv(s)
    ensures LeaseInv(t)
  {
    assert forall c :: 0 <= c < |s.cells| ==> t.cells[c] == s.cells[c];
  }

  lemma BeginOps(s: State, t: State, m: Mutation)
    requires Begins(s, t, m) && OpsInv(s)
    ensures OpsInv(t)
  {
    forall n | n in t.used ensures UsedWell(t, n) { assert UsedWell(s, n); }
  }

  predicate IsHostStep(a: Action) {
    a.Grant? || a.Deliver? || a.Finish? || a.RetireLease? || a.Restart? || a.OtherIssue? || a.OtherRegister?
  }

  lemma ClientsLeaveHosts(s: State, a: Action)
    requires Enabled(s, a) && !IsHostStep(a) && MapInv(s) && HandleInv(s)
    ensures Do(s, a).hosts == s.hosts
  {
    if a.Begin? { BeginBegins(s, a); } else { var lease, q := ClientMoves(s, a); }
  }

  lemma LaterIsReflexive(r: Registry)
    ensures Later(r, r)
  {
  }

  lemma OneHostChanges(s: State, target: Target, r: Registry, t: Target)
    requires Later(HostOf(s, target), r)
    ensures Later(HostOf(s, t), HostOf(s.(hosts := s.hosts[target := r]), t))
  {
    LaterIsReflexive(HostOf(s, t));
  }

  /** No step takes back a lease that a host issued, or makes an operation
      runnable again. */
  lemma HostsGoOn(s: State, a: Action, t: Target)
    requires Enabled(s, a) && MapInv(s) && HandleInv(s)
    ensures Later(HostOf(s, t), HostOf(Do(s, a), t))
  {
    if !IsHostStep(a) {
      ClientsLeaveHosts(s, a);
      LaterIsReflexive(HostOf(s, t));
    } else {
      HostGoesOn(s, a, t);
    }
  }

  lemma HostGoesOn(s: State, a: Action, t: Target)
    requires Enabled(s, a) && IsHostStep(a)
    ensures Later(HostOf(s, t), HostOf(Do(s, a), t))
  {
    match a {
      case Grant(m) =>
        var r := HostOf(s, s.tasks[m].target);
        IssueIsFresh(r);
        OneHostChanges(s, s.tasks[m].target, Issue(r).0, t);
      case OtherIssue(u) =>
        IssueIsFresh(HostOf(s, u));
        OneHostChanges(s, u, Issue(HostOf(s, u)).0, t);
      case Deliver(i) =>
        var q := s.wire[i];
        RegisterSpends(HostOf(s, q.target), q.op, q.fingerprint);
        OneHostChanges(s, q.target, Register(HostOf(s, q.target), q.op, q.fingerprint).0, t);
      case OtherRegister(u, op, fingerprint) =>
        RegisterSpends(HostOf(s, u), op, fingerprint);
        OneHostChanges(s, u, Register(HostOf(s, u), op, fingerprint).0, t);
      case Finish(u, op) =>
        HousekeepingIsLater(HostOf(s, u), op, 0);
        OneHostChanges(s, u, Complete(HostOf(s, u), op), t);
      case Restart(u) =>
        HousekeepingIsLater(HostOf(s, u), OperationId(Lease(0, 0), 0), 0);
        OneHostChanges(s, u, NewRegistry(HostOf(s, u).incarnation + 1), t);
      case RetireLease(u, ordinal) =>
        HousekeepingIsLater(HostOf(s, u), OperationId(Lease(0, 0), 0), ordinal);
        OneHostChanges(s, u, Retire(HostOf(s, u), ordinal), t);
    }
  }

  lemma GrantLeases(s: State, m: Mutation)
    requires Enabled(s, Grant(m)) && LeaseInv(s)
    ensures LeaseInv(DoGrant(s, m))
  {
    var t := DoGrant(s, m);
    IssueIsFresh(HostOf(s, s.tasks[m].target));
    forall c | 0 <= c < |t.cells| && t.cells[c].lease.Some?
      ensures LeaseOf(t, c, t.cells[c].target, t.cells[c].lease.value)
    {
      GrantKeeps(s, m, c, t.cells[c].target, t.cells[c].lease.value);
    }
  }

  lemma GrantKeeps(s: State, m: Mutation, c: nat, t: Target, lease: Lease)
    requires Enabled(s, Grant(m)) && LeaseInv(s) && LeaseOf(s, c, t, lease)
    ensures LeaseOf(DoGrant(s, m), c, t, lease)
  {
    IssueIsFresh(HostOf(s, s.tasks[m].target));
  }

  lemma GrantOps(s: State, m: Mutation)
    requires Enabled(s, Grant(m)) && LeaseInv(s) && OpsInv(s)
    ensures OpsInv(DoGrant(s, m))
  {
    var t := DoGrant(s, m);
    forall n | n in t.used
      ensures UsedWell(t, n)
    {
      assert UsedWell(s, n);
      GrantKeeps(s, m, s.tasks[n].cell, s.tasks[n].target, s.used[n].lease);
    }
  }

  lemma LeaseStep(s: State, a: Action)
    requires Enabled(s, a) && MapInv(s) && HandleInv(s) && LeaseInv(s) && OpsInv(s)
    ensures LeaseInv(Do(s, a)) && OpsInv(Do(s, a))
  {
    var t := Do(s, a);
    if a.Begin? {
      BeginBegins(s, a);
      BeginLeases(s, t, a.m);
      BeginOps(s, t, a.m);
    } else if IsMove(a) {
      var lease, q := ClientMoves(s, a);
      if Plain(s, t, a.m) {
        PlainLeases(s, t, a.m);
        PlainOps(s, t, a.m);
      } else {
        TakesLeases(s, t, a.m, lease, q);
        TakesOps(s, t, a.m, lease, q);
      }
    } else if a.Grant? {
      GrantLeases(s, a.m);
      GrantOps(s, a.m);
    } else {
      HostLeases(s, a);
    }
  }

  lemma HostLeases(s: State, a: Action)
    requires Enabled(s, a) && !IsMove(a) && !a.Begin? && !a.Grant? && LeaseInv(s) && OpsInv(s)
    ensures LeaseInv(Do(s, a)) && OpsInv(Do(s, a))
  {
    var t := Do(s, a);
    OthersAreHosts(s, a);
    forall u, lease | (u, lease) in t.owner
      ensures Issued(HostOf(t, u), lease)
    {
      HostGoesOn(s, a, u);
    }
    forall n | n in t.used ensures UsedWell(t, n) { assert UsedWell(s, n); }
  }

  // ----- Writes and runs -----------------------------------------------------------

  lemma {:induction false} NothingWritten(wire: seq<Request>, m: Mutation)
    requires forall i :: 0 <= i < |wire| ==> wire[i].mutation != m
    ensures Writes(wire, m) == 0
  {
    if wire != [] { NothingWritten(wire[..|wire| - 1], m); }
  }

  lemma {:induction false} SomethingWritten(wire: seq<Request>, i: nat)
    requires i < |wire|
    ensures Writes(wire, wire[i].mutation) > 0
  {
    if i < |wire| - 1 { SomethingWritten(wire[..|wire| - 1], i); }
  }

  lemma OneMoreWrite(wire: seq<Request>, r: Request, m: Mutation)
    ensures Writes(wire + [r], m) == Writes(wire, m) + (if r.mutation == m then 1 else 0)
  {
    assert (wire + [r])[..|wire + [r]| - 1] == wire;
  }

  /** The phase after a move fits what has been written. */
  ghost predicate Fits(s: State, t: State, m: Mutation, wrote: bool)
    requires m in s.tasks
  {
    && m in t.tasks && WritesFit(t.tasks[m].phase, Writes(s.wire, m) + if wrote then 1 else 0)
    && (wrote ==> m in s.used && t.wire == s.wire + [RequestOf(s, m)])
    && (!wrote ==> t.wire == s.wire)
  }

  lemma LeaseFits(s: State, a: Action)
    requires Enabled(s, a) && (a.Lock? || a.ReceiveLease? || a.LeaseFails? || a.Cancel?) && WireInv(s)
    ensures Fits(s, Do(s, a), a.m, false)
  {
    assert WritesFit(s.tasks[a.m].phase, Writes(s.wire, a.m));
    if a.Lock? { LockMoves(s, a.m); }
    if a.ReceiveLease? { ReceiveMoves(s, a.m); }
  }

  lemma SendFits(s: State, a: Action)
    requires Enabled(s, a) && (a.Write? || a.AttemptFails? || a.Answer?) && WireInv(s)
    ensures Fits(s, Do(s, a), a.m, a.Write?)
  {
    assert WritesFit(s.tasks[a.m].phase, Writes(s.wire, a.m));
  }

  lemma StaysGenuine(s: State, t: State, m: Mutation, lease: Lease, q: nat, r: Request)
    requires Plain(s, t, m) || Takes(s, t, m, lease, q)
    requires OpsInv(s) && Genuine(s, r)
    ensures Genuine(t, r)
  {
    assert UsedWell(s, r.mutation);
  }

  lemma CountsKept(s: State, t: State, m: Mutation, wrote: bool, n: Mutation)
    requires Moves(s, t, m) && Fits(s, t, m, wrote) && WireInv(s) && n in t.tasks
    ensures WritesFit(t.tasks[n].phase, Writes(t.wire, n))
  {
    if wrote { OneMoreWrite(s.wire, RequestOf(s, m), n); }
    assert WritesFit(s.tasks[n].phase, Writes(s.wire, n));
  }

  lemma FitWire(s: State, t: State, m: Mutation, lease: Lease, q: nat, wrote: bool)
    requires (Plain(s, t, m) || Takes(s, t, m, lease, q)) && Fits(s, t, m, wrote)
    requires wrote ==> Plain(s, t, m)
    requires OpsInv(s) && WireInv(s)
    ensures WireInv(t)
  {
    forall i | 0 <= i < |t.wire| ensures Genuine(t, t.wire[i]) {
      if i < |s.wire| { StaysGenuine(s, t, m, lease, q, s.wire[i]); }
    }
    forall n | n in t.tasks ensures WritesFit(t.tasks[n].phase, Writes(t.wire, n)) { CountsKept(s, t, m, wrote, n); }
  }

  lemma MoveWire(s: State, a: Action)
    requires Enabled(s, a) && IsMove(a) && MapInv(s) && HandleInv(s) && OpsInv(s) && WireInv(s)
    ensures WireInv(Do(s, a))
  {
    var lease, q := ClientMoves(s, a);
    if a.Write? || a.AttemptFails? || a.Answer? {
      SendMoves(s, a);
      SendFits(s, a);
    } else {
      LeaseFits(s, a);
    }
    FitWire(s, Do(s, a), a.m, lease, q, a.Write?);
  }

  lemma BeginWire(s: State, t: State, m: Mutation)
    requires Begins(s, t, m) && WireInv(s)
    ensures WireInv(t)
  {
    forall i | 0 <= i < |s.wire| ensures s.wire[i].mutation != m && Genuine(t, t.wire[i]) {
      assert Genuine(s, s.wire[i]);
    }
    NothingWritten(s.wire, m);
  }

  lemma WireStep(s: State, a: Action)
    requires Enabled(s, a) && Inv(s)
    ensures WireInv(Do(s, a))
  {
    if a.Begin? {
      BeginBegins(s, a);
      BeginWire(s, Do(s, a), a.m);
    } else if IsMove(a) {
      MoveWire(s, a);
    } else {
      OthersAreHosts(s, a);
    }
  }

  lemma AppliedStays(s: State, a: Action, i: nat)
    requires Enabled(s, a) && MapInv(s) && HandleInv(s) && AppliedInv(s) && i < |s.applied| && s.wire <= Do(s, a).wire
    ensures s.applied[i] in Do(s, a).wire && Spent(HostOf(Do(s, a), s.applied[i].target), s.applied[i].op)
  {
    HostsGoOn(s, a, s.applied[i].target);
  }

  lemma WireGrows(s: State, a: Action)
    requires Enabled(s, a) && MapInv(s) && HandleInv(s)
    ensures s.wire <= Do(s, a).wire
    ensures Do(s, a).applied == s.applied || a.Deliver?
  {
    if a.Begin? {
      BeginBegins(s, a);
    } else if IsMove(a) {
      var lease, q := ClientMoves(s, a);
    } else {
      OthersAreHosts(s, a);
    }
  }

  lemma DeliverApplied(s: State, i: nat)
    requires i < |s.wire| && AppliedInv(s)
    ensures AppliedInv(DoDeliver(s, i))
  {
    var r := s.wire[i];
    var t := DoDeliver(s, i);
    RegisterSpends(HostOf(s, r.target), r.op, r.fingerprint);
    forall k | 0 <= k < |s.applied|
      ensures Spent(HostOf(t, s.applied[k].target), s.applied[k].op)
      ensures |t.applied| > |s.applied| ==> !SameOperation(s.applied[k], r)
    {
      assert Spent(HostOf(s, s.applied[k].target), s.applied[k].op);
    }
  }

  lemma AppliedStep(s: State, a: Action)
    requires Enabled(s, a) && MapInv(s) && HandleInv(s) && AppliedInv(s)
    ensures AppliedInv(Do(s, a))
  {
    if a.Deliver? {
      DeliverApplied(s, a.i);
    } else {
      WireGrows(s, a);
      forall i | 0 <= i < |s.applied|
        ensures s.applied[i] in Do(s, a).wire && Spent(HostOf(Do(s, a), s.applied[i].target), s.applied[i].op)
      {
        AppliedStays(s, a, i);
      }
    }
  }

  lemma MoveSuccess(s: State, t: State, m: Mutation, lease: Lease, q: nat)
    requires Plain(s, t, m) || Takes(s, t, m, lease, q)
    requires OpsInv(s) && SuccessInv(s)
    requires t.tasks[m].phase == Done(Succeeded) ==> m in s.used && RequestOf(s, m) in s.applied
    ensures SuccessInv(t)
  {
  }

  lemma BeginSuccess(s: State, t: State, m: Mutation)
    requires Begins(s, t, m) && SuccessInv(s)
    ensures SuccessInv(t)
  {
  }

  lemma HostSuccess(s: State, t: State)
    requires HostsAct(s, t) && s.applied <= t.applied && SuccessInv(s)
    ensures SuccessInv(t)
  {
  }

  /** Ids tell requests apart: an operation that ran under this mutation's id is
      this mutation's request. */
  lemma RanIsOwn(s: State, m: Mutation)
    requires Inv(s) && m in s.used && m in s.tasks && Ran(s, RequestOf(s, m))
    ensures RequestOf(s, m) in s.applied
  {
    var i :| 0 <= i < |s.applied| && SameOperation(s.applied[i], RequestOf(s, m));
    AppliedIsGenuine(s, i);
    var n := s.applied[i].mutation;
    assert UsedWell(s, m) && UsedWell(s, n);
    assert n == m;
  }

  lemma NoOtherSucceeds(s: State, a: Action)
    requires Enabled(s, a) && IsMove(a) && MapInv(s) && HandleInv(s) && !(a.Answer? && a.outcome.Succeeded?)
    ensures a.m in Do(s, a).tasks && Do(s, a).tasks[a.m].phase != Done(Succeeded)
  {
    if a.Lock? {
      LockMoves(s, a.m);
    } else if a.ReceiveLease? {
      ReceiveMoves(s, a.m);
    }
  }

  lemma OnlyAnswersSucceed(s: State, a: Action)
    requires Enabled(s, a) && IsMove(a) && Inv(s)
    ensures a.m in Do(s, a).tasks && Do(s, a).tasks[a.m].phase == Done(Succeeded)
      ==> a.m in s.used && RequestOf(s, a.m) in s.applied
  {
    if a.Answer? && a.outcome.Succeeded? {
      RanIsOwn(s, a.m);
    } else {
      NoOtherSucceeds(s, a);
    }
  }

  lemma SuccessStep(s: State, a: Action)
    requires Enabled(s, a) && Inv(s)
    ensures SuccessInv(Do(s, a))
  {
    if a.Begin? {
      BeginBegins(s, a);
      BeginSuccess(s, Do(s, a), a.m);
    } else if IsMove(a) {
      var lease, q := ClientMoves(s, a);
      OnlyAnswersSucceed(s, a);
      MoveSuccess(s, Do(s, a), a.m, lease, q);
    } else {
      OthersAreHosts(s, a);
      HostSuccess(s, Do(s, a));
    }
  }

  /** An unknown outcome empties the cell. */
  lemma UnknownEmpties(s: State, a: Action)
    requires Enabled(s, a) && IsMove(a) && MapInv(s) && HandleInv(s)
    ensures a.m in Do(s, a).tasks && Do(s, a).tasks[a.m].phase == Done(Unknown) && s.tasks[a.m].cell < |Do(s, a).cells|
      ==> Do(s, a).cells[s.tasks[a.m].cell].lease.None?
  {
    if a.Lock? {
      LockMoves(s, a.m);
    } else if a.ReceiveLease? {
      ReceiveMoves(s, a.m);
    }
  }

  lemma PlainRetired(s: State, t: State, m: Mutation)
    requires Plain(s, t, m) && RetiredInv(s)
    requires t.tasks[m].phase == Done(Unknown) ==> t.cells[s.tasks[m].cell].lease.None?
    ensures RetiredInv(t)
  {
  }

  lemma TakesRetired(s: State, t: State, m: Mutation, lease: Lease, q: nat)
    requires Takes(s, t, m, lease, q) && MapInv(s) && HandleInv(s) && LeaseInv(s) && OpsInv(s) && RetiredInv(s)
    ensures RetiredInv(t)
  {
    forall n | n in t.used && n in t.tasks && t.tasks[n].phase == Done(Unknown) && t.tasks[n].cell < |t.cells|
      ensures t.cells[t.tasks[n].cell].lease != Some(t.used[n].lease)
    {
      TakenIsOther(s, t, m, lease, q, n);
    }
  }

  /** The lease that is taken from is not one whose outcome was not known. */
  lemma TakenIsOther(s: State, t: State, m: Mutation, lease: Lease, q: nat, n: Mutation)
    requires Takes(s, t, m, lease, q) && MapInv(s) && HandleInv(s) && LeaseInv(s) && OpsInv(s) && RetiredInv(s)
    requires n in s.used && n in s.tasks && s.tasks[n].phase == Done(Unknown)
    ensures n != m && t.cells[t.tasks[n].cell].lease != Some(s.used[n].lease)
    ensures s.tasks[n].target == s.tasks[m].target ==> s.used[n].lease != lease
  {
    assert UsedWell(s, n) && Active(s, m);
    if s.tasks[m].phase.Leasing? { assert Owns(s, m, s.tasks[m].target, lease); }
  }

  lemma BeginRetired(s: State, t: State, m: Mutation)
    requires Begins(s, t, m) && OpsInv(s) && RetiredInv(s)
    ensures RetiredInv(t)
  {
    assert forall c :: 0 <= c < |s.cells| ==> t.cells[c] == s.cells[c];
    assert forall n :: n in s.used ==> UsedWell(s, n);
  }

  lemma RetiredStep(s: State, a: Action)
    requires Enabled(s, a) && Inv(s)
    ensures RetiredInv(Do(s, a))
  {
    var t := Do(s, a);
    if a.Begin? {
      BeginBegins(s, a);
      BeginRetired(s, t, a.m);
    } else if IsMove(a) {
      var lease, q := ClientMoves(s, a);
      UnknownEmpties(s, a);
      if Plain(s, t, a.m) { PlainRetired(s, t, a.m); } else { TakesRetired(s, t, a.m, lease, q); }
    } else {
      OthersAreHosts(s, a);
    }
  }

  lemma {:induction false} InvHolds(run: seq<Action>)
    requires Exec(run).Some?
    ensures Inv(Exec(run).value)
  {
    if run != [] {
      InvHolds(run[..|run| - 1]);
      var s := Exec(run[..|run| - 1]).value;
      var a := run[|run| - 1];
      HandleStep(s, a);
      LeaseStep(s, a);
      WireStep(s, a);
      AppliedStep(s, a);
      SuccessStep(s, a);
      RetiredStep(s, a);
    }
  }

  // ----- Results -------------------------------------------------------------------

  /** Two logical mutations are never given the same id for the same host, and
      everything a mutation writes is the same request. */
  lemma IdsNeverReused(run: seq<Action>, m: Mutation, n: Mutation, i: nat)
    requires Exec(run).Some?
    ensures var s := Exec(run).value;
      && (m in s.used && n in s.used ==>
        && m in s.tasks && n in s.tasks
        && (s.tasks[m].target == s.tasks[n].target && s.used[m] == s.used[n] ==> m == n))
      && (i < |s.wire| ==>
          s.wire[i].mutation in s.tasks && s.wire[i].mutation in s.used
          && s.wire[i] == RequestOf(s, s.wire[i].mutation))
  {
    InvHolds(run);
    var s := Exec(run).value;
    if m in s.used && n in s.used {
      assert UsedWell(s, m) && UsedWell(s, n);
    }
    if i < |s.wire| { assert Genuine(s, s.wire[i]); }
  }

  /** After an unknown outcome its lease is not used again: an id taken later for
      the same host is under another lease. */
  lemma UnknownRetiresLease(run: seq<Action>, a: Action, m: Mutation, n: Mutation)
    requires Exec(run).Some? && Enabled(Exec(run).value, a)
    ensures
      var s := Exec(run).value;
      var t := Do(s, a);
      (&& m in s.tasks && m in s.used && s.tasks[m].phase == Done(Unknown)
       && n !in s.used && n in t.used && n in t.tasks && t.tasks[n].target == s.tasks[m].target)
      ==> t.used[n].lease != s.used[m].lease
  {
    InvHolds(run);
    var s := Exec(run).value;
    var t := Do(s, a);
    if m in s.tasks && m in s.used && s.tasks[m].phase == Done(Unknown) && n !in s.used && n in t.used {
      if a.Begin? {
        BeginBegins(s, a);
      } else if IsMove(a) {
        var lease, q := ClientMoves(s, a);
        if !Plain(s, t, a.m) { TakenIsOther(s, t, a.m, lease, q, m); }
      } else {
        OthersAreHosts(s, a);
      }
    }
  }

  /** The map stays bounded, every mutation under way uses the map's own cell for
      its target, and at most one per target is past the lock. */
  lemma TargetMapIsSafe(run: seq<Action>, m: Mutation, n: Mutation)
    requires Exec(run).Some?
    ensures var s := Exec(run).value;
      && |s.targets| <= MAX_TARGETS
      && (Active(s, m) ==> s.tasks[m].target in s.targets && s.targets[s.tasks[m].target] == s.tasks[m].cell)
      && (Holds(s, m) && Holds(s, n) && s.tasks[m].target == s.tasks[n].target ==> m == n)
  {
    InvHolds(run);
    var s := Exec(run).value;
    assert Holds(s, m) ==> Active(s, m);
    assert Holds(s, n) ==> Active(s, n);
  }

  /** Each logical mutation is applied at most once, whatever is retried,
      duplicated, delayed, cancelled, evicted, retired or restarted. */
  lemma AppliedAtMostOnce(run: seq<Action>, i: nat, j: nat)
    requires Exec(run).Some?
    ensures var applied := Exec(run).value.applied;
      i < |applied| && j < |applied| && applied[i].mutation == applied[j].mutation ==> i == j
  {
    InvHolds(run);
    var s := Exec(run).value;
    if i < |s.applied| && j < |s.applied| && s.applied[i].mutation == s.applied[j].mutation {
      AppliedIsGenuine(s, i);
      AppliedIsGenuine(s, j);
      assert s.applied[i] == s.applied[j];
      assert SameOperation(s.applied[i], s.applied[j]) && SameOperation(s.applied[j], s.applied[i]);
    }
  }

  lemma AppliedIsGenuine(s: State, i: nat)
    requires AppliedInv(s) && WireInv(s) && i < |s.applied|
    ensures Genuine(s, s.applied[i]) && Writes(s.wire, s.applied[i].mutation) > 0
  {
    assert s.applied[i] in s.wire;
    var k :| 0 <= k < |s.wire| && s.wire[k] == s.applied[i];
    assert Genuine(s, s.wire[k]);
    SomethingWritten(s.wire, k);
  }

  /** What the caller is told is true: a refusal was never written and never
      applied, an answer or an unknown outcome goes with a write, a success was
      applied exactly once, and nothing is written more than twice. */
  lemma OutcomesAreTrue(run: seq<Action>, m: Mutation) returns (at: nat)
    requires Exec(run).Some? && m in Exec(run).value.tasks
    ensures var s := Exec(run).value;
      && Writes(s.wire, m) <= 2
      && (s.tasks[m].phase == Done(Refused) ==>
        Writes(s.wire, m) == 0 && forall i :: 0 <= i < |s.applied| ==> s.applied[i].mutation != m)
      && (s.tasks[m].phase in {Done(Succeeded), Done(Denied), Done(Unknown)} ==> Writes(s.wire, m) > 0)
      && (s.tasks[m].phase == Done(Succeeded) ==>
        && at < |s.applied| && s.applied[at].mutation == m
        && forall i :: 0 <= i < |s.applied| && s.applied[i].mutation == m ==> i == at)
  {
    InvHolds(run);
    var s := Exec(run).value;
    at := 0;
    assert WritesFit(s.tasks[m].phase, Writes(s.wire, m));
    if s.tasks[m].phase == Done(Refused) {
      forall i | 0 <= i < |s.applied| ensures s.applied[i].mutation != m { AppliedIsGenuine(s, i); }
    }
    if s.tasks[m].phase == Done(Succeeded) {
      at :| 0 <= at < |s.applied| && s.applied[at] == RequestOf(s, m);
      forall i | 0 <= i < |s.applied| && s.applied[i].mutation == m ensures i == at { AppliedAtMostOnce(run, i, at); }
    }
  }

  /** Cells that were made and not evicted. */
  ghost predicate AllKept(s: State) {
    |s.cells| <= MAX_TARGETS ==>
      && |s.targets| == |s.cells|
      && forall c :: 0 <= c < |s.cells| ==> s.cells[c].target in s.targets && s.targets[s.cells[c].target] == c
  }

  lemma AllKeptStep(s: State, a: Action)
    requires Enabled(s, a) && MapInv(s) && HandleInv(s) && AllKept(s)
    ensures AllKept(Do(s, a))
  {
    if a.Begin? {
      BeginKeepsAll(s, a);
    } else if IsMove(a) {
      var lease, q := ClientMoves(s, a);
    } else {
      OthersAreHosts(s, a);
    }
  }

  lemma BeginKeepsAll(s: State, a: Action)
    requires a.Begin? && Enabled(s, a) && MapInv(s) && AllKept(s)
    ensures AllKept(DoBegin(s, a))
  {
    if a.target !in s.targets && |s.targets| < MAX_TARGETS {
      assert |s.targets[a.target := |s.cells|]| == |s.targets| + 1;
    }
  }

  /** No target loses its cell, and with it its lease, before the map has filled up:
      as long as at most 64 cells were made, every one is still the map's. */
  lemma {:induction false} NothingEvictedEarly(run: seq<Action>)
    requires Exec(run).Some?
    ensures AllKept(Exec(run).value)
  {
    if run != [] {
      InvHolds(run[..|run| - 1]);
      NothingEvictedEarly(run[..|run| - 1]);
      AllKeptStep(Exec(run[..|run| - 1]).value, run[|run| - 1]);
    }
  }

  /** A mutation is turned away at once exactly when 64 other targets are all in use. */
  lemma TurnedAwayExactly(run: seq<Action>, a: Action)
    requires Exec(run).Some? && a.Begin? && Enabled(Exec(run).value, a)
    ensures
      var s := Exec(run).value;
      Do(s, a).tasks[a.m].phase.Done? <==>
        && a.target !in s.targets && |s.targets| == MAX_TARGETS
        && forall t :: t in s.targets ==> exists n :: Active(s, n) && s.tasks[n].target == t
  {
    InvHolds(run);
    var s := Exec(run).value;
    forall t | t in s.targets ensures Inactive(s, t) <==> !exists n :: Active(s, n) && s.tasks[n].target == t {
      forall n | Active(s, n) ensures s.tasks[n].cell == s.targets[t] <==> s.tasks[n].target == t {}
    }
  }

  // ----- The steps do lead somewhere -------------------------------------------------

  lemma ExecMore(run: seq<Action>, a: Action, s: State)
    requires Exec(run) == Some(s) && Enabled(s, a)
    ensures Exec(run + [a]) == Some(Do(s, a))
  {
    assert (run + [a])[..|run|] == run;
  }

  /** After its lease has been granted, the first mutation of a client. */
  lemma FirstMutationLeased(m: Mutation, t: Target, fingerprint: Fingerprint) returns (run: seq<Action>, s: State)
    ensures Exec(run) == Some(s) && m in s.tasks && s.tasks[m] == Task(t, s.tasks[m].cell, fingerprint, Leasing)
    ensures s.tasks[m].cell < |s.cells| && s.offered == map[m := Lease(0, 1)] && s.wire == [] && s.applied == []
    ensures s.hosts == map[t := Registry(0, 1, 0, map[1 := Epoch(0, map[])])]
  {
    var s0 := Initial();
    var begin := Begin(m, t, fingerprint, 0);
    assert Inactive(s0, 0);
    ExecMore([], begin, s0);
    var s1 := Do(s0, begin);
    assert s1.tasks.Keys == {m};
    assert LockFree(s1, s1.tasks[m].cell);
    ExecMore([] + [begin], Lock(m), s1);
    var s2 := Do(s1, Lock(m));
    ExecMore([] + [begin] + [Lock(m)], Grant(m), s2);
    run, s := [] + [begin] + [Lock(m)] + [Grant(m)], Do(s2, Grant(m));
  }

  /** Its request, the first one written and run. */
  lemma FirstMutationRuns(m: Mutation, t: Target, fingerprint: Fingerprint) returns (run: seq<Action>, s: State)
    ensures Exec(run) == Some(s) && m in s.tasks && m in s.used && s.tasks[m].cell < |s.cells|
    ensures s.tasks[m].phase == Sending(OperationId(Lease(0, 1), 1), 1, true)
    ensures s.cells[s.tasks[m].cell] == LeaseCell(s.cells[s.tasks[m].cell].target, Some(Lease(0, 1)), 2)
    ensures RequestOf(s, m) == Request(m, t, OperationId(Lease(0, 1), 1), fingerprint)
    ensures s.wire == [RequestOf(s, m)] && s.applied == [RequestOf(s, m)]
  {
    var leased, s3 := FirstMutationLeased(m, t, fingerprint);
    ExecMore(leased, ReceiveLease(m), s3);
    var s4 := Do(s3, ReceiveLease(m));
    ExecMore(leased + [ReceiveLease(m)], Write(m), s4);
    var s5 := Do(s4, Write(m));
    var request := Request(m, t, OperationId(Lease(0, 1), 1), fingerprint);
    assert s5.wire == [request];
    ExecMore(leased + [ReceiveLease(m)] + [Write(m)], Deliver(0), s5);
    FreshOperationRuns(HostOf(s5, t), request.op, fingerprint);
    run, s := leased + [ReceiveLease(m)] + [Write(m)] + [Deliver(0)], Do(s5, Deliver(0));
  }

  lemma RanSucceeds(run: seq<Action>, s: State, m: Mutation)
    requires Exec(run) == Some(s) && m in s.tasks && m in s.used && s.tasks[m].cell < |s.cells|
    requires s.tasks[m].phase.Sending? && s.tasks[m].phase.written && s.applied == [RequestOf(s, m)]
    ensures Exec(run + [Answer(m, Succeeded)]) == Some(DoAnswer(s, m, Succeeded))
  {
    assert SameOperation(s.applied[0], RequestOf(s, m)) && Ran(s, RequestOf(s, m));
    ExecMore(run, Answer(m, Succeeded), s);
  }

  /** From the start, a mutation of any target can be carried out: it then runs
      once and succeeds, and its target keeps the lease for the next one. */
  lemma FirstMutationSucceeds(m: Mutation, t: Target, fingerprint: Fingerprint) returns (run: seq<Action>)
    ensures Exec(run).Some? && m in Exec(run).value.tasks
    ensures
      var s := Exec(run).value;
      && s.tasks[m].phase == Done(Succeeded) && |s.applied| == 1 && s.tasks[m].cell < |s.cells|
      && s.cells[s.tasks[m].cell].lease == Some(Lease(0, 1)) && s.cells[s.tasks[m].cell].next == 2
  {
    var sent, s := FirstMutationRuns(m, t, fingerprint);
    RanSucceeds(sent, s, m);
    run := sent + [Answer(m, Succeeded)];
  }

  /** When its first attempt was run but the answer was lost, the same bytes are
      written once more; the host does not run them again, and the mutation succeeds. */
  lemma RetrySucceeds(m: Mutation, t: Target, fingerprint: Fingerprint) returns (run: seq<Action>)
    ensures Exec(run).Some? && m in Exec(run).value.tasks && AttemptFails(m) in run
    ensures
      var s := Exec(run).value;
      && s.tasks[m].phase == Done(Succeeded) && |s.applied| == 1
      && |s.wire| == 2 && s.wire[0] == s.wire[1] == s.applied[0]
  {
    var sent, s := FirstMutationRuns(m, t, fingerprint);
    ExecMore(sent, AttemptFails(m), s);
    var s1 := Do(s, AttemptFails(m));
    var lost := sent + [AttemptFails(m)];
    assert lost[|sent|] == AttemptFails(m);
    ExecMore(lost, Write(m), s1);
    var s2 := Do(s1, Write(m));
    InvHolds(lost + [Write(m)]);
    ExecMore(lost + [Write(m)], Deliver(1), s2);
    var s3 := Do(s2, Deliver(1));
    assert Spent(HostOf(s2, s2.applied[0].target), s2.applied[0].op);
    RegisterSpends(HostOf(s2, t), s2.wire[1].op, fingerprint);
    assert s3.applied == s2.applied;
    RanSucceeds(lost + [Write(m)] + [Deliver(1)], s3, m);
    run := lost + [Write(m)] + [Deliver(1)] + [Answer(m, Succeeded)];
    assert run[|sent|] == AttemptFails(m);
  }
}
