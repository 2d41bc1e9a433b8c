/** The host's operation replay registry (crates/daemon/src/session.rs), as one
    principal sees it: leases are issued with rising ordinals, each lease keeps a
    bounded window of results, and whole leases are retired when space is needed.
    However results and leases are dropped, no operation id runs twice. */
module Replay {
  const RESULTS_PER_EPOCH: nat := 128

  datatype Lease = Lease(incarnation: nat, ordinal: nat)

  datatype OperationId = OperationId(lease: Lease, sequence: nat)

  /** What an operation asks for; equal requests have equal fingerprints. */
  type Fingerprint = nat

  datatype Cell = Cell(fingerprint: Fingerprint, complete: bool)

  datatype Epoch = Epoch(lowWater: nat, operations: map<nat, Cell>)

  datatype Registry = Registry(incarnation: nat, issued: nat, retired: nat, epochs: map<nat, Epoch>)

  /** To run it, to wait for the one that runs, or a refusal: its outcome is not
      known any more, or too much is running. */
  datatype Registration = Execute | Join | Rejected | Full

  function NewRegistry(incarnation: nat): Registry { Registry(incarnation, 0, 0, map[]) }

  function Issue(r: Registry): (Registry, Lease) {
    var ordinal := r.issued + 1;
    (r.(issued := ordinal, epochs := r.epochs[ordinal := Epoch(0, map[])]), Lease(r.incarnation, ordinal))
  }

  lemma {:induction false} HasLeast(keys: set<nat>) returns (least: nat)
    requires keys != {}
    ensures least in keys && forall j :: j in keys ==> least <= j
  {
    var k :| k in keys;
    var rest := keys - {k};
    assert forall j :: j in keys ==> j == k || j in rest;
    least := k;
    if rest != {} {
      var other := HasLeast(rest);
      least := if other <= k then other else k;
    }
  }

  /** The key of the first entry of the ordered map. */
  ghost function Oldest(operations: map<nat, Cell>): (k: nat)
    requires |operations| > 0
    ensures k in operations && forall j :: j in operations ==> k <= j
  {
    assert operations.Keys != {};
    assert exists k :: k in operations.Keys && forall j :: j in operations.Keys ==> k <= j by {
      var least := HasLeast(operations.Keys);
    }
    var k :| k in operations.Keys && forall j :: j in operations.Keys ==> k <= j;
    k
  }

  /** `sequence` has run under this lease, whether or not its result is kept. */
  predicate Known(e: Epoch, sequence: nat) {
    sequence in e.operations || sequence < e.lowWater
  }

  ghost function DropOldest(e: Epoch): (r: Epoch)
    requires |e.operations| > 0
    ensures |r.operations| == |e.operations| - 1
    ensures forall q :: Known(e, q) ==> Known(r, q)
  {
    var oldest := Oldest(e.operations);
    var rest := e.operations - {oldest};
    assert rest.Keys == e.operations.Keys - {oldest};
    Epoch(if e.lowWater > oldest then e.lowWater else oldest + 1, rest)
  }

  /** Makes room for one more result by dropping completed ones, oldest first.
      An operation still running stops this; what was dropped stays dropped. */
  ghost function MakeRoom(e: Epoch): (r: (Epoch, bool))
    ensures r.1 ==> |r.0.operations| < RESULTS_PER_EPOCH
    ensures forall q :: Known(e, q) ==> Known(r.0, q)
    decreases |e.operations|
  {
    if |e.operations| < RESULTS_PER_EPOCH then (e, true)
    else if !e.operations[Oldest(e.operations)].complete then (e, false)
    else MakeRoom(DropOldest(e))
  }

  ghost function RegisterIn(e: Epoch, sequence: nat, fingerprint: Fingerprint): (Epoch, Registration) {
    if sequence in e.operations then
      (e, if e.operations[sequence].fingerprint == fingerprint then Join else Rejected)
    else if sequence == 0 || sequence < e.lowWater then (e, Rejected)
    else
      var (roomy, ok) := MakeRoom(e);
      if !ok then (roomy, Full)
      else (roomy.(operations := roomy.operations[sequence := Cell(fingerprint, false)]), Execute)
  }

  ghost function Register(r: Registry, op: OperationId, fingerprint: Fingerprint): (Registry, Registration) {
    var ordinal := op.lease.ordinal;
    if op.lease.incarnation != r.incarnation || op.sequence == 0 then (r, Rejected)
    else if ordinal <= r.retired || ordinal > r.issued || ordinal !in r.epochs then (r, Rejected)
    else
      var (epoch, registration) := RegisterIn(r.epochs[ordinal], op.sequence, fingerprint);
      (r.(epochs := r.epochs[ordinal := epoch]), registration)
  }

  /** An executed operation has finished, with a result or by failing. */
  function Complete(r: Registry, op: OperationId): Registry {
    var ordinal := op.lease.ordinal;
    if op.lease.incarnation == r.incarnation && ordinal in r.epochs && op.sequence in r.epochs[ordinal].operations then
      var epoch := r.epochs[ordinal];
      var cell := epoch.operations[op.sequence].(complete := true);
      r.(epochs := r.epochs[ordinal := epoch.(operations := epoch.operations[op.sequence := cell])])
    else r
  }

  predicate FullyComplete(e: Epoch) {
    forall q :: q in e.operations ==> e.operations[q].complete
  }

  /** A lease may be retired when it and all older ones have nothing running. */
  predicate CanRetire(r: Registry, ordinal: nat) {
    ordinal in r.epochs && forall o :: o in r.epochs && o <= ordinal ==> FullyComplete(r.epochs[o])
  }

  function Retire(r: Registry, ordinal: nat): Registry {
    var floor := if r.retired > ordinal then r.retired else ordinal;
    r.(retired := floor, epochs := map o | o in r.epochs && o > floor :: r.epochs[o])
  }

  // ----- No operation runs twice -----------------------------------------------

  /** The registry would refuse to run `op` again. */
  ghost predicate Spent(r: Registry, op: OperationId) {
    var o := op.lease.ordinal;
    || op.lease.incarnation < r.incarnation
    || (&& op.lease.incarnation == r.incarnation && o <= r.issued
        && (o <= r.retired
            || (o in r.epochs && Known(r.epochs[o], op.sequence))))
  }

  predicate Issued(r: Registry, lease: Lease) {
    lease.incarnation < r.incarnation || (lease.incarnation == r.incarnation && lease.ordinal <= r.issued)
  }

  /** `later` has taken back no lease and made no operation runnable again. */
  ghost predicate Later(r: Registry, later: Registry) {
    && (forall lease :: Issued(r, lease) ==> Issued(later, lease))
    && (forall op :: Spent(r, op) ==> Spent(later, op))
  }

  /** An issued lease is one that was never issued before. */
  lemma IssueIsFresh(r: Registry)
    ensures var (later, lease) := Issue(r);
      Later(r, later) && !Issued(r, lease) && Issued(later, lease)
  {
  }

  /** Registering runs an operation only if it is not spent, and spends it then. */
  lemma RegisterSpends(r: Registry, op: OperationId, fingerprint: Fingerprint)
    ensures var (later, registration) := Register(r, op, fingerprint);
      Later(r, later) && (registration.Execute? ==> !Spent(r, op) && Spent(later, op))
  {
  }

  lemma HousekeepingIsLater(r: Registry, op: OperationId, ordinal: nat)
    ensures Later(r, Complete(r, op))
    ensures Later(r, Retire(r, ordinal))
    ensures Later(r, NewRegistry(r.incarnation + 1))
  {
  }

  /** An operation not yet known, on a live lease with nothing running, runs. */
  lemma FreshOperationRuns(r: Registry, op: OperationId, fingerprint: Fingerprint)
    requires op.lease.incarnation == r.incarnation && op.sequence > 0
    requires r.retired < op.lease.ordinal <= r.issued && op.lease.ordinal in r.epochs
    requires !Known(r.epochs[op.lease.ordinal], op.sequence) && FullyComplete(r.epochs[op.lease.ordinal])
    ensures Register(r, op, fingerprint).1.Execute?
  {
    RoomWhenComplete(r.epochs[op.lease.ordinal]);
  }

  lemma {:induction false} RoomWhenComplete(e: Epoch)
    requires FullyComplete(e)
    ensures MakeRoom(e).1
    decreases |e.operations|
  {
    if |e.operations| >= RESULTS_PER_EPOCH { RoomWhenComplete(DropOldest(e)); }
  }

  /** The lease has nothing running but `op`. */
  predicate OnlyRunning(e: Epoch, sequence: nat) {
    forall q :: q in e.operations && q != sequence ==> e.operations[q].complete
  }

  /** When the last operation that runs under a lease has finished, the lease takes
      the next one, and can be retired if the older ones have nothing running. */
  lemma CompletionFrees(r: Registry, op: OperationId, next: OperationId, fingerprint: Fingerprint)
    requires op.lease.incarnation == r.incarnation && op.lease.ordinal in r.epochs
    requires op.sequence in r.epochs[op.lease.ordinal].operations
    requires OnlyRunning(r.epochs[op.lease.ordinal], op.sequence)
    ensures
      (&& next.lease == op.lease && next.sequence > 0 && r.retired < op.lease.ordinal <= r.issued
       && !Known(r.epochs[op.lease.ordinal], next.sequence)) ==>
        Register(Complete(r, op), next, fingerprint).1.Execute?
    ensures
      (forall o :: o in r.epochs && o < op.lease.ordinal ==> FullyComplete(r.epochs[o])) ==>
        CanRetire(Complete(r, op), op.lease.ordinal)
  {
    RoomWhenComplete(Complete(r, op).epochs[op.lease.ordinal]);
  }

  // ----- What an operation is told --------------------------------------------------

  predicate LiveLease(r: Registry, lease: Lease) {
    lease.incarnation == r.incarnation && r.retired < lease.ordinal <= r.issued && lease.ordinal in r.epochs
  }

  /** The window is full and its oldest operation is still running. */
  ghost predicate Crowded(e: Epoch) {
    |e.operations| >= RESULTS_PER_EPOCH && !e.operations[Oldest(e.operations)].complete
  }

  predicate WindowsBounded(r: Registry) {
    forall o :: o in r.epochs ==> |r.epochs[o].operations| <= RESULTS_PER_EPOCH
  }

  lemma RoomInOneStep(e: Epoch)
    requires |e.operations| <= RESULTS_PER_EPOCH
    ensures MakeRoom(e).1 <==> !Crowded(e)
  {
    if |e.operations| == RESULTS_PER_EPOCH && !Crowded(e) { assert MakeRoom(DropOldest(e)) == (DropOldest(e), true); }
  }

  /** An operation runs exactly if its lease is live, it has not run and there is
      room for its result; only for want of room it is told to come back. */
  lemma AnswersAreExact(r: Registry, op: OperationId, fingerprint: Fingerprint)
    requires WindowsBounded(r)
    ensures
      var unspent := op.sequence > 0 && LiveLease(r, op.lease) && !Known(r.epochs[op.lease.ordinal], op.sequence);
      && (Register(r, op, fingerprint).1.Execute? <==> unspent && !Crowded(r.epochs[op.lease.ordinal]))
      && (Register(r, op, fingerprint).1.Full? <==> unspent && Crowded(r.epochs[op.lease.ordinal]))
  {
    if op.lease.ordinal in r.epochs { RoomInOneStep(r.epochs[op.lease.ordinal]); }
  }

  /** The registry still knows what `op` asked for. */
  ghost predicate Kept(r: Registry, op: OperationId) {
    var o := op.lease.ordinal;
    && op.lease.incarnation == r.incarnation && op.sequence > 0
    && r.retired < o <= r.issued && o in r.epochs && op.sequence in r.epochs[o].operations
  }

  ghost function CellOf(r: Registry, op: OperationId): Cell
    requires Kept(r, op)
  {
    r.epochs[op.lease.ordinal].operations[op.sequence]
  }

  /** `op` ran with this fingerprint, and is not confused with another since. */
  ghost predicate Ran(r: Registry, op: OperationId, fingerprint: Fingerprint) {
    Spent(r, op) && (Kept(r, op) ==> CellOf(r, op).fingerprint == fingerprint)
  }

  /** What can happen to a registry. A lease is retired only when nothing under it
      or an older one is running. */
  datatype Change =
    | Issuing
    | Registering(op: OperationId, fingerprint: Fingerprint)
    | Completing(op: OperationId)
    | Retiring(ordinal: nat)
    | Restarting

  ghost function Changed(r: Registry, c: Change): Registry {
    match c
    case Issuing => Issue(r).0
    case Registering(op, fingerprint) => Register(r, op, fingerprint).0
    case Completing(op) => Complete(r, op)
    case Retiring(ordinal) => if CanRetire(r, ordinal) then Retire(r, ordinal) else r
    case Restarting => NewRegistry(r.incarnation + 1)
  }

  ghost function ChangedBy(r: Registry, changes: seq<Change>): Registry {
    if changes == [] then r else Changed(ChangedBy(r, changes[..|changes| - 1]), changes[|changes| - 1])
  }

  /** Making room drops the oldest results only, as few as possible, and none that
      is still wanted by a running operation; and it bars no operation that is newer
      than all it drops. */
  lemma {:induction false} RoomIsMadeFromTheOldest(e: Epoch)
    ensures forall q: nat :: Known(MakeRoom(e).0, q) && !Known(e, q) ==>
      exists p :: p in e.operations && p !in MakeRoom(e).0.operations && q < p
    ensures
      var kept := MakeRoom(e).0.operations;
      && kept.Keys <= e.operations.Keys && (forall q :: q in kept ==> kept[q] == e.operations[q])
      && (forall p, q :: p in e.operations && p !in kept && q in kept ==> p < q)
      && (forall p :: p in e.operations && p !in kept ==> e.operations[p].complete)
      && (|e.operations| < RESULTS_PER_EPOCH ==> kept == e.operations)
      && (|e.operations| >= RESULTS_PER_EPOCH ==> |kept| >= RESULTS_PER_EPOCH - 1)
    decreases |e.operations|
  {
    if |e.operations| >= RESULTS_PER_EPOCH && e.operations[Oldest(e.operations)].complete {
      RoomIsMadeFromTheOldest(DropOldest(e));
    }
  }

  lemma KeptIsAnswered(r: Registry, op: OperationId, fingerprint: Fingerprint, other: Fingerprint)
    requires Ran(r, op, fingerprint)
    ensures Register(r, op, other).1 == if Kept(r, op) && other == fingerprint then Join else Rejected
  {
  }

  lemma RegisterRemembers(r: Registry, op: OperationId, fingerprint: Fingerprint)
    requires Register(r, op, fingerprint).1.Execute?
    ensures
      var later := Register(r, op, fingerprint).0;
      Ran(later, op, fingerprint) && Kept(later, op) && !CellOf(later, op).complete
  {
  }

  lemma StillRan(r: Registry, c: Change, op: OperationId, fingerprint: Fingerprint)
    requires Ran(r, op, fingerprint)
    ensures Ran(Changed(r, c), op, fingerprint)
    ensures Kept(r, op) && !CellOf(r, op).complete && !c.Restarting? ==>
      Kept(Changed(r, c), op) && (c == Completing(op) || !CellOf(Changed(r, c), op).complete)
  {
    match c {
      case Issuing => IssueIsFresh(r);
      case Registering(other, f) =>
        RegisterSpends(r, other, f);
        if other.lease.ordinal in r.epochs { RoomIsMadeFromTheOldest(r.epochs[other.lease.ordinal]); }
      case Completing(other) => HousekeepingIsLater(r, other, 0);
      case Retiring(ordinal) => HousekeepingIsLater(r, op, ordinal);
      case Restarting => HousekeepingIsLater(r, op, 0);
    }
  }

  /** Nothing has ended the operation: neither its completion nor a restart. */
  predicate StillRunning(changes: seq<Change>, op: OperationId) {
    forall i :: 0 <= i < |changes| ==> changes[i] != Completing(op) && !changes[i].Restarting?
  }

  lemma {:induction false} RanAfter(r: Registry, changes: seq<Change>, op: OperationId, fingerprint: Fingerprint)
    requires Ran(r, op, fingerprint)
    ensures Ran(ChangedBy(r, changes), op, fingerprint)
    ensures Kept(r, op) && !CellOf(r, op).complete && StillRunning(changes, op) ==>
      Kept(ChangedBy(r, changes), op) && !CellOf(ChangedBy(r, changes), op).complete
    decreases |changes|
  {
    if changes != [] {
      var n := |changes| - 1;
      RanAfter(r, changes[..n], op, fingerprint);
      StillRan(ChangedBy(r, changes[..n]), changes[n], op, fingerprint);
    }
  }

  /** Once an operation has run, whatever is issued, registered, completed, retired
      or restarted afterwards: the same request again joins it as long as it is
      remembered, which is at least while it runs, and is refused then; a different
      request under its id is always refused. */
  lemma RepeatsAreRecognised(
    r: Registry, op: OperationId, fingerprint: Fingerprint, changes: seq<Change>, other: Fingerprint)
    requires Register(r, op, fingerprint).1.Execute?
    ensures
      var later := ChangedBy(Register(r, op, fingerprint).0, changes);
      && Register(later, op, other).1 == (if other == fingerprint && Kept(later, op) then Join else Rejected)
      && (StillRunning(changes, op) ==> Kept(later, op))
  {
    RegisterRemembers(r, op, fingerprint);
    RanAfter(Register(r, op, fingerprint).0, changes, op, fingerprint);
    KeptIsAnswered(ChangedBy(Register(r, op, fingerprint).0, changes), op, fingerprint, other);
  }

  lemma WindowsStayBounded(r: Registry, c: Change)
    requires WindowsBounded(r)
    ensures WindowsBounded(Changed(r, c))
  {
    if c.Registering? && c.op.lease.ordinal in r.epochs { RoomIsMadeFromTheOldest(r.epochs[c.op.lease.ordinal]); }
  }

  /** No registry ever holds more results under a lease than its window. */
  lemma {:induction false} WindowsAlwaysBounded(incarnation: nat, changes: seq<Change>)
    ensures WindowsBounded(ChangedBy(NewRegistry(incarnation), changes))
    decreases |changes|
  {
    if changes != [] {
      var n := |changes| - 1;
      WindowsAlwaysBounded(incarnation, changes[..n]);
      WindowsStayBounded(ChangedBy(NewRegistry(incarnation), changes[..n]), changes[n]);
    }
  }
}
