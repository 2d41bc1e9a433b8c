/** The client's bounded map of lease cells as it is updated in place
    (crates/client/src/unary.rs): looking up, evicting and inserting cells, and
    the stretches of a mutation request between its awaits. */
module UnaryClient {
  import opened Basics
  import opened Replay
  import opened SessionMutations

  /** The lease and next sequence number of one target. */
  class LocalMutationState {
    var lease: Option<Lease>
    var next: nat

    constructor ()
      ensures lease == None && next == 1
    {
      lease, next := None, 1;
    }

    /** The cell as the system's steps see it. */
    ghost function AsCell(target: Target): LeaseCell
      reads this
    {
      LeaseCell(target, lease, next)
    }

    /** With the lock held: store a lease just received, then take the next id. The
        new cell and the id are those of the system's step. */
    method TakeId(received: Option<Lease>) returns (op: Option<OperationId>)
      requires lease.None? ==> received.Some?
      modifies this
      ensures old(lease).Some? ==> forall t :: (AsCell(t), op) == TakeNext(old(AsCell(t)), old(lease).value, old(next))
      ensures old(lease).None? ==> forall t :: (AsCell(t), op) == TakeNext(old(AsCell(t)), received.value, 1)
    {
      if lease.None? {
        lease := received;
        next := 1;
      }
      var sequence := next;
      if sequence >= MAX_SEQUENCE {
        lease, next := None, 1;
        return None;
      }
      next := sequence + 1;
      op := Some(OperationId(lease.value, sequence));
    }

    /** With the lock held, after the request: give the lease up if the outcome
        is not known. */
    method Settle(outcome: Outcome)
      modifies this
      ensures forall t :: AsCell(t) == Settled(old(AsCell(t)), outcome)
    {
      if outcome.Unknown? { lease, next := None, 1; }
    }
  }

  class SessionUnaryClient {
    var targets: map<Target, LocalMutationState>

    /** Bounded, and no two targets share a cell. */
    ghost predicate Valid()
      reads this
    {
      && |targets| <= MAX_TARGETS
      && forall t, u :: t in targets && u in targets && targets[t] == targets[u] ==> t == u
    }

    constructor ()
      ensures Valid() && targets.Keys == {0} && fresh(targets[0]) && targets[0].lease == None && targets[0].next == 1
    {
      var state := new LocalMutationState();
      targets := map[0 := state];
    }

    /** The cell of `target`, made if need be. `refs` counts the references to
        each cell, one of them the map's own. The map changes as in the system's
        step, with the first entry that only the map refers to evicted when it is
        full; a cell that a mutation refers to is never dropped, so every handle
        stays the map's own; the call fails only when the map is full of such. */
    method MutationTargetState(target: Target, refs: map<Target, nat>) returns (r: Option<LocalMutationState>)
      requires Valid() && targets.Keys <= refs.Keys
      modifies this
      ensures Valid()
      ensures r.Some? ==> target in targets && targets[target] == r.value
      ensures target in old(targets) ==> targets == old(targets) && r.Some?
      ensures target !in old(targets) && r.Some? ==>
        && fresh(r.value) && r.value.lease == None && r.value.next == 1
        && targets == PutTarget(
          old(targets), if |old(targets)| < MAX_TARGETS then None else FirstInactive(old(targets), refs),
          target, r.value)
      ensures r.None? <==>
        target !in old(targets) && |old(targets)| == MAX_TARGETS && FirstInactive(old(targets), refs).None?
      ensures r.None? ==> targets == old(targets)
      ensures forall t :: t in old(targets) && (refs[t] != 1 || |old(targets)| < MAX_TARGETS) ==>
        t in targets && targets[t] == old(targets)[t]
    {
      if target in targets { return Some(targets[target]); }
      if |targets| >= MAX_TARGETS {
        var inactive := FindInactive(refs);
        if inactive.None? { return None; }
        RemoveCount(targets, inactive.value);
        targets := targets - {inactive.value};
      }
      var state := new LocalMutationState();
      InsertCount(targets, target, state);
      targets := targets[target := state];
      r := Some(state);
    }

    /** The first entry, in the order of targets, that only the map refers to. */
    method FindInactive(refs: map<Target, nat>) returns (r: Option<Target>)
      requires targets.Keys <= refs.Keys
      ensures r == FirstInactive(targets, refs)
    {
      var rest := targets.Keys;
      while rest != {}
        invariant rest <= targets.Keys
        invariant forall t, u :: t in targets && t !in rest && u in rest ==> t < u
        invariant forall t :: t in targets && t !in rest ==> refs[t] != 1
        decreases rest
      {
        ghost var least := HasLeast(rest);
        var t :| t in rest && forall u :: u in rest ==> t <= u;
        if refs[t] == 1 {
          FirstInactiveIs(targets, refs, t);
          return Some(t);
        }
        rest := rest - {t};
      }
      r := None;
    }
  }

  ghost predicate IsFirstInactive(targets: map<Target, LocalMutationState>, refs: map<Target, nat>, t: Target)
    requires targets.Keys <= refs.Keys
  {
    t in targets && refs[t] == 1 && forall u :: u in targets && refs[u] == 1 ==> t <= u
  }

  ghost function FirstInactive(targets: map<Target, LocalMutationState>, refs: map<Target, nat>): (r: Option<Target>)
    requires targets.Keys <= refs.Keys
    ensures r.Some? ==> IsFirstInactive(targets, refs, r.value)
    ensures r.None? ==> forall t :: t in targets ==> refs[t] != 1
  {
    var inactive := set t | t in targets && refs[t] == 1;
    if inactive == {} then (assert forall t :: t in targets && refs[t] == 1 ==> t in inactive; None)
    else
      assert exists t :: IsFirstInactive(targets, refs, t) by {
        var least := HasLeast(inactive);
        assert forall u :: u in targets && refs[u] == 1 ==> u in inactive;
        assert IsFirstInactive(targets, refs, least);
      }
      var t :| IsFirstInactive(targets, refs, t);
      Some(t)
  }

  lemma FirstInactiveIs(targets: map<Target, LocalMutationState>, refs: map<Target, nat>, t: Target)
    requires targets.Keys <= refs.Keys && IsFirstInactive(targets, refs, t)
    ensures FirstInactive(targets, refs) == Some(t)
  {
  }
}
