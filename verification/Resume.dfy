/** Input retained while a viewport returns from history to live output
    (crates/cli/src/terminal_ui.rs, crates/client/src/input.rs). */
module Resume {
  import opened Basics

  datatype View = Live | History | Pending(retained: seq<byte>, snapshot: bool)

  datatype Call =
    | RetainOrResume(bytes: seq<byte>)
    | BeginResume(bytes: seq<byte>)
    | RetainResumeInput(bytes: seq<byte>)
    | ObserveSnapshot
    | ObserveSyncRequired
    | ResetForReconnect
    | FinishResume
    | EnterHistory

  /** `accepted` holds, for each resume period, the input the calls accepted in
      it; `released` holds what each successful finish returned. */
  datatype State = State(view: View, accepted: seq<seq<byte>>, released: seq<seq<byte>>)

  function Initial(): State { State(Live, [], []) }

  /** A new period that starts with `bytes`. */
  function Start(s: State, bytes: seq<byte>): State {
    s.(view := Pending(bytes, false), accepted := s.accepted + [bytes])
  }

  /** More input in the present period; nothing changes if it does not fit. */
  function Append(s: State, bytes: seq<byte>): State
    requires s.view.Pending?
  {
    if |s.view.retained| + |bytes| > RESUME_INPUT_BOUND then s
    else
      var n := |s.accepted|;
      s.(view := s.view.(retained := s.view.retained + bytes),
         accepted := if n == 0 then [bytes] else s.accepted[n - 1 := s.accepted[n - 1] + bytes])
  }

  /** Scrolling enters history only from live or history views here. */
  predicate Enabled(s: State, c: Call) { c.EnterHistory? ==> !s.view.Pending? }

  function Do(s: State, c: Call): State {
    match c
    case RetainOrResume(bytes) =>
      if s.view.Live? then s
      else if s.view.Pending? then Append(s, bytes)
      else if |bytes| > RESUME_INPUT_BOUND then s else Start(s, bytes)
    case BeginResume(bytes) =>
      if s.view.Pending? then Append(s, bytes)
      else if |bytes| > RESUME_INPUT_BOUND then s else Start(s, bytes)
    case RetainResumeInput(bytes) => if s.view.Pending? then Append(s, bytes) else s
    case ObserveSnapshot => if s.view.Pending? then s.(view := s.view.(snapshot := true)) else s
    case ObserveSyncRequired => if s.view.Live? then Start(s, []) else s
    case ResetForReconnect =>
      if s.view.History? then Start(s, [])
      else if s.view.Pending? then s.(view := s.view.(snapshot := false))
      else s
    case FinishResume =>
      if s.view.Pending? && s.view.snapshot then s.(view := Live, released := s.released + [s.view.retained]) else s
    case EnterHistory => s.(view := History)
  }

  function Exec(run: seq<Call>): Option<State> {
    if run == [] then Some(Initial())
    else
      var before := Exec(run[..|run| - 1]);
      if before.Some? && Enabled(before.value, run[|run| - 1]) then Some(Do(before.value, run[|run| - 1])) else None
  }

  // ----- Results -------------------------------------------------------------------

  /** Every finished period gave back exactly what it accepted, in order and once;
      the present one still holds all of it, within the bound. */
  predicate Balanced(s: State) {
    && s.accepted == (if s.view.Pending? then s.released + [s.view.retained] else s.released)
    && (s.view.Pending? ==> |s.view.retained| <= RESUME_INPUT_BOUND)
  }

  lemma AppendBalanced(s: State, bytes: seq<byte>)
    requires s.view.Pending? && Balanced(s)
    ensures Balanced(Append(s, bytes))
  {
    assert (s.released + [s.view.retained])[|s.released| := s.view.retained + bytes] ==
      s.released + [s.view.retained + bytes];
  }

  lemma {:induction false} ReleasedExactlyOnce(run: seq<Call>)
    requires Exec(run).Some?
    ensures Balanced(Exec(run).value)
  {
    if run != [] {
      ReleasedExactlyOnce(run[..|run| - 1]);
      var s := Exec(run[..|run| - 1]).value;
      var c := run[|run| - 1];
      if (c.RetainOrResume? || c.BeginResume? || c.RetainResumeInput?) && s.view.Pending? {
        AppendBalanced(s, c.bytes);
      }
    }
  }

  /** A resume period is open after the first `i` calls. */
  predicate PendingAfter(run: seq<Call>, i: int) {
    0 <= i <= |run| && Exec(run[..i]).Some? && Exec(run[..i]).value.view.Pending?
  }

  /** At call `j` a snapshot was applied to the period that is still open, and no
      reconnect came after it. */
  predicate SnapshotAt(run: seq<Call>, j: int) {
    && 0 <= j < |run| && run[j].ObserveSnapshot?
    && (forall i :: j < i < |run| ==> !run[i].ResetForReconnect?)
    && (forall i :: j <= i <= |run| ==> PendingAfter(run, i))
  }

  lemma SamePrefix(run: seq<Call>, i: int)
    requires 0 <= i < |run|
    ensures PendingAfter(run[..|run| - 1], i) == PendingAfter(run, i)
  {
    assert run[..|run| - 1][..i] == run[..i];
  }

  lemma WholePrefix(run: seq<Call>)
    ensures PendingAfter(run, |run|) == (Exec(run).Some? && Exec(run).value.view.Pending?)
  {
    assert run[..|run|] == run;
  }

  lemma ExtendSnapshot(run: seq<Call>, j: int)
    requires run != [] && PendingAfter(run, |run|) && 0 <= j < |run| - 1
    ensures SnapshotAt(run[..|run| - 1], j) && !run[|run| - 1].ResetForReconnect? <==> SnapshotAt(run, j)
  {
    var front := run[..|run| - 1];
    forall i | 0 <= i <= |front| ensures PendingAfter(front, i) == PendingAfter(run, i) { SamePrefix(run, i); }
    assert SnapshotAt(run, j) ==> !run[|run| - 1].ResetForReconnect?;
    assert forall i :: 0 <= i < |front| ==> front[i] == run[i];
  }

  /** The flag that lets a resume finish is set exactly when the present period
      has applied a snapshot since the last reconnect. */
  lemma {:induction false} SnapshotFlagIsExact(run: seq<Call>)
    requires Exec(run).Some? && Exec(run).value.view.Pending?
    ensures Exec(run).value.view.snapshot <==> exists j :: SnapshotAt(run, j)
  {
    var n := |run| - 1;
    var front := run[..n];
    var s := Exec(front).value;
    WholePrefix(run);
    WholePrefix(front);
    SamePrefix(run, n);
    forall j | 0 <= j < n
      ensures SnapshotAt(front, j) && !run[n].ResetForReconnect? <==> SnapshotAt(run, j)
    {
      ExtendSnapshot(run, j);
    }
    assert SnapshotAt(run, n) <==> run[n].ObserveSnapshot? && s.view.Pending?;
    if s.view.Pending? {
      SnapshotFlagIsExact(front);
    } else {
      assert forall j :: SnapshotAt(front, j) ==> PendingAfter(front, n);
    }
  }

  // ----- No input is lost on the way -------------------------------------------------

  /** Input that a call must keep: it comes while the view is not live, or begins a
      resume, and it fits with what is kept already. */
  predicate MustKeep(v: View, c: Call) {
    && (c.BeginResume? || (c.RetainOrResume? && !v.Live?) || (c.RetainResumeInput? && v.Pending?))
    && (if v.Pending? then |v.retained| else 0) + |c.bytes| <= RESUME_INPUT_BOUND
  }

  /** All such input of a run, in order. */
  function Input(run: seq<Call>): seq<byte>
    requires Exec(run).Some?
  {
    if run == [] then []
    else
      var front, c := run[..|run| - 1], run[|run| - 1];
      Input(front) + if MustKeep(Exec(front).value.view, c) then c.bytes else []
  }

  function Concat(parts: seq<seq<byte>>): seq<byte> {
    if parts == [] then [] else Concat(parts[..|parts| - 1]) + parts[|parts| - 1]
  }

  lemma ConcatMore(parts: seq<seq<byte>>, last: seq<byte>)
    ensures Concat(parts + [last]) == Concat(parts) + last
  {
    assert (parts + [last])[..|parts|] == parts;
  }

  /** What has been given back, and what is held to be given back. */
  function Accounted(s: State): seq<byte> { Concat(s.released) + if s.view.Pending? then s.view.retained else [] }

  lemma AccountedStep(s: State, c: Call)
    requires Enabled(s, c)
    ensures Accounted(Do(s, c)) == Accounted(s) + if MustKeep(s.view, c) then c.bytes else []
  {
    if c.FinishResume? && s.view.Pending? && s.view.snapshot { ConcatMore(s.released, s.view.retained); }
  }

  /** Every byte of input that a call must keep has been given back or is still held,
      exactly once and in order; nothing else is. */
  lemma {:induction false} InputIsKept(run: seq<Call>)
    requires Exec(run).Some?
    ensures Accounted(Exec(run).value) == Input(run)
  {
    if run != [] {
      InputIsKept(run[..|run| - 1]);
      AccountedStep(Exec(run[..|run| - 1]).value, run[|run| - 1]);
    }
  }

  // ----- Live means synchronised -----------------------------------------------------

  /** The view shows history, or waits for a snapshot. */
  predicate Behind(v: View) { v.History? || (v.Pending? && !v.snapshot) }

  /** A snapshot at call `k`, and no reconnect since. */
  predicate Caught(run: seq<Call>, j: nat, k: int) {
    j <= k < |run| && run[k].ObserveSnapshot? && forall i :: k < i < |run| ==> !run[i].ResetForReconnect?
  }

  /** From call `j` on, a resume finished upon such a snapshot. */
  ghost predicate CaughtUp(run: seq<Call>, j: nat, l: int) {
    j <= l < |run| && run[l].FinishResume? && exists k :: Caught(run[..l], j, k)
  }

  ghost predicate CatchesUp(run: seq<Call>, j: nat) { exists l :: CaughtUp(run, j, l) }

  lemma CaughtMore(run: seq<Call>, j: nat, k: int)
    requires run != [] && Caught(run[..|run| - 1], j, k)
    ensures !run[|run| - 1].ResetForReconnect? ==> Caught(run, j, k)
  {
    assert forall i :: 0 <= i < |run| - 1 ==> run[..|run| - 1][i] == run[i];
  }

  lemma CaughtUpMore(run: seq<Call>, j: nat, l: int)
    requires run != [] && CaughtUp(run[..|run| - 1], j, l)
    ensures CaughtUp(run, j, l)
  {
    assert run[..|run| - 1][..l] == run[..l];
  }

  /** A view that was behind after `j` calls is live again only when a resume has
      finished upon a snapshot that came later and that no reconnect has outdated. */
  lemma {:induction false} LiveIsCaughtUp(run: seq<Call>, j: nat)
    requires Exec(run).Some? && j <= |run| && Exec(run[..j]).Some? && Behind(Exec(run[..j]).value.view)
    ensures Exec(run).value.view.Live? ==> CatchesUp(run, j)
    ensures Exec(run).value.view.Pending? && Exec(run).value.view.snapshot ==> exists k :: Caught(run, j, k)
    decreases |run|
  {
    var n := |run| - 1;
    if j == |run| {
      assert run[..j] == run;
    } else {
      var front := run[..n];
      assert front[..j] == run[..j];
      LiveIsCaughtUp(front, j);
      var s, t := Exec(front).value, Exec(run).value;
      if t.view.Live? {
        if s.view.Live? {
          var l :| CaughtUp(front, j, l);
          CaughtUpMore(run, j, l);
        } else {
          var k :| Caught(front, j, k);
          assert CaughtUp(run, j, n);
        }
      } else if t.view.Pending? && t.view.snapshot {
        if run[n].ObserveSnapshot? {
          assert Caught(run, j, n);
        } else {
          var k :| Caught(front, j, k);
          CaughtMore(run, j, k);
        }
      }
    }
  }

  lemma OneMore(run: seq<Call>, c: Call)
    requires Exec(run).Some? && Enabled(Exec(run).value, c)
    ensures Exec(run + [c]) == Some(Do(Exec(run).value, c))
  {
    assert (run + [c])[..|run|] == run;
  }

  /** After `c`, the view cannot be live without catching up first. */
  ghost predicate MustCatchUp(run: seq<Call>, c: Call) {
    forall more :: Exec(run + [c] + more).Some? && Exec(run + [c] + more).value.view.Live? ==>
      CatchesUp(run + [c] + more, |run + [c]|)
  }

  lemma MustFrom(run: seq<Call>, c: Call)
    requires Exec(run + [c]).Some? && Behind(Exec(run + [c]).value.view)
    ensures MustCatchUp(run, c)
  {
    forall more | Exec(run + [c] + more).Some? && Exec(run + [c] + more).value.view.Live?
      ensures CatchesUp(run + [c] + more, |run + [c]|)
    {
      assert (run + [c] + more)[..|run + [c]|] == run + [c];
      LiveIsCaughtUp(run + [c] + more, |run + [c]|);
    }
  }

  /** A lost synchronisation is made good before the view is live, exactly unless a
      resume had its snapshot already; a reconnect, exactly unless the view is live;
      and leaving the live view for history, always. */
  lemma CatchesUpExactly(run: seq<Call>)
    requires Exec(run).Some?
    ensures
      var v := Exec(run).value.view;
      && (MustCatchUp(run, ObserveSyncRequired) <==> !(v.Pending? && v.snapshot))
      && (MustCatchUp(run, ResetForReconnect) <==> !v.Live?)
      && (!v.Pending? ==> MustCatchUp(run, EnterHistory))
  {
    var v := Exec(run).value.view;
    OneMore(run, ObserveSyncRequired);
    OneMore(run, ResetForReconnect);
    if v.Pending? && v.snapshot { NeedNot(run, ObserveSyncRequired); } else { MustFrom(run, ObserveSyncRequired); }
    if v.Live? { NeedNot(run, ResetForReconnect); } else { MustFrom(run, ResetForReconnect); }
    if !v.Pending? {
      OneMore(run, EnterHistory);
      MustFrom(run, EnterHistory);
    }
  }

  /** The view is live at once, or upon a finish. */
  lemma NeedNot(run: seq<Call>, c: Call)
    requires Exec(run + [c]).Some?
    requires var v := Exec(run + [c]).value.view; v.Live? || (v.Pending? && v.snapshot)
    ensures !MustCatchUp(run, c)
  {
    OneMore(run + [c], FinishResume);
    NoRoomToCatchUp(run + [c] + [FinishResume], |run + [c]|);
  }

  lemma NoRoomToCatchUp(run: seq<Call>, j: nat)
    requires |run| == j + 1
    ensures !CatchesUp(run, j)
  {
    forall l ensures !CaughtUp(run, j, l) {
      if l == j { assert forall k :: !Caught(run[..l], j, k); }
    }
  }

  // ----- The controller as it is updated in place ----------------------------------

  /** The part of the viewport controller that takes part in resuming. Each
      method ends in the state the corresponding call specifies. */
  class ViewportController {
    var view: View
    ghost var log: State

    ghost predicate Valid()
      reads this
    {
      view == log.view && Balanced(log)
    }

    constructor ()
      ensures Valid() && log == Initial()
    {
      view, log := Live, Initial();
    }

    /** Admits the whole input unit or none of it. */
    method AppendResumeInput(bytes: seq<byte>) returns (ok: bool)
      requires Valid() && view.Pending?
      modifies this
      ensures Valid() && log == Append(old(log), bytes)
      ensures ok <==> |old(view).retained| + |bytes| <= RESUME_INPUT_BOUND
      ensures !ok ==> log == old(log)
      ensures ok ==> view.Pending? && view.retained == old(view).retained + bytes
    {
      AppendBalanced(log, bytes);
      log := Append(log, bytes);
      if |view.retained| + |bytes| > RESUME_INPUT_BOUND { return false; }
      view := view.(retained := view.retained + bytes);
      ok := true;
    }

    method StartResume(bytes: seq<byte>)
      requires Valid() && !view.Pending? && |bytes| <= RESUME_INPUT_BOUND
      modifies this
      ensures Valid() && log == Start(old(log), bytes)
    {
      view, log := Pending(bytes, false), Start(log, bytes);
    }

    method Begin(bytes: seq<byte>) returns (ok: bool)
      requires Valid()
      modifies this
      ensures Valid() && log == Do(old(log), BeginResume(bytes))
      ensures !ok ==> log == old(log)
      ensures ok <==> (if old(view).Pending? then |old(view).retained| else 0) + |bytes| <= RESUME_INPUT_BOUND
      ensures ok ==> view.Pending? && view.retained == (if old(view).Pending? then old(view).retained else []) + bytes
    {
      if view.Pending? {
        ok := AppendResumeInput(bytes);
        return;
      }
      if |bytes| > RESUME_INPUT_BOUND { return false; }
      StartResume(bytes);
      ok := true;
    }

    method RetainOrBegin(bytes: seq<byte>) returns (ok: bool)
      requires Valid()
      modifies this
      ensures Valid() && log == Do(old(log), RetainOrResume(bytes))
      ensures !ok ==> log == old(log)
      ensures ok <==> old(view).Live? || MustKeep(old(view), RetainOrResume(bytes))
    {
      match view
      case Live => return true;
      case History => ok := Begin(bytes);
      case Pending(_, _) => ok := AppendResumeInput(bytes);
    }

    method Observe(c: Call)
      requires Valid() && (c.ObserveSnapshot? || c.ObserveSyncRequired? || c.ResetForReconnect?)
      modifies this
      ensures Valid() && log == Do(old(log), c)
    {
      if (c.ObserveSyncRequired? && view.Live?) || (c.ResetForReconnect? && view.History?) {
        StartResume([]);
      } else if view.Pending? && !c.ObserveSyncRequired? {
        view, log := view.(snapshot := c.ObserveSnapshot?), Do(log, c);
      }
    }

    /** Hands over all retained input and goes live, if a snapshot was applied. */
    method Finish() returns (r: Option<seq<byte>>)
      requires Valid()
      modifies this
      ensures Valid() && log == Do(old(log), FinishResume)
      ensures r.Some? <==> old(view).Pending? && old(view).snapshot
      ensures r.Some? ==> view.Live? && log.released == old(log).released + [r.value]
                          && r.value == old(log).accepted[|old(log).accepted| - 1]
    {
      if !view.Pending? || !view.snapshot { return None; }
      r := Some(view.retained);
      view, log := Live, Do(log, FinishResume);
    }
  }
}
