/** One attachment epoch and the transport that owns it (crates/client/src/transport.rs):
    a write takes the epoch out while it runs and puts it back only when the
    stream is still framed, so an interrupted command is the last thing an epoch
    ever carries. */
module Attachment {
  import opened Basics

  /** How the adapter's write went, with the number of bytes that got through.
      `Interrupted` is a timeout, a failure of another kind, or the caller
      abandoning the write; `HalfClosed` says the write half is closed. */
  datatype WriteOutcome = Done | HalfClosed(sent: nat) | Interrupted(sent: nat)

  datatype Action =
    | Write(command: seq<byte>, expired: bool, outcome: WriteOutcome)
    | Read
    | Shutdown
    | Invalidate

  /** A command given to the epoch and how many of its bytes got through. */
  datatype Offer = Offer(command: seq<byte>, sent: nat)

  datatype Epoch = Epoch(open: bool, writable: bool, offers: seq<Offer>)

  function Initial(): Epoch { Epoch(true, true, []) }

  /** A closed write half stays closed, so nothing more gets through it. */
  predicate Enabled(e: Epoch, a: Action) {
    a.Write? && e.open && !a.expired ==>
      match a.outcome
      case Done => e.writable
      case HalfClosed(sent) => sent <= |a.command| && (!e.writable ==> sent == 0)
      case Interrupted(sent) => sent <= |a.command| && (!e.writable ==> sent == 0)
  }

  function DoWrite(e: Epoch, a: Action): Epoch
    requires a.Write? && Enabled(e, a)
  {
    if !e.open then e
    else if a.expired then e.(open := false)
    else
      match a.outcome
      case Done => e.(offers := e.offers + [Offer(a.command, |a.command|)])
      case HalfClosed(sent) => e.(writable := false, offers := e.offers + [Offer(a.command, sent)])
      case Interrupted(sent) => e.(open := false, offers := e.offers + [Offer(a.command, sent)])
  }

  function Do(e: Epoch, a: Action): Epoch
    requires Enabled(e, a)
  {
    match a
    case Write(_, _, _) => DoWrite(e, a)
    case Read => e
    case Shutdown => e.(open := false)
    case Invalidate => e.(open := false)
  }

  function Exec(run: seq<Action>): Option<Epoch> {
    if run == [] then Some(Initial())
    else
      var before := Exec(run[..|run| - 1]);
      var a := run[|run| - 1];
      if before.Some? && Enabled(before.value, a) then Some(Do(before.value, a)) else None
  }

  /** The bytes the epoch has carried. */
  function Carried(offers: seq<Offer>): seq<byte>
    requires forall i :: 0 <= i < |offers| ==> offers[i].sent <= |offers[i].command|
  {
    if offers == [] then []
    else Carried(offers[..|offers| - 1]) + offers[|offers| - 1].command[..offers[|offers| - 1].sent]
  }

  /** The commands of the first `n` offers, whole. */
  function Whole(offers: seq<Offer>, n: nat): seq<byte>
    requires n <= |offers|
  {
    if n == 0 then [] else Whole(offers, n - 1) + offers[n - 1].command
  }

  /** How many offers there are before the first incomplete one. */
  function WholeOffers(offers: seq<Offer>): (k: nat)
    ensures k <= |offers| && forall i :: 0 <= i < k ==> offers[i].sent >= |offers[i].command|
    ensures k < |offers| ==> offers[k].sent < |offers[k].command|
  {
    if offers == [] then 0
    else
      var n := |offers| - 1;
      var k := WholeOffers(offers[..n]);
      if k < n || offers[n].sent < |offers[n].command| then k else n + 1
  }

  /** Bounded, and nothing follows an incomplete command. */
  predicate Framed(offers: seq<Offer>) {
    && (forall i :: 0 <= i < |offers| ==> offers[i].sent <= |offers[i].command|)
    && (forall i, j :: 0 <= i < j < |offers| && offers[i].sent < |offers[i].command| ==> offers[j].sent == 0)
  }

  predicate Inv(e: Epoch) {
    && Framed(e.offers)
    && (e.open && e.writable ==> forall i :: 0 <= i < |e.offers| ==> e.offers[i].sent == |e.offers[i].command|)
  }

  lemma {:induction false} InvHolds(run: seq<Action>)
    requires Exec(run).Some?
    ensures Inv(Exec(run).value)
  {
    if run != [] { InvHolds(run[..|run| - 1]); }
  }

  lemma {:induction false} WholeOfFront(offers: seq<Offer>, m: nat, n: nat)
    requires n <= m <= |offers|
    ensures Whole(offers[..m], n) == Whole(offers, n)
  {
    if n > 0 { WholeOfFront(offers, m, n - 1); }
  }

  /** The first `k` commands whole, then what got through of the next. */
  function Stream(offers: seq<Offer>, k: nat): seq<byte>
    requires k <= |offers| && (k < |offers| ==> offers[k].sent <= |offers[k].command|)
  {
    Whole(offers, k) + if k < |offers| then offers[k].command[..offers[k].sent] else []
  }

  predicate Fit(offers: seq<Offer>) { forall i :: 0 <= i < |offers| ==> offers[i].sent <= |offers[i].command| }

  lemma TornBefore(offers: seq<Offer>, last: Offer, k: nat)
    requires k < |offers| && Fit(offers) && last.sent == 0
    ensures Stream(offers + [last], k) == Stream(offers, k) + last.command[..last.sent]
  {
    WholeOfFront(offers + [last], |offers|, k);
    assert (offers + [last])[..|offers|] == offers;
  }

  lemma NotTornBefore(offers: seq<Offer>, last: Offer)
    requires Fit(offers) && last.sent <= |last.command|
    ensures
      var all, n := offers + [last], |offers|;
      && Stream(all, n) == Stream(offers, n) + last.command[..last.sent]
      && (last.sent == |last.command| ==> Stream(all, n + 1) == Stream(all, n))
  {
    WholeOfFront(offers + [last], |offers|, |offers|);
    assert (offers + [last])[..|offers|] == offers;
    assert last.command[..|last.command|] == last.command;
  }

  lemma CarriedMore(offers: seq<Offer>, last: Offer)
    requires Fit(offers) && last.sent <= |last.command|
    ensures Fit(offers + [last])
    ensures Carried(offers + [last]) == Carried(offers) + last.command[..last.sent]
  {
    assert (offers + [last])[..|offers|] == offers;
  }

  lemma WholeMore(offers: seq<Offer>, last: Offer)
    ensures WholeOffers(offers + [last]) ==
      if WholeOffers(offers) < |offers| || last.sent < |last.command| then WholeOffers(offers) else |offers| + 1
  {
    assert (offers + [last])[..|offers|] == offers;
  }

  lemma {:induction false} FramedBytes(offers: seq<Offer>)
    requires Framed(offers)
    ensures Carried(offers) == Stream(offers, WholeOffers(offers))
  {
    if offers != [] {
      var n := |offers| - 1;
      var front, last := offers[..n], offers[n];
      assert offers == front + [last];
      FramedBytes(front);
      CarriedMore(front, last);
      WholeMore(front, last);
      var k := WholeOffers(front);
      if k < n {
        assert offers[k].sent < |offers[k].command|;
        TornBefore(front, last, k);
      } else {
        NotTornBefore(front, last);
      }
    }
  }

  /** Over any run, an epoch carries whole commands in the order they were given,
      then at most one command's prefix, and after that not one byte more; while
      it is open and writable it has carried whole commands only. */
  lemma EpochStaysFramed(run: seq<Action>)
    requires Exec(run).Some?
    ensures var e := Exec(run).value;
      && Framed(e.offers)
      && var k := WholeOffers(e.offers);
      && Carried(e.offers) == Stream(e.offers, k)
      && (e.open && e.writable ==> k == |e.offers|)
      && (forall j :: k < j < |e.offers| ==> e.offers[j].sent == 0)
  {
    InvHolds(run);
    FramedBytes(Exec(run).value.offers);
  }

  // ----- What closes an epoch, and what it is given -----------------------------------

  /** Actions after which nothing is known to be framed, or nothing more is wanted. */
  predicate Closes(a: Action) {
    a.Shutdown? || a.Invalidate? || (a.Write? && (a.expired || a.outcome.Interrupted?))
  }

  predicate ClosesHalf(a: Action) { a.Write? && !a.expired && a.outcome.HalfClosed? }

  predicate Untouched(run: seq<Action>) { forall i :: 0 <= i < |run| ==> !Closes(run[i]) }

  predicate HalfOpen(run: seq<Action>) { exists i :: 0 <= i < |run| && ClosesHalf(run[i]) && Untouched(run[..i]) }

  /** The commands of the writes that found the epoch open and time to run. */
  function Given(run: seq<Action>): seq<seq<byte>> {
    if run == [] then []
    else
      var front, a := run[..|run| - 1], run[|run| - 1];
      Given(front) + if Untouched(front) && a.Write? && !a.expired then [a.command] else []
  }

  function Commands(offers: seq<Offer>): seq<seq<byte>> {
    seq(|offers|, i requires 0 <= i < |offers| => offers[i].command)
  }

  lemma TouchedMore(front: seq<Action>, a: Action)
    ensures Untouched(front + [a]) <==> Untouched(front) && !Closes(a)
    ensures HalfOpen(front + [a]) <==> HalfOpen(front) || (ClosesHalf(a) && Untouched(front))
  {
    var run := front + [a];
    assert run[|front|] == a && run[..|front|] == front;
    forall i | 0 <= i < |front| ensures run[i] == front[i] && run[..i] == front[..i] {}
  }

  /** An epoch stays open exactly until an action closes it: a finished write does
      not, nor does a closed write half, which only ends what can be written. What it
      is given are the commands of the writes up to then, each once and in order. */
  lemma {:induction false} OpenUntilClosed(run: seq<Action>)
    requires Exec(run).Some?
    ensures
      var e := Exec(run).value;
      && (e.open <==> Untouched(run))
      && (e.writable <==> !HalfOpen(run))
      && Commands(e.offers) == Given(run)
  {
    if run != [] {
      var front, a := run[..|run| - 1], run[|run| - 1];
      OpenUntilClosed(front);
      TouchedMore(front, a);
      assert run == front + [a];
    }
  }

  // ----- The transport as it is updated in place ---------------------------------

  /** The adapter of one epoch. */
  class Io {
    var writable: bool
    var offers: seq<Offer>

    constructor ()
      ensures writable && offers == []
    {
      writable, offers := true, [];
    }

    method Write(command: seq<byte>, outcome: WriteOutcome)
      modifies this
      ensures writable == (old(writable) && !outcome.HalfClosed?)
      ensures offers == old(offers) + [Offer(command, if outcome.Done? then |command| else outcome.sent)]
    {
      match outcome {
        case Done => offers := offers + [Offer(command, |command|)];
        case HalfClosed(sent) =>
          writable := false;
          offers := offers + [Offer(command, sent)];
        case Interrupted(sent) => offers := offers + [Offer(command, sent)];
      }
    }
  }

  class AttachmentTransport {
    var slot: Option<Io>
    ghost var epoch: Epoch

    ghost predicate Valid()
      reads this, if slot.Some? then {slot.value} else {}
    {
      && Inv(epoch)
      && slot.Some? == epoch.open
      && (slot.Some? ==> slot.value.writable == epoch.writable && slot.value.offers == epoch.offers)
    }

    constructor (io: Io)
      requires io.writable && io.offers == []
      ensures Valid() && slot == Some(io) && epoch == Initial()
    {
      slot := Some(io);
      epoch := Initial();
    }

    /** The epoch is out of the slot while the write runs, so a write that is cut
        short leaves it out; only a finished write or a closed write half puts it
        back. */
    method WriteUntil(a: Action) returns (ok: bool)
      requires Valid() && a.Write? && Enabled(epoch, a)
      modifies this, if slot.Some? then {slot.value} else {}
      ensures Valid() && epoch == Do(old(epoch), a)
      ensures ok <==> old(epoch).open && !a.expired && a.outcome.Done?
    {
      var taken := slot;
      slot := None;
      ghost var before := epoch;
      epoch := Do(epoch, a);
      if taken.None? || a.expired {
        return false;
      }
      taken.value.Write(a.command, a.outcome);
      if a.outcome.Done? || a.outcome.HalfClosed? {
        slot := taken;
      }
      ok := a.outcome.Done?;
    }

    method Retire()
      requires Valid()
      modifies this
      ensures Valid() && slot == None && epoch == Do(old(epoch), Invalidate)
    {
      slot := None;
      epoch := Do(epoch, Invalidate);
    }
  }
}
