/** `HostInputCodec` as the program runs it: fields updated in place by a loop.
    Each turn is proved to be `HostInput.Step`, each feed `HostInput.Run`. */
module HostInputDecoder {
  import opened Basics
  import opened HostInput
  import Conservation
  import L = Lifetimes

  datatype Result<+T> = Ok(value: T) | PasteOverflow

  /** How one turn of the loop ends. */
  datatype Control = Continue | Break | Fail

  lemma CollectWhole(events: seq<Event>, raw: seq<byte>, more: seq<Event>)
    requires forall i :: 0 <= i < |more| ==> !more[i].Bytes?
    ensures Collect(events, Pieces(raw, more)) == events + more
  {
    CollectFrom(events, Pieces(raw, more), more);
  }

  lemma {:induction false} CollectFrom(events: seq<Event>, log: seq<Piece>, more: seq<Event>)
    requires |log| == |more|
    requires forall i :: 0 <= i < |more| ==> log[i].event == more[i] && !more[i].Bytes?
    ensures Collect(events, log) == events + more
    decreases |log|
  {
    if more != [] {
      CollectFrom(events + [more[0]], log[1..], more[1..]);
      assert events + [more[0]] + more[1..] == events + more;
    } else {
      assert events + more == events;
    }
  }

  lemma CollectOne(events: seq<Event>, raw: seq<byte>, e: Event)
    ensures Collect(events, Pieces(raw, [e])) == Push(events, e)
  {
    assert Pieces(raw, [e]) == [Piece(raw, e)];
    assert Collect(Push(events, e), []) == Push(events, e);
    assert [Piece(raw, e)][1..] == [];
  }

  lemma {:induction false} CollectConcat(events: seq<Event>, a: seq<Piece>, b: seq<Piece>)
    ensures Collect(events, a + b) == Collect(Collect(events, a), b)
    decreases |a|
  {
    if a == [] {
      assert a + b == b;
    } else {
      assert (a + b)[1..] == a[1..] + b;
      CollectConcat(Push(events, a[0].event), a[1..], b);
    }
  }

  /** `for index in start..pending.len()`, tracking UTF-8 continuation bytes. */
  method ScanOsc(p: seq<byte>, start: nat, initialTail: nat) returns (r: OscScanResult)
    requires start <= |p|
    ensures r == OscScan(p, start, initialTail) && IsFirstEnd(p, start, initialTail, r)
  {
    OscScanIsFirst(p, start, initialTail);
    var tail := initialTail;
    var index := start;
    while index < |p|
      invariant start <= index <= |p|
      invariant OscScan(p, start, initialTail) == OscScan(p, index, tail)
    {
      var b := p[index];
      if tail != 0 && IsContinuation(b) {
        tail := tail - 1;
      } else {
        tail := LeadTail(b);
        if IsOscEnd(b) { return End(index, 1); }
        if b == ESC && index + 1 < |p| && p[index + 1] == 0x5c { return End(index, 2); }
      }
      index := index + 1;
    }
    return NoEnd(tail);
  }

  method PushReplies(events: seq<Event>, replies: seq<HostReply>, count: nat) returns (r: seq<Event>)
    requires replies != []
    ensures r == events + ReplyEvents(replies, count)
  {
    r := events;
    for index := 0 to |replies|
      invariant r == events + ReplyEvents(replies, count)[..index]
    {
      r := r + [TerminalReply(replies[index], if index == 0 then count else 0)];
    }
  }

  /** The two filters over the decoded events. */
  method KeepCurrent(c: L.Chunk, sourceEpoch: nat, sourceGeometry: nat, current: nat, currentGeometry: nat,
                     events: seq<Event>, ghost s: L.Tagged) returns (kept: seq<Event>)
    requires sourceEpoch == L.SourceEpoch(s, c) && sourceGeometry == L.SourceGeometry(s, c)
    ensures kept == L.Filtered(s, c, current, currentGeometry, events)
  {
    kept := [];
    for i := 0 to |events|
      invariant kept == L.Filtered(s, c, current, currentGeometry, events[..i])
    {
      var e := events[i];
      L.FilteredAppend(s, c, current, currentGeometry, events[..i], e);
      assert events[..i + 1] == events[..i] + [e];
      if (!e.Mouse? || (c.geometry == currentGeometry && sourceGeometry == currentGeometry))
         && (e.TerminalReply? || (c.epoch == current && sourceEpoch == current)) {
        kept := kept + [e];
      }
    }
    assert events[..|events|] == events;
  }

  class HostInputCodec {
    const parsers: Parsers
    var pending: seq<byte>
    var inPaste: bool
    var discardingOsc: bool
    var oscUtf8Tail: nat
    var discardingCsi: bool
    var utf8Tail: nat
    var pendingEpoch: Option<nat>
    var pendingGeometry: Option<nat>

    function ModeOf(): Mode
      reads this
    {
      Mode(inPaste, discardingOsc, oscUtf8Tail, discardingCsi, utf8Tail)
    }

    function State(): L.Tagged
      reads this
    {
      L.Tagged(ModeOf(), pending, pendingEpoch, pendingGeometry)
    }

    ghost predicate Valid()
      reads this
    {
      Conservation.ValidState(ModeOf(), pending)
    }

    constructor (parsers: Parsers)
      ensures Valid() && State() == L.FRESH && this.parsers == parsers
    {
      this.parsers := parsers;
      pending, inPaste, discardingOsc, oscUtf8Tail, discardingCsi, utf8Tail := [], false, false, 0, false, 0;
      pendingEpoch, pendingGeometry := None, None;
    }

    /** What one turn must do, given the action `Step` prescribes. */
    ghost predicate Applied(a: Action, was: seq<byte>, before: seq<Event>, after: seq<Event>, control: Control)
      reads this
    {
      match a
      case Overflow => control == Fail && pending == was && inPaste && after == before
      case Wait(next) => control == Break && ModeOf() == next && pending == was && after == before
      case Consume(n, events, next) =>
        && control == Continue && ModeOf() == next
        && n <= |was| && pending == was[n..]
        && after == Collect(before, Pieces(was[..n], events))
      case Flush(n, events, next) =>
        && control == Break && ModeOf() == next
        && n <= |was| && pending == was[n..]
        && after == Collect(before, Pieces(was[..n], events))
    }

    method TurnPaste(events: seq<Event>) returns (after: seq<Event>, control: Control)
      requires inPaste
      modifies this`pending, this`inPaste, this`discardingOsc, this`oscUtf8Tail, this`discardingCsi, this`utf8Tail
      ensures Applied(PasteStep(old(ModeOf()), old(pending)), old(pending), events, after, control)
    {
      var index := FindPasteEnd(pending, 0);
      if index < |pending| {
        var end := index + |PASTE_END|;
        if end > RESUME_INPUT_BOUND { return events, Fail; }
        CollectOne(events, pending[..end], Paste(pending[..end]));
        after := events + [Paste(pending[..end])];
        pending := pending[end..];
        inPaste := false;
        return after, Continue;
      }
      if |pending| > RESUME_INPUT_BOUND { return events, Fail; }
      return events, Break;
    }

    method TurnDiscardCsi(events: seq<Event>) returns (after: seq<Event>, control: Control)
      requires discardingCsi && pending != []
      modifies this`pending, this`inPaste, this`discardingOsc, this`oscUtf8Tail, this`discardingCsi, this`utf8Tail
      ensures Applied(DiscardCsiStep(old(ModeOf()), old(pending)), old(pending), events, after, control)
    {
      var end := FirstFinal(pending, 0);
      var count := if end < |pending| then end + 1 else |pending|;
      CollectOne(events, pending[..count], TerminalReply(Ignored, count));
      discardingCsi := end == |pending|;
      pending := pending[count..];
      return events + [TerminalReply(Ignored, count)], Continue;
    }

    /** Reports one terminated OSC string of `count` bytes. */
    method FinishOsc(events: seq<Event>, count: nat, replies: seq<HostReply>)
      returns (after: seq<Event>, control: Control)
      requires count <= |pending| && replies != []
      modifies this`pending, this`inPaste, this`discardingOsc, this`oscUtf8Tail, this`discardingCsi, this`utf8Tail
      ensures Applied(Consume(count, ReplyEvents(replies, count), old(ModeOf()).(discardOsc := false, oscTail := 0)),
                      old(pending), events, after, control)
    {
      CollectWhole(events, pending[..count], ReplyEvents(replies, count));
      after := PushReplies(events, replies, count);
      pending := pending[count..];
      discardingOsc := false;
      oscUtf8Tail := 0;
      return after, Continue;
    }

    /** Drops an OSC string that is too long, up to a final escape. */
    method DropOsc(events: seq<Event>, count: nat, tail: nat) returns (after: seq<Event>, control: Control)
      requires count <= |pending|
      modifies this`pending, this`inPaste, this`discardingOsc, this`oscUtf8Tail, this`discardingCsi, this`utf8Tail
      ensures Applied(
        Flush(count, [TerminalReply(Ignored, count)], old(ModeOf()).(discardOsc := true, oscTail := tail)),
                      old(pending), events, after, control)
    {
      CollectOne(events, pending[..count], TerminalReply(Ignored, count));
      pending := pending[count..];
      discardingOsc := true;
      oscUtf8Tail := tail;
      return events + [TerminalReply(Ignored, count)], Break;
    }

    method TurnOsc(events: seq<Event>) returns (after: seq<Event>, control: Control)
      requires pending != [] && (OscPrefix(pending) != 0 || discardingOsc)
      modifies this`pending, this`inPaste, this`discardingOsc, this`oscUtf8Tail, this`discardingCsi, this`utf8Tail
      ensures Applied(OscStep(parsers, old(ModeOf()), old(pending)), old(pending), events, after, control)
    {
      var start := if discardingOsc then 0 else OscPrefix(pending);
      var scan := ScanOsc(pending, start, if discardingOsc then oscUtf8Tail else 0);
      match scan {
        case End(end, length) =>
          var count := end + length;
          var replies :=
            if discardingOsc || count > OSC_BOUND || pending[end] == 0x18 || pending[end] == 0x1a then [Ignored]
            else OscReplies(parsers, pending[start..end]);
          assert OscStep(parsers, ModeOf(), pending)
              == Consume(count, ReplyEvents(replies, count), ModeOf().(discardOsc := false, oscTail := 0));
          after, control := FinishOsc(events, count, replies);
        case NoEnd(tail) =>
          if |pending| > OSC_BOUND {
            var count := if pending[|pending| - 1] == ESC then |pending| - 1 else |pending|;
            assert OscStep(parsers, ModeOf(), pending)
                == Flush(count, [TerminalReply(Ignored, count)], ModeOf().(discardOsc := true, oscTail := tail));
            after, control := DropOsc(events, count, tail);
          } else {
            return events, Break;
          }
      }
    }

    /** Removes `length` bytes that make up one event other than plain text. */
    method Take(events: seq<Event>, length: nat, e: Event) returns (after: seq<Event>, control: Control)
      requires length <= |pending| && !e.Bytes?
      modifies this`pending
      ensures Applied(Consume(length, [e], old(ModeOf())), old(pending), events, after, control)
    {
      CollectOne(events, pending[..length], e);
      pending := pending[length..];
      return events + [e], Continue;
    }

    method TurnSequence(events: seq<Event>) returns (after: seq<Event>, control: Control)
      requires pending != []
      modifies this`pending, this`inPaste, this`discardingOsc, this`oscUtf8Tail, this`discardingCsi, this`utf8Tail
      ensures Applied(SequenceStep(parsers, old(ModeOf()), old(pending)), old(pending), events, after, control)
    {
      if PAGE_UP <= pending {
        after, control := Take(events, |PAGE_UP|, PageUp);
        return;
      }
      if PAGE_DOWN <= pending {
        after, control := Take(events, |PAGE_DOWN|, PageDown);
        return;
      }
      if MOUSE_START <= pending {
        var end := FirstMouseEnd(pending, 0);
        if end < |pending| {
          after, control := Take(events, end + 1, MouseEvent(pending[..end + 1]));
          return;
        }
        if |pending| < HOST_SEQUENCE_BOUND { return events, Break; }
      }
      if IsCsi(pending) {
        var end := FirstFinal(pending, IntroducerLength(pending));
        if end < |pending| {
          after, control := Take(events, end + 1, CsiEvent(parsers, pending[..end + 1]));
          return;
        }
        if |pending| < HOST_SEQUENCE_BOUND { return events, Break; }
        if IsColorCsi(pending) {
          var count := |pending|;
          CollectOne(events, pending[..count], TerminalReply(Ignored, count));
          pending := pending[count..];
          discardingCsi := true;
          return events + [TerminalReply(Ignored, count)], Break;
        }
      }
      after, control := TurnText(events);
    }

    method TurnText(events: seq<Event>) returns (after: seq<Event>, control: Control)
      requires pending != []
      modifies this`pending, this`inPaste, this`discardingOsc, this`oscUtf8Tail, this`discardingCsi, this`utf8Tail
      ensures Applied(TextStep(old(ModeOf()), old(pending)), old(pending), events, after, control)
    {
      if KnownHostPrefix(pending) { return events, Break; }
      if pending[0] == ESC && !([0x1b, 0x5b] <= pending) {
        var length := AltLength(pending[1]);
        if |pending| < length { return events, Break; }
        after, control := Take(events, length, Opaque(pending[..length]));
        return;
      }
      utf8Tail := LeadTail(pending[0]);
      after, control := PushHostByte(events);
    }

    /** Moves the first byte into the events, joining text that precedes it. */
    method PushHostByte(events: seq<Event>) returns (after: seq<Event>, control: Control)
      requires pending != []
      modifies this`pending
      ensures Applied(Consume(1, [TextEvent(old(pending)[0])], old(ModeOf())), old(pending), events, after, control)
    {
      var b := pending[0];
      CollectOne(events, pending[..1], TextEvent(b));
      if b == 0x03 {
        after := events + [LegacyCtrlC];
      } else if events != [] && events[|events| - 1].Bytes? {
        var last := |events| - 1;
        after := events[..last] + [Bytes(events[last].text + [b])];
      } else {
        after := events + [Bytes([b])];
      }
      pending := pending[1..];
      return after, Continue;
    }

    /** One turn of the loop. */
    method Turn(events: seq<Event>) returns (after: seq<Event>, control: Control)
      requires pending != []
      modifies this`pending, this`inPaste, this`discardingOsc, this`oscUtf8Tail, this`discardingCsi, this`utf8Tail
      ensures Applied(Step(parsers, old(ModeOf()), old(pending)), old(pending), events, after, control)
    {
      if inPaste {
        after, control := TurnPaste(events);
        return;
      }
      if !discardingOsc && !discardingCsi && PASTE_START <= pending {
        inPaste := true;
        assert Pieces(pending[..0], []) == [];
        return events, Continue;
      }
      if discardingCsi {
        after, control := TurnDiscardCsi(events);
        return;
      }
      if utf8Tail != 0 {
        if IsContinuation(pending[0]) {
          utf8Tail := utf8Tail - 1;
          after, control := PushHostByte(events);
          return;
        }
        utf8Tail := 0;
      }
      if OscPrefix(pending) != 0 || discardingOsc {
        after, control := TurnOsc(events);
        return;
      }
      after, control := TurnSequence(events);
    }

    /** A turn moves its events from what `Run` still has to say to the log. */
    method LoggedTurn(events: seq<Event>, ghost log: seq<Piece>)
      returns (after: seq<Event>, control: Control, ghost longer: seq<Piece>)
      requires pending != [] && events == Collect([], log)
      modifies this`pending, this`inPaste, this`discardingOsc, this`oscUtf8Tail, this`discardingCsi, this`utf8Tail
      ensures after == Collect([], longer)
      ensures
        var whole := After(log, old(Run(parsers, ModeOf(), pending)));
        match control
        case Fail => whole == Failed && inPaste
        case Break => whole == Done(ModeOf(), pending, longer)
        case Continue =>
          && whole == After(longer, Run(parsers, ModeOf(), pending))
          && (|pending| < |old(pending)| || (pending == old(pending) && inPaste && !old(inPaste)))
    {
      ghost var action := Step(parsers, ModeOf(), pending);
      TurnAdvances(parsers, ModeOf(), pending, log);
      longer := if action.Wait? || action.Overflow? then log else log + Pieces(pending[..action.count], action.events);
      CollectConcat([], log, longer[|log|..]);
      assert log + longer[|log|..] == longer;
      assert log + [] == log;
      after, control := Turn(events);
    }

    /** Decodes what the new bytes complete. The loop ends because each turn
        takes bytes away or opens a paste. */
    method Feed(bytes: seq<byte>) returns (r: Result<seq<Event>>)
      requires Valid()
      modifies this`pending, this`inPaste, this`discardingOsc, this`oscUtf8Tail, this`discardingCsi, this`utf8Tail
      ensures
        match Run(parsers, old(ModeOf()), old(pending) + bytes)
        case Failed => r == PasteOverflow && inPaste
        case Done(mode, kept, log) =>
          && r == Ok(Collect([], log))
          && ModeOf() == mode && pending == kept
          && Valid() && Conservation.Bounded(mode, kept)
    {
      pending := pending + bytes;
      var events: seq<Event> := [];
      ghost var log: seq<Piece> := [];
      ghost var whole := Run(parsers, ModeOf(), pending);
      Conservation.RunConserves(parsers, ModeOf(), pending);
      AfterNothing(whole);
      while pending != []
        invariant whole == After(log, Run(parsers, ModeOf(), pending))
        invariant events == Collect([], log)
        decreases |pending|, if inPaste then 0 else 1
      {
        var control;
        events, control, log := LoggedTurn(events, log);
        if control == Fail { return PasteOverflow; }
        if control == Break { return Ok(events); }
      }
      assert log + [] == log;
      return Ok(events);
    }

    /** Decodes a chunk and drops events that an older epoch or geometry owns. */
    method FeedForLifetimes(c: L.Chunk, current: nat, currentGeometry: nat) returns (r: Result<seq<Event>>)
      requires Valid()
      modifies this
      ensures
        match old(L.Feed(Codec(parsers), State(), c))
        case Failed => r == PasteOverflow
        case Done(mode, kept, log) =>
          && r == Ok(L.Filtered(old(State()), c, current, currentGeometry, Collect([], log)))
          && State() == L.Retag(old(State()), c, mode, kept) && Valid()
    {
      ghost var was := State();
      var sourceGeometry := if pendingGeometry.Some? then pendingGeometry.value else c.geometry;
      var sourceEpoch := if pendingEpoch.Some? then pendingEpoch.value else c.epoch;
      var fed := Feed(c.bytes);
      if fed == PasteOverflow { return PasteOverflow; }
      if pending != [] || utf8Tail != 0 || discardingOsc || discardingCsi {
        pendingEpoch, pendingGeometry := Some(sourceEpoch), Some(sourceGeometry);
      } else {
        pendingEpoch, pendingGeometry := None, None;
      }
      var kept := KeepCurrent(c, sourceEpoch, sourceGeometry, current, currentGeometry, fed.value, was);
      return Ok(kept);
    }
  }

  lemma AfterNothing(o: Outcome)
    ensures After([], o) == o
  {
    if o.Done? { assert [] + o.log == o.log; }
  }

  /** One step moves its pieces from the remaining run to the log so far. */
  lemma TurnAdvances(x: Parsers, m: Mode, p: seq<byte>, log: seq<Piece>)
    requires p != []
    ensures
      match Step(x, m, p)
      case Overflow => After(log, Run(x, m, p)) == Failed
      case Wait(next) => After(log, Run(x, m, p)) == Done(next, p, log + [])
      case Flush(n, events, next) => After(log, Run(x, m, p)) == Done(next, p[n..], log + Pieces(p[..n], events))
      case Consume(n, events, next) =>
        After(log, Run(x, m, p)) == After(log + Pieces(p[..n], events), Run(x, next, p[n..]))
  {
    match Step(x, m, p) {
      case Consume(n, events, next) => AfterTwice(log, Pieces(p[..n], events), Run(x, next, p[n..]));
      case _ =>
    }
  }

  lemma AfterTwice(a: seq<Piece>, b: seq<Piece>, o: Outcome)
    ensures After(a, After(b, o)) == After(a + b, o)
  {
    if o.Done? { assert a + (b + o.log) == a + b + o.log; }
  }
}
