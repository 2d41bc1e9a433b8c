/** Epoch and geometry filtering (`feed_for_lifetimes`) over whole runs: which
    events reach the session when the input epoch or the terminal geometry
    changes while a key, character or sequence is still incomplete. */
module Lifetimes {
  import opened Basics
  import opened HostInput
  import Conservation
  import opened Stability

  /** The codec with the lifetimes of whatever it has not finished decoding. */
  datatype Tagged = Tagged(mode: Mode, pending: seq<byte>, epoch: Option<nat>, geometry: Option<nat>)

  const FRESH: Tagged := Tagged(START, [], None, None)

  /** Bytes read from the terminal with the lifetimes they were read under. */
  datatype Chunk = Chunk(bytes: seq<byte>, epoch: nat, geometry: nat)

  /** Nothing is left over that later bytes could complete. */
  predicate Idle(m: Mode, p: seq<byte>) {
    p == [] && m.utf8Tail == 0 && !m.discardOsc && !m.discardCsi
  }

  function SourceEpoch(s: Tagged, c: Chunk): nat { if s.epoch.Some? then s.epoch.value else c.epoch }

  function SourceGeometry(s: Tagged, c: Chunk): nat { if s.geometry.Some? then s.geometry.value else c.geometry }

  function Retag(s: Tagged, c: Chunk, m: Mode, p: seq<byte>): Tagged {
    if Idle(m, p) then Tagged(m, p, None, None)
    else Tagged(m, p, Some(SourceEpoch(s, c)), Some(SourceGeometry(s, c)))
  }

  predicate Passes(s: Tagged, c: Chunk, current: nat, currentGeometry: nat, e: Event) {
    && (e.Mouse? ==> c.geometry == currentGeometry && SourceGeometry(s, c) == currentGeometry)
    && (e.TerminalReply? || (c.epoch == current && SourceEpoch(s, c) == current))
  }

  function Filtered(s: Tagged, c: Chunk, current: nat, currentGeometry: nat, events: seq<Event>): seq<Event> {
    if events == [] then []
    else
      (if Passes(s, c, current, currentGeometry, events[0]) then [events[0]] else [])
      + Filtered(s, c, current, currentGeometry, events[1..])
  }

  lemma {:induction false} FilteredAppend(s: Tagged, c: Chunk, current: nat, currentGeometry: nat,
        events: seq<Event>, e: Event)
    ensures Filtered(s, c, current, currentGeometry, events + [e])
         == Filtered(s, c, current, currentGeometry, events)
            + (if Passes(s, c, current, currentGeometry, e) then [e] else [])
  {
    if events == [] {
      assert events + [e] == [e] && [e][1..] == [];
    } else {
      assert (events + [e])[1..] == events[1..] + [e];
      FilteredAppend(s, c, current, currentGeometry, events[1..], e);
    }
  }

  function Feed(d: Decoder, s: Tagged, c: Chunk): Outcome { d(s.mode, s.pending + c.bytes) }

  /** The codec after the first `i` chunks, unless a paste overflowed. */
  function StateAt(d: Decoder, chunks: seq<Chunk>, i: nat): Option<Tagged>
    requires i <= |chunks|
  {
    if i == 0 then Some(FRESH)
    else
      match StateAt(d, chunks, i - 1)
      case None => None
      case Some(s) =>
        match Feed(d, s, chunks[i - 1])
        case Failed => None
        case Done(m, p, _) => Some(Retag(s, chunks[i - 1], m, p))
  }

  /** Where the bytes still being decoded before chunk `i` begin: the last chunk
      boundary at which the codec was idle. */
  function WindowStart(d: Decoder, chunks: seq<Chunk>, i: nat): (w: nat)
    requires i <= |chunks| && StateAt(d, chunks, i).Some?
    ensures w <= i
  {
    var s := StateAt(d, chunks, i).value;
    if i == 0 || Idle(s.mode, s.pending) then i else WindowStart(d, chunks, i - 1)
  }

  function WindowBytes(chunks: seq<Chunk>, w: nat, i: nat): seq<byte>
    requires w <= i <= |chunks|
  {
    if w == i then [] else WindowBytes(chunks, w, i - 1) + chunks[i - 1].bytes
  }

  ghost predicate NonDecreasing(chunks: seq<Chunk>) {
    forall i, j :: 0 <= i <= j < |chunks| ==>
      chunks[i].epoch <= chunks[j].epoch && chunks[i].geometry <= chunks[j].geometry
  }

  predicate IsSuffix(p: seq<byte>, all: seq<byte>) {
    |p| <= |all| && all[|all| - |p|..] == p
  }

  lemma SuffixStep(fed: seq<byte>, pending: seq<byte>, bytes: seq<byte>, taken: seq<byte>, kept: seq<byte>)
    requires IsSuffix(pending, fed) && taken + kept == pending + bytes
    ensures IsSuffix(kept, fed + bytes)
    ensures fed + bytes == fed[..|fed| - |pending|] + taken + kept
  {
    var before := fed[..|fed| - |pending|];
    assert fed == before + pending;
    assert fed + bytes == before + (pending + bytes) == before + (taken + kept) == (before + taken) + kept;
  }

  /** What a decoder returns and keeps is what it was given. */
  ghost predicate Conserving(d: Decoder) {
    forall m, p :: Conservation.ValidState(m, p) && d(m, p).Done? ==>
      && Conservation.ValidState(d(m, p).mode, d(m, p).pending)
      && Conservation.Raws(d(m, p).log) + d(m, p).pending == p
  }

  lemma CodecConserves(x: Parsers)
    ensures Conserving(Codec(x))
  {
    forall m, p | Conservation.ValidState(m, p) && Codec(x)(m, p).Done?
      ensures Conservation.ValidState(Codec(x)(m, p).mode, Codec(x)(m, p).pending)
      ensures Conservation.Raws(Codec(x)(m, p).log) + Codec(x)(m, p).pending == p
    {
      Conservation.RunConserves(x, m, p);
    }
  }

  lemma FeedConserves(d: Decoder, s: Tagged, c: Chunk)
    requires Conserving(d) && Conservation.ValidState(s.mode, s.pending)
    ensures
      var o := Feed(d, s, c);
      o.Done? ==>
        && Conservation.ValidState(o.mode, o.pending)
        && Conservation.Raws(o.log) + o.pending == s.pending + c.bytes
  {
    if s.mode.inPaste { PrefixExtend(PASTE_START, s.pending, c.bytes); }
    assert Conservation.ValidState(s.mode, s.pending + c.bytes);
  }

  /** What holds of the codec before chunk `i`, given where its window began:
      it remembers the lifetimes of the window's first chunk, and what it
      retains is the end of the window's bytes. */
  ghost predicate Remembers(chunks: seq<Chunk>, s: Tagged, w: nat, i: nat)
    requires w <= i <= |chunks|
  {
    && Conservation.ValidState(s.mode, s.pending)
    && (w == i ==> s.epoch.None? && s.geometry.None?)
    && (w < i ==> s.epoch == Some(chunks[w].epoch) && s.geometry == Some(chunks[w].geometry))
    && IsSuffix(s.pending, WindowBytes(chunks, w, i))
  }

  lemma RemembersStep(chunks: seq<Chunk>, s: Tagged, w: nat, i: nat, m: Mode, taken: seq<byte>, kept: seq<byte>, v: nat)
    requires w <= i < |chunks| && Remembers(chunks, s, w, i)
    requires Conservation.ValidState(m, kept) && taken + kept == s.pending + chunks[i].bytes
    requires v == if Idle(m, kept) then i + 1 else w
    ensures Remembers(chunks, Retag(s, chunks[i], m, kept), v, i + 1)
  {
    SuffixStep(WindowBytes(chunks, w, i), s.pending, chunks[i].bytes, taken, kept);
  }

  /** One chunk further, in terms of what the feed returned. */
  lemma OneFurther(d: Decoder, chunks: seq<Chunk>, i: nat) returns (s: Tagged, w: nat, o: Outcome)
    requires i < |chunks| && StateAt(d, chunks, i + 1).Some?
    ensures StateAt(d, chunks, i) == Some(s) && WindowStart(d, chunks, i) == w
    ensures o == Feed(d, s, chunks[i]) && o.Done?
    ensures StateAt(d, chunks, i + 1) == Some(Retag(s, chunks[i], o.mode, o.pending))
    ensures WindowStart(d, chunks, i + 1) == if Idle(o.mode, o.pending) then i + 1 else w
  {
    s := StateAt(d, chunks, i).value;
    w := WindowStart(d, chunks, i);
    o := Feed(d, s, chunks[i]);
  }

  /** The same backwards, in terms of the bytes taken and kept. */
  lemma OneStepBack(d: Decoder, chunks: seq<Chunk>, i: nat, s: Tagged, w: nat)
    returns (before: Tagged, v: nat, m: Mode, taken: seq<byte>, kept: seq<byte>)
    requires Conserving(d) && 0 < i <= |chunks| && StateAt(d, chunks, i) == Some(s) && WindowStart(d, chunks, i) == w
    ensures StateAt(d, chunks, i - 1) == Some(before) && WindowStart(d, chunks, i - 1) == v
    ensures s == Retag(before, chunks[i - 1], m, kept) && w == if Idle(m, kept) then i else v
    ensures Conservation.ValidState(before.mode, before.pending) ==>
      Conservation.ValidState(m, kept) && taken + kept == before.pending + chunks[i - 1].bytes
  {
    var o;
    before, v, o := OneFurther(d, chunks, i - 1);
    m, taken, kept := o.mode, Conservation.Raws(o.log), o.pending;
    if Conservation.ValidState(before.mode, before.pending) { FeedConserves(d, before, chunks[i - 1]); }
  }

  lemma FreshRemembers(chunks: seq<Chunk>)
    ensures Remembers(chunks, FRESH, 0, 0)
  {
  }

  lemma {:induction false} WindowRemembered(d: Decoder, chunks: seq<Chunk>, i: nat, s: Tagged, w: nat)
    requires Conserving(d) && i <= |chunks| && StateAt(d, chunks, i) == Some(s) && WindowStart(d, chunks, i) == w
    ensures Remembers(chunks, s, w, i)
  {
    if i == 0 {
      FreshRemembers(chunks);
    } else {
      var before, v, m, taken, kept := OneStepBack(d, chunks, i, s, w);
      WindowRemembered(d, chunks, i - 1, before, v);
      RemembersStep(chunks, before, v, i - 1, m, taken, kept, w);
    }
  }

  ghost predicate EpochsNonDecreasing(chunks: seq<Chunk>) {
    forall i, j :: 0 <= i <= j < |chunks| ==> chunks[i].epoch <= chunks[j].epoch
  }

  lemma RememberedPasses(
    chunks: seq<Chunk>, s: Tagged, w: nat, i: nat, current: nat, currentGeometry: nat, e: Event)
    requires EpochsNonDecreasing(chunks) && w <= i < |chunks| && Remembers(chunks, s, w, i)
    ensures !e.TerminalReply? ==>
      (Passes(s, chunks[i], current, currentGeometry, e) <==>
        && (forall k :: w <= k <= i ==> chunks[k].epoch == current)
        && (e.Mouse? ==> chunks[w].geometry == currentGeometry && chunks[i].geometry == currentGeometry))
  {
  }

  /** What passes, when only epochs are known not to decrease: an event that is not a
      terminal reply reaches the session exactly when every chunk of its window was
      read under the current epoch, and for a mouse event the first and the last
      chunk under the current geometry. */
  lemma DeliveredByEnds(x: Parsers, chunks: seq<Chunk>, i: nat, current: nat, currentGeometry: nat, e: Event)
    requires EpochsNonDecreasing(chunks) && i < |chunks| && StateAt(Codec(x), chunks, i).Some? && !e.TerminalReply?
    ensures
      var w := WindowStart(Codec(x), chunks, i);
      Passes(StateAt(Codec(x), chunks, i).value, chunks[i], current, currentGeometry, e) <==>
        && (forall k :: w <= k <= i ==> chunks[k].epoch == current)
        && (e.Mouse? ==> chunks[w].geometry == currentGeometry && chunks[i].geometry == currentGeometry)
  {
    var s, w := StateAt(Codec(x), chunks, i).value, WindowStart(Codec(x), chunks, i);
    CodecConserves(x);
    WindowRemembered(Codec(x), chunks, i, s, w);
    RememberedPasses(chunks, s, w, i, current, currentGeometry, e);
  }

  /** No stale input, and no needless loss. Under non-decreasing lifetimes, an
      event that is not a terminal reply reaches the session exactly when every
      chunk it could have taken a byte from, back to where the codec was last
      idle, was read under the current epoch; a mouse event also needs the
      current geometry throughout. Terminal replies always pass. */
  lemma DeliveredExactlyWhenCurrent(
    x: Parsers, chunks: seq<Chunk>, i: nat, current: nat, currentGeometry: nat, e: Event)
    requires NonDecreasing(chunks) && i < |chunks| && StateAt(Codec(x), chunks, i).Some?
    ensures
      var s := StateAt(Codec(x), chunks, i).value;
      var w := WindowStart(Codec(x), chunks, i);
      && (e.TerminalReply? ==> Passes(s, chunks[i], current, currentGeometry, e))
      && (!e.TerminalReply? ==>
            (Passes(s, chunks[i], current, currentGeometry, e) <==>
              forall k :: w <= k <= i ==>
                chunks[k].epoch == current && (e.Mouse? ==> chunks[k].geometry == currentGeometry)))
  {
    if !e.TerminalReply? {
      DeliveredByEnds(x, chunks, i, current, currentGeometry, e);
      EndsDecide(chunks, WindowStart(Codec(x), chunks, i), i, currentGeometry);
    }
  }

  lemma EndsDecide(chunks: seq<Chunk>, w: nat, i: nat, geometry: nat)
    requires NonDecreasing(chunks) && w <= i < |chunks|
    ensures chunks[w].geometry == geometry && chunks[i].geometry == geometry
       <==> forall k :: w <= k <= i ==> chunks[k].geometry == geometry
  {
  }

  /** What the feed before left over, in terms of the codec's mode: bytes, an
      unfinished character, or a string or sequence that is being discarded. */
  predicate LeftOver(s: Tagged) {
    s.pending != [] || s.mode.utf8Tail != 0 || s.mode.discardOsc || s.mode.discardCsi
  }

  /** What is left over counts with what follows it. If it was read under another
      epoch than the current one, no event but a terminal reply passes; if nothing
      is left over, an event passes exactly if its own chunk is current. */
  lemma LeftOversDecide(x: Parsers, chunks: seq<Chunk>, i: nat, current: nat, currentGeometry: nat, e: Event)
    requires EpochsNonDecreasing(chunks) && i < |chunks| && StateAt(Codec(x), chunks, i).Some? && !e.TerminalReply?
    ensures
      var s := StateAt(Codec(x), chunks, i).value;
      && (LeftOver(s) ==>
        && i > 0
        && (chunks[i - 1].epoch != current ==> !Passes(s, chunks[i], current, currentGeometry, e)))
      && (!LeftOver(s) ==>
            (Passes(s, chunks[i], current, currentGeometry, e) <==>
              chunks[i].epoch == current && (e.Mouse? ==> chunks[i].geometry == currentGeometry)))
  {
    DeliveredByEnds(x, chunks, i, current, currentGeometry, e);
    var s, w := StateAt(Codec(x), chunks, i).value, WindowStart(Codec(x), chunks, i);
    if LeftOver(s) { assert i > 0 && w <= i - 1; } else { assert w == i; }
  }

  lemma WindowAccounts(d: Decoder, chunks: seq<Chunk>, i: nat) returns (before: seq<byte>)
    requires Conserving(d) && i < |chunks| && StateAt(d, chunks, i + 1).Some?
    ensures
      var o := Feed(d, StateAt(d, chunks, i).value, chunks[i]);
      && o.Done?
      && WindowBytes(chunks, WindowStart(d, chunks, i), i + 1) == before + Conservation.Raws(o.log) + o.pending
  {
    var s, w, o := OneFurther(d, chunks, i);
    WindowRemembered(d, chunks, i, s, w);
    FeedConserves(d, s, chunks[i]);
    var fed := WindowBytes(chunks, w, i);
    SuffixStep(fed, s.pending, chunks[i].bytes, Conservation.Raws(o.log), o.pending);
    before := fed[..|fed| - |s.pending|];
  }

  /** The events of feed `i` stand for bytes of that window, in order. */
  lemma EventsComeFromWindow(x: Parsers, chunks: seq<Chunk>, i: nat)
    requires i < |chunks| && StateAt(Codec(x), chunks, i + 1).Some?
    ensures
      var s := StateAt(Codec(x), chunks, i).value;
      var w := WindowStart(Codec(x), chunks, i);
      var o := Feed(Codec(x), s, chunks[i]);
      exists before ::
        WindowBytes(chunks, w, i + 1) == before + Conservation.Raws(o.log) + o.pending
  {
    CodecConserves(x);
    var before := WindowAccounts(Codec(x), chunks, i);
  }

  /** Filtering keeps the order of what passes and drops only what does not. */
  lemma {:induction false} FilteredKeepsReplies(
    s: Tagged, c: Chunk, current: nat, currentGeometry: nat, events: seq<Event>)
    ensures
      var kept := Filtered(s, c, current, currentGeometry, events);
      && (forall e :: e in kept <==> e in events && Passes(s, c, current, currentGeometry, e))
      && Replies(kept) == Replies(events)
  {
    if events != [] {
      var first := if Passes(s, c, current, currentGeometry, events[0]) then [events[0]] else [];
      var rest := Filtered(s, c, current, currentGeometry, events[1..]);
      FilteredKeepsReplies(s, c, current, currentGeometry, events[1..]);
      RepliesConcat(first, rest);
      RepliesConcat([events[0]], events[1..]);
      assert events == [events[0]] + events[1..];
    }
  }

  /** `at` lists, in order, the places of the events that pass, and `kept` holds those. */
  predicate KeptAt(pass: Event -> bool, events: seq<Event>, kept: seq<Event>, at: seq<nat>) {
    && |kept| == |at|
    && (forall k :: 0 <= k < |at| ==> at[k] < |events| && kept[k] == events[at[k]] && pass(kept[k]))
    && (forall j, k :: 0 <= j < k < |at| ==> at[j] < at[k])
    && (forall i :: 0 <= i < |events| && pass(events[i]) ==> i in at)
  }

  lemma KeptMore(pass: Event -> bool, front: seq<Event>, last: Event, kept: seq<Event>, at: seq<nat>)
    requires KeptAt(pass, front, kept, at)
    ensures pass(last) ==> KeptAt(pass, front + [last], kept + [last], at + [|front|])
    ensures !pass(last) ==> KeptAt(pass, front + [last], kept, at)
  {
    var events, more := front + [last], at + [|front|];
    assert more[|at|] == |front|;
    forall i | 0 <= i < |events| && pass(events[i]) ensures i in more && (!pass(last) ==> i in at) {
      if i < |front| {
        assert front[i] == events[i] && i in at;
        var k :| 0 <= k < |at| && at[k] == i;
        assert more[k] == i;
      }
    }
  }

  /** What is delivered is every event that passes, each once and in order. */
  lemma {:induction false} FilteredInOrder(
    s: Tagged, c: Chunk, current: nat, currentGeometry: nat, events: seq<Event>) returns (at: seq<nat>)
    ensures KeptAt(e => Passes(s, c, current, currentGeometry, e), events,
                   Filtered(s, c, current, currentGeometry, events), at)
    decreases |events|
  {
    at := [];
    if events != [] {
      var n := |events| - 1;
      var front, last := events[..n], events[n];
      at := FilteredInOrder(s, c, current, currentGeometry, front);
      var kept := Filtered(s, c, current, currentGeometry, front);
      KeptMore(e => Passes(s, c, current, currentGeometry, e), front, last, kept, at);
      assert events == front + [last] && kept + [] == kept;
      FilteredAppend(s, c, current, currentGeometry, front, last);
      if Passes(s, c, current, currentGeometry, last) { at := at + [n]; }
    }
  }

  function Replies(events: seq<Event>): seq<Event> {
    if events == [] then []
    else (if events[0].TerminalReply? then [events[0]] else []) + Replies(events[1..])
  }

  lemma {:induction false} RepliesConcat(a: seq<Event>, b: seq<Event>)
    ensures Replies(a + b) == Replies(a) + Replies(b)
  {
    if a == [] {
      assert a + b == b;
    } else {
      assert (a + b)[0] == a[0] && (a + b)[1..] == a[1..] + b;
      RepliesConcat(a[1..], b);
      var first := if a[0].TerminalReply? then [a[0]] else [];
      assert first + (Replies(a[1..]) + Replies(b)) == first + Replies(a[1..]) + Replies(b);
    }
  }
}
