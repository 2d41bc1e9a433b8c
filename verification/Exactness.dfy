/** Where chunking independence ends. Each condition of `Chunking.ItemOrderly` is
    needed: outside it the code gives different events for different cuts of the
    same item, and these lemmas say, cut by cut, exactly when. */
module Exactness {
  import opened Basics
  import opened HostInput
  import opened Chunking
  import opened Stability
  import opened Splitting
  import opened MouseReports

  /** The cut between `p` and `q` cannot be told from feeding `p + q`. */
  ghost predicate CutInvisible(x: Parsers, m: Mode, p: seq<byte>, q: seq<byte>) {
    ViewOf(Run(x, m, p + q)) ==
      (match Run(x, m, p)
       case Failed => Rejected
       case Done(next, kept, log) => Prefixed(LogAtoms(log), ViewOf(Run(x, next, kept + q))))
  }

  // ----- A paste that interrupts a character ---------------------------------

  lemma EmptyPaste(x: Parsers, m: Mode, t: seq<byte>)
    requires !m.inPaste && !m.discardOsc && !m.discardCsi
    ensures
      var paste := PASTE_START + PASTE_END;
      Run(x, m, paste + t) == After([Piece(paste, Paste(paste))], Run(x, m, t))
  {
    var paste := PASTE_START + PASTE_END;
    var p := paste + t;
    assert p[..6] == PASTE_START;
    assert Step(x, m, p) == Consume(0, [], m.(inPaste := true));
    assert p[0..] == p && Pieces(p[..0], []) == [];
    assert p[6..6 + |PASTE_END|] == PASTE_END;
    assert OccursAt(p, PASTE_END, 6);
    forall i | 0 <= i < 6 ensures !OccursAt(p, PASTE_END, i) {
      assert i == 0 ==> p[0..6][4] == 0x30;
      assert i > 0 ==> p[i] != ESC && (i + 6 <= |p| ==> p[i..i + 6][0] == p[i]);
    }
    assert FindPasteEnd(p, 0) == 6;
    assert p[..12] == paste && p[12..] == t;
    var open := m.(inPaste := true);
    assert Step(x, open, p) == Consume(12, [Paste(paste)], m);
    assert Pieces(paste, [Paste(paste)]) == [Piece(paste, Paste(paste))];
    assert Run(x, open, p) == After([Piece(paste, Paste(paste))], Run(x, m, t));
    var o := Run(x, open, p);
    assert o.Done? ==> [] + o.log == o.log;
  }

  lemma OpeningWaits(x: Parsers, m: Mode, k: nat)
    requires !m.inPaste && !m.discardOsc && !m.discardCsi && 0 < k < |PASTE_START|
    ensures Run(x, m, PASTE_START[..k]) == Done(m.(utf8Tail := 0), PASTE_START[..k], [])
  {
    var p := PASTE_START[..k];
    assert p <= PASTE_START && p[0] == ESC && (k > 2 ==> p[2] == 0x32);
    KnownPrefixWaits(x, m.(utf8Tail := 0), p);
  }

  lemma AfterPaste(x: Parsers, m: Mode)
    requires ValidMode(m) && !m.inPaste && !m.discardOsc && !m.discardCsi
    ensures m.utf8Tail > 0 ==> Run(x, m, [0x9b]).Done? && Run(x, m, [0x9b]).pending == []
    ensures m.utf8Tail == 0 ==> Run(x, m, [0x9b]) == Done(m, [0x9b], [])
  {
    var p: seq<byte> := [0x9b];
    if m.utf8Tail > 0 {
      assert Step(x, m, p) == Consume(1, [TextEvent(0x9b)], m.(utf8Tail := m.utf8Tail - 1));
      assert p[1..] == [];
    } else {
      assert m.(utf8Tail := 0) == m;
      assert FirstFinal(p, 1) == 1;
      assert Step(x, m, p) == Wait(m);
    }
  }

  /** A cut anywhere inside a paste's opening is invisible, whatever follows,
      exactly when no UTF-8 character is left unfinished before it. Otherwise the
      uncut opening leaves the codec in the middle of that character, so that a C1
      control after the paste passes as text. */
  lemma PasteCutExact(x: Parsers, m: Mode, k: nat)
    requires ValidMode(m) && !m.inPaste && !m.discardOsc && !m.discardCsi && 0 < k < |PASTE_START|
    ensures (forall t :: CutInvisible(x, m, PASTE_START[..k], PASTE_START[k..] + t)) <==> m.utf8Tail == 0
  {
    OpeningWaits(x, m, k);
    if m.utf8Tail == 0 {
      assert m.(utf8Tail := 0) == m;
      forall t ensures CutInvisible(x, m, PASTE_START[..k], PASTE_START[k..] + t) {
        PrefixedNone(ViewOf(Run(x, m, PASTE_START[..k] + (PASTE_START[k..] + t))));
      }
    } else {
      var t := PASTE_END + [0x9b];
      var m0 := m.(utf8Tail := 0);
      assert PASTE_START[..k] + (PASTE_START[k..] + t) == PASTE_START + PASTE_END + [0x9b];
      EmptyPaste(x, m, [0x9b]);
      EmptyPaste(x, m0, [0x9b]);
      AfterPaste(x, m);
      AfterPaste(x, m0);
      assert !CutInvisible(x, m, PASTE_START[..k], PASTE_START[k..] + t);
    }
  }

  // ----- Control sequences over the bound ------------------------------------

  /** One complete control sequence: introducer, parameters, final byte. */
  ghost predicate IsControlSequence(raw: seq<byte>) {
    && IsCsi(raw) && FirstFinal(raw, IntroducerLength(raw)) == |raw| - 1
    && !(MOUSE_START <= raw) && raw != PASTE_START && raw != PAGE_UP && raw != PAGE_DOWN
  }

  lemma NotAKnownKey(raw: seq<byte>)
    requires IsControlSequence(raw)
    ensures !(PASTE_START <= raw) && !(PAGE_UP <= raw) && !(PAGE_DOWN <= raw) && OscPrefix(raw) == 0
  {
    var n := IntroducerLength(raw);
    assert raw[0] == 0x9b || raw[1] == 0x5b || raw[1] == 0x4f;
    assert PASTE_START <= raw ==> n == 2 && IsFinal(raw[5]) && |raw| <= 6;
    assert PASTE_START <= raw && |raw| <= 6 ==> raw == PASTE_START;
    assert PAGE_UP <= raw || PAGE_DOWN <= raw ==> n == 2 && IsFinal(raw[3]) && |raw| <= 4;
    assert PAGE_UP <= raw && |raw| <= 4 ==> raw == PAGE_UP;
    assert PAGE_DOWN <= raw && |raw| <= 4 ==> raw == PAGE_DOWN;
  }

  lemma SequenceStepIs(x: Parsers, raw: seq<byte>)
    requires IsControlSequence(raw)
    ensures Step(x, START, raw) == Consume(|raw|, [CsiEvent(x, raw)], START)
  {
    NotAKnownKey(raw);
    assert raw[..|raw|] == raw;
  }

  lemma WholeSequence(x: Parsers, raw: seq<byte>)
    requires IsControlSequence(raw)
    ensures Step(x, START, raw) == Consume(|raw|, [CsiEvent(x, raw)], START)
    ensures Run(x, START, raw) == Done(START, [], [Piece(raw, CsiEvent(x, raw))])
  {
    SequenceStepIs(x, raw);
    assert raw[..|raw|] == raw && raw[|raw|..] == [];
    assert Pieces(raw, [CsiEvent(x, raw)]) == [Piece(raw, CsiEvent(x, raw))];
  }

  lemma NoKnownKey(raw: seq<byte>, k: nat)
    requires IsControlSequence(raw) && 0 < k < |raw|
    ensures
      var p := raw[..k];
      !(PASTE_START <= p) && !(PAGE_UP <= p) && !(PAGE_DOWN <= p) && !(MOUSE_START <= p)
  {
    var p := raw[..k];
    NotAKnownKey(raw);
    assert p + raw[k..] == raw;
    PrefixExtend(PASTE_START, p, raw[k..]);
    PrefixExtend(PAGE_UP, p, raw[k..]);
    PrefixExtend(PAGE_DOWN, p, raw[k..]);
    PrefixExtend(MOUSE_START, p, raw[k..]);
  }

  /** What decides a cut inside the sequence: no final byte has been seen. */
  lemma PartialSequence(raw: seq<byte>, k: nat)
    requires IsControlSequence(raw) && 0 < k < |raw|
    ensures
      var p := raw[..k];
      && !(PASTE_START <= p) && !(PAGE_UP <= p) && !(PAGE_DOWN <= p) && !(MOUSE_START <= p) && OscPrefix(p) == 0
      && (p == [ESC] ||
          (IsCsi(p) && IntroducerLength(p) == IntroducerLength(raw) && FirstFinal(p, IntroducerLength(p)) == k))
  {
    var p := raw[..k];
    NoKnownKey(raw, k);
    assert p + raw[k..] == raw;
    assert p[0] == raw[0] && (k > 1 ==> p[1] == raw[1]);
    if k == 1 && raw[0] == ESC { assert p == [ESC]; }
    if p != [ESC] { FirstFinalExtend(p, raw[k..], IntroducerLength(p)); }
  }

  lemma SequenceWaits(x: Parsers, raw: seq<byte>, k: nat)
    requires IsControlSequence(raw) && 0 < k < |raw| && k < HOST_SEQUENCE_BOUND
    ensures Run(x, START, raw[..k]) == Done(START, raw[..k], [])
  {
    PartialSequence(raw, k);
    if raw[..k] == [ESC] { OpeningWaits(x, START, 1); }
  }

  lemma EarlyCut(x: Parsers, raw: seq<byte>, k: nat)
    requires IsControlSequence(raw) && 0 < k < |raw| && k < HOST_SEQUENCE_BOUND
    ensures CutInvisible(x, START, raw[..k], raw[k..])
  {
    SequenceWaits(x, raw, k);
    PrefixedNone(ViewOf(Run(x, START, raw[..k] + raw[k..])));
  }

  lemma LateCutRun(x: Parsers, raw: seq<byte>, k: nat)
    requires IsControlSequence(raw) && HOST_SEQUENCE_BOUND <= k < |raw|
    requires CsiReply(raw) == Some(Ignored)
    ensures Run(x, START, raw[..k])
         == Done(START.(discardCsi := true), [], Pieces(raw[..k], [TerminalReply(Ignored, k)]))
  {
    var p := raw[..k];
    PartialSequence(raw, k);
    assert raw[..|raw|] == raw;
    IgnoredMeansColor(raw, |raw|, k);
    assert Step(x, START, p) == Flush(k, [TerminalReply(Ignored, k)], START.(discardCsi := true));
    assert p[k..] == [] && p[..k] == p;
  }

  lemma LateCutRest(x: Parsers, raw: seq<byte>, k: nat)
    requires IsControlSequence(raw) && IntroducerLength(raw) <= k < |raw|
    ensures
      var q := raw[k..];
      ViewOf(Run(x, START.(discardCsi := true), q)) == View(START, [], IgnoredBytes(|q|))
  {
    var q, m := raw[k..], START.(discardCsi := true);
    forall i | 0 <= i < |q| - 1 ensures !IsFinal(q[i]) { assert q[i] == raw[k + i]; }
    assert q[|q| - 1] == raw[|raw| - 1];
    assert FirstFinal(q, 0) == |q| - 1;
    assert q[|q|..] == [] && m.(discardCsi := false) == START;
    DiscardStep(x, m, q, |q|, START);
    IgnoreStep(x, m, q, |q|, START, []);
    assert IgnoredBytes(|q|) + [] == IgnoredBytes(|q|);
  }

  lemma LateCut(x: Parsers, raw: seq<byte>, k: nat)
    requires IsControlSequence(raw) && HOST_SEQUENCE_BOUND <= k < |raw|
    requires CsiReply(raw) == Some(Ignored)
    ensures CutInvisible(x, START, raw[..k], raw[k..])
  {
    assert raw[..k] + raw[k..] == raw;
    IgnoredWhole(x, raw);
    LateCutRun(x, raw, k);
    LateCutRest(x, raw, k);
    BothIgnored(x, raw[..k], raw[k..]);
  }

  /** An ignored part followed by an ignored rest is an ignored whole. */
  lemma BothIgnored(x: Parsers, p: seq<byte>, q: seq<byte>)
    requires Run(x, START, p) == Done(START.(discardCsi := true), [], Pieces(p, [TerminalReply(Ignored, |p|)]))
    requires ViewOf(Run(x, START.(discardCsi := true), q)) == View(START, [], IgnoredBytes(|q|))
    requires ViewOf(Run(x, START, p + q)) == View(START, [], IgnoredBytes(|p + q|))
    ensures CutInvisible(x, START, p, q)
  {
    assert [] + q == q;
    IgnoredPiece(p, |p|);
    IgnoredSum(|p|, |q|);
  }

  lemma IgnoredSum(a: nat, b: nat)
    ensures View(START, [], IgnoredBytes(a + b)) == Prefixed(IgnoredBytes(a), View(START, [], IgnoredBytes(b)))
  {
    IgnoredSplit(a, b);
  }

  lemma IgnoredWhole(x: Parsers, raw: seq<byte>)
    requires IsControlSequence(raw) && CsiReply(raw) == Some(Ignored)
    ensures ViewOf(Run(x, START, raw)) == View(START, [], IgnoredBytes(|raw|))
  {
    WholeSequence(x, raw);
    SingleView(raw, TerminalReply(Ignored, |raw|));
  }

  lemma SingleView(raw: seq<byte>, e: Event)
    ensures ViewOf(Done(START, [], [Piece(raw, e)])) == View(START, [], EventAtoms(e))
  {
    var log := [Piece(raw, e)];
    assert log[1..] == [];
    assert LogAtoms(log) == EventAtoms(e) + LogAtoms([]);
    assert EventAtoms(e) + [] == EventAtoms(e);
  }

  /** Past the bound, an unfinished sequence that is no colour reply is taken
      apart: its first byte, or a three-byte SS3 key, leaves at once. A colour reply
      that would have been understood is reported as ignored instead. */
  lemma TakenApart(x: Parsers, raw: seq<byte>, k: nat)
    requires IsControlSequence(raw) && HOST_SEQUENCE_BOUND <= k < |raw| && CsiReply(raw) != Some(Ignored)
    ensures StartsOtherwise(Step(x, START, raw[..k]), CsiEvent(x, raw))
  {
    var p := raw[..k];
    PartialSequence(raw, k);
    assert !KnownHostPrefix(p);
  }

  /** How it is taken apart: an SS3 key leaves whole, any other introducer by its
      first byte. */
  lemma TakenApartAs(x: Parsers, raw: seq<byte>, k: nat)
    requires IsControlSequence(raw) && HOST_SEQUENCE_BOUND <= k < |raw| && !IsColorCsi(raw[..k])
    ensures Step(x, START, raw[..k]) ==
      if [0x1b, 0x4f] <= raw then Consume(3, [Opaque(raw[..3])], START) else Consume(1, [Bytes(raw[..1])], START)
  {
    var p := raw[..k];
    PartialSequence(raw, k);
    assert !KnownHostPrefix(p) && p[..3] == raw[..3] && p[0] == raw[0] && p[1] == raw[1] && raw[..1] == [raw[0]];
  }

  /** The step returns one event, which does not begin like `e`. */
  ghost predicate StartsOtherwise(a: Action, e: Event) {
    && (a.Consume? || a.Flush?) && |a.events| == 1
    && EventAtoms(a.events[0]) != [] && EventAtoms(a.events[0])[0] != Whole(e)
  }

  lemma {:induction false} FirstAtom(log: seq<Piece>)
    requires log != [] && EventAtoms(log[0].event) != []
    ensures LogAtoms(log) != [] && LogAtoms(log)[0] == EventAtoms(log[0].event)[0]
  {
  }

  lemma RunStartsWith(x: Parsers, p: seq<byte>)
    requires p != []
    requires Step(x, START, p).Consume? || Step(x, START, p).Flush?
    requires |Step(x, START, p).events| == 1
    ensures
      var o := Run(x, START, p);
      o.Done? ==> o.log != [] && o.log[0].event == Step(x, START, p).events[0]
  {
  }

  /** Uncut there is the one event `e`; cut, something else comes first. */
  lemma CutShows(x: Parsers, p: seq<byte>, q: seq<byte>, raw: seq<byte>, e: Event)
    requires p != [] && p + q == raw && EventAtoms(e) == [Whole(e)]
    requires Run(x, START, raw) == Done(START, [], [Piece(raw, e)])
    requires StartsOtherwise(Step(x, START, p), e)
    ensures !CutInvisible(x, START, p, q)
  {
    SingleView(raw, e);
    RunStartsWith(x, p);
    var o := Run(x, START, p);
    if o.Done? {
      FirstAtom(o.log);
      DifferentViews(LogAtoms(o.log), ViewOf(Run(x, o.mode, o.pending + q)), e);
    }
  }

  lemma Rejoin(raw: seq<byte>, k: nat)
    requires k <= |raw|
    ensures raw[..k] + raw[k..] == raw
  {
  }

  lemma VisibleCut(x: Parsers, raw: seq<byte>, k: nat)
    requires IsControlSequence(raw) && HOST_SEQUENCE_BOUND <= k < |raw| && CsiReply(raw) != Some(Ignored)
    ensures !CutInvisible(x, START, raw[..k], raw[k..])
  {
    var e := CsiEvent(x, raw);
    assert EventAtoms(e) == [Whole(e)];
    assert Run(x, START, raw) == Done(START, [], [Piece(raw, e)]) by { WholeSequence(x, raw); }
    Rejoin(raw, k);
    assert StartsOtherwise(Step(x, START, raw[..k]), e) by { TakenApart(x, raw, k); }
    CutShows(x, raw[..k], raw[k..], raw, e);
  }

  lemma DifferentViews(atoms: seq<Atom>, rest: View, e: Event)
    requires atoms != [] && atoms[0] != Whole(e)
    ensures Prefixed(atoms, rest) != View(START, [], [Whole(e)])
  {
    if rest.View? { assert (atoms + rest.atoms)[0] == atoms[0]; }
  }

  /** A cut inside a control sequence is invisible exactly when fewer bytes than
      the bound come before it, or the sequence is a colour reply that is ignored
      either way. */
  lemma SequenceCutExact(x: Parsers, raw: seq<byte>, k: nat)
    requires IsControlSequence(raw) && 0 < k < |raw|
    ensures CutInvisible(x, START, raw[..k], raw[k..]) <==> k < HOST_SEQUENCE_BOUND || CsiReply(raw) == Some(Ignored)
  {
    if k < HOST_SEQUENCE_BOUND {
      EarlyCut(x, raw, k);
    } else if CsiReply(raw) == Some(Ignored) {
      LateCut(x, raw, k);
    } else {
      VisibleCut(x, raw, k);
    }
  }

  // ----- Mouse reports over the bound -----------------------------------------

  lemma EarlyMouseCut(x: Parsers, raw: seq<byte>, k: nat)
    requires MOUSE_START <= raw && FirstMouseEnd(raw, 0) >= |raw| - 1 && 0 < k < |raw| && k < HOST_SEQUENCE_BOUND
    ensures CutInvisible(x, START, raw[..k], raw[k..])
  {
    PartialReport(x, raw, k);
    PrefixedNone(ViewOf(Run(x, START, raw[..k] + raw[k..])));
  }

  /** Past the bound the beginning is read as a control sequence of its own, up to
      a final byte if it holds one, or else its escape leaves as text. */
  lemma MouseTakenApart(x: Parsers, raw: seq<byte>, k: nat)
    requires IsReport(raw) && HOST_SEQUENCE_BOUND <= k < |raw|
    ensures StartsOtherwise(Step(x, START, raw[..k]), MouseEvent(raw))
  {
    var p := raw[..k];
    ReportPart(raw, k);
    var end := FirstFinal(p, 2);
    NoColorReport(p);
    if end < |p| { FinalOfReport(p, end); }
    assert !KnownHostPrefix(p);
  }

  /** A cut inside a mouse report is invisible exactly when fewer bytes than the
      bound come before it; `MouseReports.LongReport` gives reports that long. */
  lemma MouseCutExact(x: Parsers, raw: seq<byte>, k: nat)
    requires IsReport(raw) && 0 < k < |raw|
    ensures CutInvisible(x, START, raw[..k], raw[k..]) <==> k < HOST_SEQUENCE_BOUND
  {
    if k < HOST_SEQUENCE_BOUND {
      EarlyMouseCut(x, raw, k);
    } else {
      WholeReport(x, raw);
      Rejoin(raw, k);
      MouseTakenApart(x, raw, k);
      CutShows(x, raw[..k], raw[k..], raw, MouseEvent(raw));
    }
  }

  /** A mouse introducer that no report claims: past the bound it is a control
      sequence, up to a final byte that ends no report. */
  ghost predicate IsBrokenReport(raw: seq<byte>) {
    && MOUSE_START <= raw && |raw| >= HOST_SEQUENCE_BOUND
    && FirstFinal(raw, 2) == |raw| - 1 && !IsMouseEnd(raw[|raw| - 1])
  }

  lemma BrokenShape(raw: seq<byte>)
    requires IsBrokenReport(raw)
    ensures FirstMouseEnd(raw, 0) == |raw| && IsCsi(raw) && IntroducerLength(raw) == 2 && OscPrefix(raw) == 0
    ensures !(PASTE_START <= raw) && !(PAGE_UP <= raw) && !(PAGE_DOWN <= raw)
  {
    assert raw[0] == ESC && raw[1] == 0x5b && raw[2] == 0x3c;
    forall i | 0 <= i < |raw| ensures !IsMouseEnd(raw[i]) {
      if 2 <= i < |raw| - 1 { assert !IsFinal(raw[i]); }
    }
  }

  lemma BrokenStep(x: Parsers, raw: seq<byte>)
    requires IsBrokenReport(raw)
    ensures Step(x, START, raw) == Consume(|raw|, [CsiEvent(x, raw)], START)
  {
    BrokenShape(raw);
    assert raw[..|raw|] == raw;
    EndedCsi(x, START, raw, |raw| - 1, CsiEvent(x, raw));
  }

  lemma WholeBroken(x: Parsers, raw: seq<byte>)
    requires IsBrokenReport(raw)
    ensures FirstMouseEnd(raw, 0) == |raw| && CsiReply(raw).None?
    ensures Run(x, START, raw) == Done(START, [], [Piece(raw, CsiEvent(x, raw))])
  {
    BrokenShape(raw);
    NoColorReport(raw);
    BrokenStep(x, raw);
    assert raw[..|raw|] == raw && raw[|raw|..] == [];
    assert Pieces(raw, [CsiEvent(x, raw)]) == [Piece(raw, CsiEvent(x, raw))];
  }

  lemma BrokenPart(raw: seq<byte>, k: nat)
    requires IsBrokenReport(raw) && HOST_SEQUENCE_BOUND <= k < |raw|
    ensures FirstFinal(raw[..k], 2) == k && !IsColorCsi(raw[..k]) && !KnownHostPrefix(raw[..k])
  {
    var p := raw[..k];
    assert p + raw[k..] == raw;
    PrefixExtend(MOUSE_START, p, raw[k..]);
    NoColorReport(p);
    FirstFinalExtend(p, raw[k..], 2);
  }

  lemma BrokenTakenApart(x: Parsers, raw: seq<byte>, k: nat, e: Event)
    requires IsBrokenReport(raw) && FirstMouseEnd(raw, 0) == |raw| && HOST_SEQUENCE_BOUND <= k < |raw|
    ensures StartsOtherwise(Step(x, START, raw[..k]), e)
  {
    ReportPart(raw, k);
    BrokenPart(raw, k);
    assert Step(x, START, raw[..k]) == Consume(1, [TextEvent(ESC)], START);
  }

  /** The same of such a sequence. */
  lemma BrokenReportCutExact(x: Parsers, raw: seq<byte>, k: nat)
    requires IsBrokenReport(raw) && 0 < k < |raw|
    ensures CutInvisible(x, START, raw[..k], raw[k..]) <==> k < HOST_SEQUENCE_BOUND
  {
    WholeBroken(x, raw);
    if k < HOST_SEQUENCE_BOUND {
      EarlyMouseCut(x, raw, k);
    } else {
      Rejoin(raw, k);
      BrokenTakenApart(x, raw, k, CsiEvent(x, raw));
      CutShows(x, raw[..k], raw[k..], raw, CsiEvent(x, raw));
    }
  }

  // ----- Overlong OSC strings -------------------------------------------------

  lemma ScanOfFront(p: seq<byte>, q: seq<byte>, m: Mode)
    requires AtOsc(m, p) && Scan(m, p + q).NoEnd?
    ensures AtOsc(m, p + q) && Scan(m, p).NoEnd? && (m.discardOsc || OscPrefix(p + q) == OscPrefix(p))
  {
    assert (p + q)[0] == p[0];
    PrefixesExtend(p, q);
    OscScanExtend(p, q, OscStart(m, p), OscTail(m));
  }

  /** An unterminated OSC string within the bound waits, whole. */
  lemma HeldOsc(x: Parsers, m: Mode, p: seq<byte>)
    requires AtOsc(m, p) && Scan(m, p).NoEnd? && |p| <= OSC_BOUND
    ensures Run(x, m, p) == Done(m.(utf8Tail := 0), p, [])
  {
    AtOscStep(x, m, p);
    assert OscStep(x, m.(utf8Tail := 0), p) == Wait(m.(utf8Tail := 0));
  }

  /** Over the bound all of it is reported but a final escape. */
  lemma FlushedOsc(x: Parsers, m: Mode, p: seq<byte>)
    requires AtOsc(m, p) && Scan(m, p).NoEnd? && |p| > OSC_BOUND
    ensures
      var o := Run(x, m, p);
      && o.Done? && o.mode == Discarding(m, Scan(m, p).tail) && o.pending == LastEscape(p)
      && LogAtoms(o.log) == IgnoredBytes(|p| - |LastEscape(p)|)
  {
    FlushedView(x, m, p);
    var n := |p| - |LastEscape(p)|;
    IgnoredPiece(p[..n], n);
  }

  lemma SameAtOsc(x: Parsers, m: Mode, p: seq<byte>)
    requires AtOsc(m, p)
    ensures Run(x, m.(utf8Tail := 0), p) == Run(x, m, p)
  {
    AtOscStep(x, m, p);
    AtOscStep(x, m.(utf8Tail := 0), p);
  }

  /** A cut within the bound changes nothing at all. */
  lemma ShortOscCut(x: Parsers, m: Mode, p: seq<byte>, q: seq<byte>)
    requires AtOsc(m, p) && Scan(m, p + q).NoEnd? && |p| <= OSC_BOUND
    ensures Feeds(x, m, [], [p, q]) == Run(x, m, p + q)
  {
    ScanOfFront(p, q, m);
    HeldOsc(x, m, p);
    SameAtOsc(x, m, p + q);
    UnfinishedRuns(x, m, p + q);
    TwoChunks(x, m, p, q);
    var o := Run(x, m, p + q);
    assert [] + o.log == o.log;
  }

  lemma UnfinishedRuns(x: Parsers, m: Mode, p: seq<byte>)
    requires AtOsc(m, p) && Scan(m, p).NoEnd?
    ensures Run(x, m, p).Done?
  {
    if |p| <= OSC_BOUND { HeldOsc(x, m, p); } else { FlushedOsc(x, m, p); }
  }

  /** The two runs have reported the same bytes and hold the same bytes. */
  ghost predicate SameReports(whole: Outcome, cut: Outcome) {
    whole.Done? && cut.Done? && cut.pending == whole.pending && LogAtoms(cut.log) == LogAtoms(whole.log)
  }

  /** An uncut run that has reported all of a string whose part `y` comes after the
      first `n` bytes, and one cut there. */
  ghost predicate WholeReported(whole: Outcome, n: nat, y: seq<byte>) {
    && whole.Done? && whole.pending == LastEscape(y)
    && LogAtoms(whole.log) == IgnoredBytes(n + (|y| - |LastEscape(y)|))
  }

  ghost predicate CutReported(cut: Outcome, n: nat, y: seq<byte>) {
    && cut.Done? && cut.pending == (if |y| > OSC_BOUND then LastEscape(y) else y)
    && LogAtoms(cut.log) == IgnoredBytes(n) + (if |y| > OSC_BOUND then IgnoredBytes(|y| - |LastEscape(y)|) else [])
  }

  /** Two feeds, the first of which has reported `n` bytes. */
  lemma CutJoins(first: Outcome, rest: Outcome, n: nat, y: seq<byte>)
    requires first.Done? && LogAtoms(first.log) == IgnoredBytes(n)
    requires rest.Done? && rest.pending == (if |y| > OSC_BOUND then LastEscape(y) else y)
    requires LogAtoms(rest.log) == if |y| > OSC_BOUND then IgnoredBytes(|y| - |LastEscape(y)|) else []
    ensures CutReported(After(first.log, rest), n, y)
  {
    LogAtomsConcat(first.log, rest.log);
  }

  /** What is left of a string that is being discarded is flushed or held. */
  lemma RestOfOsc(x: Parsers, m: Mode, y: seq<byte>)
    requires AtOsc(m, y) && m.discardOsc && Scan(m, y).NoEnd?
    ensures
      var rest := Run(x, m, y);
      && rest.Done? && rest.pending == (if |y| > OSC_BOUND then LastEscape(y) else y)
      && LogAtoms(rest.log) == if |y| > OSC_BOUND then IgnoredBytes(|y| - |LastEscape(y)|) else []
  {
    if |y| > OSC_BOUND { FlushedOsc(x, m, y); } else { HeldOsc(x, m, y); }
  }

  /** What is scanned after a cut past the bound. */
  lemma ScanOfRest(m: Mode, p: seq<byte>, q: seq<byte>, y: seq<byte>)
    requires AtOsc(m, p) && ValidMode(m) && Scan(m, p + q).NoEnd? && |p| > OSC_BOUND
    requires y == LastEscape(p) + q && q != []
    ensures Scan(m, p).NoEnd?
    ensures
      var next := Discarding(m, Scan(m, p).tail);
      AtOsc(next, y) && next.discardOsc && Scan(next, y).NoEnd?
  {
    ScanOfFront(p, q, m);
    ScanResumes(m, p, q);
    assert p[|p| - |LastEscape(p)|..] == LastEscape(p);
  }

  /** What a cut past the bound leaves. */
  lemma LongOscCut(x: Parsers, m: Mode, p: seq<byte>, q: seq<byte>, y: seq<byte>, n: nat)
    requires AtOsc(m, p) && ValidMode(m) && Scan(m, p + q).NoEnd? && |p| > OSC_BOUND
    requires y == LastEscape(p) + q && q != [] && n == |p| - |LastEscape(p)|
    ensures CutReported(Feeds(x, m, [], [p, q]), n, y)
  {
    ScanOfRest(m, p, q, y);
    FlushedOsc(x, m, p);
    var next := Discarding(m, Scan(m, p).tail);
    RestOfOsc(x, next, y);
    TwoChunks(x, m, p, q);
    CutJoins(Run(x, m, p), Run(x, next, y), n, y);
  }

  lemma OnlyEscape(p: seq<byte>, q: seq<byte>, y: seq<byte>)
    requires y == LastEscape(p) + q && q != []
    ensures y == LastEscape(y) <==> LastEscape(p) == [] && q == [ESC]
  {
  }

  lemma ReportsAgree(whole: Outcome, cut: Outcome, n: nat, y: seq<byte>)
    requires WholeReported(whole, n, y) && CutReported(cut, n, y)
    ensures SameReports(whole, cut) <==> |y| > OSC_BOUND || y == LastEscape(y)
  {
    IgnoredSplit(n, |y| - |LastEscape(y)|);
    assert IgnoredBytes(n) + [] == IgnoredBytes(n);
  }

  lemma SameEnd(p: seq<byte>, q: seq<byte>, y: seq<byte>, n: nat)
    requires y == LastEscape(p) + q && q != [] && n == |p| - |LastEscape(p)|
    ensures LastEscape(p + q) == LastEscape(y) && |p + q| == n + |y|
  {
    assert (p + q)[|p + q| - 1] == q[|q| - 1] == y[|y| - 1];
  }

  lemma LongOscWhole(x: Parsers, m: Mode, p: seq<byte>, q: seq<byte>, y: seq<byte>, n: nat)
    requires AtOsc(m, p) && Scan(m, p + q).NoEnd? && |p| > OSC_BOUND
    requires y == LastEscape(p) + q && q != [] && n == |p| - |LastEscape(p)|
    ensures WholeReported(Run(x, m, p + q), n, y)
  {
    ScanOfFront(p, q, m);
    SameEnd(p, q, y, n);
    FlushedOsc(x, m, p + q);
  }

  lemma LongOscReports(x: Parsers, m: Mode, p: seq<byte>, q: seq<byte>, y: seq<byte>, n: nat)
    requires AtOsc(m, p) && ValidMode(m) && Scan(m, p + q).NoEnd? && |p| > OSC_BOUND
    requires y == LastEscape(p) + q && q != [] && n == |p| - |LastEscape(p)|
    ensures SameReports(Run(x, m, p + q), Feeds(x, m, [], [p, q])) <==> |y| > OSC_BOUND || y == LastEscape(y)
  {
    LongOscWhole(x, m, p, q, y, n);
    LongOscCut(x, m, p, q, y, n);
    ReportsAgree(Run(x, m, p + q), Feeds(x, m, [], [p, q]), n, y);
  }

  /** A cut inside an OSC string that is not terminated leaves the reports and the
      held bytes as they are exactly when the part before it is within the bound,
      when what is left to hold is over the bound again, or when only an escape is
      left. This is why `ChunkingIndependence` settles such a string first. */
  lemma OscCutExact(x: Parsers, m: Mode, p: seq<byte>, q: seq<byte>)
    requires AtOsc(m, p) && ValidMode(m) && q != [] && Scan(m, p + q).NoEnd?
    ensures SameReports(Run(x, m, p + q), Feeds(x, m, [], [p, q]))
       <==> |p| <= OSC_BOUND || |LastEscape(p) + q| > OSC_BOUND || (LastEscape(p) == [] && q == [ESC])
  {
    if |p| <= OSC_BOUND {
      ShortOscCut(x, m, p, q);
      ScanOfFront(p, q, m);
      UnfinishedRuns(x, m, p + q);
    } else {
      LongOscReports(x, m, p, q, LastEscape(p) + q, |p| - |LastEscape(p)|);
      OnlyEscape(p, q, LastEscape(p) + q);
    }
  }

  /** Such a cut: after an overlong string a further byte of it is held back; uncut,
      the same byte has been reported as ignored. */
  lemma OscReportsLate(x: Parsers, p: seq<byte>, b: byte)
    requires AtOsc(START, p) && Scan(START, p).NoEnd? && |p| > OSC_BOUND && p[|p| - 1] != ESC
    requires b != ESC && !IsOscEnd(b)
    ensures
      var whole, cut := Run(x, START, p + [b]), Feeds(x, START, [], [p, [b]]);
      && whole.Done? && whole.pending == [] && LogAtoms(whole.log) == IgnoredBytes(|p| + 1)
      && cut.Done? && cut.pending == [b] && LogAtoms(cut.log) == IgnoredBytes(|p|)
  {
    PrefixesExtend(p, [b]);
    ScanResumes(START, p, [b]);
    assert p[|p|..] + [b] == [b];
    assert OscScan([b], 0, Scan(START, p).tail).NoEnd?;
    ScanOfFront(p, [b], START);
    FlushedOsc(x, START, p + [b]);
    LongOscCut(x, START, p, [b], [b], |p|);
    assert IgnoredBytes(|p|) + [] == IgnoredBytes(|p|);
  }

  lemma TwoChunks(x: Parsers, m: Mode, p: seq<byte>, q: seq<byte>)
    requires Run(x, m, p).Done?
    requires Run(x, Run(x, m, p).mode, Run(x, m, p).pending + q).Done?
    ensures
      var first := Run(x, m, p);
      var second := Run(x, first.mode, first.pending + q);
      Feeds(x, m, [], [p, q]) == Done(second.mode, second.pending, first.log + second.log)
  {
    var first := Run(x, m, p);
    var second := Run(x, first.mode, first.pending + q);
    assert [p, q][1..] == [q] && [q][1..] == [] && [] + p == p;
    assert Feeds(x, first.mode, first.pending, [q]) == After(second.log, Done(second.mode, second.pending, []));
    assert first.log + (second.log + []) == first.log + second.log;
  }
}
