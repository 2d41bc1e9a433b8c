/** The chunking theorem: decoding an orderly stream in any number of feeds is
    the same, up to merging adjacent events, as decoding it in one. */
module Splitting {
  import opened Basics
  import opened HostInput
  import opened Chunking
  import opened Stability
  import Conservation

  /** Discarding a control sequence reports every byte it sees, so a longer
      input only lengthens the report; every other step is stable. */
  ghost predicate DiscardsAll(m: Mode, p: seq<byte>) {
    !m.inPaste && m.discardCsi && FirstFinal(p, 0) == |p|
  }

  ghost predicate AtOsc(m: Mode, p: seq<byte>) {
    && p != [] && !m.inPaste && !m.discardCsi
    && !(m.utf8Tail != 0 && IsContinuation(p[0]))
    && (OscPrefix(p) != 0 || m.discardOsc)
  }

  lemma AtOscStep(x: Parsers, m: Mode, p: seq<byte>)
    requires AtOsc(m, p)
    ensures Step(x, m, p) == OscStep(x, m.(utf8Tail := 0), p)
    ensures ItemOrderly(m, p)
  {
    if !m.discardOsc { assert p[0] == 0x9d || p[1] == 0x5d; }
  }

  /** The mode reads a key, a control sequence or text next. */
  ghost predicate Plain(m: Mode, p: seq<byte>) {
    && p != [] && !m.inPaste && !m.discardCsi && !m.discardOsc
    && !(m.utf8Tail != 0 && IsContinuation(p[0]))
  }

  /** A colour reply over the bound is dropped as it arrives; a longer input only
      lengthens the report of it. */
  ghost predicate Drops(m: Mode, p: seq<byte>) { Plain(m, p) && DropsColor(p) }

  /** What `StepStable` claims of the step `a` taken on `p`. */
  ghost predicate Stable(x: Parsers, m: Mode, p: seq<byte>, q: seq<byte>)
    requires p != []
  {
    var a := Step(x, m, p);
    && Agrees(a, Step(x, m, p + q))
    && (a.Flush? ==> AtOsc(m, p) && AtOsc(m, p + q) && (m.discardOsc || OscPrefix(p + q) == OscPrefix(p)))
    && (a.Wait? ==> Step(x, a.next, p + q) == Step(x, m, p + q) && ItemOrderly(a.next, p + q))
  }

  lemma PlainStable(x: Parsers, m: Mode, p: seq<byte>, q: seq<byte>)
    requires Plain(m, p) && OscPrefix(p) == 0 && !(PASTE_START <= p) && !DropsColor(p)
    requires ItemOrderly(m, p + q)
    ensures Stable(x, m, p, q)
  {
    assert (p + q)[0] == p[0];
    PrefixesExtend(p, q);
    if KnownHostPrefix(p) && p != PAGE_UP && p != PAGE_DOWN {
      KnownPrefixWaits(x, m.(utf8Tail := 0), p);
    } else {
      assert |p| > 2 ==> (p + q)[2] == p[2] && (p + q)[1] == p[1];
      assert !(PASTE_START <= p + q) && OscPrefix(p + q) == 0;
      SequenceStable(x, m.(utf8Tail := 0), p, q);
    }
  }

  lemma OscStepStable(x: Parsers, m: Mode, p: seq<byte>, q: seq<byte>)
    requires AtOsc(m, p) && ValidMode(m)
    ensures Stable(x, m, p, q)
  {
    assert (p + q)[0] == p[0];
    PrefixesExtend(p, q);
    AtOscStep(x, m, p);
    AtOscStep(x, m, p + q);
    AtOscStep(x, m.(utf8Tail := 0), p + q);
    OscStable(x, m.(utf8Tail := 0), p, q);
  }

  lemma StepStable(x: Parsers, m: Mode, p: seq<byte>, q: seq<byte>)
    requires p != [] && ItemOrderly(m, p + q) && !DiscardsAll(m, p) && !Drops(m, p) && ValidMode(m)
    ensures Stable(x, m, p, q)
  {
    assert (p + q)[0] == p[0];
    if AtOsc(m, p) {
      OscStepStable(x, m, p, q);
    } else if Plain(m, p) && !(PASTE_START <= p) {
      PlainStable(x, m, p, q);
    } else if m.inPaste {
      PasteStable(m, p, q);
    } else if m.discardCsi {
      FirstFinalExtend(p, q, 0);
    } else if PASTE_START <= p {
      PrefixesExtend(p, q);
    }
  }

  // ----- Splitting where an OSC string overflows -----------------------------

  /** Scanning past an overflow: what is kept is scanned as the rest of `p + q`. */
  lemma OscResumes(p: seq<byte>, q: seq<byte>, start: nat, tail: nat)
    requires start < |p| && OscScan(p, start, tail).NoEnd?
    ensures
      var count := |p| - |LastEscape(p)|;
      OscScan(p + q, start, tail) == Shift(OscScan(p[count..] + q, 0, OscScan(p, start, tail).tail), count)
  {
    var count := |p| - |LastEscape(p)|;
    OscScanExtend(p, q, start, tail);
    OscScanShift(p[..count], p[count..] + q, 0, OscScan(p, start, tail).tail);
    assert p[..count] + (p[count..] + q) == p + q;
  }

  /** A single ignored reply, as a log and as atoms. */
  lemma IgnoredPiece(raw: seq<byte>, n: nat)
    ensures LogAtoms(Pieces(raw, [TerminalReply(Ignored, n)])) == IgnoredBytes(n)
  {
    var log := Pieces(raw, [TerminalReply(Ignored, n)]);
    assert log == [Piece(raw, TerminalReply(Ignored, n))];
    assert log[1..] == [];
  }

  function OscStart(m: Mode, p: seq<byte>): (n: nat)
    ensures n <= |p|
  {
    if m.discardOsc then 0 else OscPrefix(p)
  }

  function OscTail(m: Mode): nat { if m.discardOsc then m.oscTail else 0 }

  function Scan(m: Mode, p: seq<byte>): OscScanResult { OscScan(p, OscStart(m, p), OscTail(m)) }

  /** The mode that discards an OSC string from UTF-8 state `tail` on. */
  function Discarding(m: Mode, tail: nat): Mode {
    m.(utf8Tail := 0, discardOsc := true, oscTail := tail)
  }

  lemma FlushedView(x: Parsers, m: Mode, p: seq<byte>)
    requires AtOsc(m, p) && Scan(m, p).NoEnd? && |p| > OSC_BOUND
    ensures
      var n := |p| - |LastEscape(p)|;
      Run(x, m, p) == Done(Discarding(m, Scan(m, p).tail), LastEscape(p), Pieces(p[..n], [TerminalReply(Ignored, n)]))
  {
    AtOscStep(x, m, p);
    var n := |p| - |LastEscape(p)|;
    var next := Discarding(m, Scan(m, p).tail);
    assert p[n..] == LastEscape(p);
    assert OscStep(x, m.(utf8Tail := 0), p) == Flush(n, [TerminalReply(Ignored, n)], next);
  }

  /** A flushed OSC string holds nothing more to settle. */
  lemma SettledFlush(m: Mode, p: seq<byte>, atoms: seq<Atom>)
    requires m.discardOsc && p != [] && (p[|p| - 1] == ESC ==> m.oscTail == 0)
    ensures Settle(m, LastEscape(p), atoms) == View(m, LastEscape(p), atoms)
  {
    assert OscScan([ESC], 0, 0) == NoEnd(0);
    assert atoms + IgnoredBytes(0) == atoms;
  }

  lemma FlushOutcome(m: Mode, p: seq<byte>)
    requires AtOsc(m, p) && Scan(m, p).NoEnd? && |p| > OSC_BOUND
    ensures
      var n := |p| - |LastEscape(p)|;
      var next := Discarding(m, Scan(m, p).tail);
      ViewOf(Done(next, LastEscape(p), Pieces(p[..n], [TerminalReply(Ignored, n)])))
      == View(next, LastEscape(p), IgnoredBytes(n))
  {
    var n := |p| - |LastEscape(p)|;
    IgnoredPiece(p[..n], n);
    OscScanExtend(p, [], OscStart(m, p), OscTail(m));
    SettledFlush(Discarding(m, Scan(m, p).tail), p, IgnoredBytes(n));
  }

  lemma FlushedIsIgnored(x: Parsers, m: Mode, p: seq<byte>)
    requires AtOsc(m, p) && Scan(m, p).NoEnd? && |p| > OSC_BOUND
    ensures ViewOf(Run(x, m, p)) ==
            View(Discarding(m, Scan(m, p).tail), LastEscape(p), IgnoredBytes(|p| - |LastEscape(p)|))
  {
    FlushedView(x, m, p);
    FlushOutcome(m, p);
  }

  lemma HeldIsIgnored(x: Parsers, m: Mode, p: seq<byte>)
    requires ValidMode(m) && m.discardOsc && AtOsc(m, p) && Scan(m, p).NoEnd? && |p| <= OSC_BOUND
    ensures ViewOf(Run(x, m, p)) ==
            View(Discarding(m, Scan(m, p).tail), LastEscape(p), IgnoredBytes(|p| - |LastEscape(p)|))
  {
    AtOscStep(x, m, p);
    assert OscStep(x, m.(utf8Tail := 0), p) == Wait(m);
    assert Run(x, m, p) == Done(m, p, []);
  }

  lemma UnfinishedOrderly(x: Parsers, m: Mode, p: seq<byte>)
    requires AtOsc(m, p) && Scan(m, p).NoEnd?
    ensures Orderly(x, m, p)
  {
    AtOscStep(x, m, p);
    assert !OscStep(x, m.(utf8Tail := 0), p).Consume?;
  }

  /** Decoding `p` reports `n` ignored bytes and stops in `end`, keeping `kept`. */
  ghost predicate Stops(x: Parsers, m: Mode, p: seq<byte>, n: nat, end: Mode, kept: seq<byte>) {
    ViewOf(Run(x, m, p)) == View(end, kept, IgnoredBytes(n)) && Orderly(x, m, p)
  }

  /** An OSC string too long to keep and still unterminated: everything is
      ignored but a final escape, whether it is flushed or still held. */
  lemma UnfinishedView(x: Parsers, m: Mode, p: seq<byte>, n: nat, end: Mode, kept: seq<byte>)
    requires ValidMode(m) && !m.inPaste
    requires m.discardOsc || (AtOsc(m, p) && |p| > OSC_BOUND)
    requires Scan(m, p).NoEnd? && end == Discarding(m, Scan(m, p).tail)
    requires kept == LastEscape(p) && n == |p| - |kept|
    ensures Stops(x, m, p, n, end, kept)
  {
    if p != [] {
      UnfinishedOrderly(x, m, p);
      if |p| > OSC_BOUND { FlushedIsIgnored(x, m, p); } else { HeldIsIgnored(x, m, p); }
    }
  }

  /** Decoding `p` reports `n` ignored bytes and goes on as `rest` from `next`. */
  ghost predicate Ignores(x: Parsers, m: Mode, p: seq<byte>, n: nat, next: Mode, rest: seq<byte>) {
    && ViewOf(Run(x, m, p)) == Prefixed(IgnoredBytes(n), ViewOf(Run(x, next, rest)))
    && Orderly(x, m, p) == Orderly(x, next, rest)
  }

  lemma IgnoreStep(x: Parsers, m: Mode, p: seq<byte>, n: nat, next: Mode, rest: seq<byte>)
    requires p != [] && n <= |p| && rest == p[n..] && ItemOrderly(m, p)
    requires Step(x, m, p) == Consume(n, [TerminalReply(Ignored, n)], next)
    ensures Ignores(x, m, p, n, next, rest)
  {
    IgnoredPiece(p[..n], n);
    ViewAfter(Pieces(p[..n], [TerminalReply(Ignored, n)]), Run(x, next, rest));
  }

  /** An OSC string that ends too late to be read is one ignored reply. */
  lemma EndedStep(x: Parsers, m: Mode, p: seq<byte>, n: nat, next: Mode)
    requires AtOsc(m, p) && Scan(m, p).End? && n == Scan(m, p).index + Scan(m, p).length
    requires m.discardOsc || n > OSC_BOUND
    requires next == m.(utf8Tail := 0, discardOsc := false, oscTail := 0)
    ensures Step(x, m, p) == Consume(n, [TerminalReply(Ignored, n)], next) && ItemOrderly(m, p)
  {
    AtOscStep(x, m, p);
    assert ReplyEvents([Ignored], n) == [TerminalReply(Ignored, n)];
    assert OscStep(x, m.(utf8Tail := 0), p) == Consume(n, [TerminalReply(Ignored, n)], next);
  }

  /** Two steps that ignore up to the same point differ by the bytes between. */
  lemma StepsMerge(x: Parsers, m: Mode, p: seq<byte>, a: nat,
        d: Mode, y: seq<byte>, b: nat, next: Mode, rest: seq<byte>)
    requires p != [] && a + b <= |p| && rest == p[a + b..] && ItemOrderly(m, p)
    requires y != [] && b <= |y| && rest == y[b..] && ItemOrderly(d, y)
    requires Step(x, m, p) == Consume(a + b, [TerminalReply(Ignored, a + b)], next)
    requires Step(x, d, y) == Consume(b, [TerminalReply(Ignored, b)], next)
    ensures Ignores(x, m, p, a, d, y)
  {
    IgnoreStep(x, m, p, a + b, next, rest);
    IgnoreStep(x, d, y, b, next, rest);
    IgnoresPart(x, m, p, a, d, y, b, next, rest);
  }

  lemma IgnoresPart(x: Parsers, m: Mode, p: seq<byte>, a: nat,
        d: Mode, y: seq<byte>, b: nat, next: Mode, rest: seq<byte>)
    requires Ignores(x, m, p, a + b, next, rest) && Ignores(x, d, y, b, next, rest)
    ensures Ignores(x, m, p, a, d, y)
  {
    IgnoredMore(a, b, ViewOf(Run(x, m, p)), ViewOf(Run(x, d, y)), ViewOf(Run(x, next, rest)));
  }

  lemma IgnoredMore(a: nat, b: nat, whole: View, part: View, rest: View)
    requires whole == Prefixed(IgnoredBytes(a + b), rest) && part == Prefixed(IgnoredBytes(b), rest)
    ensures whole == Prefixed(IgnoredBytes(a), part)
  {
    IgnoredSplit(a, b);
    if rest.View? {
      assert IgnoredBytes(a) + (IgnoredBytes(b) + rest.atoms) == IgnoredBytes(a + b) + rest.atoms;
    }
  }

  /** The bytes kept by an overflow, followed by `q`, are scanned to the same end. */
  lemma ScanResumes(m: Mode, p: seq<byte>, q: seq<byte>)
    requires AtOsc(m, p) && ValidMode(m)
    requires m.discardOsc || OscPrefix(p + q) == OscPrefix(p)
    requires Scan(m, p).NoEnd? && |p| > OSC_BOUND
    ensures
      var n := |p| - |LastEscape(p)|;
      var next := Discarding(m, Scan(m, p).tail);
      var y := p[n..] + q;
      && ValidMode(next) && p + q == p[..n] + y
      && Scan(m, p + q) == Shift(Scan(next, y), n)
      && (y != [] ==> AtOsc(next, y))
      && LastEscape(p + q) == LastEscape(y)
  {
    var n := |p| - |LastEscape(p)|;
    OscResumes(p, q, OscStart(m, p), OscTail(m));
    KeptAndMore(p, q);
  }

  lemma KeptAndMore(p: seq<byte>, q: seq<byte>)
    ensures
      var n := |p| - |LastEscape(p)|;
      && p[n..] == LastEscape(p)
      && p + q == p[..n] + (p[n..] + q)
      && LastEscape(p + q) == LastEscape(p[n..] + q)
      && (p[n..] + q != [] && p[n..] != [] ==> (p[n..] + q)[0] == ESC)
  {
  }

  lemma OverflowEnds(x: Parsers, m: Mode, p: seq<byte>, n: nat, t: nat, y: seq<byte>)
    requires AtOsc(m, p) && OSC_BOUND <= n <= |p| && y == p[n..]
    requires y != [] && AtOsc(Discarding(m, t), y)
    requires Scan(m, p) == Shift(Scan(Discarding(m, t), y), n) && Scan(m, p).End?
    ensures Ignores(x, m, p, n, Discarding(m, t), y)
  {
    var k := Scan(Discarding(m, t), y).index + Scan(Discarding(m, t), y).length;
    var next := m.(utf8Tail := 0, discardOsc := false, oscTail := 0);
    var rest := y[k..];
    assert rest == p[n + k..];
    EndedStep(x, m, p, n + k, next);
    EndedStep(x, Discarding(m, t), y, k, next);
    StepsMerge(x, m, p, n, Discarding(m, t), y, k, next, rest);
  }

  lemma IgnoredUnfinished(a: nat, b: nat, m: Mode, kept: seq<byte>, whole: View, part: View)
    requires whole == View(m, kept, IgnoredBytes(a + b)) && part == View(m, kept, IgnoredBytes(b))
    ensures whole == Prefixed(IgnoredBytes(a), part)
  {
    IgnoredSplit(a, b);
  }

  lemma OverflowContinues(x: Parsers, m: Mode, p: seq<byte>, n: nat, d: Mode, y: seq<byte>)
    requires ValidMode(m) && AtOsc(m, p) && OSC_BOUND < |p| == n + |y|
    requires ValidMode(d) && d.discardOsc && !d.inPaste
    requires LastEscape(p) == LastEscape(y)
    requires Scan(m, p) == Scan(d, y) && Scan(m, p).NoEnd?
    requires Discarding(m, Scan(m, p).tail) == Discarding(d, Scan(d, y).tail)
    ensures Ignores(x, m, p, n, d, y)
  {
    var kept, end := LastEscape(p), Discarding(m, Scan(m, p).tail);
    var k := |y| - |kept|;
    UnfinishedView(x, m, p, n + k, end, kept);
    UnfinishedView(x, d, y, k, end, kept);
    BothStop(x, m, p, n, k, d, y, end, kept);
  }

  lemma BothStop(x: Parsers, m: Mode, p: seq<byte>, n: nat, k: nat, d: Mode, y: seq<byte>, end: Mode, kept: seq<byte>)
    requires Stops(x, m, p, n + k, end, kept) && Stops(x, d, y, k, end, kept)
    ensures Ignores(x, m, p, n, d, y)
  {
    IgnoredUnfinished(n, k, end, kept, ViewOf(Run(x, m, p)), ViewOf(Run(x, d, y)));
  }

  lemma OverflowSplits(x: Parsers, m: Mode, p: seq<byte>, q: seq<byte>, n: nat, next: Mode, y: seq<byte>)
    requires AtOsc(m, p) && AtOsc(m, p + q) && ValidMode(m)
    requires m.discardOsc || OscPrefix(p + q) == OscPrefix(p)
    requires Scan(m, p).NoEnd? && |p| > OSC_BOUND
    requires n == |p| - |LastEscape(p)| && next == Discarding(m, Scan(m, p).tail) && y == LastEscape(p) + q
    ensures Ignores(x, m, p + q, n, next, y)
  {
    assert p[n..] == LastEscape(p);
    ScanResumes(m, p, q);
    assert (p + q)[n..] == y;
    if Scan(m, p + q).End? {
      OverflowEnds(x, m, p + q, n, Scan(m, p).tail, y);
    } else {
      OverflowContinues(x, m, p + q, n, next, y);
    }
  }

  // ----- The theorem for two feeds -------------------------------------------

  lemma PrefixedConcat(a: seq<Atom>, b: seq<Atom>, v: View)
    ensures Prefixed(a, Prefixed(b, v)) == Prefixed(a + b, v)
  {
    if v.View? { assert a + (b + v.atoms) == a + b + v.atoms; }
  }

  lemma PrefixedNone(v: View)
    ensures Prefixed([], v) == v
  {
    if v.View? { assert [] + v.atoms == v.atoms; }
  }

  /** Feeding `p` and then `q` from mode `m` is feeding `p + q`. */
  ghost predicate Splits(x: Parsers, m: Mode, p: seq<byte>, q: seq<byte>) {
    match Run(x, m, p)
    case Failed => Run(x, m, p + q).Failed?
    case Done(next, kept, log) =>
      && ViewOf(Run(x, m, p + q)) == Prefixed(LogAtoms(log), ViewOf(Run(x, next, kept + q)))
      && Orderly(x, next, kept + q)
  }

  lemma RunConsume(x: Parsers, m: Mode, p: seq<byte>)
    requires p != [] && Step(x, m, p).Consume?
    ensures
      var a := Step(x, m, p);
      ViewOf(Run(x, m, p)) == Prefixed(LogAtoms(Pieces(p[..a.count], a.events)), ViewOf(Run(x, a.next, p[a.count..])))
  {
    var a := Step(x, m, p);
    ViewAfter(Pieces(p[..a.count], a.events), Run(x, a.next, p[a.count..]));
  }

  lemma RunAfter(x: Parsers, m: Mode, p: seq<byte>)
    requires p != [] && Step(x, m, p).Consume?
    ensures
      var a := Step(x, m, p);
      Run(x, m, p) == After(Pieces(p[..a.count], a.events), Run(x, a.next, p[a.count..]))
  {
  }

  lemma SliceExtend(p: seq<byte>, q: seq<byte>, n: nat)
    requires n <= |p|
    ensures (p + q)[n..] == p[n..] + q && (p + q)[..n] == p[..n]
  {
  }

  lemma ComposeViews(first: seq<Piece>, rest: seq<Piece>, whole: View, part: View, last: View)
    requires whole == Prefixed(LogAtoms(first), part) && part == Prefixed(LogAtoms(rest), last)
    ensures whole == Prefixed(LogAtoms(first + rest), last)
  {
    LogAtomsConcat(first, rest);
    PrefixedConcat(LogAtoms(first), LogAtoms(rest), last);
  }

  lemma ConsumeSplits(x: Parsers, m: Mode, p: seq<byte>, q: seq<byte>)
    requires p != [] && Step(x, m, p).Consume? && Step(x, m, p + q) == Step(x, m, p)
    requires Splits(x, Step(x, m, p).next, p[Step(x, m, p).count..], q)
    ensures Splits(x, m, p, q)
  {
    var a := Step(x, m, p);
    var first := Pieces(p[..a.count], a.events);
    var rest := Run(x, a.next, p[a.count..]);
    SliceExtend(p, q, a.count);
    RunConsume(x, m, p + q);
    RunAfter(x, m, p);
    if rest.Done? {
      ComposeViews(first, rest.log, ViewOf(Run(x, m, p + q)), ViewOf(Run(x, a.next, p[a.count..] + q)),
                   ViewOf(Run(x, rest.mode, rest.pending + q)));
    }
  }

  lemma SameStep(x: Parsers, m: Mode, next: Mode, p: seq<byte>)
    requires p != [] && Step(x, next, p) == Step(x, m, p) && ItemOrderly(next, p)
    ensures Run(x, next, p) == Run(x, m, p)
    ensures Orderly(x, m, p) ==> Orderly(x, next, p)
  {
  }

  lemma WaitSplits(x: Parsers, m: Mode, p: seq<byte>, q: seq<byte>)
    requires p != [] && Step(x, m, p).Wait? && Stable(x, m, p, q) && Orderly(x, m, p + q)
    ensures Splits(x, m, p, q)
  {
    var next := Step(x, m, p).next;
    SameStep(x, m, next, p + q);
    PrefixedNone(ViewOf(Run(x, m, p + q)));
  }

  /** A log of ignored bytes splits where what follows it is ignored too. */
  lemma IgnoredSplits(x: Parsers, m: Mode, p: seq<byte>, q: seq<byte>,
        n: nat, next: Mode, kept: seq<byte>, log: seq<Piece>)
    requires Run(x, m, p) == Done(next, kept, log) && LogAtoms(log) == IgnoredBytes(n)
    requires Ignores(x, m, p + q, n, next, kept + q) && Orderly(x, m, p + q)
    ensures Splits(x, m, p, q)
  {
  }

  lemma FlushSplits(x: Parsers, m: Mode, p: seq<byte>, q: seq<byte>)
    requires p != [] && Step(x, m, p).Flush? && Stable(x, m, p, q)
    requires ValidMode(m) && Orderly(x, m, p + q)
    ensures Splits(x, m, p, q)
  {
    AtOscStep(x, m, p);
    var n, next := |p| - |LastEscape(p)|, Discarding(m, Scan(m, p).tail);
    FlushedView(x, m, p);
    IgnoredPiece(p[..n], n);
    OverflowSplits(x, m, p, q, n, next, LastEscape(p) + q);
    IgnoredSplits(x, m, p, q, n, next, LastEscape(p), Pieces(p[..n], [TerminalReply(Ignored, n)]));
  }

  /** Going on discarding a control sequence. */
  lemma DiscardStep(x: Parsers, m: Mode, p: seq<byte>, n: nat, next: Mode)
    requires p != [] && !m.inPaste && m.discardCsi
    requires n == (if FirstFinal(p, 0) < |p| then FirstFinal(p, 0) + 1 else |p|)
    requires next == m.(discardCsi := FirstFinal(p, 0) == |p|)
    ensures Step(x, m, p) == Consume(n, [TerminalReply(Ignored, n)], next) && ItemOrderly(m, p)
  {
  }

  lemma DiscardRun(x: Parsers, m: Mode, p: seq<byte>)
    requires p != [] && DiscardsAll(m, p)
    ensures Run(x, m, p) == Done(m, [], Pieces(p, [TerminalReply(Ignored, |p|)]))
  {
    assert p[|p|..] == [] && p[..|p|] == p && m.(discardCsi := true) == m;
    assert Step(x, m, p) == Consume(|p|, [TerminalReply(Ignored, |p|)], m);
    RunAfter(x, m, p);
  }

  lemma DiscardContinues(x: Parsers, m: Mode, s: seq<byte>, k: nat, q: seq<byte>)
    requires !m.inPaste && m.discardCsi && k <= |s| && q == s[k..] && q != []
    requires FirstFinal(s, 0) == k + FirstFinal(q, 0)
    ensures Ignores(x, m, s, k, m, q)
  {
    var n := if FirstFinal(q, 0) < |q| then FirstFinal(q, 0) + 1 else |q|;
    var next := m.(discardCsi := FirstFinal(q, 0) == |q|);
    var rest := q[n..];
    assert rest == s[k + n..];
    DiscardStep(x, m, s, k + n, next);
    DiscardStep(x, m, q, n, next);
    StepsMerge(x, m, s, k, m, q, n, next, rest);
  }

  lemma DiscardSplits(x: Parsers, m: Mode, p: seq<byte>, q: seq<byte>)
    requires p != [] && DiscardsAll(m, p) && ValidMode(m) && Orderly(x, m, p + q)
    ensures Splits(x, m, p, q)
  {
    DiscardRun(x, m, p);
    IgnoredPiece(p, |p|);
    assert [] + q == q;
    if q == [] {
      assert p + q == p;
      NothingFollows(x, m, p, m);
    } else {
      FirstFinalExtend(p, q, 0);
      assert (p + q)[|p|..] == q;
      DiscardContinues(x, m, p + q, |p|, q);
      IgnoredSplits(x, m, p, q, |p|, m, [], Pieces(p, [TerminalReply(Ignored, |p|)]));
    }
  }

  // A colour reply that is dropped.

  lemma DropStep(x: Parsers, m: Mode, p: seq<byte>, d: Mode)
    requires Drops(m, p) && d == m.(utf8Tail := 0, discardCsi := true)
    ensures Step(x, m, p) == Flush(|p|, [TerminalReply(Ignored, |p|)], d)
    ensures Run(x, m, p) == Done(d, [], Pieces(p, [TerminalReply(Ignored, |p|)]))
  {
    DropsNoKey(p);
    assert p[|p|..] == [] && p[..|p|] == p;
  }

  lemma DropsNoKey(p: seq<byte>)
    requires DropsColor(p)
    ensures !(PASTE_START <= p) && !(PAGE_UP <= p) && !(PAGE_DOWN <= p) && !(MOUSE_START <= p) && OscPrefix(p) == 0
  {
    assert p[0] == 0x9b || p[1] == 0x5b;
    assert !IsFinal(p[3]) && !IsFinal(p[5]);
    if MOUSE_START <= p { NoColorReport(p); }
  }

  lemma DropsFurther(m: Mode, p: seq<byte>, q: seq<byte>)
    requires Drops(m, p)
    ensures IsCsi(p + q) && IntroducerLength(p + q) == IntroducerLength(p) && Plain(m, p + q)
    ensures FirstFinal(p + q, IntroducerLength(p)) == |p| + FirstFinal(q, 0)
    ensures FirstFinal(q, 0) == |q| ==> Drops(m, p + q)
    ensures !(PASTE_START <= p + q) && !(PAGE_UP <= p + q) && !(PAGE_DOWN <= p + q) && !(MOUSE_START <= p + q)
    ensures OscPrefix(p + q) == 0
  {
    assert (p + q)[0] == p[0];
    DropsNoKey(p);
    PrefixesExtend(p, q);
    assert !KnownHostPrefix(p);
    ColorExtends(p, q);
    FirstFinalExtend(p, q, IntroducerLength(p));
  }

  /** A drop as the view shows it. */
  lemma DropView(x: Parsers, m: Mode, p: seq<byte>, d: Mode, n: nat)
    requires !d.discardOsc && n == |p|
    requires Run(x, m, p) == Done(d, [], Pieces(p, [TerminalReply(Ignored, |p|)]))
    ensures ViewOf(Run(x, m, p)) == View(d, [], IgnoredBytes(n))
  {
    IgnoredPiece(p, |p|);
  }

  lemma BothDropped(x: Parsers, m: Mode, s: seq<byte>, k: nat, d: Mode, q: seq<byte>)
    requires |s| == k + |q| && !d.discardOsc && Orderly(x, m, s) && Orderly(x, d, q)
    requires Run(x, m, s) == Done(d, [], Pieces(s, [TerminalReply(Ignored, |s|)]))
    requires Run(x, d, q) == Done(d, [], Pieces(q, [TerminalReply(Ignored, |q|)]))
    ensures Ignores(x, m, s, k, d, q)
  {
    var n := |q|;
    var whole, part := ViewOf(Run(x, m, s)), ViewOf(Run(x, d, q));
    assert whole == View(d, [], IgnoredBytes(k + n)) by { DropView(x, m, s, d, k + n); }
    assert part == View(d, [], IgnoredBytes(n)) by { DropView(x, d, q, d, n); }
    IgnoredUnfinished(k, n, d, [], whole, part);
  }

  lemma DiscardOrderly(x: Parsers, d: Mode, q: seq<byte>)
    requires q != [] && DiscardsAll(d, q)
    ensures Orderly(x, d, q)
  {
    DiscardStep(x, d, q, |q|, d);
    assert q[|q|..] == [];
  }

  /** More of it, still without an end. */
  lemma DropGoesOn(x: Parsers, m: Mode, p: seq<byte>, q: seq<byte>, d: Mode)
    requires Drops(m, p) && d == m.(utf8Tail := 0, discardCsi := true) && q != [] && FirstFinal(q, 0) == |q|
    requires Orderly(x, m, p + q)
    ensures Ignores(x, m, p + q, |p|, d, q)
  {
    DropsFurther(m, p, q);
    DropStep(x, m, p + q, d);
    DiscardRun(x, d, q);
    DiscardOrderly(x, d, q);
    BothDropped(x, m, p + q, |p|, d, q);
  }

  lemma EndsDropped(x: Parsers, m: Mode, s: seq<byte>, k: nat, d: Mode, q: seq<byte>, n: nat, next: Mode)
    requires k <= |s| && q == s[k..] && q != [] && !d.inPaste && d.discardCsi && next == d.(discardCsi := false)
    requires FirstFinal(q, 0) < |q| && n == FirstFinal(q, 0) + 1
    requires Orderly(x, m, s) && Step(x, m, s) == Consume(k + n, [TerminalReply(Ignored, k + n)], next)
    ensures Ignores(x, m, s, k, d, q)
  {
    DiscardStep(x, d, q, n, next);
    assert s[k + n..] == q[n..];
    StepsMerge(x, m, s, k, d, q, n, next, q[n..]);
  }

  /** More of it, with its end. */
  lemma DropEnds(x: Parsers, m: Mode, p: seq<byte>, q: seq<byte>, d: Mode)
    requires Drops(m, p) && d == m.(utf8Tail := 0, discardCsi := true) && Orderly(x, m, p + q)
    requires FirstFinal(q, 0) < |q|
    ensures Ignores(x, m, p + q, |p|, d, q)
  {
    var end, next := |p| + FirstFinal(q, 0), m.(utf8Tail := 0);
    DropSteps(x, m, p, q, end, next);
    assert !m.inPaste && !m.discardCsi;
    DroppedEnd(x, m, p, q, end, d, next);
  }

  lemma DroppedEnd(x: Parsers, m: Mode, p: seq<byte>, q: seq<byte>, end: nat, d: Mode, next: Mode)
    requires !m.inPaste && !m.discardCsi && d == m.(utf8Tail := 0, discardCsi := true) && next == m.(utf8Tail := 0)
    requires FirstFinal(q, 0) < |q| && end == |p| + FirstFinal(q, 0) && Orderly(x, m, p + q)
    requires Step(x, m, p + q) == Consume(end + 1, [TerminalReply(Ignored, end + 1)], next)
    ensures Ignores(x, m, p + q, |p|, d, q)
  {
    assert (p + q)[|p|..] == q;
    EndsDropped(x, m, p + q, |p|, d, q, FirstFinal(q, 0) + 1, next);
  }

  lemma DropSteps(x: Parsers, m: Mode, p: seq<byte>, q: seq<byte>, end: nat, next: Mode)
    requires Drops(m, p) && Orderly(x, m, p + q) && next == m.(utf8Tail := 0)
    requires FirstFinal(q, 0) < |q| && end == |p| + FirstFinal(q, 0)
    ensures Step(x, m, p + q) == Consume(end + 1, [TerminalReply(Ignored, end + 1)], next)
  {
    var e := TerminalReply(Ignored, end + 1);
    DropReply(x, m, p, q, end);
    EndedCsi(x, next, p + q, end, e);
    DropWhole(x, m, p, q, end, next, e);
  }

  lemma IgnoredEvent(x: Parsers, raw: seq<byte>)
    requires CsiReply(raw) == Some(Ignored)
    ensures CsiEvent(x, raw) == TerminalReply(Ignored, |raw|)
  {
  }

  lemma PlainCsi(x: Parsers, m: Mode, s: seq<byte>, next: Mode)
    requires Plain(m, s) && IsCsi(s) && next == m.(utf8Tail := 0) && OscPrefix(s) == 0
    requires !(PASTE_START <= s) && !(PAGE_UP <= s) && !(PAGE_DOWN <= s) && !(MOUSE_START <= s)
    ensures Step(x, m, s) == CsiStep(x, next, s, FirstFinal(s, IntroducerLength(s)))
  {
  }

  lemma EndedCsi(x: Parsers, m: Mode, s: seq<byte>, end: nat, e: Event)
    requires end < |s| && CsiEvent(x, s[..end + 1]) == e
    ensures CsiStep(x, m, s, end) == Consume(end + 1, [e], m)
  {
  }

  lemma IgnoredStep(x: Parsers, m: Mode, s: seq<byte>, end: nat, next: Mode, e: Event)
    requires Plain(m, s) && IsCsi(s) && next == m.(utf8Tail := 0) && OscPrefix(s) == 0
    requires !(PASTE_START <= s) && !(PAGE_UP <= s) && !(PAGE_DOWN <= s) && !(MOUSE_START <= s)
    requires FirstFinal(s, IntroducerLength(s)) == end < |s| && CsiStep(x, next, s, end) == Consume(end + 1, [e], next)
    ensures Step(x, m, s) == Consume(end + 1, [e], next)
  {
    PlainCsi(x, m, s, next);
  }

  lemma DropReply(x: Parsers, m: Mode, p: seq<byte>, q: seq<byte>, end: nat)
    requires Drops(m, p) && Orderly(x, m, p + q)
    requires FirstFinal(q, 0) < |q| && end == |p| + FirstFinal(q, 0)
    ensures CsiEvent(x, (p + q)[..end + 1]) == TerminalReply(Ignored, end + 1)
  {
    DropsFurther(m, p, q);
    FitsFinal(x, m, p + q, end, (p + q)[..end + 1]);
    IgnoredEvent(x, (p + q)[..end + 1]);
  }

  lemma DropWhole(x: Parsers, m: Mode, p: seq<byte>, q: seq<byte>, end: nat, next: Mode, e: Event)
    requires Drops(m, p) && next == m.(utf8Tail := 0)
    requires FirstFinal(q, 0) < |q| && end == |p| + FirstFinal(q, 0)
    requires CsiStep(x, next, p + q, end) == Consume(end + 1, [e], next)
    ensures Step(x, m, p + q) == Consume(end + 1, [e], next)
  {
    DropsFurther(m, p, q);
    IgnoredStep(x, m, p + q, end, next, e);
  }

  lemma FitsFinal(x: Parsers, m: Mode, s: seq<byte>, end: nat, raw: seq<byte>)
    requires Plain(m, s) && Orderly(x, m, s) && IsCsi(s) && !(MOUSE_START <= s)
    requires FirstFinal(s, IntroducerLength(s)) == end && HOST_SEQUENCE_BOUND <= end < |s| && raw == s[..end + 1]
    ensures CsiReply(raw) == Some(Ignored)
  {
  }

  lemma DropSplits(x: Parsers, m: Mode, p: seq<byte>, q: seq<byte>)
    requires Drops(m, p) && Orderly(x, m, p + q)
    ensures Splits(x, m, p, q)
  {
    var d := m.(utf8Tail := 0, discardCsi := true);
    var log := Pieces(p, [TerminalReply(Ignored, |p|)]);
    DropStep(x, m, p, d);
    IgnoredPiece(p, |p|);
    assert [] + q == q;
    if q == [] {
      NothingFollows(x, m, p, d);
    } else {
      if FirstFinal(q, 0) == |q| { DropGoesOn(x, m, p, q, d); } else { DropEnds(x, m, p, q, d); }
      IgnoredSplits(x, m, p, q, |p|, d, [], log);
    }
  }

  lemma NothingFollows(x: Parsers, m: Mode, p: seq<byte>, next: Mode)
    requires !next.discardOsc
    requires Run(x, m, p) == Done(next, [], Pieces(p, [TerminalReply(Ignored, |p|)]))
    ensures Splits(x, m, p, [])
  {
    var log := Pieces(p, [TerminalReply(Ignored, |p|)]);
    assert p + [] == p;
    assert LogAtoms(log) + [] == LogAtoms(log);
  }

  /** Two feeds decode an orderly stream like one. */
  lemma {:induction false} TwoFeeds(x: Parsers, m: Mode, p: seq<byte>, q: seq<byte>)
    requires Conservation.ValidState(m, p) && Orderly(x, m, p + q)
    ensures Splits(x, m, p, q)
    decreases |p|, if m.inPaste then 0 else 1
  {
    if p == [] {
      PrefixedNone(ViewOf(Run(x, m, p + q)));
    } else if DiscardsAll(m, p) {
      DiscardSplits(x, m, p, q);
    } else if Drops(m, p) {
      DropSplits(x, m, p, q);
    } else {
      StepStable(x, m, p, q);
      var a := Step(x, m, p);
      match a {
        case Wait(_) => WaitSplits(x, m, p, q);
        case Flush(_, _, _) => FlushSplits(x, m, p, q);
        case Overflow =>
        case Consume(n, _, next) =>
          Conservation.StepKeepsState(x, m, p);
          SliceExtend(p, q, n);
          TwoFeeds(x, next, p[n..], q);
          ConsumeSplits(x, m, p, q);
      }
    }
  }

  // ----- Any number of feeds --------------------------------------------------

  function Flatten(chunks: seq<seq<byte>>): seq<byte> {
    if chunks == [] then [] else chunks[0] + Flatten(chunks[1..])
  }

  /** Feeding the chunks one after another. */
  function Feeds(x: Parsers, m: Mode, p: seq<byte>, chunks: seq<seq<byte>>): Outcome
    decreases |chunks|
  {
    if chunks == [] then Done(m, p, [])
    else
      match Run(x, m, p + chunks[0])
      case Failed => Failed
      case Done(next, kept, log) => After(log, Feeds(x, next, kept, chunks[1..]))
  }

  /** All events returned by those feeds, each feed's text joined on its own. */
  function Returned(x: Parsers, m: Mode, p: seq<byte>, chunks: seq<seq<byte>>): seq<Event>
    decreases |chunks|
  {
    if chunks == [] then []
    else
      match Run(x, m, p + chunks[0])
      case Failed => []
      case Done(next, kept, log) => Collect([], log) + Returned(x, next, kept, chunks[1..])
  }

  // The step from two feeds to many holds of any decoder, so it is proved of one
  // given as a function: from a mode and the bytes at hand to an outcome.

  type Condition = (Mode, seq<byte>) -> bool

  ghost predicate CutLaw(d: Decoder, orderly: Condition, m: Mode, p: seq<byte>, q: seq<byte>) {
    orderly(m, p + q) ==>
      match d(m, p)
      case Failed => d(m, p + q).Failed?
      case Done(next, kept, log) =>
        && ViewOf(d(m, p + q)) == Prefixed(LogAtoms(log), ViewOf(d(next, kept + q)))
        && orderly(next, kept + q)
  }

  ghost predicate Lawful(d: Decoder, orderly: Condition, valid: Condition) {
    && (forall m, p, q :: valid(m, p) ==> CutLaw(d, orderly, m, p, q))
    && (forall m, p, q :: valid(m, p) ==> valid(m, p + q))
    && (forall m, p :: valid(m, p) && d(m, p).Done? ==> valid(d(m, p).mode, d(m, p).pending))
  }

  function Fed(d: Decoder, m: Mode, p: seq<byte>, chunks: seq<seq<byte>>): Outcome
    decreases |chunks|
  {
    if chunks == [] then Done(m, p, [])
    else
      match d(m, p + chunks[0])
      case Failed => Failed
      case Done(next, kept, log) => After(log, Fed(d, next, kept, chunks[1..]))
  }

  lemma {:induction false} LawfulFeeds(
    d: Decoder, orderly: Condition, valid: Condition, m: Mode, p: seq<byte>, chunks: seq<seq<byte>>)
    requires Lawful(d, orderly, valid) && chunks != []
    requires valid(m, p) && orderly(m, p + Flatten(chunks))
    ensures ViewOf(Fed(d, m, p, chunks)) == ViewOf(d(m, p + Flatten(chunks)))
    decreases |chunks|
  {
    var input, rest := p + chunks[0], chunks[1..];
    var first := d(m, input);
    assert p + Flatten(chunks) == input + Flatten(rest);
    assert CutLaw(d, orderly, m, input, Flatten(rest));
    if first.Done? {
      ViewAfter(first.log, Fed(d, first.mode, first.pending, rest));
      if rest == [] {
        assert input + [] == input;
        assert After(first.log, Done(first.mode, first.pending, [])) == first by {
          assert first.log + [] == first.log;
        }
      } else {
        LawfulFeeds(d, orderly, valid, first.mode, first.pending, rest);
      }
    }
  }

  ghost function CodecCondition(x: Parsers): Condition { (m, p) => Orderly(x, m, p) }

  ghost function CodecValid(): Condition { (m, p) => Conservation.ValidState(m, p) }

  lemma CodecIsLawful(x: Parsers)
    ensures Lawful(Codec(x), CodecCondition(x), CodecValid())
  {
    var d, orderly, valid := Codec(x), CodecCondition(x), CodecValid();
    forall m, p, q | valid(m, p) ensures CutLaw(d, orderly, m, p, q) {
      if orderly(m, p + q) { TwoFeeds(x, m, p, q); }
    }
    forall m, p, q | valid(m, p) ensures valid(m, p + q) { PrefixExtend(PASTE_START, p, q); }
    forall m, p | valid(m, p) && d(m, p).Done? ensures valid(d(m, p).mode, d(m, p).pending) {
      Conservation.RunConserves(x, m, p);
    }
  }

  lemma {:induction false} FeedsAreFed(x: Parsers, m: Mode, p: seq<byte>, chunks: seq<seq<byte>>)
    ensures Feeds(x, m, p, chunks) == Fed(Codec(x), m, p, chunks)
    decreases |chunks|
  {
    if chunks != [] {
      var first := Run(x, m, p + chunks[0]);
      if first.Done? { FeedsAreFed(x, first.mode, first.pending, chunks[1..]); }
    }
  }

  lemma ManyFeeds(x: Parsers, m: Mode, p: seq<byte>, chunks: seq<seq<byte>>)
    requires chunks != []
    requires Conservation.ValidState(m, p) && Orderly(x, m, p + Flatten(chunks))
    ensures ViewOf(Feeds(x, m, p, chunks)) == ViewOf(Run(x, m, p + Flatten(chunks)))
  {
    CodecIsLawful(x);
    LawfulFeeds(Codec(x), CodecCondition(x), CodecValid(), m, p, chunks);
    FeedsAreFed(x, m, p, chunks);
  }

  lemma Associative<T>(a: seq<T>, b: seq<T>, c: seq<T>)
    ensures a + b + c == a + (b + c)
  {
  }

  lemma {:induction false} AtomsConcat(a: seq<Event>, b: seq<Event>)
    ensures Atoms(a + b) == Atoms(a) + Atoms(b)
  {
    if b == [] {
      assert a + b == a;
    } else {
      var n := |b| - 1;
      assert (a + b)[..|a + b| - 1] == a + b[..n] && (a + b)[|a + b| - 1] == b[n];
      AtomsConcat(a, b[..n]);
      Associative(Atoms(a), Atoms(b[..n]), EventAtoms(b[n]));
    }
  }

  lemma MoreAtoms(log: seq<Piece>, events: seq<Event>, rest: seq<Piece>)
    requires Atoms(events) == LogAtoms(rest)
    ensures Atoms(Collect([], log) + events) == LogAtoms(log + rest)
  {
    var collected := Collect([], log);
    assert Atoms(collected) == LogAtoms(log) by { CollectAtoms([], log); }
    assert Atoms(collected + events) == Atoms(collected) + Atoms(events) by { AtomsConcat(collected, events); }
    LogAtomsConcat(log, rest);
  }

  lemma {:induction false} ReturnedAtoms(x: Parsers, m: Mode, p: seq<byte>, chunks: seq<seq<byte>>)
    requires Feeds(x, m, p, chunks).Done?
    ensures Atoms(Returned(x, m, p, chunks)) == LogAtoms(Feeds(x, m, p, chunks).log)
    decreases |chunks|
  {
    if chunks != [] {
      var first := Run(x, m, p + chunks[0]);
      var rest := Feeds(x, first.mode, first.pending, chunks[1..]);
      ReturnedAtoms(x, first.mode, first.pending, chunks[1..]);
      MoreAtoms(first.log, Returned(x, first.mode, first.pending, chunks[1..]), rest.log);
    }
  }

  /** Chunking independence. An orderly stream, cut into chunks in any way,
      fails exactly when it fails fed whole. Otherwise both leave the same mode
      and bytes behind and return the same events up to merging, with one
      exception: in the middle of an overlong OSC string, how many of its
      ignored bytes have been reported already may differ. */
  lemma ChunkingIndependence(x: Parsers, chunks: seq<seq<byte>>)
    requires chunks != [] && Orderly(x, START, Flatten(chunks))
    ensures
      var cut, whole := Feeds(x, START, [], chunks), Run(x, START, Flatten(chunks));
      && (cut.Failed? <==> whole.Failed?)
      && ViewOf(cut) == ViewOf(whole)
      && (whole.Done? && !whole.mode.discardOsc ==>
            && cut.mode == whole.mode && cut.pending == whole.pending
            && Atoms(Returned(x, START, [], chunks)) == Atoms(Collect([], whole.log)))
  {
    assert [] + Flatten(chunks) == Flatten(chunks);
    ManyFeeds(x, START, [], chunks);
    var cut, whole := Feeds(x, START, [], chunks), Run(x, START, Flatten(chunks));
    if whole.Done? {
      ReturnedAtoms(x, START, [], chunks);
      CollectAtoms([], whole.log);
    }
  }
}
