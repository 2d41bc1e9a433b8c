/** Chunking independence of the host-input codec: feeding a stream in pieces
    gives the same events as feeding it whole, up to joining adjacent text and
    adjacent ignored replies.

    The code does not promise this for every stream. `Orderly` is the condition
    under which it holds; Exactness.dfy shows what goes wrong outside it. */
module Chunking {
  import opened Basics
  import opened HostInput

  // ----- Events up to merging --------------------------------------------

  /** Text and ignored bytes one by one; any other event as a whole. */
  datatype Atom = TextByte(b: byte) | IgnoredByte | Whole(event: Event)

  function IgnoredBytes(n: nat): seq<Atom> { seq(n, _ => IgnoredByte) }

  function EventAtoms(e: Event): seq<Atom> {
    match e
    case Bytes(text) => seq(|text|, i requires 0 <= i < |text| => TextByte(text[i]))
    case TerminalReply(Ignored, n) => IgnoredBytes(n)
    case _ => [Whole(e)]
  }

  function Atoms(events: seq<Event>): seq<Atom> {
    if events == [] then [] else Atoms(events[..|events| - 1]) + EventAtoms(events[|events| - 1])
  }

  function LogAtoms(log: seq<Piece>): seq<Atom> {
    if log == [] then [] else EventAtoms(log[0].event) + LogAtoms(log[1..])
  }

  lemma {:induction false} LogAtomsConcat(a: seq<Piece>, b: seq<Piece>)
    ensures LogAtoms(a + b) == LogAtoms(a) + LogAtoms(b)
  {
    if a == [] {
      assert a + b == b;
    } else {
      assert (a + b)[1..] == a[1..] + b;
      LogAtomsConcat(a[1..], b);
    }
  }

  lemma PushAtoms(events: seq<Event>, e: Event)
    ensures Atoms(Push(events, e)) == Atoms(events) + EventAtoms(e)
  {
    var pushed := Push(events, e);
    if e.Bytes? && events != [] && events[|events| - 1].Bytes? {
      var last := events[|events| - 1];
      assert pushed[..|pushed| - 1] == events[..|events| - 1];
      assert EventAtoms(Bytes(last.text + e.text)) == EventAtoms(last) + EventAtoms(e);
    } else {
      assert pushed[..|pushed| - 1] == events;
    }
  }

  /** The events a feed returns carry the same atoms as the log behind them. */
  lemma {:induction false} CollectAtoms(events: seq<Event>, log: seq<Piece>)
    ensures Atoms(Collect(events, log)) == Atoms(events) + LogAtoms(log)
    decreases |log|
  {
    if log != [] {
      PushAtoms(events, log[0].event);
      CollectAtoms(Push(events, log[0].event), log[1..]);
    }
  }

  lemma IgnoredSplit(a: nat, b: nat)
    ensures IgnoredBytes(a + b) == IgnoredBytes(a) + IgnoredBytes(b)
  {
  }

  // ----- Outcomes up to merging --------------------------------------------

  /** An outcome as an observer who joins adjacent events sees it. Bytes of an
      OSC string that is already being discarded count as ignored, whether the
      codec has reported them yet or still holds them. */
  datatype View = Rejected | View(mode: Mode, pending: seq<byte>, atoms: seq<Atom>)

  function LastEscape(p: seq<byte>): seq<byte> {
    if p != [] && p[|p| - 1] == ESC then [ESC] else []
  }

  function Settle(m: Mode, p: seq<byte>, atoms: seq<Atom>): View {
    if m.discardOsc && OscScan(p, 0, m.oscTail).NoEnd? then
      View(m.(oscTail := OscScan(p, 0, m.oscTail).tail),
           LastEscape(p),
           atoms + IgnoredBytes(|p| - |LastEscape(p)|))
    else View(m, p, atoms)
  }

  function ViewOf(o: Outcome): View {
    match o
    case Failed => Rejected
    case Done(m, p, log) => Settle(m, p, LogAtoms(log))
  }

  function Prefixed(atoms: seq<Atom>, v: View): View {
    match v
    case Rejected => Rejected
    case View(m, p, rest) => View(m, p, atoms + rest)
  }

  lemma ViewAfter(log: seq<Piece>, o: Outcome)
    ensures ViewOf(After(log, o)) == Prefixed(LogAtoms(log), ViewOf(o))
  {
    if o.Done? { LogAtomsConcat(log, o.log); }
  }

  // ----- The condition -----------------------------------------------------

  /** A control sequence or mouse report at the front of `p` that ends at all ends
      within the sequence bound, unless it is a colour reply that is ignored anyway. */
  ghost predicate SequenceFits(p: seq<byte>) {
    && (MOUSE_START <= p && FirstMouseEnd(p, 0) < |p| ==> FirstMouseEnd(p, 0) < HOST_SEQUENCE_BOUND)
    && (IsCsi(p) && !(MOUSE_START <= p && FirstMouseEnd(p, 0) < |p|) ==>
          var end := FirstFinal(p, IntroducerLength(p));
          end == |p| || end < HOST_SEQUENCE_BOUND || CsiReply(p[..end + 1]) == Some(Ignored))
  }

  /** What the next item of the stream must satisfy: a sequence that ends fits the
      bound, and a paste does not interrupt an unfinished UTF-8 character. */
  ghost predicate ItemOrderly(m: Mode, p: seq<byte>)
    requires p != []
  {
    || m.inPaste || m.discardCsi || m.discardOsc
    || (m.utf8Tail != 0 && IsContinuation(p[0]))
    || ((PASTE_START <= p ==> m.utf8Tail == 0) && SequenceFits(p))
  }

  ghost predicate Orderly(x: Parsers, m: Mode, p: seq<byte>)
    decreases |p|, if m.inPaste then 0 else 1
  {
    p == [] ||
    (&& ItemOrderly(m, p)
     && (Step(x, m, p).Consume? ==> Orderly(x, Step(x, m, p).next, p[Step(x, m, p).count..])))
  }

  // ----- Searches are stable under extension --------------------------------

  lemma FirstFinalExtend(p: seq<byte>, q: seq<byte>, i: nat)
    requires i <= |p|
    ensures FirstFinal(p, i) < |p| ==> FirstFinal(p + q, i) == FirstFinal(p, i)
    ensures FirstFinal(p, i) == |p| ==> FirstFinal(p + q, i) == |p| + FirstFinal(q, 0)
  {
    var a, b, c := FirstFinal(p, i), FirstFinal(p + q, i), FirstFinal(q, 0);
    assert a < |p| ==> (p + q)[a] == p[a];
    assert b < |p| ==> (p + q)[b] == p[b];
    if a == |p| {
      assert c < |q| ==> (p + q)[|p| + c] == q[c];
      assert b < |p + q| ==> b >= |p| && (p + q)[b] == q[b - |p|];
    }
  }

  lemma FirstMouseEndExtend(p: seq<byte>, q: seq<byte>)
    ensures FirstMouseEnd(p, 0) < |p| ==> FirstMouseEnd(p + q, 0) == FirstMouseEnd(p, 0)
    ensures FirstMouseEnd(p, 0) == |p| ==> FirstMouseEnd(p + q, 0) >= |p|
  {
    var a, b := FirstMouseEnd(p, 0), FirstMouseEnd(p + q, 0);
    assert a < |p| ==> (p + q)[a] == p[a];
    assert b < |p| ==> (p + q)[b] == p[b];
  }

  lemma OccursExtend(p: seq<byte>, q: seq<byte>, i: nat)
    requires i + |PASTE_END| <= |p|
    ensures OccursAt(p + q, PASTE_END, i) == OccursAt(p, PASTE_END, i)
  {
    assert (p + q)[i..i + |PASTE_END|] == p[i..i + |PASTE_END|];
  }

  lemma FindPasteEndExtend(p: seq<byte>, q: seq<byte>)
    ensures FindPasteEnd(p, 0) < |p| ==> FindPasteEnd(p + q, 0) == FindPasteEnd(p, 0)
    ensures FindPasteEnd(p, 0) == |p| && FindPasteEnd(p + q, 0) < |p + q| ==>
              FindPasteEnd(p + q, 0) + |PASTE_END| > |p|
  {
    var a, b := FindPasteEnd(p, 0), FindPasteEnd(p + q, 0);
    if a + |PASTE_END| <= |p| { OccursExtend(p, q, a); }
    if b + |PASTE_END| <= |p| { OccursExtend(p, q, b); }
  }

  function Shift(r: OscScanResult, n: nat): OscScanResult {
    match r case NoEnd(_) => r case End(i, l) => End(i + n, l)
  }

  lemma {:induction false} OscScanShift(a: seq<byte>, b: seq<byte>, j: nat, tail: nat)
    requires j <= |b|
    ensures OscScan(a + b, |a| + j, tail) == Shift(OscScan(b, j, tail), |a|)
    decreases |b| - j
  {
    if j < |b| {
      assert (a + b)[|a| + j] == b[j];
      assert j + 1 < |b| ==> (a + b)[|a| + j + 1] == b[j + 1];
      if tail != 0 && IsContinuation(b[j]) {
        OscScanShift(a, b, j + 1, tail - 1);
      } else {
        OscScanShift(a, b, j + 1, LeadTail(b[j]));
      }
    }
  }

  /** A terminator found stays found; without one, the scan of a longer string
      resumes at the end, or at a final escape that may begin a terminator. */
  lemma {:induction false} OscScanExtend(p: seq<byte>, q: seq<byte>, i: nat, tail: nat)
    requires i <= |p|
    ensures OscScan(p, i, tail).End? ==> OscScan(p + q, i, tail) == OscScan(p, i, tail)
    ensures OscScan(p, i, tail).NoEnd? && (i < |p| || LastEscape(p) == []) ==>
              OscScan(p + q, i, tail)
              == OscScan(p + q, |p| - |LastEscape(p)|, OscScan(p, i, tail).tail)
    ensures OscScan(p, i, tail).NoEnd? && i < |p| && p[|p| - 1] == ESC ==> OscScan(p, i, tail).tail == 0
    decreases |p| - i
  {
    if i < |p| {
      assert (p + q)[i] == p[i];
      assert i + 1 < |p| ==> (p + q)[i + 1] == p[i + 1];
      if tail != 0 && IsContinuation(p[i]) {
        OscScanExtend(p, q, i + 1, tail - 1);
      } else {
        OscScanExtend(p, q, i + 1, LeadTail(p[i]));
      }
    }
  }
}
