/** What every feed of the host-input codec keeps: mode flags stay consistent,
    retained bytes stay bounded, and each byte fed is accounted for exactly
    once, in order, by an event or by the retained bytes. */
module Conservation {
  import opened Basics
  import opened HostInput

  /** An event stands for exactly the bytes in `raw`. Replies only count them. */
  ghost predicate Accounts(piece: Piece) {
    match piece.event
    case Bytes(text) => piece.raw == text
    case LegacyCtrlC => piece.raw == [3]
    case PageUp => piece.raw == PAGE_UP
    case PageDown => piece.raw == PAGE_DOWN
    case Mouse(mouse) => piece.raw == mouse.raw && ParseSgr(piece.raw) == Some(mouse)
    case TerminalReply(_, bytes) => |piece.raw| == bytes
    case Paste(raw) =>
      && piece.raw == raw && PASTE_START <= raw
      && |raw| >= |PASTE_END| && raw[|raw| - |PASTE_END|..] == PASTE_END
      && |raw| <= RESUME_INPUT_BOUND
      && (forall i :: 0 <= i < |raw| - |PASTE_END| ==> !OccursAt(raw, PASTE_END, i))
    case e => piece.raw == e.raw
  }

  ghost predicate AllAccount(log: seq<Piece>) {
    forall i :: 0 <= i < |log| ==> Accounts(log[i])
  }

  function Raws(log: seq<Piece>): seq<byte> {
    if log == [] then [] else log[0].raw + Raws(log[1..])
  }

  lemma {:induction false} RawsConcat(a: seq<Piece>, b: seq<Piece>)
    ensures Raws(a + b) == Raws(a) + Raws(b)
  {
    if a == [] {
      assert a + b == b;
    } else {
      assert (a + b)[1..] == a[1..] + b;
      RawsConcat(a[1..], b);
    }
  }

  lemma {:induction false} RawsOfPieces(raw: seq<byte>, events: seq<Event>)
    requires events != []
    ensures Raws(Pieces(raw, events)) == raw
  {
    var tail := Pieces(raw, events)[1..];
    RawsOfEmpty(tail);
  }

  lemma {:induction false} RawsOfEmpty(log: seq<Piece>)
    requires forall i :: 0 <= i < |log| ==> log[i].raw == []
    ensures Raws(log) == []
  {
    if log != [] { RawsOfEmpty(log[1..]); }
  }

  /** What may stay undecoded when the loop stops in mode `m`. */
  ghost predicate Bounded(m: Mode, p: seq<byte>) {
    if m.inPaste then PASTE_START <= p && |p| <= RESUME_INPUT_BOUND else |p| <= OSC_BOUND
  }

  /** A mode and the bytes it may be asked to decode: an open paste still holds
      its introducer. */
  ghost predicate ValidState(m: Mode, p: seq<byte>) {
    ValidMode(m) && (m.inPaste ==> PASTE_START <= p)
  }

  lemma StepKeepsState(x: Parsers, m: Mode, p: seq<byte>)
    requires ValidState(m, p) && p != []
    ensures
      var a := Step(x, m, p);
      && (a.Consume? || a.Flush? ==> ValidState(a.next, p[a.count..]))
      && (a.Consume? && a.count > 0 ==> !a.next.inPaste)
      && (a.Flush? ==> Bounded(a.next, p[a.count..]))
      && (a.Wait? ==> ValidState(a.next, p) && Bounded(a.next, p))
  {
    if Step(x, m, p).Wait? && KnownHostPrefix(p) { assert |p| <= 6; }
  }

  /** The bytes an action takes are accounted for by the events it emits. */
  ghost predicate ActionAccounts(p: seq<byte>, a: Action) {
    a.Consume? || a.Flush? ==>
      && a.count <= |p|
      && AllAccount(Pieces(p[..a.count], a.events))
      && (a.events == [] ==> a.count == 0)
  }

  lemma OccursInPrefix(p: seq<byte>, n: nat, i: nat)
    requires i + |PASTE_END| <= n <= |p|
    ensures OccursAt(p[..n], PASTE_END, i) == OccursAt(p, PASTE_END, i)
  {
    var prefix := p[..n];
    forall k | i <= k < i + 6 ensures prefix[k] == p[k] {}
    assert prefix[i..i + 6] == p[i..i + 6];
  }

  lemma PasteAccounts(m: Mode, p: seq<byte>)
    requires PASTE_START <= p
    ensures ActionAccounts(p, PasteStep(m, p))
  {
    var index := FindPasteEnd(p, 0);
    if index < |p| {
      var raw := p[..index + |PASTE_END|];
      assert p[index..index + 6] == PASTE_END;
      assert p[index] == p[index..index + 6][0] && p[index + 4] == p[index..index + 6][4];
      assert p[index] == ESC && p[index + 4] == 0x31;
      assert p[..6] == PASTE_START && index >= 6;
      assert raw[index..] == PASTE_END;
      forall i | 0 <= i < index ensures !OccursAt(raw, PASTE_END, i) {
        OccursInPrefix(p, index + 6, i);
      }
    }
  }

  lemma OscAccounts(x: Parsers, m: Mode, p: seq<byte>)
    requires p != [] && (OscPrefix(p) != 0 || m.discardOsc)
    ensures ActionAccounts(p, OscStep(x, m, p))
  {
  }

  lemma MouseAccounts(raw: seq<byte>)
    ensures Accounts(Piece(raw, MouseEvent(raw)))
  {
  }

  lemma CsiAccounts(x: Parsers, raw: seq<byte>)
    ensures Accounts(Piece(raw, CsiEvent(x, raw)))
  {
  }

  lemma SequenceAccounts(x: Parsers, m: Mode, p: seq<byte>)
    requires p != []
    ensures ActionAccounts(p, SequenceStep(x, m, p))
  {
    TextAccounts(m, p);
    if PAGE_UP <= p || PAGE_DOWN <= p {
      assert p[..4] == PAGE_UP || p[..4] == PAGE_DOWN;
    } else if MOUSE_START <= p && FirstMouseEnd(p, 0) < |p| {
      var n := FirstMouseEnd(p, 0) + 1;
      MouseAccounts(p[..n]);
      TakeAccounts(p, n, MouseEvent(p[..n]), m);
    } else if IsCsi(p) && FirstFinal(p, IntroducerLength(p)) < |p| {
      var n := FirstFinal(p, IntroducerLength(p)) + 1;
      CsiAccounts(x, p[..n]);
      TakeAccounts(p, n, CsiEvent(x, p[..n]), m);
    }
  }

  lemma TakeAccounts(p: seq<byte>, n: nat, e: Event, next: Mode)
    requires n <= |p| && Accounts(Piece(p[..n], e))
    ensures ActionAccounts(p, Consume(n, [e], next))
  {
  }

  lemma TextAccounts(m: Mode, p: seq<byte>)
    requires p != []
    ensures ActionAccounts(p, TextStep(m, p))
  {
  }

  lemma StepAccounts(x: Parsers, m: Mode, p: seq<byte>)
    requires ValidState(m, p) && p != []
    ensures ActionAccounts(p, Step(x, m, p))
  {
    if m.inPaste {
      PasteAccounts(m, p);
    } else if OscPrefix(p) != 0 || m.discardOsc {
      OscAccounts(x, m.(utf8Tail := 0), p);
    } else {
      SequenceAccounts(x, m.(utf8Tail := 0), p);
    }
  }

  lemma ActionRaws(p: seq<byte>, a: Action)
    requires a.Consume? || a.Flush?
    requires ActionAccounts(p, a)
    ensures Raws(Pieces(p[..a.count], a.events)) == p[..a.count]
  {
    if a.events != [] {
      RawsOfPieces(p[..a.count], a.events);
    }
  }

  /** Accounting composes: the pieces taken first, then those of the rest. */
  lemma AccountsCompose(p: seq<byte>, n: nat, first: seq<Piece>, rest: Outcome)
    requires n <= |p| && rest.Done?
    requires AllAccount(first) && Raws(first) == p[..n]
    requires AllAccount(rest.log) && Raws(rest.log) + rest.pending == p[n..]
    ensures AllAccount(first + rest.log) && Raws(first + rest.log) + rest.pending == p
  {
    RawsConcat(first, rest.log);
    assert p == p[..n] + p[n..];
  }

  /** Conservation and bounds of one feed: the events' bytes followed by the
      retained bytes are exactly the bytes that were there to decode. */
  lemma {:induction false} RunConserves(x: Parsers, m: Mode, p: seq<byte>)
    requires ValidState(m, p)
    ensures
      var o := Run(x, m, p);
      o.Done? ==>
        && ValidState(o.mode, o.pending)
        && Bounded(o.mode, o.pending)
        && AllAccount(o.log)
        && Raws(o.log) + o.pending == p
    decreases |p|, if m.inPaste then 0 else 1
  {
    if p != [] {
      var a := Step(x, m, p);
      StepKeepsState(x, m, p);
      StepAccounts(x, m, p);
      if a.Consume? {
        ActionRaws(p, a);
        RunConserves(x, a.next, p[a.count..]);
        var rest := Run(x, a.next, p[a.count..]);
        if rest.Done? {
          AccountsCompose(p, a.count, Pieces(p[..a.count], a.events), rest);
        }
      } else if a.Flush? {
        ActionRaws(p, a);
        assert p == p[..a.count] + p[a.count..];
      }
    }
  }
}
