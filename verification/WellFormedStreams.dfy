/** Streams as terminals produce them: UTF-8 characters, keys, control sequences
    and mouse reports within the sequence bound, ignored colour replies of any
    length, OSC strings, and pastes within the paste bound. They satisfy `Chunking.Orderly`, and decode item by item
    however they are cut. */
module WellFormedStreams {
  import opened Basics
  import opened HostInput
  import opened Chunking
  import opened Stability
  import opened Splitting
  import opened Exactness
  import opened MouseReports
  import opened Utf8Text

  datatype Item =
    | Character(c: Scalar)
    | PageKey(up: bool)
    | Control(raw: seq<byte>)
    | Report(raw: seq<byte>)
    | AltKey(raw: seq<byte>)
    | OscString(raw: seq<byte>)
    | PasteBlock(raw: seq<byte>)

  function ItemBytes(i: Item): seq<byte> {
    match i
    case Character(c) => Encode(c)
    case PageKey(up) => if up then PAGE_UP else PAGE_DOWN
    case _ => i.raw
  }

  ghost predicate WellFormed(i: Item) {
    match i
    case Character(c) => c != 0x1b
    case PageKey(_) => true
    case Control(raw) => IsControlSequence(raw) && (|raw| <= HOST_SEQUENCE_BOUND || CsiReply(raw) == Some(Ignored))
    case Report(raw) => IsReport(raw) && |raw| <= HOST_SEQUENCE_BOUND
    case AltKey(raw) =>
      |raw| >= 2 && raw[0] == ESC && raw[1] !in {0x5b, 0x5d, 0x4f} && |raw| == AltLength(raw[1])
    case OscString(raw) =>
      && OscPrefix(raw) != 0
      && var end := OscScan(raw, OscPrefix(raw), 0); end.End? && end.index + end.length == |raw|
    case PasteBlock(raw) =>
      PASTE_START <= raw && FindPasteEnd(raw, 0) + |PASTE_END| == |raw| <= RESUME_INPUT_BOUND
  }

  /** A character typed with Alt held is one key: escape, and its encoding. */
  lemma AltCharacterIsKey(c: Scalar)
    requires c !in {0x4f, 0x5b, 0x5d}
    ensures WellFormed(AltKey([ESC] + Encode(c)))
  {
    EncodingLength(c);
    var raw := [ESC] + Encode(c);
    assert raw[1] == Encode(c)[0];
  }

  // The bytes of a control sequence by their columns in the code table, section 5.4
  // of ECMA-48.

  predicate IsParameterByte(b: byte) { b as int / 16 == 3 }

  predicate IsIntermediateByte(b: byte) { b as int / 16 == 2 }

  predicate IsFinalByte(b: byte) { 4 <= b as int / 16 <= 7 && b != 0x7f }

  lemma FinalBytes(b: byte)
    ensures IsFinalByte(b) <==> IsFinal(b)
    ensures IsParameterByte(b) || IsIntermediateByte(b) ==> !IsFinalByte(b)
  {
  }

  lemma EndsAtFinal(intro: seq<byte>, body: seq<byte>, final: byte)
    requires intro == [0x1b, 0x5b] || intro == [0x9b]
    requires IsFinal(final) && forall i :: 0 <= i < |body| ==> !IsFinal(body[i])
    ensures
      var raw := intro + body + [final];
      IsCsi(raw) && FirstFinal(raw, IntroducerLength(raw)) == |raw| - 1
  {
    var raw := intro + body + [final];
    assert raw[..|intro|] == intro && raw[0] == intro[0];
    forall i | |intro| <= i < |raw| - 1 ensures !IsFinal(raw[i]) { assert raw[i] == body[i - |intro|]; }
    assert raw[|raw| - 1] == final;
  }

  /** Every control sequence of the standard's form within the bound is an item of
      its own, except those that are keys, reports or pastes of their own kind. */
  lemma StandardSequence(intro: seq<byte>, parameters: seq<byte>, intermediates: seq<byte>, final: byte)
    requires intro == [0x1b, 0x5b] || intro == [0x9b]
    requires forall i :: 0 <= i < |parameters| ==> IsParameterByte(parameters[i])
    requires forall i :: 0 <= i < |intermediates| ==> IsIntermediateByte(intermediates[i])
    requires IsFinalByte(final)
    ensures
      var raw := intro + (parameters + intermediates) + [final];
      |raw| <= HOST_SEQUENCE_BOUND ==>
        WellFormed(Control(raw)) || MOUSE_START <= raw || raw == PAGE_UP || raw == PAGE_DOWN || raw == PASTE_START
  {
    var body := parameters + intermediates;
    forall i | 0 <= i < |body| ensures !IsFinal(body[i]) {
      FinalBytes(body[i]);
      assert body[i] == if i < |parameters| then parameters[i] else intermediates[i - |parameters|];
    }
    FinalBytes(final);
    EndsAtFinal(intro, body, final);
  }

  /** The keys that come as an SS3 sequence are control sequences too. */
  lemma Ss3IsControl(final: byte)
    requires IsFinalByte(final)
    ensures WellFormed(Control([0x1b, 0x4f, final]))
  {
    FinalBytes(final);
  }

  /** The pieces one item decodes to. */
  function ItemLog(x: Parsers, i: Item): seq<Piece>
    requires WellFormed(i)
  {
    match i
    case Character(c) => TextLog(Encode(c))
    case PageKey(up) => if up then [Piece(PAGE_UP, PageUp)] else [Piece(PAGE_DOWN, PageDown)]
    case Control(raw) => [Piece(raw, CsiEvent(x, raw))]
    case Report(raw) => [Piece(raw, MouseEvent(raw))]
    case AltKey(raw) => [Piece(raw, Opaque(raw))]
    case OscString(raw) => Pieces(raw, OscEvents(x, raw))
    case PasteBlock(raw) => [Piece(raw, Paste(raw))]
  }

  function OscEvents(x: Parsers, raw: seq<byte>): seq<Event>
    requires WellFormed(OscString(raw))
  {
    var end := OscScan(raw, OscPrefix(raw), 0).index;
    ReplyEvents(if |raw| > OSC_BOUND || raw[end] == 0x18 || raw[end] == 0x1a then [Ignored]
                else OscReplies(x, raw[OscPrefix(raw)..end]), |raw|)
  }

  function StreamBytes(items: seq<Item>): seq<byte> {
    if items == [] then [] else ItemBytes(items[0]) + StreamBytes(items[1..])
  }

  function StreamLog(x: Parsers, items: seq<Item>): seq<Piece>
    requires forall i :: 0 <= i < |items| ==> WellFormed(items[i])
  {
    if items == [] then [] else ItemLog(x, items[0]) + StreamLog(x, items[1..])
  }

  /** Decoding reaches `rest` from the start, having logged `log`. */
  ghost predicate Reaches(x: Parsers, m: Mode, p: seq<byte>, log: seq<Piece>, rest: seq<byte>) {
    && Run(x, m, p) == After(log, Run(x, START, rest))
    && (Orderly(x, START, rest) ==> Orderly(x, m, p))
  }

  lemma OneStep(x: Parsers, m: Mode, raw: seq<byte>, rest: seq<byte>, events: seq<Event>)
    requires raw != [] && ItemOrderly(m, raw + rest)
    requires Step(x, m, raw + rest) == Consume(|raw|, events, START)
    ensures Reaches(x, m, raw + rest, Pieces(raw, events), rest)
  {
    assert (raw + rest)[..|raw|] == raw && (raw + rest)[|raw|..] == rest;
  }

  /** A step that takes all of `raw` takes just that when more follows. */
  lemma StableStep(x: Parsers, raw: seq<byte>, rest: seq<byte>, events: seq<Event>)
    requires raw != [] && ItemOrderly(START, raw + rest)
    requires Step(x, START, raw) == Consume(|raw|, events, START)
    ensures Reaches(x, START, raw + rest, Pieces(raw, events), rest)
  {
    if Drops(START, raw) { DropStep(x, START, raw, START.(discardCsi := true)); }
    StepStable(x, START, raw, rest);
    OneStep(x, START, raw, rest, events);
  }

  lemma OnePiece(raw: seq<byte>, e: Event)
    ensures Pieces(raw, [e]) == [Piece(raw, e)]
  {
  }

  lemma ControlItem(x: Parsers, raw: seq<byte>, rest: seq<byte>)
    requires WellFormed(Control(raw))
    ensures Reaches(x, START, raw + rest, [Piece(raw, CsiEvent(x, raw))], rest)
  {
    WholeSequence(x, raw);
    FirstFinalExtend(raw, rest, IntroducerLength(raw));
    assert (raw + rest)[0] == raw[0] && (raw + rest)[..|raw|] == raw;
    PrefixExtend(MOUSE_START, raw, rest);
    StableStep(x, raw, rest, [CsiEvent(x, raw)]);
    OnePiece(raw, CsiEvent(x, raw));
  }

  lemma ReportItem(x: Parsers, raw: seq<byte>, rest: seq<byte>)
    requires WellFormed(Report(raw))
    ensures Reaches(x, START, raw + rest, [Piece(raw, MouseEvent(raw))], rest)
  {
    assert raw[2] == 0x3c && raw[1] == 0x5b && raw[..|raw|] == raw;
    assert Step(x, START, raw) == Consume(|raw|, [MouseEvent(raw)], START);
    FirstMouseEndExtend(raw, rest);
    PrefixExtend(MOUSE_START, raw, rest);
    StableStep(x, raw, rest, [MouseEvent(raw)]);
    OnePiece(raw, MouseEvent(raw));
  }

  lemma PageItem(x: Parsers, up: bool, rest: seq<byte>)
    ensures Reaches(x, START, ItemBytes(PageKey(up)) + rest, ItemLog(x, PageKey(up)), rest)
  {
    var raw, e := ItemBytes(PageKey(up)), if up then PageUp else PageDown;
    var p := raw + rest;
    assert p[2] == raw[2] && p[1] == 0x5b && p[0] == ESC && p[3] == 0x7e;
    assert raw <= p by { assert p[..4] == raw; }
    assert FirstFinal(p, 2) == 3;
    assert Step(x, START, p) == Consume(4, [e], START);
    OneStep(x, START, raw, rest, [e]);
    OnePiece(raw, e);
  }

  lemma AltItem(x: Parsers, raw: seq<byte>, rest: seq<byte>)
    requires WellFormed(AltKey(raw))
    ensures Reaches(x, START, raw + rest, [Piece(raw, Opaque(raw))], rest)
  {
    var p := raw + rest;
    assert p[0] == ESC && p[1] == raw[1];
    assert !KnownHostPrefix(p) && !IsCsi(p) && OscPrefix(p) == 0 && !(PASTE_START <= p) && !(MOUSE_START <= p);
    assert p[..|raw|] == raw;
    assert Step(x, START, p) == Consume(|raw|, [Opaque(raw)], START);
    OneStep(x, START, raw, rest, [Opaque(raw)]);
    OnePiece(raw, Opaque(raw));
  }

  lemma OscItem(x: Parsers, raw: seq<byte>, rest: seq<byte>)
    requires WellFormed(OscString(raw))
    ensures Reaches(x, START, raw + rest, Pieces(raw, OscEvents(x, raw)), rest)
  {
    AtOscStep(x, START, raw);
    assert START.(utf8Tail := 0, discardOsc := false, oscTail := 0) == START;
    assert OscStep(x, START, raw) == Consume(|raw|, OscEvents(x, raw), START);
    assert (raw + rest)[0] == raw[0];
    PrefixesExtend(raw, rest);
    AtOscStep(x, START, raw + rest);
    StableStep(x, raw, rest, OscEvents(x, raw));
  }

  lemma PasteItem(x: Parsers, raw: seq<byte>, rest: seq<byte>)
    requires WellFormed(PasteBlock(raw))
    ensures Reaches(x, START, raw + rest, [Piece(raw, Paste(raw))], rest)
  {
    var p, open := raw + rest, START.(inPaste := true);
    PrefixExtend(PASTE_START, raw, rest);
    FindPasteEndExtend(raw, rest);
    assert p[..|raw|] == raw;
    assert Step(x, open, p) == Consume(|raw|, [Paste(raw)], START);
    OneStep(x, open, raw, rest, [Paste(raw)]);
    OnePiece(raw, Paste(raw));
    OpensPaste(x, p, [Piece(raw, Paste(raw))], rest);
  }

  lemma OpensPaste(x: Parsers, p: seq<byte>, log: seq<Piece>, rest: seq<byte>)
    requires PASTE_START <= p && Reaches(x, START.(inPaste := true), p, log, rest)
    ensures Reaches(x, START, p, log, rest)
  {
    var open := START.(inPaste := true);
    assert Step(x, START, p) == Consume(0, [], open);
    assert p[0..] == p && Pieces(p[..0], []) == [];
    var o := Run(x, open, p);
    assert Run(x, START, p) == After([], o);
    assert o.Done? ==> [] + o.log == o.log;
    assert |p| >= 6 && p[5] == 0x7e && p[2] == 0x32;
    assert FirstFinal(p, 2) <= 5;
  }

  /** One text byte, then whatever the rest reaches. */
  lemma TextByte(x: Parsers, tail: nat, b: byte, more: seq<byte>, next: nat, log: seq<Piece>, rest: seq<byte>)
    requires Step(x, Reading(tail), [b] + more) == Consume(1, [TextEvent(b)], Reading(next))
    requires ItemOrderly(Reading(tail), [b] + more)
    requires Reaches(x, Reading(next), more, log, rest)
    ensures Reaches(x, Reading(tail), [b] + more, [Piece([b], TextEvent(b))] + log, rest)
  {
    assert ([b] + more)[..1] == [b] && ([b] + more)[1..] == more;
    OnePiece([b], TextEvent(b));
    var o := Run(x, START, rest);
    assert o.Done? ==> [Piece([b], TextEvent(b))] + (log + o.log) == [Piece([b], TextEvent(b))] + log + o.log;
  }

  lemma TextByteSteps(x: Parsers, tail: nat, s: seq<byte>, rest: seq<byte>, next: nat)
    requires s != [] && TailAfter(tail, s) == Some(0) && next == if tail > 0 then tail - 1 else LeadTail(s[0])
    ensures Step(x, Reading(tail), [s[0]] + (s[1..] + rest)) == Consume(1, [TextEvent(s[0])], Reading(next))
    ensures ItemOrderly(Reading(tail), [s[0]] + (s[1..] + rest))
    ensures TailAfter(next, s[1..]) == Some(0)
  {
    var p := [s[0]] + (s[1..] + rest);
    assert p[0] == s[0];
  }

  lemma {:induction false} TextItem(x: Parsers, tail: nat, s: seq<byte>, rest: seq<byte>)
    requires TailAfter(tail, s) == Some(0)
    ensures Reaches(x, Reading(tail), s + rest, TextLog(s), rest)
    decreases |s|
  {
    if s == [] {
      assert s + rest == rest;
      var o := Run(x, START, rest);
      assert o.Done? ==> [] + o.log == o.log;
    } else {
      var next := if tail > 0 then tail - 1 else LeadTail(s[0]);
      assert s + rest == [s[0]] + (s[1..] + rest);
      TextByteSteps(x, tail, s, rest, next);
      TextItem(x, next, s[1..], rest);
      TextByte(x, tail, s[0], s[1..] + rest, next, TextLog(s[1..]), rest);
    }
  }

  lemma ItemDecodes(x: Parsers, i: Item, rest: seq<byte>)
    requires WellFormed(i)
    ensures Reaches(x, START, ItemBytes(i) + rest, ItemLog(x, i), rest)
  {
    match i {
      case Character(c) => EncodeIsText(c); TextItem(x, 0, Encode(c), rest);
      case PageKey(up) => PageItem(x, up, rest);
      case Control(raw) => ControlItem(x, raw, rest);
      case Report(raw) => ReportItem(x, raw, rest);
      case AltKey(raw) => AltItem(x, raw, rest);
      case OscString(raw) => OscItem(x, raw, rest);
      case PasteBlock(raw) => PasteItem(x, raw, rest);
    }
  }

  /** A well-formed stream is orderly and decodes to its items' events. */
  lemma {:induction false} StreamDecodes(x: Parsers, items: seq<Item>)
    requires forall i :: 0 <= i < |items| ==> WellFormed(items[i])
    ensures Orderly(x, START, StreamBytes(items))
    ensures Run(x, START, StreamBytes(items)) == Done(START, [], StreamLog(x, items))
  {
    if items != [] {
      ItemDecodes(x, items[0], StreamBytes(items[1..]));
      StreamDecodes(x, items[1..]);
    }
  }

  /** However a well-formed stream is cut, it yields its items' events, up to
      merging, and nothing is left behind. */
  lemma CutStreamDecodes(x: Parsers, items: seq<Item>, chunks: seq<seq<byte>>)
    requires forall i :: 0 <= i < |items| ==> WellFormed(items[i])
    requires chunks != [] && Flatten(chunks) == StreamBytes(items)
    ensures
      var o := Feeds(x, START, [], chunks);
      && o.Done? && o.mode == START && o.pending == []
      && Atoms(Returned(x, START, [], chunks)) == LogAtoms(StreamLog(x, items))
  {
    StreamDecodes(x, items);
    ChunkingIndependence(x, chunks);
    CollectAtoms([], StreamLog(x, items));
  }
}
