/** Reports a terminal sends about itself: what it prints, the host-input codec
    reads back as exactly that report, however it is cut, and as no other. */
module HostReplies {
  import opened Basics
  import opened HostInput
  import opened Chunking
  import opened Stability
  import opened Splitting
  import opened Exactness
  import opened InputUnits
  import opened MouseReports
  import opened Utf8Text

  datatype Report =
    | AppearanceIs(dark: bool)  // the colour scheme, as reported when it changes
    | ModeIs(mode: nat)         // the setting of the mode that asks for such reports
    | Ready                     // the answer to a status request
    | Focus(gained: bool)

  function Ascii(s: string): (r: seq<byte>)
    requires forall i :: 0 <= i < |s| ==> s[i] < 128 as char
    ensures |r| == |s| && forall i :: 0 <= i < |s| ==> r[i] as int == s[i] as int
  {
    seq(|s|, i requires 0 <= i < |s| => s[i] as byte)
  }

  /** A control sequence may be introduced by two bytes or by one. */
  function Introducer(short: bool): seq<byte> { if short then [0x9b] else [ESC] + Ascii("[") }

  function Parameters(r: Report): seq<byte> {
    match r
    case AppearanceIs(dark) => if dark then Ascii("?997;1n") else Ascii("?997;2n")
    case ModeIs(mode) => ModeParameters(Decimal(mode))
    case Ready => Ascii("0n")
    case Focus(gained) => if gained then Ascii("I") else Ascii("O")
  }

  function ModeParameters(digits: seq<byte>): seq<byte> { Ascii("?2031;") + digits + Ascii("$y") }

  function Print(short: bool, r: Report): seq<byte> { Introducer(short) + Parameters(r) }

  /** The event a printed report stands for. */
  function Meaning(raw: seq<byte>, r: Report): Event {
    match r
    case AppearanceIs(dark) => TerminalReply(Appearance(dark), |raw|)
    case ModeIs(mode) => TerminalReply(AppearanceMode(mode), |raw|)
    case Ready => TerminalReply(Fence, |raw|)
    case Focus(_) => FocusReport(raw)
  }

  lemma Spelled()
    ensures Ascii("?997;1n") == APPEARANCE + [0x31, 0x6e] && Ascii("?997;2n") == APPEARANCE + [0x32, 0x6e]
    ensures Ascii("?2031;") == APPEARANCE_MODE && Ascii("$y") == [0x24, 0x79] && Ascii("0n") == [0x30, 0x6e]
    ensures Ascii("I") == [0x49] && Ascii("O") == [0x4f] && Introducer(false) == [0x1b, 0x5b]
  {
  }

  /** The sequences the codec knows by heart, as they are written. */
  lemma KnownSequences()
    ensures PAGE_UP == [ESC] + Ascii("[5~") && PAGE_DOWN == [ESC] + Ascii("[6~") && MOUSE_START == [ESC] + Ascii("[<")
    ensures PASTE_START == [ESC] + Ascii("[200~") && PASTE_END == [ESC] + Ascii("[201~")
  {
  }

  lemma BodyOf(short: bool, body: seq<byte>)
    ensures CsiBody(Introducer(short) + body) == Some(body)
  {
    Spelled();
    var raw := Introducer(short) + body;
    assert raw[|Introducer(short)|..] == body;
    assert raw[..|Introducer(short)|] == Introducer(short) && raw[0] == Introducer(short)[0];
  }

  lemma BetweenParts(prefix: seq<byte>, middle: seq<byte>, suffix: seq<byte>)
    ensures Between(prefix + middle + suffix, prefix, suffix) == Some(middle)
  {
    var body := prefix + middle + suffix;
    assert body[..|prefix|] == prefix;
    assert body[|body| - |suffix|..] == suffix && body[|prefix|..|body| - |suffix|] == middle;
  }

  lemma AppearanceReply(body: seq<byte>, middle: seq<byte>)
    requires body == APPEARANCE + middle + [0x6e]
    ensures Between(body, APPEARANCE_MODE, [0x24, 0x79]) == None && body != [0x30, 0x6e]
    ensures Between(body, APPEARANCE, [0x6e]) == Some(middle)
  {
    BetweenParts(APPEARANCE, middle, [0x6e]);
    assert body[1] == 0x39;
  }

  lemma ModeReply(short: bool, digits: seq<byte>, mode: nat)
    requires DecimalField(digits) == Some(mode)
    ensures CsiReply(Introducer(short) + ModeParameters(digits)) == Some(AppearanceMode(mode))
  {
    Spelled();
    var body := ModeParameters(digits);
    BodyOf(short, body);
    BetweenParts(APPEARANCE_MODE, digits, [0x24, 0x79]);
    assert body[0] == 0x3f;
  }

  lemma PrintedMeans(x: Parsers, short: bool, r: Report)
    requires r.ModeIs? ==> r.mode <= 0xffff
    ensures CsiEvent(x, Print(short, r)) == Meaning(Print(short, r), r)
  {
    Spelled();
    var body := Parameters(r);
    BodyOf(short, body);
    match r {
      case AppearanceIs(dark) =>
        var middle: seq<byte> := if dark then [0x31] else [0x32];
        assert body == APPEARANCE + middle + [0x6e];
        AppearanceReply(body, middle);
      case ModeIs(mode) =>
        FieldRoundTrip(mode);
        ModeReply(short, Decimal(mode), mode);
      case Ready =>
      case Focus(gained) =>
        assert |body| == 1;
    }
  }

  /** Parameters that end at their last byte, and begin no key of their own. */
  ghost predicate WellShaped(body: seq<byte>) {
    && 0 < |body| <= 16 && body[0] !in {0x3c, 0x32, 0x35, 0x36} && IsFinal(body[|body| - 1])
    && forall i :: 0 <= i < |body| - 1 ==> !IsFinal(body[i])
  }

  lemma ModeShape(digits: seq<byte>)
    requires AllDigits(digits) && |digits| <= 5
    ensures WellShaped(ModeParameters(digits))
  {
    Spelled();
    var body := ModeParameters(digits);
    forall i | 0 <= i < |body| - 1 ensures !IsFinal(body[i]) {
      if i < 6 {
        assert body[i] == APPEARANCE_MODE[i];
      } else if i < 6 + |digits| {
        assert body[i] == digits[i - 6];
      } else {
        assert body[i] == 0x24;
      }
    }
  }

  lemma ParametersShape(r: Report)
    requires r.ModeIs? ==> r.mode <= 0xffff
    ensures WellShaped(Parameters(r))
  {
    if r.ModeIs? {
      DecimalLength(r.mode);
      ModeShape(Decimal(r.mode));
    } else {
      Spelled();
    }
  }

  lemma ShapedEnds(short: bool, body: seq<byte>)
    requires WellShaped(body)
    ensures
      var raw := Introducer(short) + body;
      IsCsi(raw) && FirstFinal(raw, IntroducerLength(raw)) == |raw| - 1
  {
    Spelled();
    var raw, n := Introducer(short) + body, |Introducer(short)|;
    assert raw[..n] == Introducer(short) && raw[0] == Introducer(short)[0];
    forall i | n <= i < |raw| - 1 ensures !IsFinal(raw[i]) { assert raw[i] == body[i - n]; }
    assert raw[|raw| - 1] == body[|body| - 1];
  }

  /** Such parameters make one control sequence within the bound. */
  lemma ShapedSequence(short: bool, body: seq<byte>)
    requires WellShaped(body)
    ensures IsControlSequence(Introducer(short) + body) && |Introducer(short) + body| <= HOST_SEQUENCE_BOUND
  {
    ShapedEnds(short, body);
    Spelled();
    var raw, n := Introducer(short) + body, |Introducer(short)|;
    assert raw[0] == Introducer(short)[0] && raw[n] == body[0];
  }

  lemma SequenceIsUnit(x: Parsers, raw: seq<byte>)
    requires IsControlSequence(raw) && |raw| <= HOST_SEQUENCE_BOUND
    ensures IsUnit(Codec(x), raw, [Piece(raw, CsiEvent(x, raw))])
  {
    WholeSequence(x, raw);
    forall n | 0 <= n < |raw| ensures Codec(x)(START, raw[..n]) == Done(START, raw[..n], []) {
      if n > 0 { SequenceWaits(x, raw, n); }
    }
  }

  /** Reply round trip: a report, introduced either way and cut in any way, is read
      as exactly one event, with the meaning it was printed with. */
  lemma ReplyRoundTrip(x: Parsers, short: bool, r: Report, chunks: seq<seq<byte>>)
    requires r.ModeIs? ==> r.mode <= 0xffff
    requires Flatten(chunks) == Print(short, r)
    ensures Returned(x, START, [], chunks) == [Meaning(Flatten(chunks), r)]
    ensures Feeds(x, START, [], chunks).Done?
    ensures Feeds(x, START, [], chunks).mode == START && Feeds(x, START, [], chunks).pending == []
  {
    var raw, e := Flatten(chunks), Meaning(Flatten(chunks), r);
    PrintedMeans(x, short, r);
    ParametersShape(r);
    ShapedSequence(short, Parameters(r));
    SequenceIsUnit(x, raw);
    UnitComesBack(x, [Piece(raw, e)], chunks);
    assert Collect([], [Piece(raw, e)]) == [e];
  }

  // ----- Nothing else is taken for a report ---------------------------------------

  /** The sequence that some terminal prints for `r`. */
  predicate Prints(raw: seq<byte>, r: Report) { raw == Print(false, r) || raw == Print(true, r) }

  /** The setting of the mode may come with leading zeros. */
  ghost predicate PrintsMode(raw: seq<byte>, mode: nat) {
    exists short, digits :: DecimalField(digits) == Some(mode) && raw == Introducer(short) + ModeParameters(digits)
  }

  lemma Introduced(raw: seq<byte>)
    requires CsiBody(raw).Some?
    ensures raw == Introducer(false) + CsiBody(raw).value || raw == Introducer(true) + CsiBody(raw).value
  {
    Spelled();
    if [0x1b, 0x5b] <= raw {
      assert raw == [0x1b, 0x5b] + raw[2..];
    } else {
      assert raw == [0x9b] + raw[1..];
    }
  }

  lemma SplitsBetween(body: seq<byte>, prefix: seq<byte>, suffix: seq<byte>)
    requires Between(body, prefix, suffix).Some?
    ensures body == prefix + Between(body, prefix, suffix).value + suffix
  {
    assert body == body[..|prefix|] + body[|prefix|..|body| - |suffix|] + body[|body| - |suffix|..];
  }

  lemma PrintsBody(raw: seq<byte>, r: Report)
    ensures Prints(raw, r) <==> CsiBody(raw) == Some(Parameters(r))
  {
    BodyOf(false, Parameters(r));
    BodyOf(true, Parameters(r));
    if CsiBody(raw).Some? { Introduced(raw); }
  }

  lemma AppearanceExact(raw: seq<byte>, dark: bool)
    ensures CsiReply(raw) == Some(Appearance(dark)) <==> Prints(raw, AppearanceIs(dark))
  {
    PrintsBody(raw, AppearanceIs(dark));
    Spelled();
    if CsiBody(raw).Some? {
      var body := CsiBody(raw).value;
      var middle: seq<byte> := if dark then [0x31] else [0x32];
      assert Parameters(AppearanceIs(dark)) == APPEARANCE + middle + [0x6e];
      if body == APPEARANCE + middle + [0x6e] { AppearanceReply(body, middle); }
      if Between(body, APPEARANCE, [0x6e]).Some? { SplitsBetween(body, APPEARANCE, [0x6e]); }
    }
  }

  lemma ModeExact(raw: seq<byte>, mode: nat)
    ensures CsiReply(raw) == Some(AppearanceMode(mode)) <==> PrintsMode(raw, mode)
  {
    Spelled();
    if CsiReply(raw) == Some(AppearanceMode(mode)) {
      var body := CsiBody(raw).value;
      var digits := Between(body, APPEARANCE_MODE, [0x24, 0x79]).value;
      SplitsBetween(body, APPEARANCE_MODE, [0x24, 0x79]);
      Introduced(raw);
      assert DecimalField(digits) == Some(mode) && body == ModeParameters(digits);
    }
    if PrintsMode(raw, mode) {
      var short, digits :| DecimalField(digits) == Some(mode) && raw == Introducer(short) + ModeParameters(digits);
      ModeReply(short, digits, mode);
    }
  }

  lemma FocusExact(raw: seq<byte>)
    ensures IsFocus(raw) <==> Prints(raw, Focus(true)) || Prints(raw, Focus(false))
    ensures IsFocus(raw) ==> CsiReply(raw).None?
  {
    Spelled();
    assert Print(false, Focus(true)) == [0x1b, 0x5b, 0x49] && Print(false, Focus(false)) == [0x1b, 0x5b, 0x4f];
    assert Print(true, Focus(true)) == [0x9b, 0x49] && Print(true, Focus(false)) == [0x9b, 0x4f];
    PrintsBody(raw, Focus(true));
    PrintsBody(raw, Focus(false));
    if IsFocus(raw) { assert |CsiBody(raw).value| == 1; }
  }

  /** An appearance, the mode, readiness and focus are read from the sequences that
      report them and from no others. */
  lemma RepliesAreExact(x: Parsers, raw: seq<byte>, dark: bool, mode: nat)
    ensures CsiEvent(x, raw) == TerminalReply(Appearance(dark), |raw|) <==> Prints(raw, AppearanceIs(dark))
    ensures CsiEvent(x, raw) == TerminalReply(AppearanceMode(mode), |raw|) <==> PrintsMode(raw, mode)
    ensures CsiEvent(x, raw) == TerminalReply(Fence, |raw|) <==> Prints(raw, Ready)
    ensures CsiEvent(x, raw).FocusReport? <==> Prints(raw, Focus(true)) || Prints(raw, Focus(false))
    ensures !CsiEvent(x, raw).TerminalReply? && !CsiEvent(x, raw).FocusReport? ==>
      CsiEvent(x, raw) == if x.isKey(raw) then EnhancedKey(raw) else Opaque(raw)
  {
    AppearanceExact(raw, dark);
    ModeExact(raw, mode);
    PrintsBody(raw, Ready);
    FocusExact(raw);
    Spelled();
  }

  predicate Begins(raw: seq<byte>, start: seq<byte>) {
    Introducer(false) + start <= raw || Introducer(true) + start <= raw
  }

  lemma BeginsBody(raw: seq<byte>, start: seq<byte>)
    ensures Begins(raw, start) <==> CsiBody(raw).Some? && start <= CsiBody(raw).value
  {
    if CsiBody(raw).Some? { Introduced(raw); }
    forall short | Introducer(short) + start <= raw ensures CsiBody(raw).Some? && start <= CsiBody(raw).value {
      var n := |Introducer(short)|;
      assert raw[..n] == (Introducer(short) + start)[..n] == Introducer(short);
      assert raw == Introducer(short) + raw[n..];
      BodyOf(short, raw[n..]);
      assert raw[n..][..|start|] == (Introducer(short) + start)[n..] == start;
    }
  }

  /** A control sequence is taken for a reply exactly when it answers a status
      request or begins like a report of colours. */
  lemma ColorExact(x: Parsers, raw: seq<byte>)
    ensures CsiEvent(x, raw).TerminalReply? <==>
      Prints(raw, Ready) || Begins(raw, Ascii("?997;")) || Begins(raw, Ascii("?2031;"))
  {
    Spelled();
    assert Ascii("?997;") == APPEARANCE;
    PrintsBody(raw, Ready);
    BeginsBody(raw, APPEARANCE);
    BeginsBody(raw, APPEARANCE_MODE);
  }

  // ----- OSC strings ---------------------------------------------------------------

  function OscIntroducer(short: bool): seq<byte> { if short then [0x9d] else [ESC] + Ascii("]") }

  /** An OSC string ends with BEL or ST, or is cancelled by CAN or SUB. */
  datatype Terminator = Bel | St | ShortSt | Can | Sub

  function TerminatorBytes(t: Terminator): seq<byte> {
    match t case Bel => [7] case St => [ESC] + Ascii("\\") case ShortSt => [0x9c] case Can => [0x18] case Sub => [0x1a]
  }

  function PrintOsc(short: bool, body: seq<byte>, t: Terminator): seq<byte> {
    OscIntroducer(short) + body + TerminatorBytes(t)
  }

  /** Nothing in the body ends the string, and it does not end inside a character
      that would claim the terminator. */
  ghost predicate Fills(short: bool, body: seq<byte>, t: Terminator) {
    var raw, n := PrintOsc(short, body, t), |OscIntroducer(short)|;
    EndsOsc(raw, n, 0, n + |body|) && forall j :: n <= j < n + |body| ==> !EndsOsc(raw, n, 0, j)
  }

  /** The replies as events: the first stands for all the bytes. */
  ghost predicate CarryReplies(events: seq<Event>, replies: seq<HostReply>, count: nat) {
    && |events| == |replies|
    && forall i :: 0 <= i < |events| ==> events[i] == TerminalReply(replies[i], if i == 0 then count else 0)
  }

  lemma PrintedOsc(short: bool, body: seq<byte>, t: Terminator)
    ensures
      var raw, n := PrintOsc(short, body, t), |OscIntroducer(short)|;
      && OscPrefix(raw) == n && 0 < n && raw[n..n + |body|] == body && raw[0] == OscIntroducer(short)[0]
      && raw[n + |body|..] == TerminatorBytes(t)
  {
    assert Ascii("]") == [0x5d];
    assert OscIntroducer(false) == [0x1b, 0x5d];
    var raw, n := PrintOsc(short, body, t), |OscIntroducer(short)|;
    assert raw[..n] == OscIntroducer(short) && raw[0] == OscIntroducer(short)[0];
    assert raw[n..n + |body|] == body && raw[n + |body|..] == TerminatorBytes(t);
  }

  lemma TerminatorLength(short: bool, body: seq<byte>, t: Terminator)
    requires Fills(short, body, t)
    ensures
      var raw, n := PrintOsc(short, body, t), |OscIntroducer(short)|;
      && n + |body| < |raw| && |TerminatorBytes(t)| == (if IsOscEnd(raw[n + |body|]) then 1 else 2)
      && OscScan(raw, n, 0) == End(n + |body|, |TerminatorBytes(t)|)
  {
    var raw, n := PrintOsc(short, body, t), |OscIntroducer(short)|;
    PrintedOsc(short, body, t);
    assert Ascii("\\") == [0x5c];
    assert raw[n + |body|] == TerminatorBytes(t)[0];
    OscScanIsFirst(raw, n, 0);
  }

  /** The outstanding continuation bytes, whether counted inside the string or in the
      text it holds. */
  lemma {:induction false} TailInside(raw: seq<byte>, n: nat, body: seq<byte>, j: nat)
    requires j <= |body| && n + |body| <= |raw| && raw[n..n + |body|] == body && TailAfter(0, body).Some?
    ensures TailAfter(0, body[..j]) == Some(TailAt(raw, n, 0, n + j))
  {
    assert body == body[..j] + body[j..];
    TailAfterConcat(0, body[..j], body[j..]);
    if j > 0 {
      TailInside(raw, n, body, j - 1);
      assert raw[n + j - 1] == body[j - 1] && body[..j] == body[..j - 1] + [body[j - 1]];
      TailAfterConcat(0, body[..j - 1], [body[j - 1]]);
      assert [body[j - 1]][1..] == [];
    }
  }

  lemma {:induction false} NoControls(text: seq<Scalar>, i: nat)
    requires (forall k :: 0 <= k < |text| ==> text[k] >= 0x20) && i < |EncodeAll(text)|
    ensures EncodeAll(text)[i] >= 0x20
  {
    var first := Encode(text[0]);
    if i < |first| {
      assert EncodeAll(text)[i] == first[i];
    } else {
      NoControls(text[1..], i - |first|);
    }
  }

  /** Inside text nothing ends the string, not even a continuation byte with the value
      of a terminator. */
  lemma InsideText(raw: seq<byte>, n: nat, body: seq<byte>, j: nat)
    requires j < |body| && n + |body| <= |raw| && raw[n..n + |body|] == body
    requires TailAfter(0, body).Some? && body[j] >= 0x20
    ensures !EndsOsc(raw, n, 0, n + j)
  {
    TailInside(raw, n, body, j);
    assert body == body[..j] + body[j..] && raw[n + j] == body[j] && body[j..][0] == body[j];
    TailAfterConcat(0, body[..j], body[j..]);
  }

  lemma EndsAtTerminator(short: bool, body: seq<byte>, t: Terminator)
    requires TailAfter(0, body) == Some(0)
    ensures
      var raw, n := PrintOsc(short, body, t), |OscIntroducer(short)|;
      EndsOsc(raw, n, 0, n + |body|)
  {
    var raw, n := PrintOsc(short, body, t), |OscIntroducer(short)|;
    PrintedOsc(short, body, t);
    TailInside(raw, n, body, |body|);
    assert body[..|body|] == body && Ascii("\\") == [0x5c];
    var rest := raw[n + |body|..];
    assert rest[0] == raw[n + |body|] && (t.St? ==> rest[1] == raw[n + |body| + 1]);
  }

  lemma NothingEndsInside(short: bool, body: seq<byte>, t: Terminator, j: nat)
    requires j < |body| && body[j] >= 0x20 && TailAfter(0, body) == Some(0)
    ensures
      var raw, n := PrintOsc(short, body, t), |OscIntroducer(short)|;
      !EndsOsc(raw, n, 0, n + j)
  {
    PrintedOsc(short, body, t);
    InsideText(PrintOsc(short, body, t), |OscIntroducer(short)|, body, j);
  }

  /** Any text without control characters fits into an OSC string. */
  lemma TextFills(short: bool, text: seq<Scalar>, body: seq<byte>, t: Terminator)
    requires body == EncodeAll(text) && forall k :: 0 <= k < |text| ==> text[k] >= 0x20
    ensures Fills(short, body, t)
  {
    var n := |OscIntroducer(short)|;
    EncodeAllIsText(text);
    EndsAtTerminator(short, body, t);
    forall j | n <= j < n + |body| ensures !EndsOsc(PrintOsc(short, body, t), n, 0, j) {
      NoControls(text, j - n);
      NothingEndsInside(short, body, t, j - n);
    }
  }

  lemma OscWaits(x: Parsers, raw: seq<byte>, n: nat)
    requires OscPrefix(raw) != 0 && |raw| <= OSC_BOUND && n < |raw|
    requires OscScan(raw, OscPrefix(raw), 0).End?
    requires OscScan(raw, OscPrefix(raw), 0).index + OscScan(raw, OscPrefix(raw), 0).length == |raw|
    ensures Run(x, START, raw[..n]) == Done(START, raw[..n], [])
  {
    var p := raw[..n];
    assert p + raw[n..] == raw;
    if n > 0 {
      assert p[0] == raw[0];
      if n == 1 && p[0] == ESC {
        assert p == PASTE_START[..1];
        OpeningWaits(x, START, 1);
      } else {
        assert n > 1 ==> p[1] == raw[1];
        assert OscPrefix(p) == OscPrefix(raw);
        OscScanExtend(p, raw[n..], OscPrefix(p), 0);
        HeldOsc(x, START, p);
      }
    }
  }

  lemma OscIsUnit(x: Parsers, raw: seq<byte>, events: seq<Event>)
    requires OscPrefix(raw) != 0 && |raw| <= OSC_BOUND && OscStep(x, START, raw) == Consume(|raw|, events, START)
    ensures IsUnit(Codec(x), raw, Pieces(raw, events))
  {
    AtOscStep(x, START, raw);
    assert raw[..|raw|] == raw && raw[|raw|..] == [];
    assert Pieces(raw, events) + [] == Pieces(raw, events);
    assert Run(x, START, raw) == Done(START, [], Pieces(raw, events));
    forall n | 0 <= n < |raw| ensures Codec(x)(START, raw[..n]) == Done(START, raw[..n], []) {
      OscWaits(x, raw, n);
    }
  }

  lemma OscStepIs(x: Parsers, short: bool, body: seq<byte>, t: Terminator)
    requires Fills(short, body, t) && |PrintOsc(short, body, t)| <= OSC_BOUND
    ensures
      var raw := PrintOsc(short, body, t);
      && OscPrefix(raw) != 0
      && OscStep(x, START, raw)
         == Consume(|raw|, ReplyEvents(if t.Can? || t.Sub? then [Ignored] else x.osc(body), |raw|), START)
  {
    var raw, n := PrintOsc(short, body, t), |OscIntroducer(short)|;
    PrintedOsc(short, body, t);
    TerminatorLength(short, body, t);
    assert raw[n + |body|] == TerminatorBytes(t)[0];
    assert START.(discardOsc := false, oscTail := 0) == START;
  }

  lemma {:induction false} CollectReplies(events: seq<Event>, log: seq<Piece>)
    requires forall i :: 0 <= i < |log| ==> log[i].event.TerminalReply?
    ensures Collect(events, log) == events + seq(|log|, i requires 0 <= i < |log| => log[i].event)
    decreases |log|
  {
    if log != [] { CollectReplies(Push(events, log[0].event), log[1..]); }
  }

  lemma CollectedReplies(raw: seq<byte>, replies: seq<HostReply>)
    requires replies != []
    ensures CarryReplies(Collect([], Pieces(raw, ReplyEvents(replies, |raw|))), replies, |raw|)
  {
    CollectReplies([], Pieces(raw, ReplyEvents(replies, |raw|)));
  }

  /** OSC round trip: a string within the bound, introduced and terminated in any
      way and cut in any way, is read as the replies its body stands for, in order;
      one that is cancelled is ignored. */
  lemma OscRoundTrip(x: Parsers, short: bool, body: seq<byte>, t: Terminator, chunks: seq<seq<byte>>)
    requires Fills(short, body, t) && |PrintOsc(short, body, t)| <= OSC_BOUND
    requires Flatten(chunks) == PrintOsc(short, body, t)
    ensures CarryReplies(Returned(x, START, [], chunks), if t.Can? || t.Sub? then [Ignored] else x.osc(body),
                         |Flatten(chunks)|)
    ensures Feeds(x, START, [], chunks).Done?
    ensures Feeds(x, START, [], chunks).mode == START && Feeds(x, START, [], chunks).pending == []
  {
    var raw, replies := Flatten(chunks), if t.Can? || t.Sub? then [Ignored] else x.osc(body);
    OscStepIs(x, short, body, t);
    OscIsUnit(x, raw, ReplyEvents(replies, |raw|));
    UnitComesBack(x, Pieces(raw, ReplyEvents(replies, |raw|)), chunks);
    CollectedReplies(raw, replies);
  }
}
