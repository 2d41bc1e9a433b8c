/** The decoding rules of the host-input codec (crates/cli/src/terminal_ui.rs),
    as a pure step function over the codec's mode and its undecoded bytes.

    `Step` is one turn of the loop in `HostInputCodec::feed`; `Run` repeats it
    until the loop breaks. The class in HostInputCodec.dfy is proved to compute
    exactly `Run`; everything else the project says about decoding is proved
    about these functions. */
module HostInput {
  import opened Basics

  const ESC: byte := 0x1b
  const PAGE_UP: seq<byte> := [0x1b, 0x5b, 0x35, 0x7e]
  const PAGE_DOWN: seq<byte> := [0x1b, 0x5b, 0x36, 0x7e]
  const PASTE_START: seq<byte> := [0x1b, 0x5b, 0x32, 0x30, 0x30, 0x7e]
  const PASTE_END: seq<byte> := [0x1b, 0x5b, 0x32, 0x30, 0x31, 0x7e]
  const MOUSE_START: seq<byte> := [0x1b, 0x5b, 0x3c]
  const HOST_SEQUENCE_BOUND: nat := 64
  const OSC_BOUND: nat := 1024
  // ----- Events ---------------------------------------------------------

  datatype ColorValue = Unknown | Rgb(r: byte, g: byte, b: byte) | Dynamic

  datatype HostReply =
    | Color(slot: nat, color: ColorValue)
    | Appearance(dark: bool)
    | AppearanceMode(mode: nat)
    | Fence
    | Ignored

  datatype SgrMouse = SgrMouse(code: nat, column: nat, row: nat, release: bool, raw: seq<byte>)

  datatype Event =
    | Bytes(text: seq<byte>)
    | Opaque(raw: seq<byte>)
    | FocusReport(raw: seq<byte>)
    | LegacyCtrlC
    | EnhancedKey(raw: seq<byte>)
    | Paste(raw: seq<byte>)
    | PageUp
    | PageDown
    | Mouse(mouse: SgrMouse)
    | TerminalReply(reply: HostReply, bytes: nat)

  /** The two parsers this model leaves open: the replies an OSC body stands for
      (always at least one) and whether a CSI sequence is an enhanced key. */
  type OscParser = f: seq<byte> -> seq<HostReply> | forall body :: f(body) != [] witness (body => [Ignored])

  datatype Parsers = Parsers(osc: OscParser, isKey: seq<byte> -> bool)

  // ----- Byte classes and searches --------------------------------------

  predicate IsContinuation(b: byte) { 0x80 <= b <= 0xbf }

  /** Final bytes of a control sequence, section 5.4 of ECMA-48. */
  predicate IsFinal(b: byte) { 0x40 <= b <= 0x7e }

  predicate IsMouseEnd(b: byte) { b == 0x4d || b == 0x6d }

  predicate IsOscEnd(b: byte) { b == 7 || b == 0x9c || b == 0x18 || b == 0x1a }

  /** Continuation bytes that a UTF-8 lead byte announces. */
  function LeadTail(b: byte): (n: nat)
    ensures n <= 3
  {
    if 0xc2 <= b <= 0xdf then 1
    else if 0xe0 <= b <= 0xef then 2
    else if 0xf0 <= b <= 0xf4 then 3
    else 0
  }

  /** First final byte at or after `i`, or the length when there is none. */
  function FirstFinal(p: seq<byte>, i: nat): (r: nat)
    requires i <= |p|
    ensures i <= r <= |p|
    ensures r < |p| ==> IsFinal(p[r])
    ensures forall k :: i <= k < r ==> !IsFinal(p[k])
    decreases |p| - i
  {
    if i == |p| || IsFinal(p[i]) then i else FirstFinal(p, i + 1)
  }

  /** First `M` or `m` at or after `i`, or the length when there is none. */
  function FirstMouseEnd(p: seq<byte>, i: nat): (r: nat)
    requires i <= |p|
    ensures i <= r <= |p|
    ensures r < |p| ==> IsMouseEnd(p[r])
    ensures forall k :: i <= k < r ==> !IsMouseEnd(p[k])
    decreases |p| - i
  {
    if i == |p| || IsMouseEnd(p[i]) then i else FirstMouseEnd(p, i + 1)
  }

  predicate OccursAt(p: seq<byte>, needle: seq<byte>, i: nat) {
    i + |needle| <= |p| && p[i..i + |needle|] == needle
  }

  /** First occurrence of the paste terminator at or after `i`, or the length. */
  function FindPasteEnd(p: seq<byte>, i: nat): (r: nat)
    requires i <= |p|
    ensures i <= r <= |p|
    ensures r < |p| ==> OccursAt(p, PASTE_END, r)
    ensures forall k :: i <= k < r ==> !OccursAt(p, PASTE_END, k)
    decreases |p| - i
  {
    if i == |p| || OccursAt(p, PASTE_END, i) then i else FindPasteEnd(p, i + 1)
  }

  /** Where an OSC string ends: the index and length of its terminator, or the
      UTF-8 state after a scan that found none. */
  datatype OscScanResult = NoEnd(tail: nat) | End(index: nat, length: nat)

  function OscScan(p: seq<byte>, i: nat, tail: nat): (r: OscScanResult)
    requires i <= |p|
    ensures r.End? ==> i <= r.index && 1 <= r.length <= 2 && r.index + r.length <= |p|
    ensures r.NoEnd? && tail <= 3 ==> r.tail <= 3
    decreases |p| - i
  {
    if i == |p| then NoEnd(tail)
    else if tail != 0 && IsContinuation(p[i]) then OscScan(p, i + 1, tail - 1)
    else if IsOscEnd(p[i]) then End(i, 1)
    else if p[i] == ESC && i + 1 < |p| && p[i + 1] == 0x5c then End(i, 2)
    else OscScan(p, i + 1, LeadTail(p[i]))
  }

  /** How many continuation bytes the character before `p[j]` still wants, with
      `tail` of them wanted before `p[i]`. */
  function TailAt(p: seq<byte>, i: nat, tail: nat, j: nat): nat
    requires i <= j <= |p|
    decreases j - i
  {
    if i == j then tail
    else
      var before := TailAt(p, i, tail, j - 1);
      if before != 0 && IsContinuation(p[j - 1]) then before - 1 else LeadTail(p[j - 1])
  }

  /** The byte `p[j]` begins a terminator and does not belong to a character. */
  predicate EndsOsc(p: seq<byte>, i: nat, tail: nat, j: nat)
    requires i <= j < |p|
  {
    && !(TailAt(p, i, tail, j) != 0 && IsContinuation(p[j]))
    && (IsOscEnd(p[j]) || (p[j] == ESC && j + 1 < |p| && p[j + 1] == 0x5c))
  }

  lemma {:induction false} TailAtNext(p: seq<byte>, i: nat, tail: nat, next: nat, j: nat)
    requires i < j <= |p| && next == if tail != 0 && IsContinuation(p[i]) then tail - 1 else LeadTail(p[i])
    ensures TailAt(p, i, tail, j) == TailAt(p, i + 1, next, j)
    decreases j - i
  {
    if i + 1 < j { TailAtNext(p, i, tail, next, j - 1); }
  }

  /** The scan finds the first terminator outside a UTF-8 character, or there is
      none and it knows whether the string stops inside one. */
  ghost predicate IsFirstEnd(p: seq<byte>, i: nat, tail: nat, r: OscScanResult)
    requires i <= |p|
  {
    match r
    case End(index, length) =>
      && i <= index < |p| && EndsOsc(p, i, tail, index) && length == (if IsOscEnd(p[index]) then 1 else 2)
      && forall j :: i <= j < index ==> !EndsOsc(p, i, tail, j)
    case NoEnd(last) => last == TailAt(p, i, tail, |p|) && forall j :: i <= j < |p| ==> !EndsOsc(p, i, tail, j)
  }

  lemma {:induction false} OscScanIsFirst(p: seq<byte>, i: nat, tail: nat)
    requires i <= |p|
    ensures IsFirstEnd(p, i, tail, OscScan(p, i, tail))
    decreases |p| - i
  {
    if i < |p| && !EndsOsc(p, i, tail, i) {
      var next := if tail != 0 && IsContinuation(p[i]) then tail - 1 else LeadTail(p[i]);
      OscScanIsFirst(p, i + 1, next);
      TailAtNext(p, i, tail, next, |p|);
      forall j | i < j < |p| ensures EndsOsc(p, i, tail, j) == EndsOsc(p, i + 1, next, j) {
        TailAtNext(p, i, tail, next, j);
      }
    }
  }

  // ----- SGR mouse reports ----------------------------------------------

  predicate AllDigits(s: seq<byte>) { forall i :: 0 <= i < |s| ==> 0x30 <= s[i] <= 0x39 }

  function DecimalValue(s: seq<byte>): nat
    requires AllDigits(s)
  {
    if s == [] then 0 else 10 * DecimalValue(s[..|s| - 1]) + (s[|s| - 1] - 0x30) as nat
  }

  /** A non-empty run of ASCII digits whose value fits sixteen bits. */
  function DecimalField(s: seq<byte>): Option<nat> {
    if s != [] && AllDigits(s) && DecimalValue(s) <= 0xffff then Some(DecimalValue(s)) else None
  }

  /** The fields of `s` between semicolons. */
  function Fields(s: seq<byte>): (r: seq<seq<byte>>)
    ensures r != []
  {
    if s == [] then [[]]
    else
      var rest := Fields(s[1..]);
      if s[0] == 0x3b then [[]] + rest else [[s[0]] + rest[0]] + rest[1..]
  }

  function ParseSgr(raw: seq<byte>): Option<SgrMouse> {
    if |raw| < 4 || !(MOUSE_START <= raw) then None
    else
      var fields := Fields(raw[3..|raw| - 1]);
      if |fields| != 3 then None
      else
        match (DecimalField(fields[0]), DecimalField(fields[1]), DecimalField(fields[2]))
        case (Some(code), Some(column), Some(row)) =>
          if column == 0 || row == 0 then None
          else Some(SgrMouse(code, column, row, raw[|raw| - 1] == 0x6d, raw))
        case _ => None
  }

  // ----- Replies carried by control sequences (host_colors.rs) -----------

  function CsiBody(raw: seq<byte>): Option<seq<byte>> {
    if [0x1b, 0x5b] <= raw then Some(raw[2..])
    else if [0x9b] <= raw then Some(raw[1..])
    else None
  }

  const APPEARANCE: seq<byte> := [0x3f, 0x39, 0x39, 0x37, 0x3b]
  const APPEARANCE_MODE: seq<byte> := [0x3f, 0x32, 0x30, 0x33, 0x31, 0x3b]

  predicate IsColorCsi(raw: seq<byte>) {
    CsiBody(raw).Some? && (APPEARANCE <= CsiBody(raw).value || APPEARANCE_MODE <= CsiBody(raw).value)
  }

  /** What lies between a prefix and a suffix that do not overlap. */
  function Between(body: seq<byte>, prefix: seq<byte>, suffix: seq<byte>): Option<seq<byte>> {
    if prefix <= body && |prefix| + |suffix| <= |body| && body[|body| - |suffix|..] == suffix
    then Some(body[|prefix|..|body| - |suffix|])
    else None
  }

  function CsiReply(raw: seq<byte>): Option<HostReply> {
    if CsiBody(raw).None? then None
    else
      var body := CsiBody(raw).value;
      var mode := Between(body, APPEARANCE_MODE, [0x24, 0x79]);
      var appearance := Between(body, APPEARANCE, [0x6e]);
      if body == [0x30, 0x6e] then Some(Fence)
      else if mode.Some? then
        Some(match DecimalField(mode.value) case Some(n) => AppearanceMode(n) case None => Ignored)
      else if appearance.Some? then
        Some(if appearance.value == [0x31] then Appearance(true)
             else if appearance.value == [0x32] then Appearance(false)
             else Ignored)
      else if IsColorCsi(raw) then Some(Ignored)
      else None
  }

  // ----- One turn of the decoding loop ------------------------------------

  /** The codec's flags. `oscTail` and `utf8Tail` count outstanding UTF-8
      continuation bytes inside a discarded OSC string and in plain text. */
  datatype Mode = Mode(inPaste: bool, discardOsc: bool, oscTail: nat, discardCsi: bool, utf8Tail: nat)

  const START: Mode := Mode(false, false, 0, false, 0)

  ghost predicate ValidMode(m: Mode) {
    && m.utf8Tail <= 3 && m.oscTail <= 3
    && !(m.discardOsc && m.discardCsi)
    && (m.inPaste ==> !m.discardOsc && !m.discardCsi)
    && (m.discardOsc || m.discardCsi ==> m.utf8Tail == 0)
    && (!m.discardOsc ==> m.oscTail == 0)
  }

  datatype Action =
    | Consume(count: nat, events: seq<Event>, next: Mode)  // take bytes, keep decoding
    | Flush(count: nat, events: seq<Event>, next: Mode)    // take bytes, then stop
    | Wait(next: Mode)                                     // stop until more bytes arrive
    | Overflow                                             // the paste bound was exceeded

  predicate IsCsi(p: seq<byte>) { [0x1b, 0x5b] <= p || [0x1b, 0x4f] <= p || [0x9b] <= p }

  function IntroducerLength(p: seq<byte>): (n: nat)
    requires IsCsi(p)
    ensures 1 <= n <= 2 && n <= |p|
  {
    if p[0] == 0x9b then 1 else 2
  }

  /** Length of the OSC introducer at the front of `p`, or 0. */
  function OscPrefix(p: seq<byte>): (n: nat)
    ensures n <= 2 && n <= |p|
  {
    if [0x1b, 0x5d] <= p then 2 else if [0x9d] <= p then 1 else 0
  }

  predicate KnownHostPrefix(p: seq<byte>) {
    p <= PAGE_UP || p <= PAGE_DOWN || p <= PASTE_START || p <= MOUSE_START
  }

  function AltLength(second: byte): (n: nat)
    ensures 2 <= n <= 5
  {
    if second == 0x4f || LeadTail(second) == 1 then 3
    else if LeadTail(second) == 2 then 4
    else if LeadTail(second) == 3 then 5
    else 2
  }

  function TextEvent(b: byte): Event { if b == 0x03 then LegacyCtrlC else Bytes([b]) }

  function PasteStep(m: Mode, p: seq<byte>): Action {
    var index := FindPasteEnd(p, 0);
    if index < |p| then
      var end := index + |PASTE_END|;
      if end > RESUME_INPUT_BOUND then Overflow
      else Consume(end, [Paste(p[..end])], m.(inPaste := false))
    else if |p| > RESUME_INPUT_BOUND then Overflow
    else Wait(m)
  }

  function DiscardCsiStep(m: Mode, p: seq<byte>): Action {
    var end := FirstFinal(p, 0);
    var count := if end < |p| then end + 1 else |p|;
    Consume(count, [TerminalReply(Ignored, count)], m.(discardCsi := end == |p|))
  }

  function OscReplies(x: Parsers, body: seq<byte>): (replies: seq<HostReply>)
    ensures replies != []
  {
    x.osc(body)
  }

  function OscStep(x: Parsers, m: Mode, p: seq<byte>): Action
    requires p != [] && (OscPrefix(p) != 0 || m.discardOsc)
  {
    var start := if m.discardOsc then 0 else OscPrefix(p);
    match OscScan(p, start, if m.discardOsc then m.oscTail else 0)
    case End(end, length) =>
      var count := end + length;
      var replies :=
        if m.discardOsc || count > OSC_BOUND || p[end] == 0x18 || p[end] == 0x1a then [Ignored]
        else OscReplies(x, p[start..end]);
      Consume(count, ReplyEvents(replies, count), m.(discardOsc := false, oscTail := 0))
    case NoEnd(tail) =>
      if |p| > OSC_BOUND then
        var count := if p[|p| - 1] == ESC then |p| - 1 else |p|;
        Flush(count, [TerminalReply(Ignored, count)], m.(discardOsc := true, oscTail := tail))
      else Wait(m)
  }

  /** One reply event each; the first carries the byte count, the rest none. */
  function ReplyEvents(replies: seq<HostReply>, count: nat): (events: seq<Event>)
    requires replies != []
    ensures |events| == |replies|
  {
    seq(|replies|, i requires 0 <= i < |replies| => TerminalReply(replies[i], if i == 0 then count else 0))
  }

  function MouseEvent(raw: seq<byte>): Event {
    match ParseSgr(raw) case Some(mouse) => Mouse(mouse) case None => Opaque(raw)
  }

  predicate IsFocus(raw: seq<byte>) {
    raw == [0x1b, 0x5b, 0x49] || raw == [0x1b, 0x5b, 0x4f] || raw == [0x9b, 0x49] || raw == [0x9b, 0x4f]
  }

  function CsiEvent(x: Parsers, raw: seq<byte>): Event {
    match CsiReply(raw)
    case Some(reply) => TerminalReply(reply, |raw|)
    case None =>
      if IsFocus(raw) then FocusReport(raw)
      else if x.isKey(raw) then EnhancedKey(raw)
      else Opaque(raw)
  }

  /** Page keys, mouse reports and control sequences; what they leave falls
      through to `TextStep`. */
  function SequenceStep(x: Parsers, m: Mode, p: seq<byte>): Action
    requires p != []
  {
    if PAGE_UP <= p then Consume(4, [PageUp], m)
    else if PAGE_DOWN <= p then Consume(4, [PageDown], m)
    else if MOUSE_START <= p && FirstMouseEnd(p, 0) < |p| then
      var length := FirstMouseEnd(p, 0) + 1;
      Consume(length, [MouseEvent(p[..length])], m)
    else if MOUSE_START <= p && |p| < HOST_SEQUENCE_BOUND then Wait(m)
    else if !IsCsi(p) then TextStep(m, p)
    else CsiStep(x, m, p, FirstFinal(p, IntroducerLength(p)))
  }

  /** A control sequence, or a mouse introducer that no report claims, with its
      first final byte at `end`. */
  function CsiStep(x: Parsers, m: Mode, p: seq<byte>, end: nat): Action
    requires p != []
  {
    if end < |p| then Consume(end + 1, [CsiEvent(x, p[..end + 1])], m)
    else if |p| < HOST_SEQUENCE_BOUND then Wait(m)
    else if IsColorCsi(p) then Flush(|p|, [TerminalReply(Ignored, |p|)], m.(discardCsi := true))
    else TextStep(m, p)
  }

  function TextStep(m: Mode, p: seq<byte>): Action
    requires p != []
  {
    if KnownHostPrefix(p) then Wait(m)
    else if p[0] == ESC && !([0x1b, 0x5b] <= p) then
      var length := AltLength(p[1]);
      if |p| < length then Wait(m) else Consume(length, [Opaque(p[..length])], m)
    else Consume(1, [TextEvent(p[0])], m.(utf8Tail := LeadTail(p[0])))
  }

  function Step(x: Parsers, m: Mode, p: seq<byte>): (a: Action)
    requires p != []
    ensures a.Consume? || a.Flush? ==> a.count <= |p|
    ensures a.Consume? && a.count == 0 ==> !m.inPaste && a.next.inPaste
  {
    if m.inPaste then PasteStep(m, p)
    else if !m.discardOsc && !m.discardCsi && PASTE_START <= p then Consume(0, [], m.(inPaste := true))
    else if m.discardCsi then DiscardCsiStep(m, p)
    else if m.utf8Tail != 0 && IsContinuation(p[0]) then
      Consume(1, [TextEvent(p[0])], m.(utf8Tail := m.utf8Tail - 1))
    else if OscPrefix(p) != 0 || m.discardOsc then OscStep(x, m.(utf8Tail := 0), p)
    else SequenceStep(x, m.(utf8Tail := 0), p)
  }

  // ----- The whole loop ---------------------------------------------------

  /** An event together with the input bytes it stands for. */
  datatype Piece = Piece(raw: seq<byte>, event: Event)

  datatype Outcome = Failed | Done(mode: Mode, pending: seq<byte>, log: seq<Piece>)

  function Pieces(raw: seq<byte>, events: seq<Event>): seq<Piece> {
    seq(|events|, i requires 0 <= i < |events| => Piece(if i == 0 then raw else [], events[i]))
  }

  function After(log: seq<Piece>, o: Outcome): Outcome {
    match o
    case Failed => Failed
    case Done(m, p, rest) => Done(m, p, log + rest)
  }

  function Run(x: Parsers, m: Mode, p: seq<byte>): Outcome
    decreases |p|, if m.inPaste then 0 else 1
  {
    if p == [] then Done(m, p, [])
    else
      match Step(x, m, p)
      case Overflow => Failed
      case Wait(next) => Done(next, p, [])
      case Flush(n, events, next) => Done(next, p[n..], Pieces(p[..n], events))
      case Consume(n, events, next) => After(Pieces(p[..n], events), Run(x, next, p[n..]))
  }

  /** A decoder, from a mode and the bytes at hand to an outcome. What holds of any
      decoder is proved of one given as a function. */
  type Decoder = (Mode, seq<byte>) -> Outcome

  function Codec(x: Parsers): Decoder { (m, p) => Run(x, m, p) }

  // ----- Events as they are returned ---------------------------------------

  /** Appends an event; text joins a preceding run of text. */
  function Push(events: seq<Event>, e: Event): seq<Event> {
    if e.Bytes? && events != [] && events[|events| - 1].Bytes? then
      events[..|events| - 1] + [Bytes(events[|events| - 1].text + e.text)]
    else events + [e]
  }

  function Collect(events: seq<Event>, log: seq<Piece>): seq<Event>
    decreases |log|
  {
    if log == [] then events else Collect(Push(events, log[0].event), log[1..])
  }
}
