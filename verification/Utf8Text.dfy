/** Text is transparent to the host-input codec: any UTF-8 text without an
    escape, however it is cut into feeds, comes out byte for byte as text.
    UTF-8 is that of section 3 of RFC 3629, so continuation bytes include the
    values 0x9b and 0x9d that introduce C1 controls outside text. */
module Utf8Text {
  import opened Basics
  import opened HostInput
  import opened Splitting

  type Scalar = c: int | 0 <= c < 0xd800 || 0xe000 <= c < 0x110000

  function Encode(c: Scalar): seq<byte> {
    if c < 0x80 then [c as byte]
    else if c < 0x800 then [(0xc0 + c / 64) as byte, (0x80 + c % 64) as byte]
    else if c < 0x10000 then
      [(0xe0 + c / 4096) as byte, (0x80 + c / 64 % 64) as byte, (0x80 + c % 64) as byte]
    else
      [(0xf0 + c / 262144) as byte, (0x80 + c / 4096 % 64) as byte,
       (0x80 + c / 64 % 64) as byte, (0x80 + c % 64) as byte]
  }

  function EncodeAll(text: seq<Scalar>): seq<byte> {
    if text == [] then [] else Encode(text[0]) + EncodeAll(text[1..])
  }

  /** Continuation bytes outstanding after `s`, read from a point where `tail`
      are; `None` when `s` is not plain text there. */
  function TailAfter(tail: nat, s: seq<byte>): Option<nat>
    decreases |s|
  {
    if s == [] then Some(tail)
    else if tail > 0 then
      if IsContinuation(s[0]) then TailAfter(tail - 1, s[1..]) else None
    else if s[0] == ESC || 0x80 <= s[0] <= 0xc1 || s[0] > 0xf4 then None
    else TailAfter(LeadTail(s[0]), s[1..])
  }

  lemma {:induction false} TailAfterConcat(tail: nat, a: seq<byte>, b: seq<byte>)
    ensures TailAfter(tail, a + b)
         == (match TailAfter(tail, a) case None => None case Some(mid) => TailAfter(mid, b))
    decreases |a|
  {
    if a == [] {
      assert a + b == b;
    } else {
      assert (a + b)[1..] == a[1..] + b;
      if tail > 0 { TailAfterConcat(tail - 1, a[1..], b); } else { TailAfterConcat(LeadTail(a[0]), a[1..], b); }
    }
  }

  lemma EncodeIsText(c: Scalar)
    requires c != 0x1b
    ensures TailAfter(0, Encode(c)) == Some(0)
  {
    var s := Encode(c);
    if c < 0x80 {
      assert s[1..] == [];
    } else if c < 0x800 {
      assert TailAfter(1, s[1..]) == TailAfter(0, s[1..][1..]);
      assert s[1..][1..] == [];
    } else if c < 0x10000 {
      assert s[1..][1..] == [s[2]] && [s[2]][1..] == [];
      assert TailAfter(2, s[1..]) == TailAfter(1, [s[2]]) == TailAfter(0, []);
    } else {
      assert s[1..][1..] == [s[2], s[3]] && [s[2], s[3]][1..] == [s[3]] && [s[3]][1..] == [];
      assert TailAfter(3, s[1..]) == TailAfter(2, [s[2], s[3]]) == TailAfter(1, [s[3]]) == TailAfter(0, []);
    }
  }

  /** The first byte of an encoding decides how many follow, and a byte announces
      continuation bytes exactly when it begins such an encoding. */
  lemma EncodingLength(c: Scalar)
    ensures |Encode(c)| == LeadTail(Encode(c)[0]) + 1
  {
  }

  lemma LeadIsExact(b: byte) returns (c: Scalar)
    ensures LeadTail(b) > 0 ==> Encode(c)[0] == b && |Encode(c)| > 1
    ensures forall d: Scalar :: Encode(d)[0] == b && |Encode(d)| > 1 ==> LeadTail(b) > 0
  {
    var n := LeadTail(b);
    c := if n == 1 then (b as int - 0xc0) * 64
         else if n == 2 then (if b == 0xe0 then 0x800 else (b as int - 0xe0) * 4096)
         else if n == 3 then (if b == 0xf0 then 0x10000 else (b as int - 0xf0) * 262144)
         else 0;
    forall d: Scalar | Encode(d)[0] == b && |Encode(d)| > 1 ensures LeadTail(b) > 0 { EncodingLength(d); }
  }

  lemma {:induction false} EncodeAllIsText(text: seq<Scalar>)
    requires 0x1b !in text
    ensures TailAfter(0, EncodeAll(text)) == Some(0)
  {
    if text != [] {
      EncodeIsText(text[0]);
      EncodeAllIsText(text[1..]);
      TailAfterConcat(0, Encode(text[0]), EncodeAll(text[1..]));
    }
  }

  // ----- Decoding text -----------------------------------------------------

  function Reading(tail: nat): Mode { START.(utf8Tail := tail) }

  function TextLog(s: seq<byte>): seq<Piece> {
    if s == [] then [] else [Piece([s[0]], TextEvent(s[0]))] + TextLog(s[1..])
  }

  lemma TextByteStep(x: Parsers, tail: nat, s: seq<byte>)
    requires s != [] && TailAfter(tail, s).Some?
    ensures Step(x, Reading(tail), s)
         == Consume(1, [TextEvent(s[0])], Reading(if tail > 0 then tail - 1 else LeadTail(s[0])))
  {
  }

  lemma {:induction false} TextRun(x: Parsers, tail: nat, s: seq<byte>)
    requires TailAfter(tail, s).Some?
    ensures Run(x, Reading(tail), s) == Done(Reading(TailAfter(tail, s).value), [], TextLog(s))
    decreases |s|
  {
    if s != [] {
      TextByteStep(x, tail, s);
      assert s[..1] == [s[0]];
      assert Pieces(s[..1], [TextEvent(s[0])]) == [Piece([s[0]], TextEvent(s[0]))];
      TextRun(x, if tail > 0 then tail - 1 else LeadTail(s[0]), s[1..]);
    }
  }

  /** A chunk may end inside a character: the next byte is then read as its second. */
  lemma UnfinishedCharacter(x: Parsers)
    ensures Run(x, START, [0xc3]) == Done(Reading(1), [], TextLog([0xc3]))
  {
    TextRun(x, 0, [0xc3]);
  }

  // ----- The text carried by events ------------------------------------------

  predicate IsTextEvent(e: Event) { e.Bytes? || e.LegacyCtrlC? }

  predicate AllText(events: seq<Event>) {
    forall i :: 0 <= i < |events| ==> IsTextEvent(events[i])
  }

  function EventText(e: Event): seq<byte> {
    match e case Bytes(text) => text case LegacyCtrlC => [3] case _ => []
  }

  function TextOf(events: seq<Event>): seq<byte> {
    if events == [] then [] else TextOf(events[..|events| - 1]) + EventText(events[|events| - 1])
  }

  lemma TextOfAppend(events: seq<Event>, e: Event)
    ensures TextOf(events + [e]) == TextOf(events) + EventText(e)
  {
    assert (events + [e])[..|events|] == events;
  }

  lemma MergeText(front: seq<Event>, text: seq<byte>, b: byte)
    ensures TextOf(front + [Bytes(text + [b])]) == TextOf(front + [Bytes(text)]) + [b]
  {
    TextOfAppend(front, Bytes(text));
    TextOfAppend(front, Bytes(text + [b]));
    Associative(TextOf(front), text, [b]);
  }

  lemma PushIs(events: seq<Event>, b: byte)
    ensures b != 3 && events != [] && events[|events| - 1].Bytes? ==>
      && events == events[..|events| - 1] + [Bytes(events[|events| - 1].text)]
      && Push(events, TextEvent(b)) == events[..|events| - 1] + [Bytes(events[|events| - 1].text + [b])]
    ensures !(b != 3 && events != [] && events[|events| - 1].Bytes?) ==>
      Push(events, TextEvent(b)) == events + [TextEvent(b)]
  {
  }

  lemma PushStaysText(events: seq<Event>, b: byte)
    requires AllText(events)
    ensures AllText(Push(events, TextEvent(b)))
  {
  }

  lemma PushText(events: seq<Event>, b: byte)
    requires AllText(events)
    ensures AllText(Push(events, TextEvent(b)))
    ensures TextOf(Push(events, TextEvent(b))) == TextOf(events) + [b]
  {
    PushStaysText(events, b);
    PushIs(events, b);
    if b != 3 && events != [] && events[|events| - 1].Bytes? {
      MergeText(events[..|events| - 1], events[|events| - 1].text, b);
    } else {
      TextOfAppend(events, TextEvent(b));
    }
  }

  lemma HeadAndTail(before: seq<byte>, s: seq<byte>)
    requires s != []
    ensures before + [s[0]] + s[1..] == before + s
  {
  }

  lemma {:induction false} CollectText(events: seq<Event>, s: seq<byte>)
    requires AllText(events)
    ensures AllText(Collect(events, TextLog(s)))
    ensures TextOf(Collect(events, TextLog(s))) == TextOf(events) + s
    decreases |s|
  {
    if s == [] {
      assert TextOf(events) + s == TextOf(events);
    } else {
      var next := Push(events, TextEvent(s[0]));
      PushText(events, s[0]);
      assert TextLog(s)[1..] == TextLog(s[1..]);
      assert Collect(events, TextLog(s)) == Collect(next, TextLog(s[1..]));
      CollectText(next, s[1..]);
      HeadAndTail(TextOf(events), s);
    }
  }

  lemma {:induction false} TextOfConcat(a: seq<Event>, b: seq<Event>)
    ensures TextOf(a + b) == TextOf(a) + TextOf(b)
  {
    if b == [] {
      assert a + b == a;
    } else {
      var n := |b| - 1;
      assert (a + b)[..|a + b| - 1] == a + b[..n] && (a + b)[|a + b| - 1] == b[n];
      TextOfConcat(a, b[..n]);
      Associative(TextOf(a), TextOf(b[..n]), EventText(b[n]));
    }
  }

  /** Text fed in any chunks from the middle of any character. */
  lemma {:induction false} TextFeeds(x: Parsers, tail: nat, chunks: seq<seq<byte>>)
    requires TailAfter(tail, Flatten(chunks)).Some?
    ensures
      var o := Feeds(x, Reading(tail), [], chunks);
      var events := Returned(x, Reading(tail), [], chunks);
      && o.Done? && o.pending == [] && o.mode == Reading(TailAfter(tail, Flatten(chunks)).value)
      && AllText(events)
      && TextOf(events) == Flatten(chunks)
    decreases |chunks|
  {
    if chunks != [] {
      var first, rest := chunks[0], chunks[1..];
      TailAfterConcat(tail, first, Flatten(rest));
      assert [] + first == first;
      TextRun(x, tail, first);
      var mid := TailAfter(tail, first).value;
      TextFeeds(x, mid, rest);
      CollectText([], first);
      TextOfConcat(Collect([], TextLog(first)), Returned(x, Reading(mid), [], rest));
    }
  }

  /** UTF-8 transparency: any text without an escape, cut at any byte
      positions, is returned exactly, as text events only, and leaves the codec
      as it was. */
  lemma Utf8Transparency(x: Parsers, text: seq<Scalar>, chunks: seq<seq<byte>>)
    requires 0x1b !in text && Flatten(chunks) == EncodeAll(text)
    ensures
      var o := Feeds(x, START, [], chunks);
      var events := Returned(x, START, [], chunks);
      && o.Done? && o.pending == [] && o.mode == START
      && AllText(events)
      && TextOf(events) == EncodeAll(text)
  {
    EncodeAllIsText(text);
    TextFeeds(x, 0, chunks);
  }
}
