/** The incremental frame decoder (crates/proto/src/lib.rs) as a machine that takes
    one byte at a time: what it accepts, and that it does not matter how the bytes
    are cut into reads. */
module Frames {
  import opened Basics
  import opened Varint

  datatype Error = MalformedVarint | FrameTooLarge | BadBody(code: nat) | TruncatedFrame

  datatype Result<T> = Ok(value: T) | Err(error: Error)

  /** The decoded content of a frame body. */
  type Frame = nat

  /** The largest body taken, and how a body is read. */
  datatype Format = Format(maximum: nat, decode: seq<byte> -> Result<Frame>)

  datatype State = Prefix(bytes: seq<byte>) | Body(expected: nat, bytes: seq<byte>)

  const START: State := Prefix([])

  datatype Turn = Next(state: State) | Emit(frame: Frame) | Bad(error: Error)

  function Finish(f: Format, body: seq<byte>): Turn {
    match f.decode(body)
    case Ok(frame) => Emit(frame)
    case Err(error) => Bad(error)
  }

  function PrefixTurn(f: Format, bytes: seq<byte>): Turn
    requires bytes != []
  {
    if Continues(bytes[|bytes| - 1]) then
      if |bytes| >= MAX_VARINT_BYTES then Bad(MalformedVarint) else Next(Prefix(bytes))
    else if !Accepted(bytes) then Bad(MalformedVarint)
    else if Value(bytes) > f.maximum then Bad(FrameTooLarge)
    else if Value(bytes) == 0 then Finish(f, [])
    else Next(Body(Value(bytes), []))
  }

  function BodyTurn(f: Format, expected: nat, bytes: seq<byte>): Turn {
    if |bytes| == expected then Finish(f, bytes) else Next(Body(expected, bytes))
  }

  function ByteTurn(f: Format, s: State, b: byte): Turn {
    match s
    case Prefix(bytes) => PrefixTurn(f, bytes + [b])
    case Body(expected, bytes) => BodyTurn(f, expected, bytes + [b])
  }

  /** The frames completed, where the decoder is, and what stopped it. */
  datatype Outcome = Outcome(frames: seq<Frame>, state: State, error: Option<Error>)

  function Scan(f: Format, s: State, input: seq<byte>): Outcome
    decreases |input|
  {
    if input == [] then Outcome([], s, None)
    else
      match ByteTurn(f, s, input[0])
      case Bad(error) => Outcome([], s, Some(error))
      case Next(next) => Scan(f, next, input[1..])
      case Emit(frame) => var o := Scan(f, START, input[1..]); o.(frames := [frame] + o.frames)
  }

  function Then(f: Format, o: Outcome, input: seq<byte>): Outcome {
    if o.error.Some? then o else var p := Scan(f, o.state, input); p.(frames := o.frames + p.frames)
  }

  // ----- Cutting the stream --------------------------------------------------------

  lemma {:induction false} ScanConcat(f: Format, s: State, a: seq<byte>, b: seq<byte>)
    ensures Scan(f, s, a + b) == Then(f, Scan(f, s, a), b)
    decreases |a|
  {
    if a == [] {
      assert a + b == b;
      assert [] + Scan(f, s, b).frames == Scan(f, s, b).frames;
    } else {
      assert (a + b)[0] == a[0] && (a + b)[1..] == a[1..] + b;
      match ByteTurn(f, s, a[0])
      case Bad(_) =>
      case Next(next) => ScanConcat(f, next, a[1..], b);
      case Emit(frame) =>
        ScanConcat(f, START, a[1..], b);
        var o := Scan(f, START, a[1..]);
        assert [frame] + (o.frames + Scan(f, o.state, b).frames) == [frame] + o.frames + Scan(f, o.state, b).frames;
    }
  }

  function Join(chunks: seq<seq<byte>>): seq<byte> {
    if chunks == [] then [] else Join(chunks[..|chunks| - 1]) + chunks[|chunks| - 1]
  }

  /** What feeding the chunks one by one returns, up to the first that fails: a
      feed that fails returns none of its own frames. */
  function Feeds(f: Format, chunks: seq<seq<byte>>): Outcome {
    if chunks == [] then Outcome([], START, None)
    else
      var before := Feeds(f, chunks[..|chunks| - 1]);
      if before.error.Some? then before
      else
        var o := Scan(f, before.state, chunks[|chunks| - 1]);
        Outcome(before.frames + (if o.error.Some? then [] else o.frames), o.state, o.error)
  }

  /** However a stream is cut, the decoder fails or not alike and with the same
      error, ends in the same place, and returns the same frames; if it fails, the
      frames returned are the first of those completed before the error. */
  lemma {:induction false} FeedsAgree(f: Format, chunks: seq<seq<byte>>)
    ensures var all, fed := Scan(f, START, Join(chunks)), Feeds(f, chunks);
      && fed.error == all.error && fed.state == all.state
      && fed.frames <= all.frames
      && (all.error.None? ==> fed.frames == all.frames)
  {
    if chunks != [] {
      var front := chunks[..|chunks| - 1];
      FeedsAgree(f, front);
      ScanConcat(f, START, Join(front), chunks[|chunks| - 1]);
    }
  }

  /** Feeding chunk `i` completes a frame and then fails, so that frame is lost. */
  predicate LosesFrames(f: Format, chunks: seq<seq<byte>>, i: int) {
    && 0 <= i < |chunks| && Feeds(f, chunks[..i]).error.None?
    && var o := Scan(f, Feeds(f, chunks[..i]).state, chunks[i]); o.error.Some? && o.frames != []
  }

  lemma FailedStays(f: Format, chunks: seq<seq<byte>>)
    requires chunks != [] && Feeds(f, chunks[..|chunks| - 1]).error.Some?
    ensures Feeds(f, chunks) == Feeds(f, chunks[..|chunks| - 1])
    ensures Scan(f, START, Join(chunks)) == Scan(f, START, Join(chunks[..|chunks| - 1]))
  {
    var front := chunks[..|chunks| - 1];
    FeedsAgree(f, front);
    ScanConcat(f, START, Join(front), chunks[|chunks| - 1]);
  }

  /** One more chunk after a feed that went well. */
  lemma LastFeed(f: Format, chunks: seq<seq<byte>>)
    requires chunks != [] && Feeds(f, chunks[..|chunks| - 1]).error.None?
    ensures
      var before := Feeds(f, chunks[..|chunks| - 1]);
      var o := Scan(f, before.state, chunks[|chunks| - 1]);
      && Scan(f, START, Join(chunks)).frames == before.frames + o.frames
      && Feeds(f, chunks).frames == before.frames + (if o.error.Some? then [] else o.frames)
      && (LosesFrames(f, chunks, |chunks| - 1) <==> o.error.Some? && o.frames != [])
  {
    var front := chunks[..|chunks| - 1];
    FeedsAgree(f, front);
    ScanConcat(f, START, Join(front), chunks[|chunks| - 1]);
  }

  lemma LosesEarlier(f: Format, chunks: seq<seq<byte>>, i: int)
    requires 0 <= i < |chunks| - 1
    ensures LosesFrames(f, chunks, i) == LosesFrames(f, chunks[..|chunks| - 1], i)
  {
    assert chunks[..|chunks| - 1][..i] == chunks[..i];
  }

  /** The frames returned are all those completed exactly when no chunk completes a
      frame and then fails. */
  lemma {:induction false} FramesLostExactly(f: Format, chunks: seq<seq<byte>>)
    ensures Feeds(f, chunks).frames == Scan(f, START, Join(chunks)).frames <==> forall i :: !LosesFrames(f, chunks, i)
  {
    if chunks != [] {
      var n := |chunks| - 1;
      var front := chunks[..n];
      FramesLostExactly(f, front);
      forall i | 0 <= i < n ensures LosesFrames(f, chunks, i) == LosesFrames(f, front, i) {
        LosesEarlier(f, chunks, i);
      }
      if Feeds(f, front).error.Some? {
        FailedStays(f, chunks);
        assert !LosesFrames(f, chunks, n);
      } else {
        FeedsAgree(f, front);
        LastFeed(f, chunks);
        NoneLost(f, front);
      }
    }
  }

  /** Feeds that went well lost nothing. */
  lemma NoneLost(f: Format, chunks: seq<seq<byte>>)
    requires Feeds(f, chunks).error.None?
    ensures forall i :: !LosesFrames(f, chunks, i)
    decreases |chunks|
  {
    if chunks != [] {
      var front := chunks[..|chunks| - 1];
      NoneLost(f, front);
      forall i | 0 <= i < |chunks| - 1 ensures !LosesFrames(f, chunks, i) { LosesEarlier(f, chunks, i); }
    }
  }

  lemma {:induction false} FeedsGoOn(f: Format, chunks: seq<seq<byte>>, n: nat)
    requires n <= |chunks|
    ensures var front, all := Feeds(f, chunks[..n]), Feeds(f, chunks);
      front.frames <= all.frames && (front.error.Some? ==> all.error.Some?)
    decreases |chunks|
  {
    if n == |chunks| {
      assert chunks[..n] == chunks;
    } else {
      var shorter := chunks[..|chunks| - 1];
      assert shorter[..n] == chunks[..n];
      FeedsGoOn(f, shorter, n);
    }
  }

  /** Where the last feed that went well ended, all frames had been returned. */
  lemma {:induction false} LastGood(f: Format, chunks: seq<seq<byte>>) returns (i: nat)
    ensures i <= |chunks| && Feeds(f, chunks[..i]).error.None?
    ensures Feeds(f, chunks[..i]).frames == Feeds(f, chunks).frames
  {
    i := |chunks|;
    assert chunks[..i] == chunks;
    if Feeds(f, chunks).error.Some? {
      var front := chunks[..|chunks| - 1];
      i := LastGood(f, front);
      assert front[..i] == chunks[..i];
      if Feeds(f, front).error.None? {
        i := |front|;
        assert Feeds(f, front).frames + [] == Feeds(f, front).frames;
      }
    }
  }

  /** A cut between the last frame completed and the byte that fails, if any fails. */
  predicate CutsAfterFrames(f: Format, chunks: seq<seq<byte>>, i: int) {
    && 0 <= i <= |chunks|
    && var o := Scan(f, START, Join(chunks[..i]));
       o.error.None? && o.frames == Scan(f, START, Join(chunks)).frames
  }

  /** The same in terms of where the cuts fall: the frames returned are all those
      completed exactly when there is such a cut. */
  lemma FramesKeptExactly(f: Format, chunks: seq<seq<byte>>)
    ensures Feeds(f, chunks).frames == Scan(f, START, Join(chunks)).frames <==>
      exists i :: CutsAfterFrames(f, chunks, i)
  {
    FeedsAgree(f, chunks);
    var last := LastGood(f, chunks);
    FeedsAgree(f, chunks[..last]);
    if Feeds(f, chunks).frames == Scan(f, START, Join(chunks)).frames { assert CutsAfterFrames(f, chunks, last); }
    forall i | CutsAfterFrames(f, chunks, i) ensures Feeds(f, chunks).frames == Scan(f, START, Join(chunks)).frames {
      FeedsAgree(f, chunks[..i]);
      FeedsGoOn(f, chunks, i);
    }
  }

  /** Two cuts of the same three bytes, an empty frame and a malformed length: fed
      apart the frame is returned before the error, fed together it is lost. */
  lemma CutsDiffer(f: Format)
    requires f.decode([]).Ok?
    ensures
      var apart, together := [[0 as byte], [0x80, 0]], [[0 as byte, 0x80, 0]];
      && Join(apart) == Join(together)
      && Feeds(f, apart).frames == [f.decode([]).value] && Feeds(f, together).frames == []
      && Feeds(f, apart).error == Feeds(f, together).error == Some(MalformedVarint)
  {
    var zero, bad: seq<byte> := [0], [0x80, 0];
    var frame := f.decode([]).value;
    assert Scan(f, START, zero) == Outcome([frame], START, None) by {
      assert [] + zero == zero && Value(zero) == 0 && Accepted(zero);
      ScanOne(f, START, 0);
    }
    MalformedLength(f);
    ScanConcat(f, START, zero, bad);
    assert zero + bad == [0, 0x80, 0];
    OneFed(f, zero);
    TwoFed(f, zero, bad);
    OneFed(f, zero + bad);
    assert [frame] + [] == [frame];
  }

  lemma OneFed(f: Format, c: seq<byte>)
    ensures
      var o := Scan(f, START, c);
      Feeds(f, [c]) == Outcome(if o.error.Some? then [] else o.frames, o.state, o.error) && Join([c]) == c
  {
    assert [c][..0] == [];
    assert [] + c == c && [] + Scan(f, START, c).frames == Scan(f, START, c).frames;
  }

  lemma TwoFed(f: Format, a: seq<byte>, b: seq<byte>)
    requires Feeds(f, [a]).error.None?
    ensures
      var before := Feeds(f, [a]);
      var o := Scan(f, before.state, b);
      && Feeds(f, [a, b]) == Outcome(before.frames + (if o.error.Some? then [] else o.frames), o.state, o.error)
      && Join([a, b]) == Join([a]) + b
  {
    assert [a, b][..1] == [a];
  }

  lemma MalformedLength(f: Format)
    ensures Scan(f, START, [0x80, 0]) == Outcome([], Prefix([0x80]), Some(MalformedVarint))
  {
    var bad: seq<byte> := [0x80, 0];
    assert [] + [0x80 as byte] == [0x80] && [0x80 as byte] + [0] == bad;
    assert bad[1..] == [0] && !Accepted(bad);
    ScanOne(f, Prefix([0x80]), 0);
  }

  // ----- What is accepted ----------------------------------------------------------

  function EncodeFrame(body: seq<byte>): seq<byte> { Encode(|body|) + body }

  lemma {:induction false} ScanPrefix(f: Format, bytes: seq<byte>, i: nat)
    requires Accepted(bytes) && i <= |bytes| && 0 < Value(bytes) <= f.maximum
    ensures Scan(f, Prefix(bytes[..i]), bytes[i..]) ==
      Outcome([], if i < |bytes| then Body(Value(bytes), []) else Prefix(bytes), None)
    decreases |bytes| - i
  {
    assert bytes[..|bytes|] == bytes;
    if i < |bytes| {
      assert bytes[..i] + [bytes[i]] == bytes[..i + 1];
      assert bytes[i..][0] == bytes[i] && bytes[i..][1..] == bytes[i + 1..];
      if i + 1 < |bytes| {
        assert Continues(bytes[..i + 1][i]);
        ScanPrefix(f, bytes, i + 1);
      } else {
        assert bytes[..i + 1] == bytes;
      }
    }
  }

  lemma {:induction false} ScanBody(f: Format, expected: nat, bytes: seq<byte>, more: seq<byte>)
    requires |bytes| + |more| < expected
    ensures Scan(f, Body(expected, bytes), more) == Outcome([], Body(expected, bytes + more), None)
    decreases |more|
  {
    if more == [] {
      assert bytes + more == bytes;
    } else {
      ScanBody(f, expected, bytes + [more[0]], more[1..]);
      assert bytes + [more[0]] + more[1..] == bytes + more;
    }
  }

  /** The byte that completes a body. */
  lemma ScanLast(f: Format, expected: nat, bytes: seq<byte>, more: seq<byte>)
    requires |bytes| + |more| == expected && more != []
    ensures Scan(f, Body(expected, bytes), more) ==
      match f.decode(bytes + more)
      case Ok(frame) => Outcome([frame], START, None)
      case Err(error) => Outcome([], Body(expected, bytes + more[..|more| - 1]), Some(error))
  {
    var front, last := more[..|more| - 1], more[|more| - 1];
    ScanBody(f, expected, bytes, front);
    ScanConcat(f, Body(expected, bytes), front, [last]);
    assert front + [last] == more;
    assert bytes + front + [last] == bytes + more;
    assert [last][1..] == [];
    ScanOne(f, Body(expected, bytes + front), last);
  }

  lemma ScanOne(f: Format, s: State, b: byte)
    ensures Scan(f, s, [b]) ==
      match ByteTurn(f, s, b)
      case Bad(error) => Outcome([], s, Some(error))
      case Next(next) => Outcome([], next, None)
      case Emit(frame) => Outcome([frame], START, None)
  {
    assert [b][1..] == [];
  }

  function Stream(bodies: seq<seq<byte>>): seq<byte> {
    if bodies == [] then [] else EncodeFrame(bodies[0]) + Stream(bodies[1..])
  }

  /** The bodies fit the format and read as the frames. */
  predicate Reads(f: Format, bodies: seq<seq<byte>>, frames: seq<Frame>) {
    && |bodies| == |frames|
    && forall i :: 0 <= i < |bodies| ==> |bodies[i]| <= f.maximum && f.decode(bodies[i]) == Ok(frames[i])
  }

  lemma ScanFrame(f: Format, body: seq<byte>)
    requires |body| <= f.maximum < U64
    ensures
      var o := Scan(f, START, EncodeFrame(body));
      match f.decode(body)
      case Ok(frame) => o == Outcome([frame], START, None)
      case Err(error) => o.frames == [] && o.error == Some(error)
  {
    var prefix := Encode(|body|);
    OneEncoding(|body|, prefix);
    assert prefix[..0] == [] && prefix[0..] == prefix;
    if body == [] {
      assert EncodeFrame(body) == [0 as byte] && [] + [0 as byte] == [0 as byte];
      ScanOne(f, START, 0);
    } else {
      ScanPrefix(f, prefix, 0);
      ScanConcat(f, START, prefix, body);
      ScanLast(f, |body|, [], body);
      assert [] + body == body;
    }
  }

  // ----- What is refused, and as what ----------------------------------------------

  lemma {:induction false} PrefixFails(f: Format, bytes: seq<byte>, i: nat)
    requires i < |bytes| <= MAX_VARINT_BYTES && PrefixTurn(f, bytes).Bad?
    requires forall k :: 0 <= k < |bytes| - 1 ==> Continues(bytes[k])
    ensures Scan(f, Prefix(bytes[..i]), bytes[i..]).frames == []
    ensures Scan(f, Prefix(bytes[..i]), bytes[i..]).error == Some(PrefixTurn(f, bytes).error)
    decreases |bytes| - i
  {
    assert bytes[..i] + [bytes[i]] == bytes[..i + 1] && bytes[..|bytes|] == bytes;
    assert bytes[i..][0] == bytes[i] && bytes[i..][1..] == bytes[i + 1..];
    if i + 1 < |bytes| {
      assert Continues(bytes[..i + 1][i]);
      PrefixFails(f, bytes, i + 1);
    }
  }

  /** A length that does not end within ten bytes, or is not the encoding of a 64-bit
      number, is malformed; one over the maximum is too large; and a body that is all
      there is refused with the error of its own reading. */
  lemma ErrorsAreExact(f: Format, prefix: seq<byte>, body: seq<byte>)
    requires 0 < |prefix| <= MAX_VARINT_BYTES && forall k :: 0 <= k < |prefix| - 1 ==> Continues(prefix[k])
    ensures
      var error := Scan(f, START, prefix).error;
      && (|prefix| == MAX_VARINT_BYTES && Continues(prefix[9]) ==> error == Some(MalformedVarint))
      && (Terminated(prefix) && !(Value(prefix) < U64 && Encode(Value(prefix)) == prefix) ==>
            error == Some(MalformedVarint))
      && (Accepted(prefix) && Value(prefix) > f.maximum ==> error == Some(FrameTooLarge))
    ensures |body| <= f.maximum < U64 && f.decode(body).Err? ==>
      Scan(f, START, EncodeFrame(body)).error == Some(f.decode(body).error)
  {
    assert prefix[..0] == [] && prefix[0..] == prefix;
    if PrefixTurn(f, prefix).Bad? { PrefixFails(f, prefix, 0); }
    OneEncoding(0, prefix);
    if Value(prefix) < U64 { OneEncoding(Value(prefix), prefix); }
    if |body| <= f.maximum < U64 { ScanFrame(f, body); }
  }

  /** Whole frames, back to back, are read as exactly those frames. */
  lemma {:induction false} StreamDecodes(f: Format, bodies: seq<seq<byte>>, frames: seq<Frame>)
    requires Reads(f, bodies, frames) && f.maximum < U64
    ensures Scan(f, START, Stream(bodies)) == Outcome(frames, START, None)
    decreases |bodies|
  {
    if bodies != [] {
      assert Reads(f, bodies[1..], frames[1..]);
      StreamDecodes(f, bodies[1..], frames[1..]);
      ScanFrame(f, bodies[0]);
      ScanConcat(f, START, EncodeFrame(bodies[0]), Stream(bodies[1..]));
      assert frames == [frames[0]] + frames[1..];
    }
  }

  // ----- Nothing else is accepted --------------------------------------------------

  /** States a decoder can be in. */
  predicate Valid(f: Format, s: State) {
    match s
    case Prefix(bytes) => |bytes| < MAX_VARINT_BYTES && forall i :: 0 <= i < |bytes| ==> Continues(bytes[i])
    case Body(expected, bytes) => |bytes| < expected <= f.maximum
  }

  /** The bytes of the frame that is being read. */
  function Pending(s: State): seq<byte> {
    match s
    case Prefix(bytes) => bytes
    case Body(expected, bytes) => Encode(expected) + bytes
  }

  /** The bytes read so far and one more are those of the next state, or a frame. */
  predicate Accounts(f: Format, s: State, b: byte) {
    var turn := ByteTurn(f, s, b);
    && (turn.Next? ==> Valid(f, turn.state) && Pending(turn.state) == Pending(s) + [b])
    && (turn.Emit? ==> Completes(f, Completed(s, b), Pending(s) + [b], turn.frame))
  }

  lemma EncodesBack(bytes: seq<byte>)
    ensures Accepted(bytes) ==> Encode(Value(bytes)) == bytes
  {
    OneEncoding(0, bytes);
  }

  lemma PrefixAccounts(f: Format, bytes: seq<byte>, b: byte)
    requires Valid(f, Prefix(bytes))
    ensures Accounts(f, Prefix(bytes), b)
  {
    EncodesBack(bytes + [b]);
    assert bytes + [b] + [] == bytes + [b];
  }

  lemma BodyAccounts(f: Format, expected: nat, bytes: seq<byte>, b: byte)
    requires Valid(f, Body(expected, bytes))
    ensures Accounts(f, Body(expected, bytes), b)
  {
    assert Encode(expected) + (bytes + [b]) == Encode(expected) + bytes + [b];
  }

  lemma TurnAccounts(f: Format, s: State, b: byte)
    requires Valid(f, s)
    ensures Accounts(f, s, b)
  {
    match s
    case Prefix(bytes) => PrefixAccounts(f, bytes, b);
    case Body(expected, bytes) => BodyAccounts(f, expected, bytes, b);
  }

  function Completed(s: State, b: byte): seq<byte> { if s.Prefix? then [] else s.bytes + [b] }

  predicate Completes(f: Format, body: seq<byte>, bytes: seq<byte>, frame: Frame) {
    bytes == EncodeFrame(body) && |body| <= f.maximum && f.decode(body) == Ok(frame)
  }

  /** Whatever is scanned without error is whole frames and then a part of one. */
  lemma {:induction false} ScanAccounts(f: Format, s: State, input: seq<byte>) returns (bodies: seq<seq<byte>>)
    requires Valid(f, s)
    ensures var o := Scan(f, s, input);
      o.error.None? ==>
        && Valid(f, o.state) && Reads(f, bodies, o.frames)
        && Pending(s) + input == Stream(bodies) + Pending(o.state)
    decreases |input|
  {
    bodies := [];
    if input == [] {
      assert Pending(s) + input == Stream(bodies) + Pending(s);
    } else {
      TurnAccounts(f, s, input[0]);
      var rest := input[1..];
      assert Pending(s) + input == Pending(s) + [input[0]] + rest;
      match ByteTurn(f, s, input[0])
      case Bad(_) =>
      case Next(next) => bodies := ScanAccounts(f, next, rest);
      case Emit(frame) =>
        var more := ScanAccounts(f, START, rest);
        var body := Completed(s, input[0]);
        bodies := [body] + more;
        StreamAccounts(body, more, rest, Pending(Scan(f, START, rest).state));
        assert bodies[1..] == more;
    }
  }

  lemma StreamAccounts(body: seq<byte>, more: seq<seq<byte>>, rest: seq<byte>, pending: seq<byte>)
    ensures [] + rest == Stream(more) + pending ==> EncodeFrame(body) + rest == Stream([body] + more) + pending
  {
    assert ([body] + more)[1..] == more;
    assert [] + rest == rest;
    assert EncodeFrame(body) + (Stream(more) + pending) == EncodeFrame(body) + Stream(more) + pending;
  }

  /** A stream is read without error to its end, as these frames, exactly when it
      is the encodings of bodies that read as these frames. */
  lemma StreamsAccepted(f: Format, input: seq<byte>, frames: seq<Frame>) returns (bodies: seq<seq<byte>>)
    requires f.maximum < U64
    ensures Scan(f, START, input) == Outcome(frames, START, None) ==>
      input == Stream(bodies) && Reads(f, bodies, frames)
    ensures forall bs :: input == Stream(bs) && Reads(f, bs, frames) ==>
      Scan(f, START, input) == Outcome(frames, START, None)
  {
    bodies := ScanAccounts(f, START, input);
    assert Stream(bodies) + [] == Stream(bodies) && [] + input == input;
    forall bs | input == Stream(bs) && Reads(f, bs, frames)
      ensures Scan(f, START, input) == Outcome(frames, START, None) {
      StreamDecodes(f, bs, frames);
    }
  }
}
