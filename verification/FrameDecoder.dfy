/** The frame decoder as it is updated in place (crates/proto/src/lib.rs), and the
    reading of exactly one response (crates/client/src/remote_unary.rs). */
module FrameReader {
  import opened Basics
  import opened Varint
  import opened Frames

  class FrameDecoder {
    const format: Format
    var prefix: seq<byte>
    var body: seq<byte>
    var expected: Option<nat>

    /** Where the decoder is, as the byte-at-a-time machine sees it. */
    ghost function At(): State
      reads this
    {
      if expected.Some? then Body(expected.value, body) else Prefix(prefix)
    }

    ghost predicate Ready()
      reads this
    {
      && Valid(format, At()) && format.maximum < U64
      && (expected.None? ==> body == [])
    }

    constructor (format: Format)
      requires format.maximum < U64
      ensures Ready() && At() == START && this.format == format
    {
      this.format := format;
      prefix, body, expected := [], [], None;
    }

    /** Takes one byte of the length prefix. */
    method TakePrefix(b: byte) returns (error: Option<Error>)
      requires Ready() && expected.None?
      modifies this
      ensures error.None? ==> match ByteTurn(format, old(At()), b) {
        case Next(next) => Ready() && At() == next
        case _ => expected == Some(0) && body == [] && ByteTurn(format, old(At()), b) == Finish(format, [])
      }
      ensures error.Some? ==> ByteTurn(format, old(At()), b) == Bad(error.value)
    {
      prefix := prefix + [b];
      if !Continues(b) {
        var length := DecodeVarint(prefix);
        PrefixIsAll(prefix);
        if length.None? { return Some(MalformedVarint); }
        if length.value > format.maximum { return Some(FrameTooLarge); }
        body := [];
        expected := length;
        return None;
      }
      if |prefix| == MAX_VARINT_BYTES { return Some(MalformedVarint); }
      error := None;
    }

    /** Takes as much of the body as the input holds, and the frame if that
        completes it. */
    method TakeBody(input: seq<byte>) returns (taken: nat, r: Result<Option<Frame>>)
      requires expected.Some? && |body| <= expected.value <= format.maximum < U64
      requires |body| == expected.value ==> expected.value == 0
      modifies this
      ensures taken == Least(old(expected.value) - |old(body)|, |input|)
      ensures taken < old(expected.value) - |old(body)| ==>
        r == Ok(None) && Ready() && At() == Body(old(expected.value), old(body) + input[..taken])
      ensures taken == old(expected.value) - |old(body)| ==>
        match Finish(format, old(body) + input[..taken]) {
          case Emit(frame) => r == Ok(Some(frame)) && Ready() && At() == START
          case Bad(error) => r == Err(error)
          case Next(_) => false
        }
    {
      taken := Least(expected.value - |body|, |input|);
      body := body + input[..taken];
      if |body| < expected.value { return taken, Ok(None); }
      var whole := body;
      body, expected, prefix := [], None, [];
      r := match format.decode(whole) case Ok(frame) => Ok(Some(frame)) case Err(error) => Err(error);
    }

    /** A body part from a body state, against the byte machine. */
    method BodyPart(input: seq<byte>) returns (rest: seq<byte>, r: Result<seq<Frame>>)
      requires Ready() && expected.Some?
      modifies this
      ensures r.Ok? ==> Ready() && Scan(format, old(At()), input) == Then(format, Outcome(r.value, At(), None), rest)
      ensures r.Ok? ==> |rest| <= |input| && (input != [] ==> |rest| < |input|)
      ensures r.Err? ==> Scan(format, old(At()), input).error == Some(r.error)
    {
      ghost var s := At();
      ghost var needed := expected.value - |body|;
      var taken, out := TakeBody(input);
      rest := input[taken..];
      assert input == input[..taken] + rest;
      ScanConcat(format, s, input[..taken], rest);
      if taken < needed {
        ScanBody(format, s.expected, s.bytes, input[..taken]);
      } else {
        ScanLast(format, s.expected, s.bytes, input[..taken]);
      }
      r := match out case Err(error) => Err(error) case Ok(None) => Ok([]) case Ok(Some(frame)) => Ok([frame]);
    }

    /** A prefix byte, and as much of the body as follows it. */
    method PrefixPart(input: seq<byte>) returns (rest: seq<byte>, r: Result<seq<Frame>>)
      requires Ready() && expected.None? && input != []
      modifies this
      ensures r.Ok? ==> Ready() && Scan(format, old(At()), input) == Then(format, Outcome(r.value, At(), None), rest)
      ensures r.Ok? ==> |rest| < |input|
      ensures r.Err? ==> Scan(format, old(At()), input).error == Some(r.error)
    {
      ghost var s := At();
      var error := TakePrefix(input[0]);
      rest := input[1..];
      if error.Some? { return rest, Err(error.value); }
      if expected.None? {
        NoNewFrame(format, At(), rest);
        return rest, Ok([]);
      }
      if expected.value > 0 {
        rest, r := BodyPart(rest);
        return;
      }
      var taken, out := TakeBody(rest);
      assert [] + rest[..0] == [] && rest[0..] == rest;
      r := match out case Err(error) => Err(error) case Ok(None) => Ok([]) case Ok(Some(frame)) => Ok([frame]);
    }

    /** Whatever is fed, the result is that of the byte machine: all frames
        completed, or the first error. */
    method Feed(input: seq<byte>) returns (r: Result<seq<Frame>>)
      requires Ready()
      modifies this
      ensures var o := Scan(format, old(At()), input);
        if o.error.Some? then r == Err(o.error.value) else r == Ok(o.frames) && Ready() && At() == o.state
    {
      var frames, rest := [], input;
      NoNewFrame(format, At(), rest);
      while rest != []
        invariant Ready()
        invariant Scan(format, old(At()), input) == Then(format, Outcome(frames, At(), None), rest)
        decreases |rest|
      {
        ghost var s, before := At(), rest;
        var out;
        if expected.None? { rest, out := PrefixPart(rest); } else { rest, out := BodyPart(rest); }
        if out.Err? { return Err(out.error); }
        MoreFrames(format, frames, s, before, out.value, At(), rest);
        frames := frames + out.value;
      }
      assert frames + [] == frames;
      r := Ok(frames);
    }

    /** The stream may end here only between frames. */
    method AtBoundary() returns (ok: bool)
      requires Ready()
      ensures ok <==> At() == START
    {
      ok := prefix == [] && expected.None?;
    }
  }

  function Least(a: nat, b: nat): nat { if a <= b then a else b }

  lemma NoNewFrame(f: Format, s: State, rest: seq<byte>)
    ensures Scan(f, s, rest) == Then(f, Outcome([], s, None), rest)
  {
    assert [] + Scan(f, s, rest).frames == Scan(f, s, rest).frames;
  }

  lemma MoreFrames(f: Format, frames: seq<Frame>, s: State, input: seq<byte>,
        more: seq<Frame>, next: State, rest: seq<byte>)
    requires Scan(f, s, input) == Then(f, Outcome(more, next, None), rest)
    ensures Then(f, Outcome(frames, s, None), input) == Then(f, Outcome(frames + more, next, None), rest)
  {
    var p := Scan(f, next, rest).frames;
    assert frames + (more + p) == frames + more + p;
  }

  lemma PrefixIsAll(bytes: seq<byte>)
    requires bytes != [] && !Continues(bytes[|bytes| - 1])
    requires forall i :: 0 <= i < |bytes| - 1 ==> Continues(bytes[i])
    ensures forall k :: 0 < k <= |bytes| && Accepted(bytes[..k]) ==> bytes[..k] == bytes
    ensures bytes[..|bytes|] == bytes
  {
    forall k | 0 < k <= |bytes| && Accepted(bytes[..k]) ensures bytes[..k] == bytes {
      assert bytes[..k][k - 1] == bytes[k - 1];
    }
  }

  // ----- One response --------------------------------------------------------------

  /** How reading a stream goes: what each read returns, then the end or a failure. */
  datatype Arrival = Arrival(chunks: seq<seq<byte>>, ends: bool)

  /** A response is returned exactly when the whole stream is one encoded frame,
      however it arrives. */
  method ReadExactResponse(format: Format, stream: Arrival) returns (r: Option<Frame>)
    requires format.maximum < U64
    requires forall i :: 0 <= i < |stream.chunks| ==> stream.chunks[i] != []
    ensures r.Some? <==> stream.ends && exists body :: OneFrame(format, Join(stream.chunks), body)
    ensures r.Some? ==>
      forall body :: OneFrame(format, Join(stream.chunks), body) ==> format.decode(body) == Ok(r.value)
  {
    var decoder := new FrameDecoder(format);
    var completed: Option<Frame> := None;
    ghost var bytes := Join(stream.chunks);
    ExactlyOne(format, stream.chunks, bytes);
    for i := 0 to |stream.chunks|
      invariant decoder.Ready() && decoder.format == format
      invariant Feeds(format, stream.chunks[..i]) == Outcome(AsSeq(completed), decoder.At(), None)
    {
      FeedNext(format, stream.chunks, i);
      var fed := decoder.Feed(stream.chunks[i]);
      if fed.Err? || |fed.value| > 1 || (completed.Some? && fed.value != []) {
        NotOne(format, stream.chunks, i + 1, bytes);
        return None;
      }
      if |fed.value| == 1 { completed := Some(fed.value[0]); }
    }
    assert stream.chunks[..|stream.chunks|] == stream.chunks;
    var ok := decoder.AtBoundary();
    if !stream.ends || !ok { return None; }
    r := completed;
  }

  function AsSeq(o: Option<Frame>): seq<Frame> { if o.None? then [] else [o.value] }

  lemma FeedNext(f: Format, chunks: seq<seq<byte>>, i: nat)
    requires i < |chunks| && Feeds(f, chunks[..i]).error.None?
    ensures var before := Feeds(f, chunks[..i]);
      var o := Scan(f, before.state, chunks[i]);
      Feeds(f, chunks[..i + 1]) == Outcome(before.frames + (if o.error.Some? then [] else o.frames), o.state, o.error)
  {
    assert chunks[..i + 1][..i] == chunks[..i];
  }

  predicate OneFrame(f: Format, bytes: seq<byte>, body: seq<byte>) {
    bytes == EncodeFrame(body) && |body| <= f.maximum && f.decode(body).Ok?
  }

  /** The chunks were read as one frame and ended between frames. */
  predicate FedOne(f: Format, chunks: seq<seq<byte>>) {
    var o := Feeds(f, chunks);
    o.error.None? && o.state == START && |o.frames| == 1
  }

  lemma OneFrameIsFed(f: Format, chunks: seq<seq<byte>>, bytes: seq<byte>, body: seq<byte>)
    requires OneFrame(f, bytes, body) && f.maximum < U64 && bytes == Join(chunks)
    ensures FedOne(f, chunks) && f.decode(body) == Ok(Feeds(f, chunks).frames[0])
  {
    FeedsAgree(f, chunks);
    ScanFrame(f, body);
  }

  lemma FedIsOneFrame(f: Format, chunks: seq<seq<byte>>, bytes: seq<byte>) returns (body: seq<byte>)
    requires FedOne(f, chunks) && f.maximum < U64 && bytes == Join(chunks)
    ensures OneFrame(f, bytes, body)
  {
    FeedsAgree(f, chunks);
    var frames := Feeds(f, chunks).frames;
    var bodies := StreamsAccepted(f, bytes, frames);
    assert Scan(f, START, bytes) == Outcome(frames, START, None);
    body := bodies[0];
    assert bodies[1..] == [];
    assert EncodeFrame(body) + [] == EncodeFrame(body);
  }

  lemma ExactlyOne(f: Format, chunks: seq<seq<byte>>, bytes: seq<byte>)
    requires f.maximum < U64 && bytes == Join(chunks)
    ensures FedOne(f, chunks) <==> exists body :: OneFrame(f, bytes, body)
    ensures forall body :: OneFrame(f, bytes, body) ==>
      FedOne(f, chunks) && f.decode(body) == Ok(Feeds(f, chunks).frames[0])
  {
    if FedOne(f, chunks) { var body := FedIsOneFrame(f, chunks, bytes); }
    forall body | OneFrame(f, bytes, body)
      ensures FedOne(f, chunks) && f.decode(body) == Ok(Feeds(f, chunks).frames[0])
    {
      OneFrameIsFed(f, chunks, bytes, body);
    }
  }

  /** An error or a second frame among the first reads settles it. */
  lemma NotOne(f: Format, chunks: seq<seq<byte>>, n: nat, bytes: seq<byte>)
    requires n <= |chunks| && f.maximum < U64 && bytes == Join(chunks)
    requires Feeds(f, chunks[..n]).error.Some? || |Feeds(f, chunks[..n]).frames| > 1
    ensures forall body :: !OneFrame(f, bytes, body)
  {
    FeedsGoOn(f, chunks, n);
    ExactlyOne(f, chunks, bytes);
  }
}
