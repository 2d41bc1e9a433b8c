/** Input that the codec takes as one unit: it waits for all of it and then
    returns its events, so it comes back alike however it is cut into feeds. */
module InputUnits {
  import opened Basics
  import opened HostInput
  import opened Splitting

  /** Of a part of `raw` nothing is decoded, and of all of it `log`. */
  ghost predicate IsUnit(d: Decoder, raw: seq<byte>, log: seq<Piece>) {
    && d(START, raw) == Done(START, [], log)
    && forall n :: 0 <= n < |raw| ==> d(START, raw[..n]) == Done(START, raw[..n], [])
  }

  lemma {:induction false} NothingMore(x: Parsers, chunks: seq<seq<byte>>)
    requires Flatten(chunks) == []
    ensures Feeds(x, START, [], chunks) == Done(START, [], []) && Returned(x, START, [], chunks) == []
    decreases |chunks|
  {
    if chunks != [] {
      assert chunks[0] == [] && Flatten(chunks[1..]) == [];
      NothingMore(x, chunks[1..]);
    }
  }

  /** The next feed of a unit that is not yet whole, and the last one. */
  lemma NextFeed(x: Parsers, m: Mode, p: seq<byte>, first: seq<byte>, rest: seq<seq<byte>>,
        kept: seq<byte>, log: seq<Piece>)
    requires Run(x, m, p + first) == Done(START, kept, log)
    ensures Feeds(x, m, p, [first] + rest) == After(log, Feeds(x, START, kept, rest))
    ensures Returned(x, m, p, [first] + rest) == Collect([], log) + Returned(x, START, kept, rest)
  {
    assert ([first] + rest)[0] == first && ([first] + rest)[1..] == rest;
  }

  lemma AddsNothing<T>(s: seq<T>)
    ensures [] + s == s && s + [] == s
  {
  }

  lemma Cut(raw: seq<byte>, n: nat, first: seq<byte>, more: seq<byte>)
    requires n <= |raw| && raw[..n] + (first + more) == raw
    ensures n + |first| <= |raw| && raw[..n] + first == raw[..n + |first|] && raw[..n + |first|] + more == raw
    ensures n + |first| == |raw| ==> more == [] && raw[..n] + first == raw
  {
    assert raw == raw[..n] + first + more;
  }

  lemma PartOfUnit(x: Parsers, raw: seq<byte>, log: seq<Piece>, n: nat)
    requires IsUnit(Codec(x), raw, log) && n < |raw|
    ensures Run(x, START, raw[..n]) == Done(START, raw[..n], [])
  {
    assert Codec(x)(START, raw[..n]) == Done(START, raw[..n], []);
  }

  lemma WholeUnit(x: Parsers, raw: seq<byte>, log: seq<Piece>)
    requires IsUnit(Codec(x), raw, log)
    ensures Run(x, START, raw) == Done(START, [], log)
  {
  }

  /** A unit of which a part has been fed, cut in any way from there. */
  lemma {:induction false} RestOfUnit(
    x: Parsers, raw: seq<byte>, log: seq<Piece>, n: nat, chunks: seq<seq<byte>>)
    requires IsUnit(Codec(x), raw, log) && n < |raw| && raw[..n] + Flatten(chunks) == raw
    ensures Feeds(x, START, raw[..n], chunks) == Done(START, [], log)
    ensures Returned(x, START, raw[..n], chunks) == Collect([], log)
    decreases |chunks|
  {
    assert chunks != [];
    var first, rest := chunks[0], chunks[1..];
    var k := n + |first|;
    assert chunks == [first] + rest;
    Cut(raw, n, first, Flatten(rest));
    AddsNothing(log);
    AddsNothing(Collect([], log));
    if k < |raw| {
      PartOfUnit(x, raw, log, k);
      NextFeed(x, START, raw[..n], first, rest, raw[..k], []);
      RestOfUnit(x, raw, log, k, rest);
    } else {
      WholeUnit(x, raw, log);
      NextFeed(x, START, raw[..n], first, rest, [], log);
      NothingMore(x, rest);
    }
  }

  /** A unit comes back as its events, however it is cut. */
  lemma UnitComesBack(x: Parsers, log: seq<Piece>, chunks: seq<seq<byte>>)
    requires IsUnit(Codec(x), Flatten(chunks), log) && Flatten(chunks) != []
    ensures Feeds(x, START, [], chunks) == Done(START, [], log)
    ensures Returned(x, START, [], chunks) == Collect([], log)
  {
    var raw := Flatten(chunks);
    assert raw[..0] == [] && raw[..0] + raw == raw;
    RestOfUnit(x, raw, log, 0, chunks);
  }
}
