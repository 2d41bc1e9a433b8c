/** One decoding step on a prefix of an orderly stream decides the same thing
    as on the whole stream, or waits without changing what comes next. */
module Stability {
  import opened Basics
  import opened HostInput
  import opened Chunking

  /** `b` is what the step on a longer input must be, given step `a` on `p`. */
  ghost predicate Agrees(a: Action, b: Action) {
    && (a.Consume? ==> b == a)
    && (a.Overflow? ==> b.Overflow?)
  }

  lemma PasteStable(m: Mode, p: seq<byte>, q: seq<byte>)
    ensures Agrees(PasteStep(m, p), PasteStep(m, p + q))
  {
    FindPasteEndExtend(p, q);
    var end := FindPasteEnd(p, 0) + |PASTE_END|;
    if end <= |p| { assert (p + q)[..end] == p[..end]; }
  }

  lemma SubsliceExtend(p: seq<byte>, q: seq<byte>, i: nat, j: nat)
    requires i <= j <= |p|
    ensures (p + q)[i..j] == p[i..j]
  {
  }

  lemma OscStable(x: Parsers, m: Mode, p: seq<byte>, q: seq<byte>)
    requires p != [] && (OscPrefix(p) != 0 || m.discardOsc)
    requires m.discardOsc || OscPrefix(p + q) == OscPrefix(p)
    ensures Agrees(OscStep(x, m, p), OscStep(x, m, p + q))
  {
    var start := if m.discardOsc then 0 else OscPrefix(p);
    var tail := if m.discardOsc then m.oscTail else 0;
    OscScanExtend(p, q, start, tail);
    var r := OscScan(p, start, tail);
    if r.End? {
      assert start <= r.index < |p| && (p + q)[r.index] == p[r.index];
      SubsliceExtend(p, q, start, r.index);
    }
  }

  lemma PrefixExtend(s: seq<byte>, p: seq<byte>, q: seq<byte>)
    ensures s <= p ==> s <= p + q
    ensures |s| <= |p| && s <= p + q ==> s <= p
    ensures |p| <= |s| && s <= p + q ==> p <= s
    ensures p + q <= s ==> p <= s
  {
    if |s| <= |p| && s <= p + q { assert s == (p + q)[..|s|] == p[..|s|]; }
    if |p| <= |s| && s <= p + q { assert s[..|p|] == (p + q)[..|s|][..|p|] == p; }
    if p + q <= s { assert s[..|p|] == s[..|p + q|][..|p|] == p; }
  }

  lemma TextStable(m: Mode, p: seq<byte>, q: seq<byte>)
    requires p != []
    ensures Agrees(TextStep(m, p), TextStep(m, p + q))
  {
    PrefixExtend(PAGE_UP, p, q);
    PrefixExtend(PAGE_DOWN, p, q);
    PrefixExtend(PASTE_START, p, q);
    PrefixExtend(MOUSE_START, p, q);
    PrefixExtend([0x1b, 0x5b], p, q);
    if p[0] == ESC && |p| > 1 && |p| >= AltLength(p[1]) {
      assert (p + q)[..AltLength(p[1])] == p[..AltLength(p[1])];
    }
  }

  /** An unfinished colour reply over the bound, which is dropped as it arrives. */
  ghost predicate DropsColor(p: seq<byte>) {
    && IsCsi(p) && IsColorCsi(p) && |p| >= HOST_SEQUENCE_BOUND
    && FirstFinal(p, IntroducerLength(p)) == |p|
  }

  lemma ColorExtends(p: seq<byte>, q: seq<byte>)
    requires |p| >= 8
    ensures IsColorCsi(p + q) == IsColorCsi(p)
  {
    PrefixExtend([0x1b, 0x5b], p, q);
    PrefixExtend([0x9b], p, q);
    if CsiBody(p).Some? {
      var n := if [0x1b, 0x5b] <= p then 2 else 1;
      assert (p + q)[n..] == p[n..] + q;
      PrefixExtend(APPEARANCE, p[n..], q);
      PrefixExtend(APPEARANCE_MODE, p[n..], q);
    }
  }

  lemma NoColorReport(p: seq<byte>)
    requires MOUSE_START <= p
    ensures CsiReply(p).None? && !IsColorCsi(p)
  {
    assert CsiBody(p) == Some(p[2..]) && p[2..][0] == 0x3c;
  }

  lemma PrefixesExtend(p: seq<byte>, q: seq<byte>)
    requires p != []
    ensures PAGE_UP <= p ==> PAGE_UP <= p + q
    ensures PAGE_DOWN <= p ==> PAGE_DOWN <= p + q
    ensures MOUSE_START <= p ==> MOUSE_START <= p + q
    ensures PASTE_START <= p ==> PASTE_START <= p + q
    ensures IsCsi(p) ==> IsCsi(p + q)
    ensures !KnownHostPrefix(p) ==>
      && (PAGE_UP <= p + q ==> PAGE_UP <= p) && (PAGE_DOWN <= p + q ==> PAGE_DOWN <= p)
      && (MOUSE_START <= p + q ==> MOUSE_START <= p) && (PASTE_START <= p + q ==> PASTE_START <= p)
      && (IsCsi(p + q) ==> IsCsi(p)) && OscPrefix(p + q) == OscPrefix(p)
    ensures OscPrefix(p) != 0 ==> OscPrefix(p + q) == OscPrefix(p)
  {
    PrefixExtend(PAGE_UP, p, q);
    PrefixExtend(PAGE_DOWN, p, q);
    PrefixExtend(PASTE_START, p, q);
    PrefixExtend(MOUSE_START, p, q);
    PrefixExtend([0x1b, 0x5b], p, q);
    PrefixExtend([0x1b, 0x4f], p, q);
    PrefixExtend([0x1b, 0x5d], p, q);
    assert (p + q)[0] == p[0];
    assert |p| == 1 && p[0] == ESC ==> p <= MOUSE_START;
  }

  /** A proper prefix of a key the codec knows always waits. */
  lemma KnownPrefixWaits(x: Parsers, m: Mode, p: seq<byte>)
    requires p != [] && KnownHostPrefix(p)
    requires p != PAGE_UP && p != PAGE_DOWN && p != PASTE_START
    ensures SequenceStep(x, m, p) == Wait(m)
    ensures OscPrefix(p) == 0
  {
    assert p[0] == ESC && |p| <= 5;
    assert |p| >= 2 ==> p[1] == 0x5b;
    if IsCsi(p) {
      assert forall k :: 2 <= k < |p| ==> !IsFinal(p[k]);
      assert FirstFinal(p, 2) == |p|;
    }
    if MOUSE_START <= p {
      assert p == MOUSE_START;
      assert FirstMouseEnd(p, 0) == |p|;
    }
  }

  lemma SequenceStable(x: Parsers, m: Mode, p: seq<byte>, q: seq<byte>)
    requires p != [] && SequenceFits(p + q) && !DropsColor(p)
    requires p != PASTE_START
    ensures Agrees(SequenceStep(x, m, p), SequenceStep(x, m, p + q))
    ensures !SequenceStep(x, m, p).Flush?
  {
    PrefixesExtend(p, q);
    if KnownHostPrefix(p) && p != PAGE_UP && p != PAGE_DOWN {
      KnownPrefixWaits(x, m, p);
    } else if PAGE_UP <= p || PAGE_DOWN <= p {
    } else if MOUSE_START <= p {
      MouseStable(x, m, p, q);
    } else if IsCsi(p) {
      CsiStable(x, m, p, q);
    } else {
      TextStable(m, p, q);
    }
  }

  lemma MouseStable(x: Parsers, m: Mode, p: seq<byte>, q: seq<byte>)
    requires MOUSE_START <= p && MOUSE_START <= p + q && SequenceFits(p + q)
    requires !(PAGE_UP <= p) && !(PAGE_DOWN <= p) && !(PAGE_UP <= p + q) && !(PAGE_DOWN <= p + q)
    ensures Agrees(SequenceStep(x, m, p), SequenceStep(x, m, p + q))
    ensures !SequenceStep(x, m, p).Flush?
  {
    FirstMouseEndExtend(p, q);
    var end := FirstMouseEnd(p, 0);
    if end < |p| {
      assert (p + q)[..end + 1] == p[..end + 1];
    } else if |p| >= HOST_SEQUENCE_BOUND {
      assert p[1] == 0x5b && (p + q)[1] == 0x5b;
      NoColorReport(p);
      var final := FirstFinal(p + q, 2);
      if final < |p + q| { FinalOfReport(p + q, final); }
      CsiStable(x, m, p, q);
    }
  }

  lemma FinalOfReport(p: seq<byte>, end: nat)
    requires MOUSE_START <= p && end < |p| && end == FirstFinal(p, 2)
    ensures CsiReply(p[..end + 1]).None?
  {
    assert p[2] == 0x3c;
    assert MOUSE_START <= p[..end + 1];
    NoColorReport(p[..end + 1]);
  }

  lemma CsiStable(x: Parsers, m: Mode, p: seq<byte>, q: seq<byte>)
    requires p != [] && IsCsi(p) && IsCsi(p + q) && !DropsColor(p)
    requires
      var end := FirstFinal(p + q, IntroducerLength(p + q));
      end == |p + q| || end < HOST_SEQUENCE_BOUND || CsiReply((p + q)[..end + 1]) == Some(Ignored)
    ensures
      var a := CsiStep(x, m, p, FirstFinal(p, IntroducerLength(p)));
      Agrees(a, CsiStep(x, m, p + q, FirstFinal(p + q, IntroducerLength(p + q)))) && !a.Flush?
  {
    var n := IntroducerLength(p);
    FirstFinalExtend(p, q, n);
    var end := FirstFinal(p, n);
    assert (p + q)[0] == p[0] && IntroducerLength(p + q) == n;
    if end < |p| {
      assert (p + q)[..end + 1] == p[..end + 1];
    } else if |p| >= HOST_SEQUENCE_BOUND {
      TextStable(m, p, q);
      OverlongStaysPlain(p, q);
    }
  }

  /** An overlong sequence that is no colour reply stays without an end. */
  lemma OverlongStaysPlain(p: seq<byte>, q: seq<byte>)
    requires IsCsi(p) && IsCsi(p + q) && !IsColorCsi(p) && |p| >= HOST_SEQUENCE_BOUND
    requires IntroducerLength(p + q) == IntroducerLength(p) && FirstFinal(p, IntroducerLength(p)) == |p|
    requires
      var end := FirstFinal(p + q, IntroducerLength(p + q));
      end == |p + q| || end < HOST_SEQUENCE_BOUND || CsiReply((p + q)[..end + 1]) == Some(Ignored)
    ensures !IsColorCsi(p + q) && FirstFinal(p + q, IntroducerLength(p)) == |p + q|
  {
    ColorExtends(p, q);
    FirstFinalExtend(p, q, IntroducerLength(p));
    var final := FirstFinal(p + q, IntroducerLength(p));
    assert (p + q)[..|p|] == p;
    if final < |p + q| { IgnoredMeansColor(p + q, final + 1, |p|); }
  }

  /** Ignored replies come only from sequences recognised by their prefix. */
  lemma IgnoredMeansColor(p: seq<byte>, end: nat, k: nat)
    requires 8 <= k <= end <= |p| && CsiReply(p[..end]) == Some(Ignored)
    ensures IsColorCsi(p[..k]) && IsColorCsi(p[..end])
  {
    assert p[..end] == p[..k] + p[k..end];
    ColorExtends(p[..k], p[k..end]);
  }
}
