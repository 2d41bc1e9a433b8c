/** Merging relay hints from a fresh lookup, the verified cache and a ticket
    (crates/client/src/route.rs). */
module RelaySources {
  datatype Source = FreshLookup | VerifiedCache | TransientTicket

  datatype Candidate = Candidate(source: Source, hint: string)

  function Take(hints: seq<string>, maximum: nat): seq<string> {
    if |hints| <= maximum then hints else hints[..maximum]
  }

  function Labelled(source: Source, hints: seq<string>): (r: seq<Candidate>)
    ensures |r| == |hints| && forall i :: 0 <= i < |r| ==> r[i] == Candidate(source, hints[i])
  {
    seq(|hints|, i requires 0 <= i < |hints| => Candidate(source, hints[i]))
  }

  /** All candidates, each source cut to `maximum`, in the order they are tried. */
  function Offered(lookup: seq<string>, cache: seq<string>, ticket: seq<string>, maximum: nat): seq<Candidate> {
    Labelled(FreshLookup, Take(lookup, maximum)) + Labelled(VerifiedCache, Take(cache, maximum)) +
    Labelled(TransientTicket, Take(ticket, maximum))
  }

  predicate Offers(cs: seq<Candidate>, hint: string) { exists i :: 0 <= i < |cs| && cs[i].hint == hint }

  /** The candidates whose hint no earlier one has. */
  function Firsts(cs: seq<Candidate>): seq<Candidate> {
    if cs == [] then []
    else
      var n := |cs| - 1;
      Firsts(cs[..n]) + if Offers(cs[..n], cs[n].hint) then [] else [cs[n]]
  }

  /** `at[k]` is where the k-th result stood: the first place its hint occurs. */
  predicate Traces(cs: seq<Candidate>, merged: seq<Candidate>, at: seq<nat>) {
    && |at| == |merged|
    && (forall k :: 0 <= k < |at| ==> at[k] < |cs| && merged[k] == cs[at[k]] && !Offers(cs[..at[k]], cs[at[k]].hint))
    && (forall j, k :: 0 <= j < k < |at| ==> at[j] < at[k])
  }

  lemma FirstsOfAppend(cs: seq<Candidate>, last: Candidate)
    ensures Firsts(cs + [last]) == Firsts(cs) + if Offers(cs, last.hint) then [] else [last]
  {
    assert (cs + [last])[..|cs|] == cs;
  }

  lemma TracesOfAppend(cs: seq<Candidate>, last: Candidate, merged: seq<Candidate>, at: seq<nat>)
    requires Traces(cs, merged, at)
    ensures Traces(cs + [last], merged, at)
    ensures !Offers(cs, last.hint) ==> Traces(cs + [last], merged + [last], at + [|cs|])
  {
    assert (cs + [last])[..|cs|] == cs;
    forall k | 0 <= k < |at| ensures (cs + [last])[..at[k]] == cs[..at[k]] {}
  }

  lemma FirstsCover(cs: seq<Candidate>, hint: string)
    ensures Offers(Firsts(cs), hint) <==> Offers(cs, hint)
  {
    if cs != [] {
      var front, last := cs[..|cs| - 1], cs[|cs| - 1];
      assert cs == front + [last];
      FirstsCover(front, hint);
      FirstsCover(front, last.hint);
      OffersOfAppend(front, last, hint);
      OffersOfAppend(Firsts(front), last, hint);
      assert Firsts(front) + [] == Firsts(front);
    }
  }

  lemma OffersOfAppend(cs: seq<Candidate>, last: Candidate, hint: string)
    ensures Offers(cs + [last], hint) <==> Offers(cs, hint) || last.hint == hint
  {
    assert (cs + [last])[|cs|] == last;
    forall i | 0 <= i < |cs| ensures (cs + [last])[i] == cs[i] {}
  }

  /** The result is a stable deduplication: it has the first occurrence of every
      offered hint, each once, in the order offered. */
  lemma {:induction false} FirstsAreExact(cs: seq<Candidate>) returns (at: seq<nat>)
    ensures Traces(cs, Firsts(cs), at)
  {
    at := [];
    if cs != [] {
      var front, last := cs[..|cs| - 1], cs[|cs| - 1];
      assert cs == front + [last];
      var before := FirstsAreExact(front);
      TracesOfAppend(front, last, Firsts(front), before);
      assert Firsts(front) + [] == Firsts(front);
      at := if Offers(front, last.hint) then before else before + [|front|];
    }
  }

  lemma NoRepeats(cs: seq<Candidate>, merged: seq<Candidate>, at: seq<nat>, j: nat, k: nat)
    requires Traces(cs, merged, at) && j < k < |merged|
    ensures merged[j].hint != merged[k].hint
  {
    assert cs[..at[k]][at[j]] == cs[at[j]];
  }

  function Rank(s: Source): nat { match s case FreshLookup => 0 case VerifiedCache => 1 case TransientTicket => 2 }

  /** The hint is one of the first `maximum`. */
  predicate Among(hints: seq<string>, maximum: nat, hint: string) {
    exists i :: 0 <= i < |hints| && i < maximum && hints[i] == hint
  }

  lemma TakenAreAmong(hints: seq<string>, maximum: nat, hint: string)
    ensures hint in Take(hints, maximum) <==> Among(hints, maximum, hint)
  {
    if Among(hints, maximum, hint) {
      var i :| 0 <= i < |hints| && i < maximum && hints[i] == hint;
      assert Take(hints, maximum)[i] == hint;
    }
  }

  /** The earliest source that has a hint among the ones it may offer. */
  predicate FirstSource(lookup: seq<string>, cache: seq<string>, ticket: seq<string>, maximum: nat, c: Candidate) {
    match c.source
    case FreshLookup => Among(lookup, maximum, c.hint)
    case VerifiedCache => Among(cache, maximum, c.hint) && !Among(lookup, maximum, c.hint)
    case TransientTicket =>
      Among(ticket, maximum, c.hint) && !Among(cache, maximum, c.hint) && !Among(lookup, maximum, c.hint)
  }

  /** The hints of one source. */
  function HintsFrom(lookup: seq<string>, cache: seq<string>, ticket: seq<string>, source: Source): seq<string> {
    match source case FreshLookup => lookup case VerifiedCache => cache case TransientTicket => ticket
  }

  /** `later` occurs in the list only after some `earlier`. */
  ghost predicate Precedes(hints: seq<string>, earlier: string, later: string) {
    exists a, b :: 0 <= a < b < |hints| && hints[a] == earlier && hints[b] == later && later !in hints[..b]
  }

  lemma OfferedAt(lookup: seq<string>, cache: seq<string>, ticket: seq<string>, maximum: nat, i: nat)
    requires i < |Offered(lookup, cache, ticket, maximum)|
    ensures
      var c, m, n := Offered(lookup, cache, ticket, maximum)[i], |Take(lookup, maximum)|, |Take(cache, maximum)|;
      c == if i < m then Candidate(FreshLookup, lookup[i])
           else if i < m + n then Candidate(VerifiedCache, cache[i - m])
           else Candidate(TransientTicket, ticket[i - m - n])
  {
  }

  /** A hint that an earlier source has is offered before. */
  lemma OfferedBefore(lookup: seq<string>, cache: seq<string>, ticket: seq<string>, maximum: nat, i: nat)
    requires i < |Offered(lookup, cache, ticket, maximum)|
    ensures
      var all := Offered(lookup, cache, ticket, maximum);
      !Offers(all[..i], all[i].hint) ==> FirstSource(lookup, cache, ticket, maximum, all[i])
  {
    var all, m, n := Offered(lookup, cache, ticket, maximum), |Take(lookup, maximum)|, |Take(cache, maximum)|;
    OfferedAt(lookup, cache, ticket, maximum, i);
    var c := all[i];
    TakenAreAmong(lookup, maximum, c.hint);
    TakenAreAmong(cache, maximum, c.hint);
    TakenAreAmong(ticket, maximum, c.hint);
    if !Offers(all[..i], c.hint) {
      forall k | 0 <= k < m && i >= m ensures lookup[k] != c.hint { assert all[..i][k].hint == lookup[k]; }
      forall k | 0 <= k < n && i >= m + n ensures cache[k] != c.hint { assert all[..i][m + k].hint == cache[k]; }
    }
  }

  /** Where the hints of a source begin among those offered. */
  function StartOf(lookup: seq<string>, cache: seq<string>, maximum: nat, source: Source): nat {
    match source
    case FreshLookup => 0
    case VerifiedCache => |Take(lookup, maximum)|
    case TransientTicket => |Take(lookup, maximum)| + |Take(cache, maximum)|
  }

  lemma OfferedFrom(lookup: seq<string>, cache: seq<string>, ticket: seq<string>, maximum: nat, i: nat)
    requires i < |Offered(lookup, cache, ticket, maximum)|
    ensures
      var c := Offered(lookup, cache, ticket, maximum)[i];
      var start, hints := StartOf(lookup, cache, maximum, c.source), HintsFrom(lookup, cache, ticket, c.source);
      && start <= i < start + |hints| && c.hint == hints[i - start]
      && forall k :: start <= k <= i ==>
        Offered(lookup, cache, ticket, maximum)[k] == Candidate(c.source, hints[k - start])
  {
    OfferedAt(lookup, cache, ticket, maximum, i);
  }

  lemma FirstAfter(hints: seq<string>, a: nat, b: nat)
    requires a < b < |hints| && forall k :: 0 <= k < b ==> hints[k] != hints[b]
    ensures Precedes(hints, hints[a], hints[b])
  {
  }

  /** Of two hints from one source, the one that comes first there is offered first. */
  lemma OfferedInOrder(lookup: seq<string>, cache: seq<string>, ticket: seq<string>, maximum: nat, i: nat, j: nat)
    requires i < j < |Offered(lookup, cache, ticket, maximum)|
    ensures
      var all := Offered(lookup, cache, ticket, maximum);
      all[i].source == all[j].source && !Offers(all[..j], all[j].hint) ==>
        Precedes(HintsFrom(lookup, cache, ticket, all[i].source), all[i].hint, all[j].hint)
  {
    var all := Offered(lookup, cache, ticket, maximum);
    OfferedFrom(lookup, cache, ticket, maximum, i);
    OfferedFrom(lookup, cache, ticket, maximum, j);
    if all[i].source == all[j].source && !Offers(all[..j], all[j].hint) {
      var start := StartOf(lookup, cache, maximum, all[i].source);
      var hints := HintsFrom(lookup, cache, ticket, all[i].source);
      forall k | 0 <= k < j - start ensures hints[k] != hints[j - start] {
        assert all[..j][start + k].hint == hints[k];
      }
      FirstAfter(hints, i - start, j - start);
    }
  }

  /** What the merge promises of any three sources: no hint twice; every hint among
      the first `maximum` of a source present, so that a full fresh list displaces no
      cache or ticket hint; fresh hints before cached ones before those of the
      ticket, each in its source's own order; and each under the first source that
      has it. */
  lemma MergePromises(lookup: seq<string>, cache: seq<string>, ticket: seq<string>, maximum: nat)
    ensures var merged := Firsts(Offered(lookup, cache, ticket, maximum));
      && (forall j, k :: 0 <= j < k < |merged| ==> merged[j].hint != merged[k].hint)
      && (forall h :: Among(lookup, maximum, h) || Among(cache, maximum, h) || Among(ticket, maximum, h) ==>
            Offers(merged, h))
      && (forall j, k :: 0 <= j < k < |merged| ==> Rank(merged[j].source) <= Rank(merged[k].source))
      && (forall k :: 0 <= k < |merged| ==> FirstSource(lookup, cache, ticket, maximum, merged[k]))
      && (forall j, k :: 0 <= j < k < |merged| && merged[j].source == merged[k].source ==>
            Precedes(HintsFrom(lookup, cache, ticket, merged[j].source), merged[j].hint, merged[k].hint))
  {
    var offered := Offered(lookup, cache, ticket, maximum);
    var merged := Firsts(offered);
    var at := FirstsAreExact(offered);
    forall j, k | 0 <= j < k < |merged| ensures merged[j].hint != merged[k].hint {
      NoRepeats(offered, merged, at, j, k);
    }
    forall j, k | 0 <= j < k < |merged| ensures Rank(merged[j].source) <= Rank(merged[k].source) {
      OfferedAt(lookup, cache, ticket, maximum, at[j]);
      OfferedAt(lookup, cache, ticket, maximum, at[k]);
    }
    forall j, k | 0 <= j < k < |merged| && merged[j].source == merged[k].source
      ensures Precedes(HintsFrom(lookup, cache, ticket, merged[j].source), merged[j].hint, merged[k].hint)
    {
      OfferedInOrder(lookup, cache, ticket, maximum, at[j], at[k]);
    }
    forall k | 0 <= k < |merged| ensures FirstSource(lookup, cache, ticket, maximum, merged[k]) {
      OfferedBefore(lookup, cache, ticket, maximum, at[k]);
    }
    AllOffered(lookup, cache, ticket, maximum);
  }

  lemma AllOffered(lookup: seq<string>, cache: seq<string>, ticket: seq<string>, maximum: nat)
    ensures forall h :: Among(lookup, maximum, h) || Among(cache, maximum, h) || Among(ticket, maximum, h) ==>
      Offers(Firsts(Offered(lookup, cache, ticket, maximum)), h)
  {
    var offered := Offered(lookup, cache, ticket, maximum);
    var hints := Take(lookup, maximum) + Take(cache, maximum) + Take(ticket, maximum);
    assert |hints| == |offered|;
    assert forall i :: 0 <= i < |hints| ==> offered[i].hint == hints[i];
    forall h | Among(lookup, maximum, h) || Among(cache, maximum, h) || Among(ticket, maximum, h)
      ensures Offers(Firsts(offered), h)
    {
      TakenAreAmong(lookup, maximum, h);
      TakenAreAmong(cache, maximum, h);
      TakenAreAmong(ticket, maximum, h);
      assert h in hints;
      FirstsCover(offered, h);
    }
  }

  /** The inner loop: the hints of one source, with the set of those already taken. */
  method AddSource(source: Source, hints: seq<string>, ordered: seq<Candidate>, seen: set<string>,
        ghost done: seq<Candidate>)
    returns (longer: seq<Candidate>, more: set<string>)
    requires ordered == Firsts(done) && seen == Hints(done)
    ensures longer == Firsts(done + Labelled(source, hints)) && more == Hints(done + Labelled(source, hints))
  {
    longer, more := ordered, seen;
    ghost var all := Labelled(source, hints);
    ghost var before := done;
    Taken(done, all, 0);
    for i := 0 to |hints|
      invariant before == done + all[..i]
      invariant longer == Firsts(before) && more == Hints(before)
    {
      HintsOf(before, all[i]);
      FirstsOfAppend(before, all[i]);
      Taken(done, all, i);
      before := before + [all[i]];
      if hints[i] !in more {
        more := more + {hints[i]};
        longer := longer + [Candidate(source, hints[i])];
      }
    }
    Taken(done, all, |hints|);
  }

  lemma Taken(done: seq<Candidate>, all: seq<Candidate>, i: nat)
    requires i <= |all|
    ensures i < |all| ==> done + all[..i] + [all[i]] == done + all[..i + 1]
    ensures i == 0 ==> done + all[..i] == done
    ensures i == |all| ==> done + all[..i] == done + all
  {
    if i == |all| { assert all[..i] == all; }
  }

  /** The loop over the three sources. */
  method MergeRelaySources(lookup: seq<string>, cache: seq<string>, ticket: seq<string>, maximum: nat)
    returns (ordered: seq<Candidate>)
    ensures ordered == Firsts(Offered(lookup, cache, ticket, maximum))
  {
    ordered := [];
    if maximum == 0 {
      assert Offered(lookup, cache, ticket, maximum) == [];
      return;
    }
    var seen: set<string>;
    ghost var a := Labelled(FreshLookup, Take(lookup, maximum));
    ghost var b := Labelled(VerifiedCache, Take(cache, maximum));
    assert [] + a == a;
    ordered, seen := AddSource(FreshLookup, Take(lookup, maximum), ordered, {}, []);
    ordered, seen := AddSource(VerifiedCache, Take(cache, maximum), ordered, seen, a);
    ordered, seen := AddSource(TransientTicket, Take(ticket, maximum), ordered, seen, a + b);
  }

  function Hints(cs: seq<Candidate>): set<string> { set i | 0 <= i < |cs| :: cs[i].hint }

  lemma HintsOf(cs: seq<Candidate>, last: Candidate)
    ensures last.hint in Hints(cs) <==> Offers(cs, last.hint)
    ensures Hints(cs + [last]) == Hints(cs) + {last.hint}
  {
    var more := cs + [last];
    assert more[|cs|] == last;
    forall h | h in Hints(cs) ensures h in Hints(more) {
      var i :| 0 <= i < |cs| && cs[i].hint == h;
      assert more[i].hint == h;
    }
  }
}
