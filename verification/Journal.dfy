/** The bounded progress journal (crates/client/src/progress.rs) against an
    unbounded log, and what a reader that polls by watermark gets to see. */
module Journal {
  const CAPACITY: nat := 64
  const MAX_ID: nat := 0xFFFF_FFFF_FFFF_FFFF

  type Event = nat

  datatype Entry = Entry(id: nat, event: Event)

  /** Everything ever recorded, repeats coalesced, and how much of it had been
      recorded at the last clear. */
  datatype Log = Log(all: seq<Event>, start: nat)

  predicate WellFormed(l: Log) { l.start <= |l.all| }

  function Recorded(l: Log, event: Event): Log {
    if |l.all| > l.start && l.all[|l.all| - 1] == event then l else l.(all := l.all + [event])
  }

  function Cleared(l: Log): Log { l.(start := |l.all|) }

  /** The id of the event at `index`; the counter stops at its limit. */
  function Id(index: nat): nat { if index < MAX_ID then index + 1 else MAX_ID }

  /** The index of the first entry still held. */
  function First(l: Log): (i: nat)
    requires WellFormed(l)
    ensures l.start <= i <= |l.all|
  {
    if |l.all| - l.start <= CAPACITY then l.start else |l.all| - CAPACITY
  }

  /** The entries with indices from `a` up to `b`. */
  function Span(all: seq<Event>, a: nat, b: nat): (r: seq<Entry>)
    requires b <= |all|
    ensures |r| == if a < b then b - a else 0
    ensures a < b ==> r[|r| - 1] == Entry(Id(b - 1), all[b - 1])
  {
    if a >= b then [] else Span(all, a, b - 1) + [Entry(Id(b - 1), all[b - 1])]
  }

  lemma {:induction false} SpanAt(all: seq<Event>, a: nat, b: nat, i: nat)
    requires a <= i < b <= |all|
    ensures Span(all, a, b)[i - a] == Entry(Id(i), all[i])
  {
    if i < b - 1 { SpanAt(all, a, b - 1, i); }
  }

  lemma {:induction false} SpanOfLonger(all: seq<Event>, more: seq<Event>, a: nat, b: nat)
    requires b <= |all| && all <= more
    ensures Span(more, a, b) == Span(all, a, b)
  {
    if a < b { SpanOfLonger(all, more, a, b - 1); }
  }

  lemma TailOfAppend(front: seq<Entry>, last: Entry)
    ensures front != [] ==> (front + [last])[1..] == front[1..] + [last]
    ensures ([last])[1..] == []
  {
  }

  lemma {:induction false} SpanTail(all: seq<Event>, a: nat, b: nat)
    requires a < b <= |all|
    ensures Span(all, a, b)[1..] == Span(all, a + 1, b)
  {
    var front, last := Span(all, a, b - 1), Entry(Id(b - 1), all[b - 1]);
    assert Span(all, a, b) == front + [last];
    TailOfAppend(front, last);
    if a < b - 1 {
      SpanTail(all, a, b - 1);
    } else {
      assert front + [last] == [last];
    }
  }

  function Held(l: Log): seq<Entry>
    requires WellFormed(l)
  {
    Span(l.all, First(l), |l.all|)
  }

  /** One more event, and the oldest entry gives way if the journal is full. */
  lemma HeldAfterRecord(l: Log, event: Event)
    requires WellFormed(l) && Recorded(l, event) != l
    ensures Held(Recorded(l, event)) ==
      (if |l.all| - l.start >= CAPACITY then Held(l)[1..] else Held(l)) + [Entry(Id(|l.all|), event)]
  {
    var more := l.all + [event];
    SpanOfLonger(l.all, more, First(l), |l.all|);
    SpanOfLonger(l.all, more, First(l) + 1, |l.all|);
    if |l.all| - l.start >= CAPACITY { SpanTail(l.all, First(l), |l.all|); }
  }

  /** The entries newer than a watermark, in order. */
  function After(entries: seq<Entry>, watermark: nat): seq<Entry> {
    if entries == [] then []
    else After(entries[..|entries| - 1], watermark) +
         if entries[|entries| - 1].id > watermark then [entries[|entries| - 1]] else []
  }

  class ProgressHistory {
    var sequence: nat
    var entries: seq<Entry>
    ghost var log: Log

    /** The journal holds exactly the last entries of the unbounded log. */
    ghost predicate Valid()
      reads this
    {
      && WellFormed(log)
      && sequence == (if |log.all| < MAX_ID then |log.all| else MAX_ID)
      && entries == Held(log)
    }

    constructor ()
      ensures Valid() && log == Log([], 0)
    {
      sequence, entries, log := 0, [], Log([], 0);
    }

    method Record(event: Event)
      requires Valid()
      modifies this
      ensures Valid() && log == Recorded(old(log), event)
    {
      if |entries| > 0 && entries[|entries| - 1].event == event { return; }
      HeldAfterRecord(log, event);
      log := Recorded(log, event);
      if sequence < MAX_ID { sequence := sequence + 1; }
      if |entries| == CAPACITY { entries := entries[1..]; }
      entries := entries + [Entry(sequence, event)];
    }

    method Clear()
      requires Valid()
      modifies this
      ensures Valid() && log == Cleared(old(log)) && sequence == old(sequence)
    {
      entries, log := [], Cleared(log);
    }

    /** The retained entries above the watermark, found one by one. */
    method ReadAfter(watermark: nat) returns (r: seq<Entry>)
      requires Valid()
      ensures r == After(Held(log), watermark)
    {
      r := [];
      for i := 0 to |entries|
        invariant r == After(entries[..i], watermark)
      {
        assert entries[..i + 1][..i] == entries[..i];
        if entries[i].id > watermark { r := r + [entries[i]]; }
      }
      assert entries[..|entries|] == entries;
    }
  }

  // ----- A polling reader ---------------------------------------------------------

  lemma AfterAppend(front: seq<Entry>, last: Entry, watermark: nat)
    ensures After(front + [last], watermark) == After(front, watermark) + if last.id > watermark then [last] else []
  {
    assert (front + [last])[..|front|] == front;
  }

  /** While the counter has not stopped, the entries above a watermark are those
      with an index of at least the watermark. */
  lemma {:induction false} AfterSpan(all: seq<Event>, a: nat, b: nat, watermark: nat, from: nat)
    requires b <= |all| && b <= MAX_ID && from == if a > watermark then a else watermark
    ensures After(Span(all, a, b), watermark) == Span(all, from, b)
    decreases b
  {
    if a < b {
      AfterSpan(all, a, b - 1, watermark, from);
      AfterAppend(Span(all, a, b - 1), Entry(Id(b - 1), all[b - 1]), watermark);
      if from >= b { assert Span(all, from, b - 1) + [] == Span(all, from, b); }
    }
  }

  datatype Step = Report(event: Event) | Reset | Poll

  /** The journal's log, the reader's watermark and everything it has seen. */
  datatype Reader = Reader(log: Log, watermark: nat, seen: seq<Entry>)

  function Do(r: Reader, s: Step): Reader
    requires WellFormed(r.log)
  {
    match s
    case Report(event) => r.(log := Recorded(r.log, event))
    case Reset => r.(log := Cleared(r.log))
    case Poll =>
      var news := After(Held(r.log), r.watermark);
      if news == [] then r else r.(watermark := news[|news| - 1].id, seen := r.seen + news)
  }

  function Exec(run: seq<Step>): (r: Reader)
    ensures WellFormed(r.log)
  {
    if run == [] then Reader(Log([], 0), 0, []) else Do(Exec(run[..|run| - 1]), run[|run| - 1])
  }

  /** No entry is seen twice or out of order, each is what was recorded under its
      id, and the watermark is the last one seen. */
  predicate Orderly(r: Reader) {
    && r.watermark <= |r.log.all|
    && (if r.seen == [] then r.watermark == 0 else r.watermark == r.seen[|r.seen| - 1].id)
    && (forall i :: 0 <= i < |r.seen| ==>
        1 <= r.seen[i].id <= |r.log.all| && r.seen[i].event == r.log.all[r.seen[i].id - 1])
    && (forall i, j :: 0 <= i < j < |r.seen| ==> r.seen[i].id < r.seen[j].id)
  }

  /** What a poll brings. */
  lemma PollBrings(r: Reader, from: nat)
    requires WellFormed(r.log) && |r.log.all| <= MAX_ID
    requires from == if First(r.log) > r.watermark then First(r.log) else r.watermark
    ensures Do(r, Poll).seen == r.seen + Span(r.log.all, from, |r.log.all|)
    ensures Do(r, Poll).watermark == if from < |r.log.all| then |r.log.all| else r.watermark
  {
    AfterSpan(r.log.all, First(r.log), |r.log.all|, r.watermark, from);
  }

  lemma SeenOrderly(r: Reader, from: nat, seen: seq<Entry>)
    requires Orderly(r) && r.watermark <= from <= |r.log.all| <= MAX_ID
    requires seen == r.seen + Span(r.log.all, from, |r.log.all|)
    ensures Orderly(Reader(r.log, if from < |r.log.all| then |r.log.all| else r.watermark, seen))
  {
    var all := r.log.all;
    forall i | |r.seen| <= i < |seen| ensures seen[i] == Entry(from + 1 + i - |r.seen|, all[from + i - |r.seen|]) {
      SpanAt(all, from, |all|, from + i - |r.seen|);
    }
    forall i | 0 <= i < |r.seen| ensures seen[i] == r.seen[i] && seen[i].id <= r.watermark {
      if i < |r.seen| - 1 { assert r.seen[i].id < r.seen[|r.seen| - 1].id; }
    }
  }

  lemma {:induction false} ReaderIsOrderly(run: seq<Step>)
    requires |Exec(run).log.all| <= MAX_ID
    ensures Orderly(Exec(run))
  {
    if run != [] {
      var r := Exec(run[..|run| - 1]);
      assert r.log.all <= Exec(run).log.all;
      ReaderIsOrderly(run[..|run| - 1]);
      if run[|run| - 1].Poll? {
        var from := if First(r.log) > r.watermark then First(r.log) else r.watermark;
        PollBrings(r, from);
        SeenOrderly(r, from, Exec(run).seen);
      }
    }
  }

  predicate OnlyReports(steps: seq<Step>) { forall i :: 0 <= i < |steps| ==> steps[i].Report? }

  lemma {:induction false} ReportsOnlyAdd(run: seq<Step>, steps: seq<Step>)
    requires OnlyReports(steps)
    ensures var r, s := Exec(run), Exec(run + steps);
      && s.watermark == r.watermark && s.seen == r.seen && s.log.start == r.log.start
      && r.log.all <= s.log.all
    decreases |steps|
  {
    if steps == [] {
      assert run + steps == run;
    } else {
      var front, last := steps[..|steps| - 1], steps[|steps| - 1];
      ReportsOnlyAdd(run, front);
      assert (run + steps)[..|run + steps| - 1] == run + front;
      assert (run + steps)[|run + steps| - 1] == last;
    }
  }

  lemma ExecPoll(run: seq<Step>)
    ensures Exec(run + [Poll]) == Do(Exec(run), Poll)
  {
    assert (run + [Poll])[..|run|] == run;
  }

  /** A poll leaves nothing held that is above the watermark. */
  lemma PollCatchesUp(run: seq<Step>)
    requires |Exec(run).log.all| <= MAX_ID
    ensures var r := Exec(run + [Poll]);
      && r.log == Exec(run).log && r.watermark <= |r.log.all|
      && (r.watermark == |r.log.all| || r.log.start == |r.log.all|)
  {
    var r := Exec(run);
    ReaderIsOrderly(run);
    ExecPoll(run);
    PollBrings(r, if First(r.log) > r.watermark then First(r.log) else r.watermark);
  }

  /** Between two polls with no clear between them, a reader misses nothing if at
      most 64 entries were made, and otherwise all but the last 64: the second poll
      brings exactly those, whatever happened before the first. */
  lemma NothingMissed(before: seq<Step>, between: seq<Step>)
    requires OnlyReports(between) && |Exec(before + [Poll] + between).log.all| <= MAX_ID
    ensures
      var first, second := Exec(before + [Poll]), Exec(before + [Poll] + between);
      var all, made := second.log.all, |second.log.all| - |first.log.all|;
      && made >= 0
      && Exec(before + [Poll] + between + [Poll]).seen
         == second.seen + Span(all, if made <= CAPACITY then |first.log.all| else |all| - CAPACITY, |all|)
  {
    ReportsOnlyAdd(before + [Poll], between);
    ExecPoll(before);
    PollCatchesUp(before);
    var r := Exec(before + [Poll] + between);
    ExecPoll(before + [Poll] + between);
    PollBrings(r, if First(r.log) > r.watermark then First(r.log) else r.watermark);
  }

  // ----- Repeats are coalesced ------------------------------------------------------

  /** The events reported since the last clear. */
  function Reported(run: seq<Step>): seq<Event> {
    if run == [] then []
    else
      match run[|run| - 1]
      case Report(event) => Reported(run[..|run| - 1]) + [event]
      case Reset => []
      case Poll => Reported(run[..|run| - 1])
  }

  /** A sequence without those elements that only repeat the one before. */
  function WithoutRepeats(events: seq<Event>): seq<Event> {
    if |events| <= 1 then events
    else if events[0] == events[1] then WithoutRepeats(events[1..])
    else [events[0]] + WithoutRepeats(events[1..])
  }

  lemma {:induction false} OneMoreEvent(events: seq<Event>, last: Event)
    ensures events == [] ==> WithoutRepeats(events + [last]) == [last]
    ensures events != [] ==>
      && WithoutRepeats(events) != []
      && WithoutRepeats(events)[|WithoutRepeats(events)| - 1] == events[|events| - 1]
      && WithoutRepeats(events + [last]) == WithoutRepeats(events) + if events[|events| - 1] == last then [] else [last]
  {
    var more := events + [last];
    if |events| == 1 {
      assert more[1..] == [last];
    } else if |events| > 1 {
      OneMoreEvent(events[1..], last);
      assert more[1..] == events[1..] + [last];
    }
  }

  /** The log since its last clear is the events reported since, without repeats. */
  predicate Coalesced(l: Log, reported: seq<Event>) {
    WellFormed(l) && l.all[l.start..] == WithoutRepeats(reported) && (l.start == |l.all| <==> reported == [])
  }

  lemma CoalescedMore(l: Log, reported: seq<Event>, event: Event)
    requires Coalesced(l, reported)
    ensures Coalesced(Recorded(l, event), reported + [event])
  {
    OneMoreEvent(reported, event);
    var taken := l.all[l.start..];
    if reported != [] { assert l.all[|l.all| - 1] == taken[|taken| - 1] == reported[|reported| - 1]; }
    assert (l.all + [event])[l.start..] == taken + [event];
  }

  /** What a journal has taken in since its last clear are the events reported since,
      in order, without immediate repeats. */
  lemma {:induction false} RepeatsAreCoalesced(run: seq<Step>)
    ensures Coalesced(Exec(run).log, Reported(run))
  {
    if run != [] {
      var front, step := run[..|run| - 1], run[|run| - 1];
      RepeatsAreCoalesced(front);
      if step.Report? { CoalescedMore(Exec(front).log, Reported(front), step.event); }
    }
  }

  // ----- When the counter stops ----------------------------------------------------

  function Counter(l: Log): nat { if |l.all| < MAX_ID then |l.all| else MAX_ID }

  lemma {:induction false} AfterIds(all: seq<Event>, a: nat, b: nat, watermark: nat)
    requires b <= |all|
    ensures forall i :: 0 <= i < |After(Span(all, a, b), watermark)| ==>
      watermark < After(Span(all, a, b), watermark)[i].id <= (if b < MAX_ID then b else MAX_ID)
  {
    if a < b {
      AfterIds(all, a, b - 1, watermark);
      AfterAppend(Span(all, a, b - 1), Entry(Id(b - 1), all[b - 1]), watermark);
    }
  }

  lemma {:induction false} WatermarkWithinCounter(run: seq<Step>)
    ensures Exec(run).watermark <= Counter(Exec(run).log)
  {
    if run != [] {
      var r := Exec(run[..|run| - 1]);
      WatermarkWithinCounter(run[..|run| - 1]);
      if run[|run| - 1].Poll? { AfterIds(r.log.all, First(r.log), |r.log.all|, r.watermark); }
    }
  }

  lemma NewestIsAfter(l: Log, event: Event, watermark: nat)
    requires WellFormed(l) && Recorded(l, event) != l
    ensures var newest, news := Entry(Id(|l.all|), event), After(Held(Recorded(l, event)), watermark);
      newest.id > watermark ==> news != [] && news[|news| - 1] == newest
  {
    var more := Recorded(l, event);
    var a, b := First(more), |more.all|;
    assert a < b && more.all[b - 1] == event;
    AfterAppend(Span(more.all, a, b - 1), Entry(Id(b - 1), event), watermark);
  }

  /** The news of one poll after one more event. */
  lemma NewsOf(l: Log, event: Event, watermark: nat) returns (news: seq<Entry>)
    requires WellFormed(l) && Recorded(l, event) != l && watermark <= Counter(l)
    ensures news == After(Held(Recorded(l, event)), watermark)
    ensures news != [] <==> watermark < MAX_ID
    ensures news != [] ==> news[|news| - 1] == Entry(Id(|l.all|), event)
  {
    var more := Recorded(l, event);
    news := After(Held(more), watermark);
    NewestIsAfter(l, event, watermark);
    AfterIds(more.all, First(more), |more.all|, watermark);
    if news != [] { assert watermark < news[0].id <= MAX_ID; }
  }

  lemma ExecReport(run: seq<Step>, event: Event)
    ensures Exec(run + [Report(event)]) == Exec(run).(log := Recorded(Exec(run).log, event))
  {
    assert (run + [Report(event)])[..|run|] == run;
  }

  lemma MoreSeen(seen: seq<Entry>, news: seq<Entry>)
    ensures seen + news != seen <==> news != []
    ensures news != [] ==> (seen + news)[|seen + news| - 1] == news[|news| - 1]
  {
    if news == [] { assert seen + news == seen; }
  }

  /** The journal's ids are bounded, and this is what it costs. After any run, an
      event that is not coalesced away is brought by the next poll exactly when the
      reader's watermark is below the largest id; for a reader that is up to date,
      exactly when the counter has not reached it. */
  lemma SeenUnlessAtTheLimit(run: seq<Step>, event: Event)
    requires Recorded(Exec(run).log, event) != Exec(run).log
    ensures
      var r, s := Exec(run), Exec(run + [Report(event)] + [Poll]);
      && (s.seen != r.seen <==> r.watermark < MAX_ID)
      && (s.seen != r.seen ==> s.seen != [] && s.seen[|s.seen| - 1] == Entry(Id(|r.log.all|), event))
      && (r.watermark == Counter(r.log) ==> (s.seen != r.seen <==> |r.log.all| < MAX_ID))
  {
    var r := Exec(run);
    ExecReport(run, event);
    ExecPoll(run + [Report(event)]);
    WatermarkWithinCounter(run);
    var news := NewsOf(r.log, event, r.watermark);
    MoreSeen(r.seen, news);
    assert Exec(run + [Report(event)] + [Poll]).seen == r.seen + news;
  }
}
