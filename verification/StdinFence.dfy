/** The stdin pump and its Active fence (crates/cli/src/terminal_ui.rs): a reader
    thread tags what it reads with the current input epoch and geometry and
    sends it through a bounded channel; the session receives, advances epochs,
    and on becoming Active stops the reader, drains the terminal under the old
    epoch and starts a new reader.

    The threads interleave freely, so the pump is a state machine: an action is
    one atomic step of either thread, a run is any sequence of enabled actions. */
module StdinFence {
  import opened Basics
  import opened HostInput
  import L = Lifetimes
  import Conservation
  import opened HostInputDecoder

  const CHANNEL_CAPACITY: nat := 8
  const STDIN_CHUNK_BYTES: nat := 4 * 1024
  const DRAIN_BOUND: nat := 64 * 1024

  /** Bytes one `read` returned, and the epoch that was current when it did. */
  datatype Item = Item(chunk: L.Chunk, readAt: nat)

  datatype StdinEvent = Input(item: Item) | Eof | Error

  datatype Reader =
    | Polling                                   // waiting for input or cancellation
    | Ready                                     // the poll found input and no cancellation
    | HasEpoch(epoch: nat)                      // loaded the epoch
    | HasTags(epoch: nat, geometry: nat)        // loaded the geometry too
    | Sending(event: StdinEvent)                // blocked in send
    | Stopped(tail: Option<StdinEvent>)         // returned, with an event it could not send
    | Crashed                                   // returned an error

  datatype Phase = Running | Stopping | Draining(drained: nat) | Drained(mark: nat) | Dead

  /** A received event with the epoch and geometry current then. An inactive wait
      gives the codec no geometry: it feeds 0 as that of the chunk and as current. */
  datatype Arrival = Arrival(item: Item, current: nat, geometry: nat, active: bool)

  datatype Pump = Pump(
    epoch: nat,                 // shared counters
    geometry: nat,
    reader: Reader,
    channel: seq<StdinEvent>,
    open: bool,                 // the receiver has not been closed
    cancelled: bool,            // the wake-up byte was written
    retained: seq<StdinEvent>,  // events carried over a fence
    phase: Phase,
    typed: seq<byte>,           // everything that reached the terminal, in order
    tty: seq<byte>,             // what of it the terminal still holds
    tape: seq<Item>,            // everything read from the terminal, in order
    received: seq<Arrival>,     // input handed to the session, in order
    marks: map<nat, nat>)       // epochs that began with a fresh reader, and how
                                // much had been typed when its fence found nothing more

  const INITIAL: Pump := Pump(0, 0, Polling, [], true, false, [], Running, [], [], [], [], map[0 := 0])

  datatype Action =
    | KeysTyped(bytes: seq<byte>)
    | PollReadable | LoadEpoch | LoadGeometry | ReadInput(count: nat) | ReadNothing | ReadEof | ReadError
    | Send | SendFails | ObserveCancel
    | Receive(active: bool) | Advance | InvalidateGeometry
    | BeginFence | Join | Drain(count: nat) | PollEmpty | FinishFence
    | DrainFails | DrainOverflows | RetainOverflows

  /** The size the fence charges a retained event with. */
  function EventSize(e: StdinEvent): nat {
    match e case Input(item) => if |item.chunk.bytes| == 0 then 1 else |item.chunk.bytes| case _ => 1
  }

  function RetainedSize(events: seq<StdinEvent>): nat {
    if events == [] then 0 else EventSize(events[0]) + RetainedSize(events[1..])
  }

  predicate Enabled(s: Pump, a: Action) {
    match a
    case KeysTyped(_) => true
    case PollReadable => s.reader.Polling? && !s.cancelled
    case LoadEpoch => s.reader.Ready?
    case LoadGeometry => s.reader.HasEpoch?
    case ReadInput(count) => s.reader.HasTags? && CanRead(s, count)
    case ReadNothing => s.reader.HasTags?
    case ReadEof => s.reader.HasTags?
    case ReadError => s.reader.HasTags?
    case Send => s.reader.Sending? && s.open && |s.channel| < CHANNEL_CAPACITY
    case SendFails => s.reader.Sending? && !s.open
    case ObserveCancel => s.reader.Polling? && s.cancelled
    case Receive(_) => s.phase.Running? && (s.retained != [] || s.channel != [])
    case Advance => s.phase.Running?
    case InvalidateGeometry => true
    case BeginFence => s.phase.Running?
    case Join => s.phase.Stopping? && (s.reader.Stopped? || s.reader.Crashed?)
    case Drain(count) => s.phase.Draining? && s.phase.drained < DRAIN_BOUND && CanRead(s, count)
    case PollEmpty => s.phase.Draining? && s.tty == []
    case FinishFence => s.phase.Drained? && RetainedSize(s.retained) <= RESUME_INPUT_BOUND
    case DrainFails => s.phase.Draining? || s.phase.Drained?
    case DrainOverflows => s.phase.Draining? && s.phase.drained >= DRAIN_BOUND && s.tty != []
    case RetainOverflows => s.phase.Drained? && RetainedSize(s.retained) > RESUME_INPUT_BOUND
  }

  /** A read returns what there is, as far as the buffer goes, or less. */
  predicate CanRead(s: Pump, count: nat) { 0 < count <= |s.tty| && count <= STDIN_CHUNK_BYTES }

  function Deliver(s: Pump, e: StdinEvent, active: bool): seq<Arrival> {
    if e.Input? then s.received + [Arrival(e.item, s.epoch, s.geometry, active)] else s.received
  }

  function Do(s: Pump, a: Action): Pump
    requires Enabled(s, a)
  {
    match a
    case KeysTyped(bytes) => s.(typed := s.typed + bytes, tty := s.tty + bytes)
    case PollReadable => s.(reader := Ready)
    case LoadEpoch => s.(reader := HasEpoch(s.epoch))
    case LoadGeometry => s.(reader := HasTags(s.reader.epoch, s.geometry))
    case ReadInput(count) =>
      var item := Item(L.Chunk(s.tty[..count], s.reader.epoch, s.reader.geometry), s.epoch);
      s.(reader := Sending(Input(item)), tape := s.tape + [item], tty := s.tty[count..])
    case ReadNothing => s.(reader := Polling)
    case ReadEof => s.(reader := Sending(Eof))
    case ReadError => s.(reader := Sending(Error))
    case Send =>
      s.(channel := s.channel + [s.reader.event],
         reader := if s.reader.event.Input? then Polling else if s.reader.event.Eof? then Stopped(None) else Crashed)
    case SendFails => s.(reader := Stopped(if s.reader.event.Input? then Some(s.reader.event) else None))
    case ObserveCancel => s.(reader := Stopped(None))
    case Receive(active) =>
      if s.retained != [] then s.(retained := s.retained[1..], received := Deliver(s, s.retained[0], active))
      else s.(channel := s.channel[1..], received := Deliver(s, s.channel[0], active))
    case Advance => s.(epoch := s.epoch + 1)
    case InvalidateGeometry => s.(geometry := s.geometry + 1)
    case BeginFence => s.(open := false, cancelled := true, phase := Stopping)
    case Join =>
      if s.reader.Crashed? then s.(phase := Dead)
      else
        s.(retained := s.retained + s.channel + (if s.reader.tail.Some? then [s.reader.tail.value] else []),
           channel := [], reader := Stopped(None), phase := Draining(0))
    case Drain(count) =>
      var item := Item(L.Chunk(s.tty[..count], s.epoch, s.geometry), s.epoch);
      s.(retained := s.retained + [Input(item)], tape := s.tape + [item], tty := s.tty[count..],
         phase := Draining(s.phase.drained + count))
    case PollEmpty => s.(phase := Drained(|s.typed|))
    case FinishFence =>
      s.(epoch := s.epoch + 1, reader := Polling, channel := [], open := true, cancelled := false,
         phase := Running, marks := s.marks[s.epoch + 1 := s.phase.mark])
    case DrainFails => s.(phase := Dead)
    case DrainOverflows => s.(phase := Dead)
    case RetainOverflows => s.(phase := Dead)
  }

  /** The pump after a run; none when some action was not possible. */
  function Exec(run: seq<Action>): Option<Pump> {
    if run == [] then Some(INITIAL)
    else
      match Exec(run[..|run| - 1])
      case None => None
      case Some(s) => if Enabled(s, run[|run| - 1]) then Some(Do(s, run[|run| - 1])) else None
  }

  // ----- What every step keeps ----------------------------------------------

  function Items(events: seq<StdinEvent>): seq<Item> {
    if events == [] then []
    else Items(events[..|events| - 1]) + (if events[|events| - 1].Input? then [events[|events| - 1].item] else [])
  }

  function InFlight(r: Reader): seq<StdinEvent> {
    match r
    case Sending(e) => [e]
    case Stopped(Some(e)) => [e]
    case _ => []
  }

  function Arrived(received: seq<Arrival>): seq<Item> {
    seq(|received|, i requires 0 <= i < |received| => received[i].item)
  }

  /** Everything read is received, retained, queued or in the reader's hands,
      in that order, exactly once. */
  ghost predicate Conserved(s: Pump) {
    s.tape == Arrived(s.received) + Items(s.retained + s.channel + InFlight(s.reader))
  }

  ghost predicate Ordered(tape: seq<Item>) {
    forall i, j :: 0 <= i <= j < |tape| ==>
      && tape[i].chunk.epoch <= tape[j].chunk.epoch
      && tape[i].chunk.geometry <= tape[j].chunk.geometry
      && tape[i].readAt <= tape[j].readAt
  }

  /** Tags of what has been read, and of what the reader is about to read. */
  ghost predicate TagsInOrder(s: Pump) {
    && Ordered(s.tape)
    && (forall i :: 0 <= i < |s.tape| ==> TagsBelow(s, s.tape[i]))
    && ReaderTags(s)
  }

  /** The tags of what has been read lie below those of the reader and the pump. */
  ghost predicate TagsBelow(s: Pump, item: Item) {
    && item.chunk.bytes != []
    && item.chunk.epoch <= item.readAt <= s.epoch
    && item.chunk.geometry <= s.geometry
    && (s.reader.HasEpoch? || s.reader.HasTags? ==> item.chunk.epoch <= s.reader.epoch)
    && (s.reader.HasTags? ==> item.chunk.geometry <= s.reader.geometry)
  }

  ghost predicate ReaderTags(s: Pump) {
    && (s.reader.HasEpoch? || s.reader.HasTags? ==> s.reader.epoch <= s.epoch)
    && (s.reader.HasTags? ==> s.reader.geometry <= s.geometry)
  }

  /** In an epoch begun by a fence, tags tell when the bytes were read. */
  ghost predicate FencedTagsCurrent(tape: seq<Item>, marks: map<nat, nat>) {
    forall i :: 0 <= i < |tape| && tape[i].readAt in marks ==> tape[i].chunk.epoch == tape[i].readAt
  }

  /** Only one thread reads the terminal at a time, and a fence leaves no tag
      behind that a later read could carry. */
  ghost predicate FenceHolds(s: Pump) {
    && (s.phase.Draining? || s.phase.Drained? ==> s.reader == Stopped(None) && s.channel == [])
    && (forall f :: f in s.marks ==> f <= s.epoch)
    && FencedTagsCurrent(s.tape, s.marks)
    && (s.reader.HasEpoch? || s.reader.HasTags? ==> forall f :: f in s.marks ==> f <= s.reader.epoch)
  }

  ghost predicate ArrivalsCurrent(s: Pump) {
    forall i :: 0 <= i < |s.received| ==>
      && s.received[i].item.readAt <= s.received[i].current <= s.epoch
      && s.received[i].item.chunk.geometry <= s.received[i].geometry
  }

  /** The bytes of what was read. */
  function Bytes(tape: seq<Item>): seq<byte> {
    if tape == [] then [] else Bytes(tape[..|tape| - 1]) + tape[|tape| - 1].chunk.bytes
  }

  /** How much was read before item `i`. */
  function Offset(tape: seq<Item>, i: nat): nat
    requires i <= |tape|
  {
    |Bytes(tape[..i])|
  }

  /** Every byte typed was read or is still in the terminal, in order. */
  ghost predicate TypedConserved(s: Pump) { s.typed == Bytes(s.tape) + s.tty }

  /** An epoch begun by a fence tags exactly what was typed after the fence found
      the terminal empty, as far as it has been read. */
  ghost predicate MarksFit(tape: seq<Item>, marks: map<nat, nat>) {
    && (forall f :: f in marks ==> marks[f] <= |Bytes(tape)|)
    && (forall f, i :: f in marks && 0 <= i < |tape| ==> (tape[i].chunk.epoch >= f <==> Offset(tape, i) >= marks[f]))
  }

  ghost predicate MarksHold(s: Pump) {
    MarksFit(s.tape, s.marks) && (s.phase.Drained? ==> s.phase.mark == |Bytes(s.tape)|)
  }

  ghost predicate Inv(s: Pump) {
    Conserved(s) && TagsInOrder(s) && FenceHolds(s) && ArrivalsCurrent(s) && TypedConserved(s) && MarksHold(s)
  }

  lemma {:induction false} ItemsConcat(a: seq<StdinEvent>, b: seq<StdinEvent>)
    ensures Items(a + b) == Items(a) + Items(b)
  {
    if b == [] {
      assert a + b == a;
    } else {
      var n := |b| - 1;
      assert (a + b)[..|a + b| - 1] == a + b[..n] && (a + b)[|a + b| - 1] == b[n];
      ItemsConcat(a, b[..n]);
    }
  }

  lemma ItemsOne(e: StdinEvent)
    ensures Items([e]) == if e.Input? then [e.item] else []
  {
    assert [e][..0] == [];
  }

  lemma PopItem(events: seq<StdinEvent>)
    requires events != []
    ensures Items(events) == (if events[0].Input? then [events[0].item] else []) + Items(events[1..])
  {
    assert events == [events[0]] + events[1..];
    ItemsConcat([events[0]], events[1..]);
    ItemsOne(events[0]);
  }

  /** All that has been read but not received. */
  function Waiting(s: Pump): seq<StdinEvent> { s.retained + s.channel + InFlight(s.reader) }

  function ItemOf(e: StdinEvent): seq<Item> { if e.Input? then [e.item] else [] }

  /** Moving the head of what waits to the end of what arrived. */
  lemma HeadArrives(tape: seq<Item>, arrived: seq<Item>, waiting: seq<StdinEvent>)
    requires waiting != [] && tape == arrived + Items(waiting)
    ensures tape == arrived + ItemOf(waiting[0]) + Items(waiting[1..])
  {
    PopItem(waiting);
  }

  lemma WaitingAfterReceive(retained: seq<StdinEvent>, channel: seq<StdinEvent>, last: seq<StdinEvent>)
    requires retained != [] || channel != []
    ensures
      if retained != [] then retained[1..] + channel + last == (retained + channel + last)[1..]
      else retained + channel[1..] + last == (retained + channel + last)[1..]
  {
  }

  lemma DeliverArrives(s: Pump, e: StdinEvent, active: bool)
    ensures Arrived(Deliver(s, e, active)) == Arrived(s.received) + ItemOf(e)
  {
  }

  lemma ReceiveConserves(s: Pump, active: bool)
    requires Conserved(s) && Enabled(s, Receive(active))
    ensures Conserved(Do(s, Receive(active)))
  {
    var e := if s.retained != [] then s.retained[0] else s.channel[0];
    assert Waiting(s)[0] == e;
    HeadArrives(s.tape, Arrived(s.received), Waiting(s));
    WaitingAfterReceive(s.retained, s.channel, InFlight(s.reader));
    DeliverArrives(s, e, active);
  }

  /** Replacing the event in flight by one that carries the same input. */
  lemma SameInFlight(a: seq<StdinEvent>, was: seq<StdinEvent>, now: seq<StdinEvent>)
    requires Items(was) == Items(now)
    ensures Items(a + was) == Items(a + now)
  {
    ItemsConcat(a, was);
    ItemsConcat(a, now);
  }

  /** Reading appends to the tape and to what waits. */
  lemma ReadAppends(tape: seq<Item>, arrived: seq<Item>, waiting: seq<StdinEvent>, item: Item)
    requires tape == arrived + Items(waiting)
    ensures tape + [item] == arrived + Items(waiting + [Input(item)])
  {
    ItemsConcat(waiting, [Input(item)]);
    ItemsOne(Input(item));
  }

  lemma ReadConserves(s: Pump, count: nat)
    requires Conserved(s) && Enabled(s, ReadInput(count))
    ensures Conserved(Do(s, ReadInput(count)))
  {
    var before := s.retained + s.channel;
    assert before + [] == before;
    ReadAppends(s.tape, Arrived(s.received), before,
                Item(L.Chunk(s.tty[..count], s.reader.epoch, s.reader.geometry), s.epoch));
  }

  lemma SignalConserves(s: Pump, a: Action)
    requires Conserved(s) && Enabled(s, a)
    requires a.ReadEof? || a.ReadError? || a.SendFails?
    ensures Conserved(Do(s, a))
  {
    var was, now := InFlight(s.reader), InFlight(Do(s, a).reader);
    if was != [] { ItemsOne(was[0]); }
    if now != [] { ItemsOne(now[0]); }
    SameInFlight(s.retained + s.channel, was, now);
  }

  lemma DrainConserves(s: Pump, count: nat)
    requires Conserved(s) && FenceHolds(s) && Enabled(s, Drain(count))
    ensures Conserved(Do(s, Drain(count)))
  {
    var item := Item(L.Chunk(s.tty[..count], s.epoch, s.geometry), s.epoch);
    assert s.retained + [] + [] == s.retained;
    assert s.retained + [Input(item)] + [] + [] == s.retained + [Input(item)];
    ReadAppends(s.tape, Arrived(s.received), s.retained, item);
  }

  lemma SameWaiting(s: Pump, a: Action)
    requires Enabled(s, a) && FenceHolds(s)
    requires a.Send? || a.Join? || a.FinishFence?
    ensures Waiting(Do(s, a)) == Waiting(s)
  {
    if a.Send? {
      assert s.retained + (s.channel + [s.reader.event]) + [] == s.retained + s.channel + [s.reader.event];
    } else if a.Join? && s.reader.Stopped? {
      var tail := InFlight(s.reader);
      assert s.retained + s.channel + tail + [] + [] == s.retained + s.channel + tail;
    }
  }

  lemma ConservedStep(s: Pump, a: Action)
    requires Inv(s) && Enabled(s, a)
    ensures Conserved(Do(s, a))
  {
    match a {
      case Receive(active) => ReceiveConserves(s, active);
      case ReadInput(count) => ReadConserves(s, count);
      case ReadEof => SignalConserves(s, a);
      case ReadError => SignalConserves(s, a);
      case SendFails => SignalConserves(s, a);
      case Send => SameWaiting(s, a);
      case Join => SameWaiting(s, a);
      case FinishFence => SameWaiting(s, a);
      case Drain(count) => DrainConserves(s, count);
      case _ => assert Waiting(Do(s, a)) == Waiting(s);
    }
  }

  lemma AppendInOrder(tape: seq<Item>, item: Item)
    requires Ordered(tape)
    requires forall i :: 0 <= i < |tape| ==>
      && tape[i].chunk.epoch <= item.chunk.epoch
      && tape[i].chunk.geometry <= item.chunk.geometry
      && tape[i].readAt <= item.readAt
    ensures Ordered(tape + [item])
  {
  }

  lemma TagsStayBelow(s: Pump, a: Action, item: Item)
    requires Enabled(s, a) && TagsBelow(s, item)
    ensures TagsBelow(Do(s, a), item)
  {
  }

  lemma ReaderTagsStep(s: Pump, a: Action)
    requires Enabled(s, a) && ReaderTags(s)
    ensures ReaderTags(Do(s, a))
  {
  }

  /** What a step that reads puts on the tape. */
  function NewItem(s: Pump, a: Action): Item
    requires Enabled(s, a) && (a.ReadInput? || a.Drain?)
  {
    if a.ReadInput? then Item(L.Chunk(s.tty[..a.count], s.reader.epoch, s.reader.geometry), s.epoch)
    else Item(L.Chunk(s.tty[..a.count], s.epoch, s.geometry), s.epoch)
  }

  lemma NewItemTags(s: Pump, a: Action)
    requires Inv(s) && Enabled(s, a) && (a.ReadInput? || a.Drain?)
    ensures Do(s, a).tape == s.tape + [NewItem(s, a)]
    ensures TagsBelow(Do(s, a), NewItem(s, a)) && Ordered(s.tape + [NewItem(s, a)])
  {
    AppendInOrder(s.tape, NewItem(s, a));
  }

  lemma TagsStep(s: Pump, a: Action)
    requires Inv(s) && Enabled(s, a)
    ensures TagsInOrder(Do(s, a))
  {
    var t := Do(s, a);
    ReaderTagsStep(s, a);
    if a.ReadInput? || a.Drain? { NewItemTags(s, a); } else { NothingRead(s, a); }
    forall i | 0 <= i < |t.tape| ensures TagsBelow(t, t.tape[i]) {
      if i < |s.tape| { TagsStayBelow(s, a, s.tape[i]); }
    }
  }

  lemma FencedTagsStep(s: Pump, a: Action)
    requires Inv(s) && Enabled(s, a)
    ensures FencedTagsCurrent(Do(s, a).tape, Do(s, a).marks)
  {
    if a.ReadInput? || a.Drain? {
      var item := NewItem(s, a);
      assert item.readAt in s.marks ==> item.chunk.epoch == item.readAt;
    }
  }

  lemma FenceStep(s: Pump, a: Action)
    requires Inv(s) && Enabled(s, a)
    ensures FenceHolds(Do(s, a))
  {
    FencedTagsStep(s, a);
  }

  lemma NothingReceived(s: Pump, a: Action)
    requires Enabled(s, a)
    ensures !a.Receive? ==> Do(s, a).received == s.received
    ensures s.epoch <= Do(s, a).epoch
  {
  }

  lemma ReceivedCurrent(s: Pump, active: bool)
    requires Inv(s) && Enabled(s, Receive(active))
    ensures
      var e := Waiting(s)[0];
      && Do(s, Receive(active)).received == Deliver(s, e, active)
      && (e.Input? ==> e.item.readAt <= s.epoch && e.item.chunk.geometry <= s.geometry)
  {
    PopItem(Waiting(s));
    var e := Waiting(s)[0];
    if e.Input? { assert s.tape[|s.received|] == e.item && TagsBelow(s, e.item); }
  }

  lemma ArrivalsStep(s: Pump, a: Action)
    requires Inv(s) && Enabled(s, a)
    ensures ArrivalsCurrent(Do(s, a))
  {
    NothingReceived(s, a);
    if a.Receive? { ReceivedCurrent(s, a.active); }
  }

  lemma BytesAppend(tape: seq<Item>, item: Item)
    ensures Bytes(tape + [item]) == Bytes(tape) + item.chunk.bytes
    ensures forall i :: 0 <= i <= |tape| ==> Offset(tape + [item], i) == Offset(tape, i)
    ensures Offset(tape + [item], |tape|) == |Bytes(tape)|
  {
    assert (tape + [item])[..|tape|] == tape && tape[..|tape|] == tape;
    forall i | 0 <= i <= |tape| ensures (tape + [item])[..i] == tape[..i] {}
  }

  lemma TakeTyped(read: seq<byte>, tty: seq<byte>, count: nat)
    requires count <= |tty|
    ensures read + tty[..count] + tty[count..] == read + tty
  {
    assert tty[..count] + tty[count..] == tty;
  }

  lemma TypedStep(s: Pump, a: Action)
    requires Inv(s) && Enabled(s, a)
    ensures TypedConserved(Do(s, a))
  {
    if a.ReadInput? || a.Drain? {
      BytesAppend(s.tape, NewItem(s, a));
      TakeTyped(Bytes(s.tape), s.tty, a.count);
    } else if a.KeysTyped? {
      assert Bytes(s.tape) + (s.tty + a.bytes) == Bytes(s.tape) + s.tty + a.bytes;
    }
  }

  lemma {:induction false} OffsetsRise(tape: seq<Item>, i: nat)
    requires i <= |tape|
    ensures Offset(tape, i) <= |Bytes(tape)|
    ensures i < |tape| && tape[i].chunk.bytes != [] ==> Offset(tape, i) < |Bytes(tape)|
    decreases |tape| - i
  {
    if i < |tape| {
      assert tape[..i + 1][..i] == tape[..i] && tape[..i + 1][i] == tape[i];
      OffsetsRise(tape, i + 1);
    } else {
      assert tape[..i] == tape;
    }
  }

  /** Reading one more item, tagged by a reader that began after every mark. */
  lemma MarksAppend(tape: seq<Item>, marks: map<nat, nat>, item: Item)
    requires MarksFit(tape, marks) && forall f :: f in marks ==> f <= item.chunk.epoch
    ensures MarksFit(tape + [item], marks)
  {
    BytesAppend(tape, item);
    var more := tape + [item];
    forall f, i | f in marks && 0 <= i < |more| ensures more[i].chunk.epoch >= f <==> Offset(more, i) >= marks[f] {
      if i < |tape| { assert more[i] == tape[i]; }
    }
  }

  /** A new mark lies after everything read so far, and its epoch above all tags. */
  lemma MarkAdded(tape: seq<Item>, marks: map<nat, nat>, epoch: nat)
    requires MarksFit(tape, marks)
    requires forall i :: 0 <= i < |tape| ==> tape[i].chunk.bytes != [] && tape[i].chunk.epoch < epoch
    ensures MarksFit(tape, marks[epoch := |Bytes(tape)|])
  {
    forall i | 0 <= i < |tape| ensures Offset(tape, i) < |Bytes(tape)| { OffsetsRise(tape, i); }
  }

  /** What a step that reads nothing leaves alone. */
  lemma NothingRead(s: Pump, a: Action)
    requires Enabled(s, a) && !a.ReadInput? && !a.Drain?
    ensures Do(s, a).tape == s.tape
    ensures !a.FinishFence? ==> Do(s, a).marks == s.marks
    ensures Do(s, a).phase.Drained? ==> a.PollEmpty? || Do(s, a).phase == s.phase
  {
  }

  lemma MarksStep(s: Pump, a: Action)
    requires Inv(s) && Enabled(s, a)
    ensures MarksHold(Do(s, a))
  {
    if a.ReadInput? || a.Drain? {
      MarksAppend(s.tape, s.marks, NewItem(s, a));
    } else {
      NothingRead(s, a);
      if a.FinishFence? { MarkAdded(s.tape, s.marks, s.epoch + 1); }
      if a.PollEmpty? { assert s.typed == Bytes(s.tape); }
    }
  }

  /** Every reachable pump satisfies the invariant. */
  lemma {:induction false} InvHolds(run: seq<Action>)
    requires Exec(run).Some?
    ensures Inv(Exec(run).value)
  {
    if run != [] {
      var s, a := Exec(run[..|run| - 1]).value, run[|run| - 1];
      InvHolds(run[..|run| - 1]);
      ConservedStep(s, a);
      TagsStep(s, a);
      FenceStep(s, a);
      ArrivalsStep(s, a);
      TypedStep(s, a);
      MarksStep(s, a);
    }
  }

  // ----- What the session may rely on ------------------------------------------

  function Chunks(received: seq<Arrival>): seq<L.Chunk> {
    seq(|received|, i requires 0 <= i < |received| => received[i].item.chunk)
  }

  /** What the codec is fed. */
  function FedChunk(a: Arrival): L.Chunk { if a.active then a.item.chunk else a.item.chunk.(geometry := 0) }

  function FedGeometry(a: Arrival): nat { if a.active then a.geometry else 0 }

  function FedChunks(received: seq<Arrival>): seq<L.Chunk> {
    seq(|received|, i requires 0 <= i < |received| => FedChunk(received[i]))
  }

  /** Order and conservation: in every run, with any number of fences, the
      session has received exactly a prefix of what was read, in order, the
      rest is still on its way, and its tags never decrease. */
  lemma ReceivedInOrder(run: seq<Action>)
    requires Exec(run).Some?
    ensures
      var s := Exec(run).value;
      && Arrived(s.received) <= s.tape
      && s.tape[|s.received|..] == Items(Waiting(s))
      && L.NonDecreasing(Chunks(s.received))
  {
    InvHolds(run);
    var s := Exec(run).value;
    forall i | 0 <= i < |s.received| ensures Chunks(s.received)[i] == s.tape[i].chunk {
      assert Arrived(s.received)[i] == s.tape[i];
    }
  }

  /** Every byte typed has been received, is on its way or is still in the
      terminal: exactly once and in order. */
  lemma TypedAccounted(run: seq<Action>)
    requires Exec(run).Some?
    ensures
      var s := Exec(run).value;
      s.typed == Bytes(Arrived(s.received) + Items(Waiting(s))) + s.tty
  {
    InvHolds(run);
  }

  /** An Active fence separates input. What is read after it carries its epoch or a
      later one exactly if it was typed after the fence had found the terminal
      empty; and while the epoch lasts, what is read is tagged with it. */
  lemma FenceSeparates(run: seq<Action>, i: nat, f: nat)
    requires Exec(run).Some?
    ensures
      var s := Exec(run).value;
      && (i < |s.tape| && f in s.marks ==> (s.tape[i].chunk.epoch >= f <==> Offset(s.tape, i) >= s.marks[f]))
      && (i < |s.tape| && s.tape[i].chunk.epoch == s.epoch ==> s.tape[i].readAt == s.epoch)
      && (i < |s.tape| && s.epoch in s.marks ==> (s.tape[i].chunk.epoch == s.epoch <==> s.tape[i].readAt == s.epoch))
  {
    InvHolds(run);
  }

  // ----- A fence does not hang -------------------------------------------------------

  predicate IsReaderStep(a: Action) {
    || a.PollReadable? || a.LoadEpoch? || a.LoadGeometry? || a.ReadInput?
    || a.ReadNothing? || a.ReadEof? || a.ReadError?
    || a.Send? || a.SendFails? || a.ObserveCancel?
  }

  /** How many steps a reader that has been told to stop may still take. */
  function StepsLeft(reader: Reader): nat {
    match reader
    case Ready => 4
    case HasEpoch(_) => 3
    case HasTags(_, _) => 2
    case Polling => 1
    case Sending(_) => 1
    case Stopped(_) => 0
    case Crashed => 0
  }

  /** While the fence waits for it, the reader has been told and cannot send. */
  predicate StopRequested(s: Pump) { s.phase.Stopping? ==> s.cancelled && !s.open }

  lemma {:induction false} StopIsRequested(run: seq<Action>)
    requires Exec(run).Some?
    ensures StopRequested(Exec(run).value)
  {
    if run != [] {
      StopIsRequested(run[..|run| - 1]);
      StaysRequested(Exec(run[..|run| - 1]).value, run[|run| - 1]);
    }
  }

  lemma StaysRequested(s: Pump, a: Action)
    requires StopRequested(s) && Enabled(s, a)
    ensures StopRequested(Do(s, a))
  {
  }

  /** A fence that waits can go on, or the reader can take a step. */
  lemma FenceIsNotStuck(run: seq<Action>)
    requires Exec(run).Some?
    ensures
      var s := Exec(run).value;
      s.phase.Stopping? ==> Enabled(s, Join) || exists a :: IsReaderStep(a) && Enabled(s, a)
  {
    StopIsRequested(run);
    var s := Exec(run).value;
    if s.phase.Stopping? && !Enabled(s, Join) {
      var a := match s.reader
        case Ready => LoadEpoch
        case HasEpoch(_) => LoadGeometry
        case HasTags(_, _) => ReadNothing
        case Polling => ObserveCancel
        case _ => SendFails;
      assert IsReaderStep(a) && Enabled(s, a);
    }
  }

  function ReaderSteps(run: seq<Action>): nat {
    if run == [] then 0 else ReaderSteps(run[..|run| - 1]) + if IsReaderStep(run[|run| - 1]) then 1 else 0
  }

  lemma StoppingStep(s: Pump, a: Action)
    requires s.phase.Stopping? && StopRequested(s) && Enabled(s, a) && !a.Join?
    ensures
      var t := Do(s, a);
      t.phase.Stopping? && StepsLeft(t.reader) + (if IsReaderStep(a) then 1 else 0) <= StepsLeft(s.reader)
  {
  }

  /** However the threads interleave, a fence waits for at most four steps of the
      reader. */
  lemma {:induction false} FenceWaitsBriefly(run: seq<Action>, more: seq<Action>)
    requires Exec(run).Some? && Exec(run).value.phase.Stopping?
    requires Exec(run + more).Some? && forall i :: 0 <= i < |more| ==> !more[i].Join?
    ensures
      var s, t := Exec(run).value, Exec(run + more).value;
      t.phase.Stopping? && ReaderSteps(more) + StepsLeft(t.reader) <= StepsLeft(s.reader) <= 4
    decreases |more|
  {
    if more == [] {
      assert run + more == run;
    } else {
      var front, a := more[..|more| - 1], more[|more| - 1];
      assert (run + more)[..|run + more| - 1] == run + front && (run + more)[|run + more| - 1] == a;
      FenceWaitsBriefly(run, front);
      StopIsRequested(run + front);
      StoppingStep(Exec(run + front).value, a);
    }
  }

  // ----- How a fence ends ------------------------------------------------------------

  predicate EndsPump(a: Action) { a.ReadError? || a.DrainFails? || a.DrainOverflows? || a.RetainOverflows? }

  /** A reader crashes of a read error only, and says that the input has ended only
      if it has; a dead pump has a reason in the run; an error that was handed over
      is not lost. */
  ghost predicate Explained(run: seq<Action>, s: Pump) {
    && (s.reader.Crashed? || s.reader == Sending(Error) ==> ReadError in run)
    && (Eof in Waiting(s) ==> ReadEof in run)
    && (s.phase.Dead? ==> exists i :: 0 <= i < |run| && EndsPump(run[i]))
    && (Error in s.channel ==> s.reader.Crashed?)
  }

  lemma NoNewEof(s: Pump, a: Action)
    requires Enabled(s, a) && !a.ReadEof? && Eof !in Waiting(s)
    ensures Eof !in Waiting(Do(s, a))
  {
  }

  lemma ExplainedStep(front: seq<Action>, s: Pump, a: Action)
    requires Enabled(s, a) && Explained(front, s)
    ensures Explained(front + [a], Do(s, a))
  {
    if !a.ReadEof? && Eof !in Waiting(s) { NoNewEof(s, a); }
    ReasonsKept(front, s, a);
  }

  /** The rest of the step, about crashes and deaths. */
  lemma ReasonsKept(front: seq<Action>, s: Pump, a: Action)
    requires Enabled(s, a) && (s.reader.Crashed? || s.reader == Sending(Error) ==> ReadError in front)
    requires s.phase.Dead? ==> exists i :: 0 <= i < |front| && EndsPump(front[i])
    requires Error in s.channel ==> s.reader.Crashed?
    ensures
      var run, t := front + [a], Do(s, a);
      && (t.reader.Crashed? || t.reader == Sending(Error) ==> ReadError in run)
      && (t.phase.Dead? ==> exists i :: 0 <= i < |run| && EndsPump(run[i]))
      && (Error in t.channel ==> t.reader.Crashed?)
      && (ReadEof in run <==> ReadEof in front || a.ReadEof?)
  {
    var run := front + [a];
    assert run[|front|] == a;
    assert forall i :: 0 <= i < |front| ==> run[i] == front[i];
    if ReadError in front { assert EndsPump(ReadError); }
  }

  /** The pump dies only of a read error, a failing drain or an exceeded bound, and
      a fence that meets a reader which has reported an error does die. */
  lemma {:induction false} DeathsAreExplained(run: seq<Action>)
    requires Exec(run).Some?
    ensures Explained(run, Exec(run).value)
    ensures Error in Exec(run).value.channel && Enabled(Exec(run).value, Join) ==> Do(Exec(run).value, Join).phase.Dead?
  {
    if run != [] {
      var front := run[..|run| - 1];
      DeathsAreExplained(front);
      ExplainedStep(front, Exec(front).value, run[|run| - 1]);
      assert run == front + [run[|run| - 1]];
    }
  }

  // ----- What the counters count -----------------------------------------------------

  function Times(run: seq<Action>, a: Action): nat {
    if run == [] then 0 else Times(run[..|run| - 1], a) + if run[|run| - 1] == a then 1 else 0
  }

  /** Every advance and every finished fence begins an epoch of its own, and every
      invalidation a geometry; so what was read before is told from what is read after. */
  lemma {:induction false} CountersCount(run: seq<Action>)
    requires Exec(run).Some?
    ensures Exec(run).value.epoch == Times(run, Advance) + Times(run, FinishFence)
    ensures Exec(run).value.geometry == Times(run, InvalidateGeometry)
  {
    if run != [] {
      CountersCount(run[..|run| - 1]);
      CounterStep(Exec(run[..|run| - 1]).value, run[|run| - 1]);
    }
  }

  lemma CounterStep(s: Pump, a: Action)
    requires Enabled(s, a)
    ensures Do(s, a).epoch == s.epoch + if a.Advance? || a.FinishFence? then 1 else 0
    ensures Do(s, a).geometry == s.geometry + if a.InvalidateGeometry? then 1 else 0
  {
  }

  lemma {:induction false} SizeCoversBytes(events: seq<StdinEvent>)
    ensures |Bytes(Items(events))| <= RetainedSize(events)
    decreases |events|
  {
    if events != [] {
      var front, last := events[..|events| - 1], events[|events| - 1];
      SizeCoversBytes(front);
      assert events == front + [last];
      SizeConcat(front, [last]);
      if last.Input? { BytesAppend(Items(front), last.item); } else { assert Items(front) + [] == Items(front); }
      assert RetainedSize([last]) == EventSize(last);
    }
  }

  lemma KeepsWithin(s: Pump, a: Action)
    requires Enabled(s, a) && (s.phase.Running? ==> RetainedSize(s.retained) <= RESUME_INPUT_BOUND)
    ensures Do(s, a).phase.Running? ==> RetainedSize(Do(s, a).retained) <= RESUME_INPUT_BOUND
  {
  }

  /** What is carried over fences while the session runs stays within the bound. */
  lemma {:induction false} RetainedIsBounded(run: seq<Action>)
    requires Exec(run).Some?
    ensures
      var s := Exec(run).value;
      s.phase.Running? ==>
        RetainedSize(s.retained) <= RESUME_INPUT_BOUND && |Bytes(Items(s.retained))| <= RESUME_INPUT_BOUND
  {
    SizeCoversBytes(Exec(run).value.retained);
    if run != [] {
      RetainedIsBounded(run[..|run| - 1]);
      KeepsWithin(Exec(run[..|run| - 1]).value, run[|run| - 1]);
    }
  }

  lemma DrainStep(s: Pump, a: Action)
    requires Enabled(s, a) && FenceHolds(s) && !a.Join? && Do(s, a).phase.Draining?
    requires s.phase.Draining? ==> s.phase.drained < DRAIN_BOUND + STDIN_CHUNK_BYTES
    ensures
      var t := Do(s, a);
      && s.phase.Draining? && t.phase.drained < DRAIN_BOUND + STDIN_CHUNK_BYTES
      && |Bytes(t.tape)| - |Bytes(s.tape)| == t.phase.drained - s.phase.drained
  {
    if a.Drain? { BytesAppend(s.tape, NewItem(s, a)); }
  }

  /** A fence reads at most the drain bound and one buffer less a byte: what it counts
      as drained is what it has read since it joined its reader. */
  lemma {:induction false} DrainIsBounded(run: seq<Action>, more: seq<Action>)
    requires Exec(run).Some? && Exec(run).value.phase == Draining(0) && Join !in more
    requires Exec(run + more).Some? && Exec(run + more).value.phase.Draining?
    ensures
      var s, t := Exec(run).value, Exec(run + more).value;
      |Bytes(t.tape)| - |Bytes(s.tape)| == t.phase.drained < DRAIN_BOUND + STDIN_CHUNK_BYTES
    decreases |more|
  {
    if more == [] {
      assert run + more == run;
    } else {
      var front, a := more[..|more| - 1], more[|more| - 1];
      assert (run + more)[..|run + more| - 1] == run + front && (run + more)[|run + more| - 1] == a;
      InvHolds(run + front);
      StillDraining(Exec(run + front).value, a);
      DrainIsBounded(run, front);
      DrainStep(Exec(run + front).value, a);
    }
  }

  lemma StillDraining(s: Pump, a: Action)
    requires Enabled(s, a) && !a.Join? && Do(s, a).phase.Draining?
    ensures s.phase.Draining?
  {
  }

  lemma OneMore(run: seq<Action>, a: Action)
    requires Exec(run).Some? && Enabled(Exec(run).value, a)
    ensures Exec(run + [a]) == Some(Do(Exec(run).value, a))
  {
    assert (run + [a])[..|run|] == run;
  }

  lemma {:induction false} SizeConcat(a: seq<StdinEvent>, b: seq<StdinEvent>)
    ensures RetainedSize(a + b) == RetainedSize(a) + RetainedSize(b)
  {
    if a == [] {
      assert a + b == b;
    } else {
      assert (a + b)[0] == a[0] && (a + b)[1..] == a[1..] + b;
      SizeConcat(a[1..], b);
    }
  }

  /** A reader that was told to stop and has not crashed can stop, and keeps no more
      than it had in hand. */
  lemma {:induction false} ReaderStops(run: seq<Action>) returns (longer: seq<Action>)
    requires Exec(run).Some? && Exec(run).value.phase.Stopping? && !Exec(run).value.reader.Crashed?
    ensures run <= longer && Exec(longer).Some?
    ensures
      var s, t := Exec(run).value, Exec(longer).value;
      && t == s.(reader := t.reader) && t.reader.Stopped?
      && (InFlight(t.reader) == [] || InFlight(t.reader) == InFlight(s.reader))
    decreases StepsLeft(Exec(run).value.reader)
  {
    StopIsRequested(run);
    var s := Exec(run).value;
    longer := run;
    if !s.reader.Stopped? {
      var a := match s.reader
        case Ready => LoadEpoch
        case HasEpoch(_) => LoadGeometry
        case HasTags(_, _) => ReadNothing
        case Polling => ObserveCancel
        case _ => SendFails;
      OneMore(run, a);
      longer := ReaderStops(run + [a]);
    }
  }

  /** What is in the terminal can be drained, a buffer at a time. */
  lemma {:induction false} TerminalDrains(run: seq<Action>) returns (longer: seq<Action>)
    requires Exec(run).Some? && Exec(run).value.phase.Draining?
    requires Exec(run).value.phase.drained + |Exec(run).value.tty| <= DRAIN_BOUND
    ensures run <= longer && Exec(longer).Some?
    ensures
      var s, t := Exec(run).value, Exec(longer).value;
      && t == s.(retained := t.retained, tape := t.tape, tty := [], phase := t.phase) && t.phase.Draining?
      && RetainedSize(t.retained) == RetainedSize(s.retained) + |s.tty|
    decreases |Exec(run).value.tty|
  {
    var s := Exec(run).value;
    longer := run;
    if s.tty != [] {
      var count := if |s.tty| < STDIN_CHUNK_BYTES then |s.tty| else STDIN_CHUNK_BYTES;
      OneMore(run, Drain(count));
      SizeConcat(s.retained, [Do(s, Drain(count)).retained[|s.retained|]]);
      longer := TerminalDrains(run + [Drain(count)]);
    }
  }

  /** The pump after a fence: a new reader in the next epoch, which begins after all
      that was typed; nothing was received meanwhile. */
  ghost predicate Renewed(s: Pump, t: Pump) {
    && t.phase.Running? && t.reader == Polling && t.open && !t.cancelled && t.tty == []
    && t.epoch == s.epoch + 1 && t.marks == s.marks[s.epoch + 1 := |s.typed|]
    && t.typed == s.typed && t.received == s.received
  }

  /** What waits stays within a bound when the reader drops what it had in hand. */
  lemma DroppingFits(waiting: seq<StdinEvent>, was: seq<StdinEvent>, now: seq<StdinEvent>)
    requires now == [] || now == was
    ensures RetainedSize(waiting + now) <= RetainedSize(waiting + was)
  {
    SizeConcat(waiting, was);
    SizeConcat(waiting, now);
  }

  lemma JoinRetains(run: seq<Action>)
    requires Exec(run).Some? && Exec(run).value.phase.Stopping? && Exec(run).value.reader.Stopped?
    ensures
      var t := Exec(run).value;
      Exec(run + [Join])
      == Some(t.(retained := Waiting(t), channel := [], reader := Stopped(None), phase := Draining(0)))
  {
    OneMore(run, Join);
  }

  lemma FenceEnds(run: seq<Action>)
    requires Exec(run).Some? && Exec(run).value.phase.Draining? && Exec(run).value.tty == []
    requires RetainedSize(Exec(run).value.retained) <= RESUME_INPUT_BOUND
    ensures Exec(run + [PollEmpty] + [FinishFence]).Some?
    ensures Renewed(Exec(run).value, Exec(run + [PollEmpty] + [FinishFence]).value)
  {
    OneMore(run, PollEmpty);
    OneMore(run + [PollEmpty], FinishFence);
  }

  lemma RenewedSince(t: Pump, u: Pump, v: Pump)
    requires Renewed(u, v) && u.epoch == t.epoch && u.marks == t.marks && u.typed == t.typed && u.received == t.received
    ensures Renewed(t, v)
  {
  }

  /** The rest of a fence, once its reader has stopped. */
  lemma AfterStop(run: seq<Action>, t: Pump) returns (longer: seq<Action>)
    requires Exec(run) == Some(t) && t.phase.Stopping? && t.reader.Stopped?
    requires |t.tty| <= DRAIN_BOUND && RetainedSize(Waiting(t)) + |t.tty| <= RESUME_INPUT_BOUND
    ensures run <= longer && Exec(longer).Some? && Renewed(t, Exec(longer).value)
  {
    JoinRetains(run);
    var drained := TerminalDrains(run + [Join]);
    FenceEnds(drained);
    longer := drained + [PollEmpty] + [FinishFence];
    RenewedSince(t, Exec(drained).value, Exec(longer).value);
  }

  /** Its beginning: the reader is told to stop and does. */
  lemma UntilStop(run: seq<Action>, s: Pump) returns (longer: seq<Action>, t: Pump)
    requires Exec(run) == Some(s) && (s.phase.Running? || s.phase.Stopping?) && !s.reader.Crashed?
    ensures run <= longer && Exec(longer) == Some(t) && t.phase.Stopping? && t.reader.Stopped?
    ensures t == s.(reader := t.reader, open := t.open, cancelled := t.cancelled, phase := t.phase)
    ensures RetainedSize(Waiting(t)) <= RetainedSize(Waiting(s))
  {
    longer := run;
    if s.phase.Running? {
      OneMore(run, BeginFence);
      longer := run + [BeginFence];
    }
    longer := ReaderStops(longer);
    t := Exec(longer).value;
    DroppingFits(s.retained + s.channel, InFlight(s.reader), InFlight(t.reader));
  }

  /** A fence completes. From every state in which the pump runs, or waits for its
      reader, and the reader has not crashed, the fence can run to its end if what
      waits and what is in the terminal are within the bounds. */
  lemma FenceCompletes(run: seq<Action>) returns (longer: seq<Action>)
    requires Exec(run).Some? && (Exec(run).value.phase.Running? || Exec(run).value.phase.Stopping?)
    requires !Exec(run).value.reader.Crashed? && |Exec(run).value.tty| <= DRAIN_BOUND
    requires RetainedSize(Waiting(Exec(run).value)) + |Exec(run).value.tty| <= RESUME_INPUT_BOUND
    ensures run <= longer && Exec(longer).Some? && Renewed(Exec(run).value, Exec(longer).value)
  {
    var stopped, t := UntilStop(run, Exec(run).value);
    longer := AfterStop(stopped, t);
  }

  // ----- From keys to events -------------------------------------------------------

  /** Collecting, seen from the end of the log. */
  function Gathered(log: seq<Piece>): seq<Event> {
    if log == [] then [] else Push(Gathered(log[..|log| - 1]), log[|log| - 1].event)
  }

  lemma {:induction false} GatheredIsCollected(log: seq<Piece>)
    ensures Gathered(log) == Collect([], log)
  {
    if log != [] {
      var front, last := log[..|log| - 1], [log[|log| - 1]];
      GatheredIsCollected(front);
      assert log == front + last && last[1..] == [];
      CollectConcat([], front, last);
    }
  }

  /** The last event after one more piece: the last one grown, or the new one. */
  lemma PushEnds(events: seq<Event>, last: Event, e: Event)
    requires events != [] && events[|events| - 1] == last
    ensures Push(events, e) != []
    ensures e.Bytes? && last.Bytes? ==> Push([last], e) == [Push(events, e)[|Push(events, e)| - 1]]
    ensures !(e.Bytes? && last.Bytes?) ==> Push(events, e)[|Push(events, e)| - 1] == e
  {
  }

  /** One more piece of a segment that begins at `j`. */
  lemma GatheredNext(log: seq<Piece>, j: nat, m: nat, n: nat)
    requires j <= m < |log| && n == m + 1
    ensures Gathered(log[j..n]) == Push(Gathered(log[j..m]), log[m].event)
  {
    assert log[j..n][..|log[j..n]| - 1] == log[j..m] && log[j..n][|log[j..n]| - 1] == log[m];
  }

  lemma GatheredNone(log: seq<Piece>, m: nat)
    requires m <= |log|
    ensures Gathered(log[m..m]) == []
  {
  }

  /** The last event after one more piece, given that before it. */
  lemma NextSegment(log: seq<Piece>, m: nat, n: nat, i: nat, before: Event) returns (j: nat, last: Event)
    requires i < m < |log| && n == m + 1 && Gathered(log[i..m]) == [before]
    requires Gathered(log[0..m]) != [] && Gathered(log[0..m])[|Gathered(log[0..m])| - 1] == before
    ensures j < n && Gathered(log[j..n]) == [last]
    ensures Gathered(log[0..n]) != [] && Gathered(log[0..n])[|Gathered(log[0..n])| - 1] == last
  {
    var e := log[m].event;
    GatheredNext(log, 0, m, n);
    PushEnds(Gathered(log[0..m]), before, e);
    if e.Bytes? && before.Bytes? {
      GatheredNext(log, i, m, n);
      j, last := i, Push([before], e)[0];
    } else {
      GatheredNone(log, m);
      GatheredNext(log, m, m, n);
      j, last := m, e;
    }
  }

  /** The last event returned stands for the last pieces of the log. */
  lemma {:induction false} LastSegment(log: seq<Piece>, n: nat) returns (j: nat, last: Event)
    requires 0 < n <= |log|
    ensures j < n && Gathered(log[j..n]) == [last]
    ensures Gathered(log[0..n]) != [] && Gathered(log[0..n])[|Gathered(log[0..n])| - 1] == last
    decreases n
  {
    var m := n - 1;
    if m == 0 {
      GatheredNone(log, 0);
      GatheredNext(log, 0, 0, n);
      j, last := 0, log[0].event;
    } else {
      var i, before := LastSegment(log, m);
      j, last := NextSegment(log, m, n, i, before);
    }
  }

  lemma PushKeeps(events: seq<Event>, last: Event, q: nat)
    requires q < |Push(events, last)| - 1
    ensures q < |events| && Push(events, last)[q] == events[q]
  {
  }

  /** Every event returned stands for consecutive pieces of the log. */
  lemma {:induction false} EventSegment(log: seq<Piece>, n: nat, q: nat, e: Event) returns (j: nat, k: nat)
    requires n <= |log| && q < |Gathered(log[0..n])| && e == Gathered(log[0..n])[q]
    ensures j < k <= n && Gathered(log[j..k]) == [e]
    decreases n
  {
    assert n > 0;
    var m := n - 1;
    if q == |Gathered(log[0..n])| - 1 {
      var last;
      j, last := LastSegment(log, n);
      k := n;
    } else {
      GatheredNext(log, 0, m, n);
      PushKeeps(Gathered(log[0..m]), log[m].event, q);
      j, k := EventSegment(log, m, q, e);
    }
  }

  /** The codec, fed what the session received before, returns `e` at arrival `i` and
      the filter lets it pass. */
  predicate Delivered(x: Parsers, received: seq<Arrival>, i: nat, e: Event)
    requires i < |received|
  {
    var codec := L.StateAt(Codec(x), FedChunks(received), i);
    && codec.Some? && L.Feed(Codec(x), codec.value, FedChunks(received)[i]).Done?
    && e in L.Filtered(codec.value, FedChunks(received)[i], received[i].current, FedGeometry(received[i]),
                       Collect([], L.Feed(Codec(x), codec.value, FedChunks(received)[i]).log))
  }

  /** What the codec logged at arrival `i`. */
  function LogAt(x: Parsers, received: seq<Arrival>, i: nat): seq<Piece>
    requires i < |received| && L.StateAt(Codec(x), FedChunks(received), i).Some?
    requires L.Feed(Codec(x), L.StateAt(Codec(x), FedChunks(received), i).value, FedChunks(received)[i]).Done?
  {
    L.Feed(Codec(x), L.StateAt(Codec(x), FedChunks(received), i).value, FedChunks(received)[i]).log
  }

  /** Pieces of a log that make up the event `e` and have these bytes. */
  ghost predicate StandsFor(log: seq<Piece>, e: Event, bytes: seq<byte>) {
    exists j, k :: 0 <= j < k <= |log| && Collect([], log[j..k]) == [e] && Conservation.Raws(log[j..k]) == bytes
  }

  lemma {:induction false} WindowIsRead(tape: seq<Item>, chunks: seq<L.Chunk>, w: nat, i: nat)
    requires w <= i <= |chunks| && i <= |tape| && forall k :: 0 <= k < i ==> chunks[k].bytes == tape[k].chunk.bytes
    ensures Bytes(tape[..i]) == Bytes(tape[..w]) + L.WindowBytes(chunks, w, i)
  {
    if w < i {
      WindowIsRead(tape, chunks, w, i - 1);
      assert tape[..i][..i - 1] == tape[..i - 1] && tape[..i][i - 1] == tape[i - 1];
    }
  }

  lemma {:induction false} BytesPrefix(tape: seq<Item>, i: nat)
    requires i <= |tape|
    ensures Bytes(tape[..i]) <= Bytes(tape)
    decreases |tape| - i
  {
    if i < |tape| {
      assert tape[..i + 1][..i] == tape[..i] && tape[..i + 1][i] == tape[i];
      BytesPrefix(tape, i + 1);
    } else {
      assert tape[..i] == tape;
    }
  }

  lemma ThreeParts(log: seq<Piece>, j: nat, k: nat)
    requires j <= k <= |log|
    ensures log[..j] + log[j..k] + log[k..] == log
  {
  }

  lemma RawsOfThree(a: seq<Piece>, b: seq<Piece>, c: seq<Piece>)
    ensures Conservation.Raws(a + b + c) == Conservation.Raws(a) + Conservation.Raws(b) + Conservation.Raws(c)
  {
    Conservation.RawsConcat(a + b, c);
    Conservation.RawsConcat(a, b);
  }

  lemma RawsOfParts(log: seq<Piece>, j: nat, k: nat)
    requires j <= k <= |log|
    ensures Conservation.Raws(log)
         == Conservation.Raws(log[..j]) + Conservation.Raws(log[j..k]) + Conservation.Raws(log[k..])
  {
    ThreeParts(log, j, k);
    RawsOfThree(log[..j], log[j..k], log[k..]);
  }

  /** Where a part of a sequence lies in a longer one. */
  lemma PartOf(typed: seq<byte>, front: seq<byte>, before: seq<byte>,
        a: seq<byte>, b: seq<byte>, c: seq<byte>, rest: seq<byte>)
    requires front + (before + (a + b + c) + rest) <= typed
    ensures
      var from := |front| + |before| + |a|;
      && from + |b| <= |front + (before + (a + b + c) + rest)| <= |typed|
      && typed[from..from + |b|] == b
  {
    var all := front + (before + (a + b + c) + rest);
    var from := |front| + |before| + |a|;
    assert typed[..|all|] == all;
    assert typed[from..from + |b|] == all[from..from + |b|] == b;
  }

  /** The bytes of some pieces, where they were typed, given the window they lie in. */
  lemma PiecesTyped(typed: seq<byte>, front: seq<byte>, window: seq<byte>, before: seq<byte>,
        log: seq<Piece>, pending: seq<byte>, j: nat, k: nat)
    returns (from: nat, upTo: nat)
    requires j <= k <= |log| && window == before + Conservation.Raws(log) + pending && front + window <= typed
    ensures |front| <= from <= upTo <= |front + window| <= |typed| && typed[from..upTo] == Conservation.Raws(log[j..k])
  {
    RawsOfParts(log, j, k);
    var a, b, c := Conservation.Raws(log[..j]), Conservation.Raws(log[j..k]), Conservation.Raws(log[k..]);
    PartOf(typed, front, before, a, b, c, pending);
    from := |front| + |before| + |a|;
    upTo := from + |b|;
  }

  /** The window of arrival `i`, in terms of what the codec logged. */
  lemma WindowOf(x: Parsers, received: seq<Arrival>, i: nat, e: Event)
    returns (log: seq<Piece>, pending: seq<byte>, before: seq<byte>, w: nat)
    requires i < |received| && Delivered(x, received, i, e)
    ensures log == LogAt(x, received, i) && e in Collect([], log)
    ensures w == L.WindowStart(Codec(x), FedChunks(received), i)
    ensures L.WindowBytes(FedChunks(received), w, i + 1) == before + Conservation.Raws(log) + pending
  {
    var chunks := FedChunks(received);
    var codec := L.StateAt(Codec(x), chunks, i).value;
    var o := L.Feed(Codec(x), codec, chunks[i]);
    w, log, pending := L.WindowStart(Codec(x), chunks, i), o.log, o.pending;
    L.FilteredKeepsReplies(codec, chunks[i], received[i].current, FedGeometry(received[i]), Collect([], o.log));
    assert L.StateAt(Codec(x), chunks, i + 1).Some?;
    L.EventsComeFromWindow(x, chunks, i);
    before :| L.WindowBytes(chunks, w, i + 1) == before + Conservation.Raws(o.log) + o.pending;
  }

  lemma ReadIsTyped(s: Pump, chunks: seq<L.Chunk>, w: nat, i: nat)
    requires TypedConserved(s) && w <= i < |chunks| <= |s.tape|
    requires forall k :: 0 <= k < |chunks| ==> chunks[k].bytes == s.tape[k].chunk.bytes
    ensures
      var front, window := Bytes(s.tape[..w]), L.WindowBytes(chunks, w, i + 1);
      front + window <= s.typed && |front| == Offset(s.tape, w) && |front + window| == Offset(s.tape, i + 1)
  {
    WindowIsRead(s.tape, chunks, w, i + 1);
    BytesPrefix(s.tape, i + 1);
  }

  /** The bytes of an event, where they were typed. */
  lemma SegmentTyped(s: Pump, chunks: seq<L.Chunk>, w: nat, i: nat,
        before: seq<byte>, log: seq<Piece>, pending: seq<byte>, e: Event)
    returns (from: nat, upTo: nat)
    requires TypedConserved(s) && w <= i < |chunks| <= |s.tape|
    requires forall k :: 0 <= k < |chunks| ==> chunks[k].bytes == s.tape[k].chunk.bytes
    requires e in Collect([], log) && L.WindowBytes(chunks, w, i + 1) == before + Conservation.Raws(log) + pending
    ensures Offset(s.tape, w) <= from <= upTo <= Offset(s.tape, i + 1) && upTo <= |s.typed|
    ensures StandsFor(log, e, s.typed[from..upTo])
  {
    GatheredIsCollected(log);
    assert log[0..|log|] == log;
    var q :| 0 <= q < |Gathered(log)| && Gathered(log)[q] == e;
    var j, k := EventSegment(log, |log|, q, e);
    GatheredIsCollected(log[j..k]);
    ReadIsTyped(s, chunks, w, i);
    from, upTo := PiecesTyped(s.typed, Bytes(s.tape[..w]), L.WindowBytes(chunks, w, i + 1), before, log, pending, j, k);
  }

  lemma EventTyped(x: Parsers, s: Pump, i: nat, e: Event) returns (from: nat, upTo: nat)
    requires TypedConserved(s) && i < |s.received| <= |s.tape| && Delivered(x, s.received, i, e)
    requires forall k :: 0 <= k < |s.received| ==> FedChunks(s.received)[k].bytes == s.tape[k].chunk.bytes
    ensures from <= upTo <= |s.typed| && StandsFor(LogAt(x, s.received, i), e, s.typed[from..upTo])
    ensures Offset(s.tape, L.WindowStart(Codec(x), FedChunks(s.received), i)) <= from && upTo <= Offset(s.tape, i + 1)
  {
    var log, pending, before, w := WindowOf(x, s.received, i, e);
    from, upTo := SegmentTyped(s, FedChunks(s.received), w, i, before, log, pending, e);
  }

  /** No stale input, end to end. Feed the codec what the pump delivers, in any run:
      an event that is not a terminal reply and reaches the session at arrival `i`
      stands for bytes that were typed one after another and all read while the
      epoch of that arrival was already current, for a mouse event outside an
      inactive wait also under the geometry of that arrival; and if that epoch
      began with a fence, they were typed after the fence had found the terminal
      empty. */
  lemma NoStaleInput(x: Parsers, run: seq<Action>, i: nat, e: Event) returns (from: nat, upTo: nat)
    requires Exec(run).Some?
    ensures
      var s := Exec(run).value;
      i < |s.received| && !e.TerminalReply? && Delivered(x, s.received, i, e) ==>
        && i < |s.tape| && from <= upTo <= |s.typed|
        && StandsFor(LogAt(x, s.received, i), e, s.typed[from..upTo])
        && var w := L.WindowStart(Codec(x), FedChunks(s.received), i);
        && Offset(s.tape, w) <= from && upTo <= Offset(s.tape, i + 1)
        && (forall k :: w <= k <= i ==>
              && s.tape[k].readAt == s.received[i].current
              && (e.Mouse? && s.received[i].active ==> s.tape[k].chunk.geometry == s.received[i].geometry))
        && (s.received[i].current in s.marks ==> s.marks[s.received[i].current] <= from)
  {
    InvHolds(run);
    ReceivedInOrder(run);
    var s := Exec(run).value;
    from, upTo := 0, 0;
    ReceivedIsRead(s);
    if i < |s.received| && !e.TerminalReply? && Delivered(x, s.received, i, e) {
      from, upTo := EventTyped(x, s, i, e);
      WindowCurrent(x, s, i, e);
    }
  }

  lemma ReceivedIsRead(s: Pump)
    requires Inv(s)
    ensures |s.received| <= |s.tape|
    ensures forall k :: 0 <= k < |s.received| ==>
      && s.received[k].item == s.tape[k]
      && FedChunks(s.received)[k].bytes == s.tape[k].chunk.bytes
      && FedChunks(s.received)[k].epoch == s.tape[k].chunk.epoch
  {
    forall k | 0 <= k < |s.received| ensures k < |s.tape| && s.received[k].item == s.tape[k] {
      assert Arrived(s.received)[k] == s.tape[k];
    }
  }

  lemma WindowCurrent(x: Parsers, s: Pump, i: nat, e: Event)
    requires Inv(s) && i < |s.received| && !e.TerminalReply? && Delivered(x, s.received, i, e)
    ensures
      var w := L.WindowStart(Codec(x), FedChunks(s.received), i);
      && i < |s.tape|
      && (forall k :: w <= k <= i ==>
            && s.tape[k].readAt == s.received[i].current
            && (e.Mouse? && s.received[i].active ==> s.tape[k].chunk.geometry == s.received[i].geometry))
      && (s.received[i].current in s.marks ==> s.marks[s.received[i].current] <= Offset(s.tape, w))
  {
    ReceivedIsRead(s);
    var chunks := FedChunks(s.received);
    var codec := L.StateAt(Codec(x), chunks, i).value;
    var o := L.Feed(Codec(x), codec, chunks[i]);
    var w, geometry := L.WindowStart(Codec(x), chunks, i), FedGeometry(s.received[i]);
    L.FilteredKeepsReplies(codec, chunks[i], s.received[i].current, geometry, Collect([], o.log));
    L.DeliveredByEnds(x, chunks, i, s.received[i].current, geometry, e);
    forall k | w <= k <= i
      ensures s.tape[k].readAt == s.received[i].current && s.tape[k].chunk.epoch == s.received[i].current
      ensures e.Mouse? && s.received[i].active ==> s.tape[k].chunk.geometry == s.received[i].geometry
    {
      ReadWhileCurrent(s, k, i);
      if e.Mouse? && s.received[i].active { GeometryThroughout(s, w, i, k); }
    }
  }

  /** Geometry between two ends that fed the geometry of the arrival, even if an
      inactive wait fed 0 for some of it: 0 is the first geometry of all. */
  lemma GeometryThroughout(s: Pump, w: nat, i: nat, k: nat)
    requires Inv(s) && w <= k <= i < |s.received| && s.received[i].active
    requires FedChunk(s.received[w]).geometry == s.received[i].geometry
    requires FedChunk(s.received[i]).geometry == s.received[i].geometry
    ensures k < |s.tape| && s.tape[k].chunk.geometry == s.received[i].geometry
  {
    ReceivedIsRead(s);
    assert s.tape[w].chunk.geometry <= s.tape[k].chunk.geometry <= s.tape[i].chunk.geometry;
  }

  lemma ReadWhileCurrent(s: Pump, k: nat, i: nat)
    requires Inv(s) && k <= i < |s.received|
    requires s.received[k].item.chunk.epoch == s.received[i].current
    ensures s.received[k].item.readAt == s.received[i].current
  {
    assert Arrived(s.received)[k] == s.tape[k] && Arrived(s.received)[i] == s.tape[i];
  }
}
