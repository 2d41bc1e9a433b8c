/** The upload transfer (crates/client/src/upload.rs) against the host's upload
    stream (crates/daemon/src/session_wire/upload.rs).

    The client's writer and reader run concurrently over separate stream halves,
    and the host over both, so the transfer is a state machine: an action is one
    atomic step of a party between two awaits. Timeouts, lost connections, a
    lost lease, cancellation and an unreadable source are actions too. */
module Upload {
  import opened Basics

  const CHUNK_BYTES: nat := 65_536
  const WINDOW_BYTES: nat := 1_048_576
  const ACK_BYTES: nat := 262_144

  datatype ClientMessage = Chunk(offset: nat, data: seq<byte>) | Finish(size: nat) | Cancel

  datatype HostMessage = Progress(accepted: nat) | Completed(size: nat) | ServiceError

  datatype Failure = SourceInvalid | Malformed | OutcomeUnknown | Cancelled | Other

  /** The writing future, between its awaits. */
  datatype Writer =
    | Idle                           // at the head of its loop
    | Reading(wanted: nat)           // reading up to `wanted` source bytes
    | Writing(data: seq<byte>)       // about to put a chunk on the wire
    | Written(data: seq<byte>)       // the chunk is on the wire, the call has not returned
    | AtEnd                          // all bytes sent, source at its exact end

  datatype Phase = Transferring | Finishing(sent: bool) | Succeeded | Failed(failure: Failure)

  datatype Host = Receiving | Closed

  datatype State = State(
    source: seq<byte>,               // the file, and the size announced for it
    size: nat,
    position: nat,                   // bytes taken from the source
    offset: nat,                     // the writer's `offset`
    sent: nat,                       // the shared `sent` counter
    writer: Writer,
    accepted: nat,                   // the reader's `previous`, which is also the credit
    phase: Phase,
    up: seq<ClientMessage>,          // the two directions of the stream
    down: seq<HostMessage>,
    host: Host,
    staged: seq<byte>,
    acknowledged: nat,
    published: Option<seq<byte>>,
    finishes: nat)                   // Finish messages sent

  function Initial(source: seq<byte>, size: nat): State {
    State(source, size, 0, 0, 0, Idle, 0, Transferring, [], [], Receiving, [], 0, None, 0)
  }

  datatype Action =
    | Plan | ReadSource(count: nat) | SendChunk | SendReturns | CheckEnd
    | ReceiveProgress | BeginFinish | SendFinish | ReceiveResult
    | HostChunk | HostTick | HostFinish
    // Failures
    | SourceEnds | SourceFails | ClientFails | CancelUpload(torn: Option<seq<byte>>)
    | HostRejects | HostFails | PublishThenFail | HostCancelled

  predicate IsFailure(a: Action) {
    || a.SourceEnds? || a.SourceFails? || a.ClientFails? || a.CancelUpload?
    || a.HostRejects? || a.HostFails? || a.PublishThenFail? || a.HostCancelled?
  }

  function Min(a: nat, b: nat): nat { if a <= b then a else b }

  function Outstanding(s: State): nat { if s.offset <= s.accepted then 0 else s.offset - s.accepted }

  predicate Live(s: State) { s.phase.Transferring? || s.phase.Finishing? }

  /** The host takes a chunk only at the offset it has reached, within the size. */
  predicate HostTakes(s: State, m: ClientMessage) {
    m.Chunk? && m.offset == |s.staged| && m.offset + |m.data| <= s.size
  }

  predicate Enabled(s: State, a: Action) {
    match a
    case Plan => s.phase.Transferring? && s.writer.Idle? && s.offset < s.size && Outstanding(s) < WINDOW_BYTES
    case ReadSource(count) =>
      s.phase.Transferring? && s.writer.Reading? && 0 < count <= s.writer.wanted && s.position + count <= |s.source|
    case SendChunk => s.phase.Transferring? && s.writer.Writing?
    case SendReturns => s.phase.Transferring? && s.writer.Written?
    case CheckEnd => s.phase.Transferring? && s.writer.Idle? && s.offset >= s.size && s.position == |s.source|
    case ReceiveProgress => s.phase.Transferring? && s.accepted < s.size && s.down != []
    case BeginFinish => s.phase.Transferring? && s.writer.AtEnd? && s.accepted >= s.size
    case SendFinish => s.phase == Finishing(false)
    case ReceiveResult => s.phase == Finishing(true) && s.down != []
    case HostChunk => s.host.Receiving? && s.up != [] && HostTakes(s, s.up[0])
    case HostTick => s.host.Receiving? && |s.staged| > s.acknowledged
    case HostFinish => s.host.Receiving? && s.up != [] && s.up[0] == Finish(s.size) && |s.staged| == s.size
    case SourceEnds =>
      && s.phase.Transferring?
      && ((s.writer.Reading? && s.position == |s.source|)
          || (s.writer.Idle? && s.offset >= s.size && s.position < |s.source|))
    case SourceFails =>
      s.phase.Transferring? && (s.writer.Reading? || (s.writer.Idle? && s.offset >= s.size))
    case ClientFails => Live(s)
    case CancelUpload(torn) => Live(s) && (torn.Some? ==> s.writer.Writing? && s.phase.Transferring?)
    case HostRejects =>
      && s.host.Receiving? && s.up != [] && !s.up[0].Cancel?
      && !HostTakes(s, s.up[0]) && !(s.up[0] == Finish(s.size) && |s.staged| == s.size)
    case HostFails => s.host.Receiving?
    case PublishThenFail => s.host.Receiving? && s.up != [] && s.up[0] == Finish(s.size) && |s.staged| == s.size
    case HostCancelled => s.host.Receiving? && s.up != [] && s.up[0].Cancel?
  }

  function Do(s: State, a: Action): State
    requires Enabled(s, a)
  {
    match a
    case Plan =>
      s.(writer := Reading(Min(Min(s.size - s.offset, CHUNK_BYTES), WINDOW_BYTES - Outstanding(s))))
    case ReadSource(count) =>
      s.(position := s.position + count, sent := s.offset + count,
         writer := Writing(s.source[s.position..s.position + count]))
    case SendChunk => s.(up := s.up + [Chunk(s.offset, s.writer.data)], writer := Written(s.writer.data))
    case SendReturns => s.(offset := s.offset + |s.writer.data|, writer := Idle)
    case CheckEnd => s.(writer := AtEnd)
    case ReceiveProgress =>
      var rest := s.(down := s.down[1..]);
      (match s.down[0]
       case Progress(n) =>
         if s.accepted <= n <= s.sent then rest.(accepted := n) else rest.(phase := Failed(Malformed))
       case Completed(_) => rest.(phase := Failed(Malformed))
       case ServiceError => rest.(phase := Failed(Other)))
    case BeginFinish => s.(phase := Finishing(false))
    case SendFinish => s.(phase := Finishing(true), up := s.up + [Finish(s.size)], finishes := s.finishes + 1)
    case ReceiveResult =>
      var rest := s.(down := s.down[1..]);
      (match s.down[0]
       case Completed(n) => if n == s.size then rest.(phase := Succeeded) else rest.(phase := Failed(Malformed))
       case Progress(_) => rest.(phase := Failed(Malformed))
       case ServiceError => rest.(phase := Failed(Other)))
    case HostChunk =>
      var staged := s.staged + s.up[0].data;
      var rest := s.(up := s.up[1..], staged := staged);
      if |staged| - s.acknowledged >= ACK_BYTES || |staged| == s.size
      then rest.(acknowledged := |staged|, down := s.down + [Progress(|staged|)])
      else rest
    case HostTick => s.(acknowledged := |s.staged|, down := s.down + [Progress(|s.staged|)])
    case HostFinish =>
      s.(up := s.up[1..], published := Some(s.staged), host := Closed, down := s.down + [Completed(s.size)])
    case SourceEnds => s.(phase := Failed(SourceInvalid))
    case SourceFails => s.(phase := Failed(SourceInvalid))
    case ClientFails => s.(phase := Failed(if s.phase.Finishing? then OutcomeUnknown else Other))
    case CancelUpload(torn) =>
      // A chunk torn by cancellation reaches the host with whatever follows it.
      s.(phase := Failed(Cancelled),
         up := s.up + [if torn.Some? then Chunk(s.offset, torn.value) else Cancel])
    case HostRejects => s.(host := Closed, up := s.up[1..], down := s.down + [ServiceError])
    case HostFails => s.(host := Closed, down := s.down + [ServiceError])
    case PublishThenFail =>
      s.(up := s.up[1..], published := Some(s.staged), host := Closed, down := s.down + [ServiceError])
    case HostCancelled => s.(host := Closed, up := s.up[1..])
  }

  function Exec(source: seq<byte>, size: nat, run: seq<Action>): Option<State> {
    if run == [] then Some(Initial(source, size))
    else
      match Exec(source, size, run[..|run| - 1])
      case None => None
      case Some(s) => if Enabled(s, run[|run| - 1]) then Some(Do(s, run[|run| - 1])) else None
  }

  // ----- What every step keeps -------------------------------------------------

  /** Where the bytes put on the wire end. */
  function OnWire(s: State): nat { if s.writer.Writing? then s.offset else s.sent }

  /** The chunks in flight continue the source from `at` to `end` without a gap. */
  ghost predicate Contiguous(up: seq<ClientMessage>, source: seq<byte>, at: nat, end: nat) {
    if up == [] then at == end
    else
      && up[0].Chunk? && up[0].data != [] && up[0].offset == at && at + |up[0].data| <= |source|
      && up[0].data == source[at..at + |up[0].data|]
      && Contiguous(up[1..], source, at + |up[0].data|, end)
  }

  /** Progress in flight rises from what the client knows to what the host said. */
  ghost predicate Rising(down: seq<HostMessage>, from: nat, to: nat) {
    if down == [] then from == to
    else down[0].Progress? && from < down[0].accepted <= to && Rising(down[1..], down[0].accepted, to)
  }

  ghost predicate WriterOk(s: State) {
    && s.position == s.sent <= s.size && s.sent <= |s.source|
    && s.accepted <= s.sent <= s.accepted + WINDOW_BYTES
    && (match s.writer
        case Idle => s.offset == s.sent
        case Reading(wanted) =>
          && s.offset == s.sent && 0 < wanted
          && s.offset + wanted <= s.size && s.offset + wanted <= s.accepted + WINDOW_BYTES
        case Writing(data) => data != [] && s.sent == s.offset + |data| && data == s.source[s.offset..s.sent]
        case Written(data) => data != [] && s.sent == s.offset + |data| && data == s.source[s.offset..s.sent]
        case AtEnd => s.offset == s.sent == s.size == |s.source|)
  }

  ghost predicate DownOk(s: State) {
    match s.host
    case Receiving => Rising(s.down, s.accepted, s.acknowledged)
    case Closed =>
      && s.down != [] && s.down[|s.down| - 1].ServiceError?
      && Rising(s.down[..|s.down| - 1], s.accepted, s.acknowledged)
  }

  /** Until Finish is sent: the host holds a prefix of the source, what follows
      it is on the wire, and acknowledgements lag behind. */
  ghost predicate TransferOk(s: State) {
    && s.accepted <= s.acknowledged <= |s.staged| <= OnWire(s)
    && s.staged <= s.source
    && (s.host.Receiving? ==> Contiguous(s.up, s.source, |s.staged|, OnWire(s)))
    && DownOk(s)
    && (|s.staged| == s.size ==> s.acknowledged == s.size)
    && s.published.None? && s.finishes == 0
    && (s.phase.Finishing? ==> s.writer.AtEnd? && s.accepted == s.size)
  }

  /** After Finish: it is on its way, or the host has answered it. */
  ghost predicate FinishOk(s: State) {
    && s.writer.AtEnd? && s.accepted == s.acknowledged == s.size && s.staged == s.source && s.finishes == 1
    && (match s.host
        case Receiving => s.up == [Finish(s.size)] && s.down == [] && s.published.None?
        case Closed =>
          || (s.down == [Completed(s.size)] && s.published == Some(s.source))
          || (s.down == [ServiceError] && (s.published.None? || s.published == Some(s.source))))
  }

  /** Where Finish may stand in the stream to the host. */
  ghost predicate FinishInFront(s: State, up: seq<ClientMessage>) {
    forall i :: 0 <= i < |up| && up[i].Finish? ==>
      i == 0 && s.staged == s.source && |s.source| == s.size && s.finishes == 1
  }

  /** Finish can be at the front of the stream only, and only behind the whole
      source; nothing else can lead the host to publish. */
  ghost predicate PublishOk(s: State) {
    && s.finishes <= 1
    && (s.published.Some? ==>
        s.published == Some(s.source) && |s.source| == s.size && s.finishes == 1 && s.host.Closed?)
    && (s.phase.Succeeded? ==> s.published.Some?)
    && (s.host.Receiving? ==> FinishInFront(s, s.up))
    && (s.phase == Failed(SourceInvalid) ==> s.finishes == 0)
    && s.phase != Failed(Malformed)
  }

  ghost predicate Inv(s: State) {
    && WriterOk(s) && PublishOk(s)
    && (s.phase.Transferring? || s.phase == Finishing(false) ==> TransferOk(s))
    && (s.phase == Finishing(true) ==> FinishOk(s))
  }

  lemma {:induction false} ContiguousAppend(
    up: seq<ClientMessage>, source: seq<byte>, at: nat, mid: nat, data: seq<byte>)
    requires Contiguous(up, source, at, mid) && data != [] && mid + |data| <= |source|
    requires data == source[mid..mid + |data|]
    ensures Contiguous(up + [Chunk(mid, data)], source, at, mid + |data|)
  {
    var more := up + [Chunk(mid, data)];
    if up == [] {
      assert more[1..] == [];
    } else {
      assert more[1..] == up[1..] + [Chunk(mid, data)];
      ContiguousAppend(up[1..], source, at + |up[0].data|, mid, data);
    }
  }

  lemma {:induction false} ContiguousChunks(up: seq<ClientMessage>, source: seq<byte>, at: nat, end: nat)
    requires Contiguous(up, source, at, end)
    ensures at <= end
    ensures at == end ==> up == []
    ensures forall i :: 0 <= i < |up| ==> up[i].Chunk?
  {
    if up != [] {
      ContiguousChunks(up[1..], source, at + |up[0].data|, end);
      assert forall i :: 1 <= i < |up| ==> up[i] == up[1..][i - 1];
    }
  }

  lemma {:induction false} RisingAppend(down: seq<HostMessage>, from: nat, mid: nat, to: nat)
    requires Rising(down, from, mid) && mid < to
    ensures Rising(down + [Progress(to)], from, to)
  {
    var more := down + [Progress(to)];
    if down == [] {
      assert more[1..] == [];
    } else {
      assert more[1..] == down[1..] + [Progress(to)];
      RisingAppend(down[1..], down[0].accepted, mid, to);
    }
  }

  lemma {:induction false} RisingBounds(down: seq<HostMessage>, from: nat, to: nat)
    requires Rising(down, from, to)
    ensures from <= to && (down != [] ==> from < to)
  {
    if down != [] { RisingBounds(down[1..], down[0].accepted, to); }
  }

  lemma WriterStep(s: State, a: Action)
    requires Inv(s) && Enabled(s, a)
    ensures WriterOk(Do(s, a))
  {
    if a.ReadSource? {
      ReadStep(s, a.count);
    } else if a.Plan? || a.SendChunk? || a.SendReturns? || a.CheckEnd? {
      WriterMoves(s, a);
    } else if a.ReceiveProgress? {
      CreditStep(s);
    } else {
      WriterUntouched(s, a);
    }
  }

  lemma WriterUntouched(s: State, a: Action)
    requires Enabled(s, a)
    requires !a.ReadSource? && !a.Plan? && !a.SendChunk? && !a.SendReturns? && !a.CheckEnd? && !a.ReceiveProgress?
    ensures
      var t := Do(s, a);
      && t.writer == s.writer && t.accepted == s.accepted && t.offset == s.offset && t.sent == s.sent
      && t.position == s.position && t.source == s.source && t.size == s.size
  {
  }

  lemma WriterMoves(s: State, a: Action)
    requires Inv(s) && Enabled(s, a)
    requires a.Plan? || a.SendChunk? || a.SendReturns? || a.CheckEnd?
    ensures WriterOk(Do(s, a))
  {
  }

  lemma CreditStep(s: State)
    requires Inv(s) && Enabled(s, ReceiveProgress)
    ensures WriterOk(Do(s, ReceiveProgress))
  {
  }

  lemma ReadStep(s: State, count: nat)
    requires Inv(s) && Enabled(s, ReadSource(count))
    ensures WriterOk(Do(s, ReadSource(count)))
  {
  }

  lemma ClientTransferStep(s: State, a: Action)
    requires Inv(s) && Enabled(s, a) && s.phase.Transferring?
    requires a.Plan? || a.ReadSource? || a.SendChunk? || a.SendReturns? || a.CheckEnd? || a.BeginFinish?
    ensures TransferOk(Do(s, a))
  {
    if a.SendChunk? && s.host.Receiving? {
      ContiguousAppend(s.up, s.source, |s.staged|, s.offset, s.writer.data);
    }
  }

  lemma ProgressStep(s: State)
    requires Inv(s) && Enabled(s, ReceiveProgress)
    ensures Do(s, ReceiveProgress).phase.Transferring? ==> TransferOk(Do(s, ReceiveProgress))
    ensures Do(s, ReceiveProgress).phase != Failed(Malformed)
  {
    if s.host.Receiving? {
      RisingBounds(s.down[1..], s.down[0].accepted, s.acknowledged);
    } else if |s.down| > 1 {
      var rising := s.down[..|s.down| - 1];
      assert rising[0] == s.down[0] && rising[1..] == s.down[1..][..|s.down| - 2];
      RisingBounds(rising[1..], rising[0].accepted, s.acknowledged);
    }
  }

  lemma Continues(source: seq<byte>, staged: seq<byte>, data: seq<byte>)
    requires staged <= source && |staged| + |data| <= |source| && data == source[|staged|..|staged| + |data|]
    ensures staged + data <= source
  {
  }

  lemma HostChunkStep(s: State)
    requires Inv(s) && Enabled(s, HostChunk) && (s.phase.Transferring? || s.phase == Finishing(false))
    ensures TransferOk(Do(s, HostChunk))
  {
    var data := s.up[0].data;
    var staged := s.staged + data;
    ContiguousChunks(s.up[1..], s.source, |staged|, OnWire(s));
    Continues(s.source, s.staged, data);
    if |staged| - s.acknowledged >= ACK_BYTES || |staged| == s.size {
      RisingAppend(s.down, s.accepted, s.acknowledged, |staged|);
    }
  }

  /** Before Finish is sent, only chunks come up, and each is one the host takes. */
  lemma OnlyChunksComeUp(s: State)
    requires TransferOk(s) && s.host.Receiving? && s.up != [] && OnWire(s) <= s.size
    ensures HostTakes(s, s.up[0])
  {
    ContiguousChunks(s.up[1..], s.source, |s.staged| + |s.up[0].data|, OnWire(s));
  }

  lemma HostTickStep(s: State)
    requires TransferOk(s) && WriterOk(s) && Enabled(s, HostTick)
    ensures TransferOk(Do(s, HostTick))
  {
    RisingAppend(s.down, s.accepted, s.acknowledged, |s.staged|);
  }

  lemma HostFailsStep(s: State)
    requires TransferOk(s) && Enabled(s, HostFails)
    ensures TransferOk(Do(s, HostFails))
  {
    var t := Do(s, HostFails);
    assert t.down[..|t.down| - 1] == s.down;
  }

  lemma TransferStep(s: State, a: Action)
    requires Inv(s) && Enabled(s, a)
    ensures Do(s, a).phase.Transferring? || Do(s, a).phase == Finishing(false) ==> TransferOk(Do(s, a))
  {
    if s.phase.Transferring? || s.phase == Finishing(false) {
      match a {
        case Plan => ClientTransferStep(s, a);
        case ReadSource(_) => ClientTransferStep(s, a);
        case SendChunk => ClientTransferStep(s, a);
        case SendReturns => ClientTransferStep(s, a);
        case CheckEnd => ClientTransferStep(s, a);
        case BeginFinish => ClientTransferStep(s, a);
        case ReceiveProgress => ProgressStep(s);
        case HostChunk => HostChunkStep(s);
        case HostTick => HostTickStep(s);
        case HostFails => HostFailsStep(s);
        case HostFinish => OnlyChunksComeUp(s);
        case HostRejects => OnlyChunksComeUp(s);
        case PublishThenFail => OnlyChunksComeUp(s);
        case HostCancelled => OnlyChunksComeUp(s);
        case _ =>
      }
    }
  }

  lemma OnlyTheError(down: seq<HostMessage>, n: nat)
    requires down != [] && down[|down| - 1].ServiceError? && Rising(down[..|down| - 1], n, n)
    ensures down == [ServiceError]
  {
    RisingBounds(down[..|down| - 1], n, n);
    assert down == down[..|down| - 1] + [down[|down| - 1]];
  }

  /** When Finish is sent, everything sent has been taken by the host. */
  lemma AllTaken(s: State)
    requires Inv(s) && s.phase == Finishing(false)
    ensures s.staged == s.source && |s.source| == s.size
    ensures s.host.Receiving? ==> s.up == [] && s.down == []
    ensures s.host.Closed? ==> s.down == [ServiceError]
    ensures s.acknowledged == s.size
  {
    assert TransferOk(s) && |s.staged| == |s.source| == s.size;
    assert s.acknowledged == s.size;
    if s.host.Receiving? {
      ContiguousChunks(s.up, s.source, s.size, s.size);
      RisingBounds(s.down, s.size, s.size);
    } else {
      OnlyTheError(s.down, s.size);
    }
  }

  lemma FinishStep(s: State, a: Action)
    requires Inv(s) && Enabled(s, a)
    ensures Do(s, a).phase == Finishing(true) ==> FinishOk(Do(s, a))
  {
    if a.SendFinish? { AllTaken(s); }
  }

  lemma TakeInFront(s: State, up: seq<ClientMessage>)
    requires FinishInFront(s, up) && up != []
    ensures forall i :: 0 <= i < |up[1..]| ==> !up[1..][i].Finish?
  {
    forall i | 0 <= i < |up[1..]| ensures !up[1..][i].Finish? { assert up[1..][i] == up[i + 1]; }
  }

  lemma HostPublishStep(s: State, a: Action)
    requires Inv(s) && Enabled(s, a)
    requires a.HostChunk? || a.HostFinish? || a.HostRejects? || a.PublishThenFail? || a.HostCancelled?
    ensures PublishOk(Do(s, a))
  {
    TakeInFront(s, s.up);
  }

  lemma PublishStep(s: State, a: Action)
    requires Inv(s) && Enabled(s, a)
    ensures PublishOk(Do(s, a))
  {
    match a {
      case SendFinish => AllTaken(s);
      case ReceiveProgress => ProgressStep(s);
      case HostChunk => HostPublishStep(s, a);
      case HostFinish => HostPublishStep(s, a);
      case HostRejects => HostPublishStep(s, a);
      case PublishThenFail => HostPublishStep(s, a);
      case HostCancelled => HostPublishStep(s, a);
      case _ =>
    }
  }

  lemma SameFile(s: State, a: Action)
    requires Enabled(s, a)
    ensures Do(s, a).source == s.source && Do(s, a).size == s.size
  {
  }

  lemma StepKeepsInv(s: State, a: Action)
    requires Inv(s) && Enabled(s, a)
    ensures Inv(Do(s, a))
  {
    WriterStep(s, a);
    TransferStep(s, a);
    FinishStep(s, a);
    PublishStep(s, a);
  }

  /** Every reachable state satisfies the invariant. */
  lemma {:induction false} InvHolds(source: seq<byte>, size: nat, run: seq<Action>)
    requires Exec(source, size, run).Some?
    ensures Inv(Exec(source, size, run).value)
    ensures Exec(source, size, run).value.source == source && Exec(source, size, run).value.size == size
  {
    if run != [] {
      var s, a := Exec(source, size, run[..|run| - 1]).value, run[|run| - 1];
      InvHolds(source, size, run[..|run| - 1]);
      StepKeepsInv(s, a);
      SameFile(s, a);
    }
  }

  // ----- Integrity and flow control ---------------------------------------------

  /** In every reachable state: flow control holds, progress reports and chunks
      are never rejected by an honest peer, Finish is sent at most once, and the
      host publishes nothing but the exact source. Success means it did. */
  lemma UploadIntegrity(source: seq<byte>, size: nat, run: seq<Action>)
    requires Exec(source, size, run).Some?
    ensures
      var s := Exec(source, size, run).value;
      && s.accepted <= s.sent <= s.accepted + WINDOW_BYTES && s.sent <= size
      && s.finishes <= 1
      && (s.published.Some? ==> s.published == Some(source) && |source| == size)
      && (s.phase.Succeeded? ==> s.published == Some(source))
      && (s.finishes == 0 ==> s.published.None?)
      && s.phase != Failed(Malformed)
      && (s.phase == Failed(SourceInvalid) ==> s.finishes == 0)
  {
    InvHolds(source, size, run);
  }

  /** While the transfer runs, what the host has staged is a prefix of the
      source that reaches at least as far as the client has been told. */
  lemma StagedIsPrefix(source: seq<byte>, size: nat, run: seq<Action>)
    requires Exec(source, size, run).Some? && Live(Exec(source, size, run).value)
    ensures
      var s := Exec(source, size, run).value;
      s.staged <= source && s.accepted <= |s.staged| <= s.sent
  {
    InvHolds(source, size, run);
  }

  /** Finish is sent only when the whole source has been accepted. */
  lemma FinishAfterAll(source: seq<byte>, size: nat, run: seq<Action>)
    requires Exec(source, size, run).Some?
    ensures
      var s := Exec(source, size, run).value;
      Enabled(s, SendFinish) ==> s.accepted == size == |source| && s.staged == source
  {
    InvHolds(source, size, run);
    var s := Exec(source, size, run).value;
    if Enabled(s, SendFinish) { AllTaken(s); }
  }

  /** The host refuses a message only after the client has given up. */
  lemma NoFalseRejection(source: seq<byte>, size: nat, run: seq<Action>)
    requires Exec(source, size, run).Some?
    ensures
      var s := Exec(source, size, run).value;
      Enabled(s, HostRejects) ==> s.phase.Failed?
  {
    InvHolds(source, size, run);
    var s := Exec(source, size, run).value;
    if Enabled(s, HostRejects) && (s.phase.Transferring? || s.phase == Finishing(false)) {
      OnlyChunksComeUp(s);
    }
  }

  // ----- What the caller is told ----------------------------------------------------

  predicate Cancels(run: seq<Action>) { exists i :: 0 <= i < |run| && run[i].CancelUpload? }

  /** While it runs nothing has ended it, and finishing is what BeginFinish began;
      after that the phase tells what ended it. */
  ghost predicate Told(run: seq<Action>, s: State) {
    && (Live(s) ==>
      && !Cancels(run) && SourceEnds !in run && SourceFails !in run && ClientFails !in run && ReceiveResult !in run
      && (BeginFinish in run <==> s.phase.Finishing?))
    && (s.phase == Failed(Cancelled) <==> Cancels(run))
    && (s.phase == Failed(SourceInvalid) <==> SourceEnds in run || SourceFails in run)
    && (SourceEnds in run ==> |s.source| != s.size)
    && (s.phase == Failed(OutcomeUnknown) <==> ClientFails in run && BeginFinish in run)
    && (ClientFails in run && BeginFinish !in run ==> s.phase == Failed(Other))
    && (s.phase == Failed(Other) && s.finishes > 0 ==> ReceiveResult in run)
    && (s.phase == Failed(OutcomeUnknown) ==> s.accepted == s.size == |s.source|)
  }

  lemma InMore(front: seq<Action>, last: Action)
    ensures forall b :: b in front + [last] <==> b in front || b == last
    ensures Cancels(front + [last]) <==> Cancels(front) || last.CancelUpload?
  {
    var run := front + [last];
    assert run[|front|] == last;
    assert forall i :: 0 <= i < |front| ==> run[i] == front[i];
  }

  /** The steps that the record is about. */
  predicate IsTold(a: Action) {
    a.BeginFinish? || a.ReceiveResult? || a.SourceEnds? || a.SourceFails? || a.ClientFails? || a.CancelUpload?
  }

  lemma FinishingIsAccepted(s: State)
    requires Inv(s)
    ensures s.phase.Finishing? ==> s.accepted == s.size == |s.source|
    ensures s.phase.Transferring? ==> s.finishes == 0
    ensures s.published.Some? ==> s.finishes > 0
    ensures s.phase == Failed(SourceInvalid) ==> s.finishes == 0
    ensures s.phase != Failed(Malformed)
    ensures Enabled(s, SourceEnds) ==> |s.source| != s.size
  {
  }

  /** A failure that goes with a published file. */
  lemma PublishedThenFailed(run: seq<Action>, s: State)
    requires Told(run, s) && s.phase.Failed? && s.finishes > 0
    requires s.phase != Failed(SourceInvalid) && s.phase != Failed(Malformed)
    ensures s.phase == Failed(OutcomeUnknown) || s.phase == Failed(Cancelled) || ReceiveResult in run
  {
    var f := s.phase.failure;
    assert f.SourceInvalid? || f.Malformed? || f.OutcomeUnknown? || f.Cancelled? || f.Other?;
  }

  lemma UntoldStep(front: seq<Action>, s: State, a: Action)
    requires Enabled(s, a) && Told(front, s) && !IsTold(a) && (s.phase.Transferring? ==> s.finishes == 0)
    ensures Told(front + [a], Do(s, a))
  {
    InMore(front, a);
  }

  lemma ToldStep(front: seq<Action>, s: State, a: Action)
    requires Enabled(s, a) && Told(front, s) && IsTold(a)
    requires s.phase.Finishing? ==> s.accepted == s.size == |s.source|
    requires s.phase.Transferring? ==> s.finishes == 0
    requires a.SourceEnds? ==> |s.source| != s.size
    ensures Told(front + [a], Do(s, a))
  {
    InMore(front, a);
  }

  lemma {:induction false} ToldHolds(source: seq<byte>, size: nat, run: seq<Action>)
    requires Exec(source, size, run).Some?
    ensures Told(run, Exec(source, size, run).value)
  {
    if run != [] {
      var front, a := run[..|run| - 1], run[|run| - 1];
      InvHolds(source, size, front);
      ToldHolds(source, size, front);
      var s := Exec(source, size, front).value;
      FinishingIsAccepted(s);
      if IsTold(a) { ToldStep(front, s, a); } else { UntoldStep(front, s, a); }
      assert run == front + [a];
    }
  }

  /** A failure says what is known of the file. The outcome is called unknown exactly
      when the connection failed once finishing had begun, and then the host had
      accepted everything; a file that was published nevertheless goes with an
      unknown outcome, a cancellation, or an answer of the host's own; and a
      cancellation or an unusable source is reported as such, and a source that ends
      early or late is not of the size announced. */
  lemma FailuresAreTrue(source: seq<byte>, size: nat, run: seq<Action>)
    requires Exec(source, size, run).Some?
    ensures
      var s := Exec(source, size, run).value;
      && (s.phase == Failed(OutcomeUnknown) <==> ClientFails in run && BeginFinish in run)
      && (s.phase == Failed(OutcomeUnknown) ==> s.accepted == size == |source|)
      && (s.published.Some? && s.phase.Failed? ==>
            s.phase == Failed(OutcomeUnknown) || s.phase == Failed(Cancelled) || ReceiveResult in run)
      && (s.phase == Failed(Cancelled) <==> Cancels(run))
      && (s.phase == Failed(SourceInvalid) <==> SourceEnds in run || SourceFails in run)
      && (SourceEnds in run ==> |source| != size)
  {
    InvHolds(source, size, run);
    ToldHolds(source, size, run);
    var s := Exec(source, size, run).value;
    FinishingIsAccepted(s);
    if s.published.Some? && s.phase.Failed? { PublishedThenFailed(run, s); }
  }

  /** Whatever a host sends: before Finish a progress report is taken exactly if it
      neither goes back nor beyond what was sent, after it only the completion of the
      whole size is a success, and what is neither that nor the host's own error is
      malformed. */
  lemma ClientJudges(s: State)
    ensures Enabled(s, ReceiveProgress) ==>
      var m, t := s.down[0], Do(s, ReceiveProgress);
      && (t.phase.Transferring? <==> m.Progress? && s.accepted <= m.accepted <= s.sent)
      && (t.phase.Transferring? ==> t.accepted == m.accepted)
      && (!t.phase.Transferring? ==> t.phase == Failed(if m.ServiceError? then Other else Malformed))
    ensures Enabled(s, ReceiveResult) ==>
      var m, t := s.down[0], Do(s, ReceiveResult);
      && (t.phase.Succeeded? <==> m == Completed(s.size))
      && (!t.phase.Succeeded? ==> t.phase == Failed(if m.ServiceError? then Other else Malformed))
  {
  }

  // ----- What the host has done -----------------------------------------------------

  predicate EndsHost(a: Action) {
    a.HostFinish? || a.HostRejects? || a.HostFails? || a.PublishThenFail? || a.HostCancelled?
  }

  /** The host stops at the first of these, publishes with two of them, and tells the
      client unless it was told to stop. */
  ghost predicate HostTold(run: seq<Action>, s: State) {
    && (s.host.Closed? <==> exists i :: 0 <= i < |run| && EndsHost(run[i]))
    && (s.published.Some? <==> HostFinish in run || PublishThenFail in run)
    && (s.host.Closed? && HostCancelled !in run && Live(s) ==>
          s.down != [] && s.down[|s.down| - 1] == if HostFinish in run then Completed(s.size) else ServiceError)
    && (s.host.Receiving? ==> forall i :: 0 <= i < |s.down| ==> s.down[i].Progress?)
  }

  lemma EndedMore(front: seq<Action>, a: Action)
    ensures (exists i :: 0 <= i < |front + [a]| && EndsHost((front + [a])[i]))
       <==> (exists i :: 0 <= i < |front| && EndsHost(front[i])) || EndsHost(a)
  {
    var run := front + [a];
    assert run[|front|] == a;
    assert forall i :: 0 <= i < |front| ==> run[i] == front[i];
  }

  lemma ClientLeavesHost(s: State, a: Action)
    requires Enabled(s, a) && !EndsHost(a) && !a.HostChunk? && !a.HostTick?
    ensures
      var t := Do(s, a);
      && t.host == s.host && t.published == s.published && t.size == s.size
      && (t.down == s.down || (s.down != [] && t.down == s.down[1..])) && (Live(t) ==> Live(s))
      && (Live(t) && s.down != [] && s.down[|s.down| - 1].ServiceError? ==>
            t.down != [] && t.down[|t.down| - 1].ServiceError?)
      && (Live(t) && s.phase.Finishing? ==> t.down == s.down)
  {
  }

  lemma HostToldStep(front: seq<Action>, s: State, a: Action)
    requires Enabled(s, a) && HostTold(front, s)
    requires s.host.Closed? && s.phase.Transferring? && s.down != [] ==> s.down[|s.down| - 1].ServiceError?
    ensures HostTold(front + [a], Do(s, a))
  {
    InMore(front, a);
    EndedMore(front, a);
    if !EndsHost(a) && !a.HostChunk? && !a.HostTick? { ClientLeavesHost(s, a); }
  }

  lemma ErrorComesLast(s: State)
    requires Inv(s)
    ensures s.host.Closed? && s.phase.Transferring? && s.down != [] ==> s.down[|s.down| - 1].ServiceError?
  {
  }

  lemma {:induction false} HostEndsOnce(source: seq<byte>, size: nat, run: seq<Action>)
    requires Exec(source, size, run).Some?
    ensures HostTold(run, Exec(source, size, run).value)
  {
    if run != [] {
      var front, a := run[..|run| - 1], run[|run| - 1];
      InvHolds(source, size, front);
      HostEndsOnce(source, size, front);
      ErrorComesLast(Exec(source, size, front).value);
      HostToldStep(front, Exec(source, size, front).value, a);
      assert run == front + [a];
    }
  }

  // ----- Sizes ----------------------------------------------------------------------

  /** Chunks are bounded until a cancellation tears one, and the host lets less than
      a quarter of the window go without a word. */
  ghost predicate SizesOk(s: State) {
    && |s.staged| < s.acknowledged + ACK_BYTES
    && (s.writer.Reading? ==> s.writer.wanted <= CHUNK_BYTES)
    && (s.writer.Writing? || s.writer.Written? ==> |s.writer.data| <= CHUNK_BYTES)
    && (s.phase != Failed(Cancelled) ==>
        forall i :: 0 <= i < |s.up| && s.up[i].Chunk? ==> |s.up[i].data| <= CHUNK_BYTES)
  }

  lemma SizesStep(s: State, a: Action)
    requires Enabled(s, a) && SizesOk(s)
    ensures SizesOk(Do(s, a))
  {
  }

  lemma {:induction false} SizesAreBounded(source: seq<byte>, size: nat, run: seq<Action>)
    requires Exec(source, size, run).Some?
    ensures SizesOk(Exec(source, size, run).value)
  {
    if run != [] {
      SizesAreBounded(source, size, run[..|run| - 1]);
      SizesStep(Exec(source, size, run[..|run| - 1]).value, run[|run| - 1]);
    }
  }

  // ----- Completion ---------------------------------------------------------------

  function WriterWork(w: Writer): nat {
    match w case Idle => 2 case Reading(_) => 1 case Writing(_) => 5 case Written(_) => 3 case AtEnd => 0
  }

  function PhaseWork(p: Phase): nat {
    match p case Transferring => 10 case Finishing(sent) => if sent then 4 else 8 case _ => 0
  }

  function Queued(up: seq<ClientMessage>): nat {
    if up == [] then 0 else (if up[0].Finish? then 2 else 1) + Queued(up[1..])
  }

  /** Steps a transfer can still take. */
  function Work(s: State): nat
    requires s.sent <= s.size && s.acknowledged <= s.size
  {
    6 * (s.size - s.sent) + 2 * (s.size - s.acknowledged)
    + WriterWork(s.writer) + PhaseWork(s.phase) + Queued(s.up) + |s.down|
  }

  lemma {:induction false} QueuedAppend(up: seq<ClientMessage>, m: ClientMessage)
    ensures Queued(up + [m]) == Queued(up) + if m.Finish? then 2 else 1
  {
    if up == [] {
      assert (up + [m])[1..] == [];
    } else {
      assert (up + [m])[1..] == up[1..] + [m];
      QueuedAppend(up[1..], m);
    }
  }

  /** No failure so far: the host serves the transfer or has completed it. */
  ghost predicate Healthy(s: State) {
    && Inv(s) && |s.source| == s.size && !s.phase.Failed?
    && s.acknowledged <= s.size
    && (s.host.Receiving? || s.phase.Succeeded? || (s.phase == Finishing(true) && s.down == [Completed(s.size)]))
  }

  lemma HealthyWriter(s: State, a: Action)
    requires Healthy(s) && Enabled(s, a)
    requires a.Plan? || a.ReadSource? || a.SendChunk? || a.SendReturns? || a.CheckEnd?
    ensures Healthy(Do(s, a)) && Work(Do(s, a)) < Work(s)
  {
    StepKeepsInv(s, a);
    if a.SendChunk? { QueuedAppend(s.up, Chunk(s.offset, s.writer.data)); }
  }

  lemma HealthyReader(s: State, a: Action)
    requires Healthy(s) && Enabled(s, a)
    requires a.ReceiveProgress? || a.BeginFinish? || a.SendFinish? || a.ReceiveResult?
    ensures Healthy(Do(s, a)) && Work(Do(s, a)) < Work(s)
  {
    StepKeepsInv(s, a);
    if a.SendFinish? { QueuedAppend(s.up, Finish(s.size)); }
    if a.ReceiveProgress? {
      RisingBounds(s.down[1..], s.down[0].accepted, s.acknowledged);
    }
  }

  /** A chunk taken is one message less, and an acknowledgement pays for itself. */
  lemma ChunkWork(s: State)
    requires Enabled(s, HostChunk) && s.sent <= s.size && s.acknowledged <= |s.staged| && s.up[0].data != []
    ensures Do(s, HostChunk).acknowledged <= s.size && Work(Do(s, HostChunk)) < Work(s)
  {
  }

  lemma ChunkComes(s: State)
    requires Healthy(s) && Enabled(s, HostChunk)
    ensures s.sent <= s.size && s.acknowledged <= |s.staged| && s.up[0].data != []
    ensures
      var t := Do(s, HostChunk);
      t.host == s.host && t.phase == s.phase && t.source == s.source && t.size == s.size
  {
  }

  lemma HealthyChunk(s: State)
    requires Healthy(s) && Enabled(s, HostChunk)
    ensures Healthy(Do(s, HostChunk)) && Work(Do(s, HostChunk)) < Work(s)
  {
    ChunkComes(s);
    ChunkWork(s);
    assert Inv(Do(s, HostChunk)) by { StepKeepsInv(s, HostChunk); }
  }

  lemma HealthyTick(s: State)
    requires Healthy(s) && Enabled(s, HostTick)
    ensures Healthy(Do(s, HostTick)) && Work(Do(s, HostTick)) < Work(s)
  {
    StepKeepsInv(s, HostTick);
  }

  lemma HealthyHostFinish(s: State)
    requires Healthy(s) && Enabled(s, HostFinish)
    ensures Healthy(Do(s, HostFinish)) && Work(Do(s, HostFinish)) < Work(s)
  {
    StepKeepsInv(s, HostFinish);
  }

  /** A step that is no failure keeps a transfer healthy and uses up work. */
  lemma HealthyStep(s: State, a: Action)
    requires Healthy(s) && Enabled(s, a) && !IsFailure(a)
    ensures Healthy(Do(s, a)) && Work(Do(s, a)) < Work(s)
  {
    if a.Plan? || a.ReadSource? || a.SendChunk? || a.SendReturns? || a.CheckEnd? {
      HealthyWriter(s, a);
    } else if a.HostChunk? {
      HealthyChunk(s);
    } else if a.HostTick? {
      HealthyTick(s);
    } else if a.HostFinish? {
      HealthyHostFinish(s);
    } else {
      HealthyReader(s, a);
    }
  }

  /** The protocol step to take next. */
  function NextStep(s: State): Action {
    if s.phase.Finishing? then
      if !s.phase.sent then SendFinish else if s.host.Receiving? then HostFinish else ReceiveResult
    else if s.writer.Reading? then ReadSource(1)
    else if s.writer.Writing? then SendChunk
    else if s.writer.Written? then SendReturns
    else if s.writer.Idle? && s.offset >= s.size then CheckEnd
    else if s.writer.Idle? && Outstanding(s) < WINDOW_BYTES then Plan
    else if s.writer.AtEnd? && s.accepted >= s.size then BeginFinish
    else if s.down != [] then ReceiveProgress
    else if |s.staged| > s.acknowledged then HostTick
    else HostChunk
  }

  /** A healthy transfer that has not succeeded is never stuck. */
  lemma NeverStuck(s: State)
    requires Healthy(s) && !s.phase.Succeeded?
    ensures Enabled(s, NextStep(s)) && !IsFailure(NextStep(s))
  {
    if s.phase.Transferring? && s.up != [] {
      ContiguousChunks(s.up[1..], s.source, |s.staged| + |s.up[0].data|, OnWire(s));
    }
  }

  ghost predicate NoFailure(run: seq<Action>) {
    forall i :: 0 <= i < |run| ==> !IsFailure(run[i])
  }

  lemma {:induction false} HealthyRun(source: seq<byte>, run: seq<Action>)
    requires Exec(source, |source|, run).Some? && NoFailure(run)
    ensures
      var s := Exec(source, |source|, run).value;
      Healthy(s) && |run| + Work(s) <= Work(Initial(source, |source|))
  {
    var s := Exec(source, |source|, run).value;
    if run != [] {
      var before := run[..|run| - 1];
      HealthyRun(source, before);
      HealthyStep(Exec(source, |source|, before).value, run[|run| - 1]);
    }
  }

  /** Completion: a transfer of a file of the announced size in which nothing
      fails takes a bounded number of steps, and can stop nowhere short of
      success. */
  lemma UploadCompletes(source: seq<byte>, run: seq<Action>)
    requires Exec(source, |source|, run).Some? && NoFailure(run)
    ensures |run| <= 8 * |source| + 12
    ensures
      var s := Exec(source, |source|, run).value;
      s.phase.Succeeded? || exists a :: Enabled(s, a) && !IsFailure(a)
  {
    HealthyRun(source, run);
    var s := Exec(source, |source|, run).value;
    if !s.phase.Succeeded? { NeverStuck(s); }
  }
}
