/** The exact-byte retry owner for remote requests (crates/client/src/remote_unary.rs):
    one demand, at most two attempts with the same bytes, and a classification of
    failures relative to the first write. */
module RemoteUnary {
  import opened Basics

  datatype RetryClass = Safe | StatefulControl | Mutation

  datatype ErrorKind = OperationOutcomeUnknown | MalformedFrame | Other(code: nat)

  type Kind = nat
  const SERVICE_ERROR: Kind := 0

  datatype Frame = Frame(kind: Kind, requestId: nat, payload: seq<byte>)

  datatype Result = Ok(frame: Frame) | Err(error: ErrorKind)

  /** What one exchange on the connection came to. */
  datatype Exchange = Reply(frame: Frame) | PreWrite(error: ErrorKind) | PostWrite(error: ErrorKind)

  datatype Contract = Contract(requestId: nat, responseKind: Kind, retryClass: RetryClass)

  /** How payloads are read and how a content-free service error is written. */
  datatype Payloads = Payloads(
    valid: (Kind, seq<byte>) -> bool, errorKind: seq<byte> -> Option<ErrorKind>, contentFree: ErrorKind -> seq<byte>)

  function Validate(p: Payloads, contract: Contract, frame: Frame): Result {
    if frame.requestId != contract.requestId then Err(MalformedFrame)
    else if frame.kind == SERVICE_ERROR then
      match p.errorKind(frame.payload)
      case None => Err(MalformedFrame)
      case Some(kind) => Ok(Frame(SERVICE_ERROR, frame.requestId, p.contentFree(kind)))
    else if frame.kind != contract.responseKind || !p.valid(frame.kind, frame.payload) then Err(MalformedFrame)
    else Ok(frame)
  }

  /** A frame the caller may be handed: correlated, and either of the contracted
      kind with a valid payload or a service error that carries only its kind. */
  ghost predicate Deliverable(p: Payloads, contract: Contract, frame: Frame) {
    && frame.requestId == contract.requestId
    && (|| (frame.kind == contract.responseKind && p.valid(frame.kind, frame.payload))
        || (frame.kind == SERVICE_ERROR && exists kind :: frame.payload == p.contentFree(kind)))
  }

  lemma ValidatedIsDeliverable(p: Payloads, contract: Contract, frame: Frame)
    ensures Validate(p, contract, frame).Ok? ==> Deliverable(p, contract, Validate(p, contract, frame).frame)
  {
  }

  /** Error kinds survive being written without content. */
  ghost predicate Lawful(p: Payloads) { forall kind :: p.errorKind(p.contentFree(kind)) == Some(kind) }

  /** Validation accepts what may be delivered as it is, keeps the kind of a service
      error, and a frame that has passed it passes again unchanged. */
  lemma ValidationIsStable(p: Payloads, contract: Contract, frame: Frame)
    requires Lawful(p)
    ensures frame.kind != SERVICE_ERROR && Deliverable(p, contract, frame) ==> Validate(p, contract, frame) == Ok(frame)
    ensures
      var result := Validate(p, contract, frame);
      && (result.Ok? ==>
        && Validate(p, contract, result.frame) == result
        && result.frame.kind == frame.kind
        && (frame.kind == SERVICE_ERROR ==> p.errorKind(result.frame.payload) == p.errorKind(frame.payload)))
      && (result.Err? ==> result.error == MalformedFrame)
      && (result.Err? && contract.responseKind != SERVICE_ERROR ==> !Deliverable(p, contract, frame))
  {
  }

  /** A connection demand. `coming` says how its next exchanges will go; `written`
      records every request whose bytes may have reached the host. */
  class Demand {
    var coming: seq<Exchange>
    var written: seq<seq<byte>>

    constructor (coming: seq<Exchange>)
      ensures this.coming == coming && written == []
    {
      this.coming := coming;
      written := [];
    }

    method Exchange(request: seq<byte>) returns (e: Exchange)
      requires coming != []
      modifies this
      ensures e == old(coming)[0] && coming == old(coming)[1..]
      ensures written == if e.PreWrite? then old(written) else old(written) + [request]
    {
      e := coming[0];
      coming := coming[1..];
      if !e.PreWrite? { written := written + [request]; }
    }

    /** One attempt: exchange the bytes, then hold the reply to the contract. A
        reply that fails validation counts as failing after the write. */
    method ExchangeAndValidate(p: Payloads, contract: Contract, request: seq<byte>) returns (e: Exchange)
      requires coming != []
      modifies this
      ensures coming == old(coming)[1..]
      ensures written == if e.PreWrite? then old(written) else old(written) + [request]
      ensures e.PreWrite? <==> old(coming)[0].PreWrite?
      ensures e.Reply? ==> Deliverable(p, contract, e.frame)
      ensures e.Reply? <==> old(coming)[0].Reply? && Validate(p, contract, old(coming)[0].frame).Ok?
      ensures e.Reply? ==> Ok(e.frame) == Validate(p, contract, old(coming)[0].frame)
      ensures !e.Reply? ==> e.error == Fault(p, contract, old(coming)[0])
    {
      e := Exchange(request);
      if e.Reply? {
        ValidatedIsDeliverable(p, contract, e.frame);
        var result := Validate(p, contract, e.frame);
        e := if result.Ok? then Reply(result.frame) else PostWrite(result.error);
      }
    }

    /** The request is written at most once for stateful control and at most twice
        otherwise, always with the same bytes. The caller gets the first valid reply
        to an attempt that was made, projected as validation does it; an attempt that
        failed before its write ends the demand with that error and nothing written;
        and after a write a mutation that got no valid reply is of unknown outcome,
        while other requests report what went wrong last. */
    method ExecuteValidated(p: Payloads, contract: Contract, request: seq<byte>) returns (r: Result)
      requires |coming| >= 2
      modifies this
      ensures exists n: nat ::
        n <= (if contract.retryClass.StatefulControl? then 1 else 2) && written == old(written) + Copies(request, n)
      ensures r.Ok? ==> Deliverable(p, contract, r.frame)
      ensures contract.retryClass.Mutation? && r.Err? && !r.error.OperationOutcomeUnknown? ==> written == old(written)
      ensures old(coming)[0].PreWrite? ==> r == Err(old(coming)[0].error) && written == old(written)
      ensures coming == old(coming)[if Retries(p, contract, old(coming)[0]) then 2 else 1..]
      ensures
        var last := old(coming)[if Retries(p, contract, old(coming)[0]) then 1 else 0];
        && (Answers(p, contract, last) ==> r == Validate(p, contract, last.frame))
        && (!Answers(p, contract, last) ==>
          r == Err(if contract.retryClass.Mutation? && !old(coming)[0].PreWrite? then OperationOutcomeUnknown
                   else Fault(p, contract, last)))
        && written == old(written) + Copies(request,
          (if old(coming)[0].PreWrite? then 0 else 1)
          + (if Retries(p, contract, old(coming)[0]) && !last.PreWrite? then 1 else 0))
    {
      var first := ExchangeAndValidate(p, contract, request);
      assert Copies(request, 0) == [];
      assert Copies(request, 1) == [request];
      assert Copies(request, 2) == [request, request];
      match first
      case Reply(frame) =>
        assert written == old(written) + Copies(request, 1);
        return Ok(frame);
      case PreWrite(error) =>
        assert written == old(written) + Copies(request, 0);
        return Err(error);
      case PostWrite(error) =>
        assert written == old(written) + Copies(request, 1);
        if contract.retryClass.StatefulControl? { return Err(error); }
      var second := ExchangeAndValidate(p, contract, request);
      assert second.PreWrite? || written == old(written) + Copies(request, 2);
      match second
      case Reply(frame) => return Ok(frame);
      case PreWrite(error) => return Err(if contract.retryClass.Mutation? then OperationOutcomeUnknown else error);
      case PostWrite(error) => return Err(if contract.retryClass.Mutation? then OperationOutcomeUnknown else error);
    }
  }

  /** A second attempt follows a first that was written and got no valid reply,
      unless the request is stateful control. */
  ghost predicate Retries(p: Payloads, contract: Contract, first: Exchange) {
    !contract.retryClass.StatefulControl? && !first.PreWrite? && !Answers(p, contract, first)
  }

  /** What went wrong in an exchange without a valid reply. */
  ghost function Fault(p: Payloads, contract: Contract, e: Exchange): ErrorKind
    requires !Answers(p, contract, e)
  {
    if e.Reply? then Validate(p, contract, e.frame).error else e.error
  }

  ghost predicate Answers(p: Payloads, contract: Contract, e: Exchange) {
    e.Reply? && Validate(p, contract, e.frame).Ok?
  }

  function Copies(request: seq<byte>, n: nat): seq<seq<byte>> {
    seq(n, _ => request)
  }
}
