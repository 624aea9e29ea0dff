/** The product-independent actuator driver: what becomes of a frame that is delivered to it. The
    decoding of the frame is a parameter. */
module ActuatorDriver {
  import opened Options
  import F = Freshness
  import T = Transactions

  /** A vendor-specific value, of which nothing but its identity matters. */
  datatype Value = Value(id: int)

  datatype ActuatorState = ActuatorState(
    positionRad: Option<real>, velocityRadS: Option<real>, torqueNm: Option<real>, currentA: Option<real>,
    temperatureC: Option<real>, voltageV: Option<real>,
    faultCode: Option<int>, isEnabled: Option<bool>, mode: Option<string>,
    lastFeedbackT: real, raw: map<string, Value>)

  function Initial(): ActuatorState {
    ActuatorState(None, None, None, None, None, None, None, None, None, 0.0, map[])
  }

  /** What decoding a frame yields: an exception, nothing, or a partial state. */
  datatype Decoded = Raised | Nothing | Partial(state: ActuatorState)

  datatype Delivery = Delivery(canId: int, decoded: Decoded)

  // ----- The full state, from all partial states -----

  function Or<T>(later: Option<T>, earlier: Option<T>): Option<T> {
    if later.Some? then later else earlier
  }

  function Merge(full: ActuatorState, part: ActuatorState): ActuatorState {
    ActuatorState(
      Or(part.positionRad, full.positionRad), Or(part.velocityRadS, full.velocityRadS),
      Or(part.torqueNm, full.torqueNm), Or(part.currentA, full.currentA),
      Or(part.temperatureC, full.temperatureC), Or(part.voltageV, full.voltageV),
      Or(part.faultCode, full.faultCode), Or(part.isEnabled, full.isEnabled), Or(part.mode, full.mode),
      if part.lastFeedbackT > 0.0 then part.lastFeedbackT else full.lastFeedbackT,
      full.raw + part.raw)
  }

  function Merged(parts: seq<ActuatorState>): ActuatorState
    decreases |parts|
  {
    if parts == [] then Initial() else Merge(Merged(parts[..|parts| - 1]), parts[|parts| - 1])
  }

  /** `r` is the last value among `values` that is present. */
  ghost predicate IsLast<T(!new)>(r: Option<T>, values: seq<Option<T>>) {
    match r
    case None => forall k :: 0 <= k < |values| ==> values[k].None?
    case Some(_) => exists k :: 0 <= k < |values| && values[k] == r && forall j :: k < j < |values| ==> values[j].None?
  }

  lemma NextIsLast<T(!new)>(r: Option<T>, values: seq<Option<T>>, next: Option<T>)
    requires IsLast(r, values)
    ensures IsLast(Or(next, r), values + [next])
  {
    var all := values + [next];
    if next.Some? {
      assert all[|values|] == next;
    } else if r.Some? {
      var k :| 0 <= k < |values| && values[k] == r && forall j :: k < j < |values| ==> values[j].None?;
      assert all[k] == r;
    }
  }

  /** The values that one field took in the partial states. */
  function Values<T>(parts: seq<ActuatorState>, field: ActuatorState -> Option<T>): (r: seq<Option<T>>)
    ensures |r| == |parts| && forall k :: 0 <= k < |r| ==> r[k] == field(parts[k])
  {
    seq(|parts|, k requires 0 <= k < |parts| => field(parts[k]))
  }


  function Feedback(p: ActuatorState): Option<real> {
    if p.lastFeedbackT > 0.0 then Some(p.lastFeedbackT) else None
  }

  function Lookup(p: ActuatorState, key: string): Option<Value> {
    if key in p.raw then Some(p.raw[key]) else None
  }

  /** The field is absent at first, and merging treats it as `Or`. */
  ghost predicate Respected<T(!new)>(field: ActuatorState -> Option<T>) {
    field(Initial()).None? && forall a, b :: field(Merge(a, b)) == Or(field(b), field(a))
  }

  /** The field holds the last value that any partial state gave it. */
  ghost predicate HoldsLast<T(!new)>(parts: seq<ActuatorState>, field: ActuatorState -> Option<T>) {
    IsLast(field(Merged(parts)), Values(parts, field))
  }

  lemma {:induction false} FieldIsLast<T(!new)>(parts: seq<ActuatorState>, field: ActuatorState -> Option<T>)
    requires Respected(field)
    ensures HoldsLast(parts, field)
    decreases |parts|
  {
    if parts != [] {
      var n := |parts| - 1;
      FieldIsLast(parts[..n], field);
      MergedField(parts, field);
      ValuesGrow(parts, field);
      NextIsLast(field(Merged(parts[..n])), Values(parts[..n], field), field(parts[n]));
    }
  }

  lemma ValuesGrow<T>(parts: seq<ActuatorState>, field: ActuatorState -> Option<T>)
    requires parts != []
    ensures Values(parts, field) == Values(parts[..|parts| - 1], field) + [field(parts[|parts| - 1])]
  {
  }

  lemma MergedField<T(!new)>(parts: seq<ActuatorState>, field: ActuatorState -> Option<T>)
    requires Respected(field) && parts != []
    ensures field(Merged(parts)) == Or(field(parts[|parts| - 1]), field(Merged(parts[..|parts| - 1])))
  {
  }

  /** Main result: each field of the full state is the last value that any partial state gave it,
      and absent if none did. */
  lemma EveryFieldIsLast(parts: seq<ActuatorState>)
    ensures HoldsLast(parts, (p: ActuatorState) => p.positionRad)
    ensures HoldsLast(parts, (p: ActuatorState) => p.velocityRadS)
    ensures HoldsLast(parts, (p: ActuatorState) => p.torqueNm)
    ensures HoldsLast(parts, (p: ActuatorState) => p.currentA)
    ensures HoldsLast(parts, (p: ActuatorState) => p.temperatureC)
    ensures HoldsLast(parts, (p: ActuatorState) => p.voltageV)
    ensures HoldsLast(parts, (p: ActuatorState) => p.faultCode)
    ensures HoldsLast(parts, (p: ActuatorState) => p.isEnabled)
    ensures HoldsLast(parts, (p: ActuatorState) => p.mode)
  {
    FieldIsLast(parts, (p: ActuatorState) => p.positionRad);
    FieldIsLast(parts, (p: ActuatorState) => p.velocityRadS);
    FieldIsLast(parts, (p: ActuatorState) => p.torqueNm);
    FieldIsLast(parts, (p: ActuatorState) => p.currentA);
    FieldIsLast(parts, (p: ActuatorState) => p.temperatureC);
    FieldIsLast(parts, (p: ActuatorState) => p.voltageV);
    FieldIsLast(parts, (p: ActuatorState) => p.faultCode);
    FieldIsLast(parts, (p: ActuatorState) => p.isEnabled);
    FieldIsLast(parts, (p: ActuatorState) => p.mode);
  }

  /** So is the time of the latest feedback, among the positive ones. */
  lemma FeedbackIsLast(parts: seq<ActuatorState>)
    ensures HoldsLast(parts, Feedback)
  {
    FieldIsLast(parts, Feedback);
  }

  /** So is each vendor-specific entry. */
  lemma EntryIsLast(parts: seq<ActuatorState>, key: string)
    ensures HoldsLast(parts, (p: ActuatorState) => Lookup(p, key))
  {
    FieldIsLast(parts, (p: ActuatorState) => Lookup(p, key));
  }

  // ----- Deliveries -----

  /** The partial states among the deliveries, in order. */
  function Parts(delivered: seq<Delivery>): seq<ActuatorState>
    decreases |delivered|
  {
    if delivered == [] then []
    else
      var before := Parts(delivered[..|delivered| - 1]);
      match delivered[|delivered| - 1].decoded
      case Partial(state) => before + [state]
      case _ => before
  }

  function Ignored(delivered: seq<Delivery>): nat
    decreases |delivered|
  {
    if delivered == [] then 0
    else Ignored(delivered[..|delivered| - 1]) + if delivered[|delivered| - 1].decoded.Nothing? then 1 else 0
  }

  lemma AppendDelivery(delivered: seq<Delivery>, d: Delivery)
    ensures (delivered + [d])[..|delivered + [d]| - 1] == delivered
    ensures Parts(delivered + [d]) == Parts(delivered) + if d.decoded.Partial? then [d.decoded.state] else []
    ensures Ignored(delivered + [d]) == Ignored(delivered) + if d.decoded.Nothing? then 1 else 0
    ensures d.decoded.Partial? ==> Merged(Parts(delivered + [d])) == Merge(Merged(Parts(delivered)), d.decoded.state)
  {
    assert (delivered + [d])[..|delivered + [d]| - 1] == delivered;
    if d.decoded.Partial? {
      var parts := Parts(delivered) + [d.decoded.state];
      assert parts[..|parts| - 1] == Parts(delivered);
    }
  }

  class ActuatorDriver {
    var state: ActuatorState
    const commManager: F.BestEffortCommManager
    const transactionManager: T.TransactionManager
    ghost var delivered: seq<Delivery>

    constructor (feedbackTimeout: real)
      ensures Valid() && delivered == []
      ensures fresh(commManager) && fresh(transactionManager)
      ensures commManager.timeout == feedbackTimeout && transactionManager.pending == null
    {
      commManager := new F.BestEffortCommManager(feedbackTimeout);
      transactionManager := new T.TransactionManager();
      state, delivered := Initial(), [];
    }

    /** The full state is the merge of every partial state ever delivered, and every delivery is
        accounted for: counted as received, counted as a decoding error, or ignored. */
    ghost predicate Valid()
      reads this, commManager, transactionManager, transactionManager.pending
    {
      && commManager.Valid() && transactionManager.Valid()
      && state == Merged(Parts(delivered))
      && commManager.status.rxCount == |Parts(delivered)|
      && |delivered| == commManager.status.rxCount + commManager.status.decodeErrorCount + Ignored(delivered)
    }

    /** `now` is the clock reading that the communication manager takes, if it takes one. */
    method OnFrame(canId: int, decoded: Decoded, now: real)
      requires Valid()
      modifies this, commManager, transactionManager.pending
      ensures Valid() && delivered == old(delivered) + [Delivery(canId, decoded)]
      ensures transactionManager.pending == old(transactionManager.pending)
      ensures commManager.history == old(commManager.history) + match decoded
                case Raised => [F.Failed(now)]
                case Nothing => []
                case Partial(part) => [F.Received(if part.lastFeedbackT > 0.0 then part.lastFeedbackT else now)]
      ensures transactionManager.pending != null ==>
                transactionManager.pending.receivedIds
                == old(transactionManager.pending.receivedIds) + if decoded.Partial? then {canId} else {}
    {
      AppendDelivery(delivered, Delivery(canId, decoded));
      delivered := delivered + [Delivery(canId, decoded)];
      match decoded {
        case Raised =>
          commManager.MarkDecodeError(now);
        case Nothing =>
        case Partial(part) =>
          MergeState(part, now);
          transactionManager.MarkRx(canId);
      }
    }

    method MergeState(part: ActuatorState, now: real)
      requires commManager.Valid()
      modifies this`state, commManager
      ensures commManager.Valid() && state == Merge(old(state), part)
      ensures commManager.history
              == old(commManager.history) + [F.Received(if part.lastFeedbackT > 0.0 then part.lastFeedbackT else now)]
    {
      var s := state;
      ghost var before := state;
      if part.positionRad.Some? { s := s.(positionRad := part.positionRad); }
      if part.velocityRadS.Some? { s := s.(velocityRadS := part.velocityRadS); }
      if part.torqueNm.Some? { s := s.(torqueNm := part.torqueNm); }
      assert s == before.(positionRad := Or(part.positionRad, before.positionRad),
                          velocityRadS := Or(part.velocityRadS, before.velocityRadS),
                          torqueNm := Or(part.torqueNm, before.torqueNm));
      ghost var motion := s;
      if part.currentA.Some? { s := s.(currentA := part.currentA); }
      if part.temperatureC.Some? { s := s.(temperatureC := part.temperatureC); }
      if part.voltageV.Some? { s := s.(voltageV := part.voltageV); }
      assert s == motion.(currentA := Or(part.currentA, before.currentA),
                          temperatureC := Or(part.temperatureC, before.temperatureC),
                          voltageV := Or(part.voltageV, before.voltageV));
      ghost var measured := s;
      if part.faultCode.Some? { s := s.(faultCode := part.faultCode); }
      if part.isEnabled.Some? { s := s.(isEnabled := part.isEnabled); }
      if part.mode.Some? { s := s.(mode := part.mode); }
      s := s.(raw := s.raw + part.raw);
      assert s == measured.(faultCode := Or(part.faultCode, before.faultCode),
                            isEnabled := Or(part.isEnabled, before.isEnabled),
                            mode := Or(part.mode, before.mode), raw := before.raw + part.raw);
      state := s;
      if part.lastFeedbackT > 0.0 {
        state := state.(lastFeedbackT := part.lastFeedbackT);
        commManager.MarkRx(Some(part.lastFeedbackT), now);
      } else {
        commManager.MarkRx(None, now);
      }
    }

    method UpdateFaultFlags(now: real) returns (s: F.Status)
      requires Valid()
      modifies commManager
      ensures Valid() && s == commManager.status
      ensures commManager.history == old(commManager.history) + [F.Polled(now)]
    {
      s := commManager.UpdateFaultFlags(now);
    }
  }
}
