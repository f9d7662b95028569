/**
 * The documented contract of a SIP client transaction: the two state
 * machines (INVITE and non-INVITE) its state moves through, the misuse
 * errors of `SendRequest`, `CreateCancel` and `CreateAck`, and the
 * uniqueness of a transaction among the live ones.
 *
 * The transitions follow Figures 5 and 6 of RFC 3261 (sections 17.1.1 and
 * 17.1.2): a state may be skipped (a final response in Calling goes
 * straight to Completed) but never re-entered. Timers, retransmission and
 * the network are not modelled; their effects arrive as events.
 */
module ClientTransactions {
  import opened Wrappers

  datatype Method = Invite | Ack | Cancel | Bye | Register | Options | Extension(name: string)

  /**
   * The parts of a request the transaction layer looks at: the fields the
   * transaction identity is computed from, and its method.
   */
  datatype Request = Request(
    requestMethod: Method,
    requestUri: string,
    toTag: string,
    fromTag: string,
    callId: string,
    topVia: string,
    cseq: nat,
    proxyRequire: seq<string>,
    proxyAuthorization: seq<string>)

  datatype Kind = InviteTransaction | NonInviteTransaction

  function KindOf(m: Method): (k: Kind)
  {
    if m == Invite then InviteTransaction else NonInviteTransaction
  }

  datatype State = Calling | Trying | Proceeding | Completed | Terminated

  /** The misuse and failure cases the interface reports as a SipException. */
  datatype SipException =
    | CannotCancel(rejected: Method)
    | NoFinalResponse
    | SendFailed(reason: string)
    | AlreadySent
    | TransactionExists

  /** The state a new transaction of each kind starts in. */
  function Initial(k: Kind): (s: State)
  {
    match k
    case InviteTransaction => Calling
    case NonInviteTransaction => Trying
  }

  /** The states a transaction of kind `k` can be in: Calling is INVITE-only, Trying non-INVITE-only. */
  predicate InRole(k: Kind, s: State)
  {
    match k
    case InviteTransaction => s != Trying
    case NonInviteTransaction => s != Calling
  }

  /** Position along Calling/Trying, Proceeding, Completed, Terminated. */
  function Rank(s: State): (n: nat)
  {
    match s
    case Calling => 0
    case Trying => 0
    case Proceeding => 1
    case Completed => 2
    case Terminated => 3
  }

  /** The documented transitions, skips included, as an explicit table per kind. */
  predicate Step(k: Kind, s: State, s': State): (b: bool)
    ensures b ==> s != Terminated && s' != Initial(k)
  {
    match k
    case InviteTransaction =>
      (s, s') in {(Calling, Proceeding), (Calling, Completed), (Calling, Terminated),
                   (Proceeding, Completed), (Proceeding, Terminated),
                   (Completed, Terminated)}
    case NonInviteTransaction =>
      (s, s') in {(Trying, Proceeding), (Trying, Completed), (Trying, Terminated),
                  (Proceeding, Completed), (Proceeding, Terminated),
                  (Completed, Terminated)}
  }

  /**
   * The table says exactly this: a transition stays within its kind's
   * states and moves strictly forward along the documented order.
   */
  lemma StepIsForward(k: Kind, s: State, s': State)
    ensures Step(k, s, s') <==> InRole(k, s) && InRole(k, s') && Rank(s) < Rank(s')
  {
  }

  /** Terminated is final: no transition leaves it, in either kind. */
  lemma TerminatedIsFinal(k: Kind, s': State)
    ensures !Step(k, Terminated, s')
  {
  }

  /** Two forward moves make a forward move. */
  lemma StepTransitive(k: Kind, s1: State, s2: State, s3: State)
    requires Step(k, s1, s2) && Step(k, s2, s3)
    ensures Step(k, s1, s3)
  {
    StepIsForward(k, s1, s2);
    StepIsForward(k, s2, s3);
    StepIsForward(k, s1, s3);
  }

  /** A sequence of states a transaction of kind `k` passes through, from its initial state. */
  predicate IsRun(k: Kind, states: seq<State>)
  {
    && |states| >= 1
    && states[0] == Initial(k)
    && forall i :: 0 <= i < |states| - 1 ==> Step(k, states[i], states[i + 1])
  }

  /** Along a run every later state is strictly further on: no state is ever returned to. */
  lemma {:induction false} RunNeverGoesBack(k: Kind, states: seq<State>, i: nat, j: nat)
    requires IsRun(k, states)
    requires i < j < |states|
    ensures Rank(states[i]) < Rank(states[j])
    ensures states[j] != states[i]
    decreases j - i
  {
    StepIsForward(k, states[j - 1], states[j]);
    if j > i + 1 {
      RunNeverGoesBack(k, states, i, j - 1);
    }
  }

  /** A run visits at most the four states of its kind and never a state of the other kind. */
  lemma {:induction false} RunIsShortAndInRole(k: Kind, states: seq<State>)
    requires IsRun(k, states)
    ensures |states| <= 4
    ensures forall i :: 0 <= i < |states| ==> InRole(k, states[i])
  {
    forall i | 0 <= i < |states|
      ensures InRole(k, states[i])
    {
      if i > 0 {
        StepIsForward(k, states[i - 1], states[i]);
      }
    }
    var n := |states|;
    if n > 1 {
      RunRankGrows(k, states, n - 1);
    }
  }

  /** The state after i moves of a run has rank at least i. */
  lemma {:induction false} RunRankGrows(k: Kind, states: seq<State>, i: nat)
    requires IsRun(k, states)
    requires i < |states|
    ensures Rank(states[i]) >= i
  {
    if i > 0 {
      StepIsForward(k, states[i - 1], states[i]);
      RunRankGrows(k, states, i - 1);
    }
  }

  /** A client transaction: its request, its state, the final status received (if any), and whether the request was sent. */
  datatype ClientTransaction = ClientTransaction(
    request: Request,
    state: State,
    finalStatus: Option<nat>,
    sent: bool)
  {
    function TxKind(): Kind
    {
      KindOf(request.requestMethod)
    }
  }

  /**
   * A transaction is in a state of its own kind, holds a final status only
   * once Completed or Terminated, and holds one whenever it is Completed
   * (Completed is entered only on a final response); until its request is
   * sent it stays in its initial state with no final status.
   */
  predicate Valid(tx: ClientTransaction)
  {
    && InRole(tx.TxKind(), tx.state)
    && (tx.state == Completed ==> tx.finalStatus.Some?)
    && (tx.finalStatus.Some? ==> 200 <= tx.finalStatus.value <= 699)
    && (tx.finalStatus.Some? ==> tx.state == Completed || tx.state == Terminated)
    && (!tx.sent ==> tx.state == Initial(tx.TxKind()) && tx.finalStatus.None?)
  }

  /** A new transaction for `req`: the initial state of its kind, nothing sent, no response. */
  function NewClientTransaction(req: Request): (tx: ClientTransaction)
    ensures Valid(tx)
    ensures tx.request == req && !tx.sent && tx.finalStatus.None?
    ensures tx.state == Calling <==> req.requestMethod == Invite
    ensures tx.state == Trying <==> req.requestMethod != Invite
  {
    ClientTransaction(req, Initial(KindOf(req.requestMethod)), None, false)
  }

  /** Still waiting for a final response: Calling, Trying or Proceeding. */
  predicate Pending(s: State)
  {
    s == Calling || s == Trying || s == Proceeding
  }

  /** Something that reaches the transaction: a response with its status code, a timer, a transport failure. */
  datatype Event =
    | ResponseReceived(status: nat)
    | TimeoutTimerFired      // Timer B or the no-final-response timeout (INVITE), Timer F (non-INVITE)
    | CompletedTimerFired    // Timer D (INVITE) or Timer K (non-INVITE)
    | TransportFailed

  /**
   * One event, as in Figures 5 and 6 of RFC 3261: a 1xx moves a pending
   * transaction to Proceeding; a final response moves it to Completed, or,
   * for a 2xx to an INVITE, straight to Terminated; the timeout ends any
   * pending transaction, including an INVITE in Proceeding that never gets
   * a final response (the TimeoutEvent after which a cancelled request is
   * taken as cancelled); the Completed-state timer ends it; a transport
   * failure ends it where the figures say so. A transaction whose request was not sent yet ignores
   * every event, and anything else leaves it as it is.
   */
  function Receive(tx: ClientTransaction, ev: Event): (t: ClientTransaction)
    requires Valid(tx)
    ensures t.request == tx.request && t.sent == tx.sent
    ensures t.state == tx.state || Step(tx.TxKind(), tx.state, t.state)
    ensures tx.state == Terminated ==> t == tx
    ensures tx.finalStatus.Some? ==> t.finalStatus == tx.finalStatus
    ensures Valid(t)
    ensures tx.sent && ev.ResponseReceived? && 100 <= ev.status <= 199 && Pending(tx.state) ==> t.state == Proceeding
    ensures tx.sent && ev.ResponseReceived? && 200 <= ev.status <= 699 && Pending(tx.state) ==>
              && t.finalStatus == Some(ev.status)
              && t.state == (if tx.TxKind() == InviteTransaction && ev.status <= 299 then Terminated else Completed)
    ensures tx.sent && ev.TimeoutTimerFired? && Pending(tx.state) ==> t.state == Terminated
    ensures ev.CompletedTimerFired? && tx.state == Completed ==> t.state == Terminated
    ensures (tx.sent && ev.TransportFailed? &&
              ((tx.TxKind() == InviteTransaction && (tx.state == Calling || tx.state == Completed))
               || (tx.TxKind() == NonInviteTransaction && Pending(tx.state))))
            ==> t.state == Terminated
    ensures !tx.sent ==> t == tx
    ensures ev.ResponseReceived? && !(Pending(tx.state) && 100 <= ev.status <= 699) ==> t == tx
    ensures ev.TimeoutTimerFired? && !Pending(tx.state) ==> t == tx
    ensures !(ev.ResponseReceived? && 200 <= ev.status <= 699) ==> t.finalStatus == tx.finalStatus
    ensures ev.CompletedTimerFired? && tx.state != Completed ==> t == tx
    ensures (ev.TransportFailed? &&
              !(if tx.TxKind() == InviteTransaction then tx.state == Calling || tx.state == Completed else Pending(tx.state)))
            ==> t == tx
  {
    var invite := tx.TxKind() == InviteTransaction;
    var pending := Pending(tx.state);
    if !tx.sent then tx
    else match ev
    case ResponseReceived(code) =>
      if 100 <= code <= 199 && pending then tx.(state := Proceeding)
      else if 200 <= code <= 699 && pending then
        if invite && code <= 299 then tx.(state := Terminated, finalStatus := Some(code))
        else tx.(state := Completed, finalStatus := Some(code))
      else tx
    case TimeoutTimerFired =>
      if pending then tx.(state := Terminated) else tx
    case CompletedTimerFired =>
      if tx.state == Completed then tx.(state := Terminated) else tx
    case TransportFailed =>
      if (invite && (tx.state == Calling || tx.state == Completed)) || (!invite && pending)
      then tx.(state := Terminated)
      else tx
  }

  /**
   * An original request, typically an INVITE that was answered only
   * provisionally before being cancelled, ends on the timeout when no final
   * response arrives, and ends without a final status.
   */
  lemma NoFinalResponseTimesOut(tx: ClientTransaction)
    requires Valid(tx) && tx.sent && Pending(tx.state)
    ensures var t := Receive(tx, TimeoutTimerFired);
      t.state == Terminated && t.finalStatus.None? && CreateAck(t).Err?
  {
  }

  /** Every documented transition is taken by some event, so the table holds no dead entries. */
  lemma EveryStepHasAnEvent(tx: ClientTransaction, s': State)
    requires Valid(tx) && tx.sent
    requires Step(tx.TxKind(), tx.state, s')
    ensures exists ev :: Receive(tx, ev).state == s'
  {
    if s' == Proceeding {
      assert Receive(tx, ResponseReceived(180)).state == s';
    } else if s' == Completed {
      assert Receive(tx, ResponseReceived(486)).state == s';
    } else if tx.state == Completed {
      assert Receive(tx, CompletedTimerFired).state == s';
    } else if tx.TxKind() == InviteTransaction {
      assert Receive(tx, ResponseReceived(200)).state == s';
    } else {
      assert Receive(tx, TimeoutTimerFired).state == s';
    }
  }

  /** The transaction after a sequence of events, in order. */
  function ReceiveAll(tx: ClientTransaction, evs: seq<Event>): (t: ClientTransaction)
    requires Valid(tx)
    decreases |evs|
  {
    if |evs| == 0 then tx else ReceiveAll(Receive(tx, evs[0]), evs[1..])
  }

  /**
   * However many events arrive, the transaction either stays where it was
   * or has made one documented forward transition from its starting state;
   * its request, validity and any final status are kept.
   */
  lemma {:induction false} ReceiveAllMovesForward(tx: ClientTransaction, evs: seq<Event>)
    requires Valid(tx)
    ensures var t := ReceiveAll(tx, evs);
      && t.request == tx.request
      && Valid(t)
      && (t.state == tx.state || Step(tx.TxKind(), tx.state, t.state))
      && (tx.finalStatus.Some? ==> t.finalStatus == tx.finalStatus)
    decreases |evs|
  {
    if |evs| > 0 {
      var mid := Receive(tx, evs[0]);
      ReceiveAllMovesForward(mid, evs[1..]);
      var t := ReceiveAll(mid, evs[1..]);
      if mid.state != tx.state && t.state != mid.state {
        StepTransitive(tx.TxKind(), tx.state, mid.state, t.state);
      }
    }
  }

  /** Once Terminated, no sequence of events changes the transaction. */
  lemma {:induction false} TerminatedAbsorbs(tx: ClientTransaction, evs: seq<Event>)
    requires Valid(tx) && tx.state == Terminated
    ensures ReceiveAll(tx, evs) == tx
    decreases |evs|
  {
    if |evs| > 0 {
      TerminatedAbsorbs(Receive(tx, evs[0]), evs[1..]);
    }
  }

  /** Whether the transport accepted the request. */
  datatype TransportOutcome = Accepted | Refused(reason: string)

  /**
   * Sends the transaction's request once. Fails when it was sent already or
   * the transport refuses it; on success only the sent mark changes.
   */
  function SendRequest(tx: ClientTransaction, transport: TransportOutcome): (r: Result<ClientTransaction, SipException>)
    ensures r.Err? <==> tx.sent || transport.Refused?
    ensures r.Ok? ==> r.value.sent && r.value.(sent := false) == tx
    ensures !tx.sent && transport.Refused? ==> r == Err(SendFailed(transport.reason))
    ensures Valid(tx) && r.Ok? ==> Valid(r.value) && r.value.state == Initial(tx.TxKind())
  {
    if tx.sent then Err(AlreadySent)
    else match transport
      case Refused(reason) => Err(SendFailed(reason))
      case Accepted => Ok(tx.(sent := true))
  }

  /**
   * A CANCEL for the transaction's request: fails for a request that cannot
   * be cancelled (ACK); otherwise a request that differs from the original
   * in its method only (section 9.1 of RFC 3261), so it references the
   * transaction being cancelled.
   */
  function CreateCancel(tx: ClientTransaction): (r: Result<Request, SipException>)
    ensures r.Err? <==> tx.request.requestMethod == Ack
    ensures r.Err? ==> r.error == CannotCancel(Ack)
    ensures r.Ok? ==> r.value.requestMethod == Cancel && r.value.(requestMethod := tx.request.requestMethod) == tx.request
  {
    if tx.request.requestMethod == Ack then Err(CannotCancel(Ack))
    else Ok(tx.request.(requestMethod := Cancel))
  }

  /**
   * An ACK for the transaction's request: fails until a final response has
   * been received; otherwise an ACK with the original's Request-URI, Call-ID,
   * From tag, top Via and CSeq number.
   */
  function CreateAck(tx: ClientTransaction): (r: Result<Request, SipException>)
    ensures r.Err? <==> tx.finalStatus.None?
    ensures r.Err? ==> r.error == NoFinalResponse
    ensures r.Ok? ==> && r.value.requestMethod == Ack
                      && r.value.requestUri == tx.request.requestUri
                      && r.value.callId == tx.request.callId
                      && r.value.fromTag == tx.request.fromTag
                      && r.value.topVia == tx.request.topVia
                      && r.value.cseq == tx.request.cseq
  {
    if tx.finalStatus.None? then Err(NoFinalResponse)
    else Ok(tx.request.(requestMethod := Ack))
  }

  /**
   * A transaction that has left its initial state was sent, so a terminated
   * transaction cannot send its request again.
   */
  lemma TerminatedCannotResend(tx: ClientTransaction, transport: TransportOutcome)
    requires Valid(tx) && tx.state == Terminated
    ensures SendRequest(tx, transport) == Err(AlreadySent)
  {
  }

  /** Once a final response reaches a pending transaction, CreateAck succeeds. */
  lemma FinalResponseEnablesAck(tx: ClientTransaction, code: nat)
    requires Valid(tx) && tx.sent && Pending(tx.state)
    requires 200 <= code <= 699
    ensures CreateAck(Receive(tx, ResponseReceived(code))).Ok?
  {
  }

  /** A transaction that is Completed can always be acknowledged. */
  lemma CompletedCanAck(tx: ClientTransaction)
    requires Valid(tx) && tx.state == Completed
    ensures CreateAck(tx).Ok?
  {
  }

  /**
   * A fresh transaction that only ever sees provisional responses and
   * timers has no final response, so CreateAck keeps failing.
   */
  lemma {:induction false} NoFinalMeansNoAck(tx: ClientTransaction, evs: seq<Event>)
    requires Valid(tx) && tx.finalStatus.None?
    requires forall i :: 0 <= i < |evs| ==> !(evs[i].ResponseReceived? && 200 <= evs[i].status <= 699)
    ensures CreateAck(ReceiveAll(tx, evs)) == Err(NoFinalResponse)
    decreases |evs|
  {
    if |evs| > 0 {
      NoFinalMeansNoAck(Receive(tx, evs[0]), evs[1..]);
    }
  }

  /**
   * What identifies a transaction among the live ones: a stand-in for the
   * hash of the To and From tags, Call-ID, Request-URI, top Via, CSeq
   * (number and method), Proxy-Require and Proxy-Authorization header
   * fields, taken as collision-free.
   */
  datatype TransactionKey = TransactionKey(
    toTag: string,
    fromTag: string,
    callId: string,
    requestUri: string,
    topVia: string,
    cseq: nat,
    cseqMethod: Method,
    proxyRequire: seq<string>,
    proxyAuthorization: seq<string>)

  /** The identity of the transaction a request creates: every field of the request takes part in it. */
  function KeyOf(req: Request): (k: TransactionKey)
    ensures k.callId == req.callId && k.topVia == req.topVia
    ensures k.cseq == req.cseq && k.cseqMethod == req.requestMethod
    ensures k.proxyRequire == req.proxyRequire && k.proxyAuthorization == req.proxyAuthorization
  {
    TransactionKey(req.toTag, req.fromTag, req.callId, req.requestUri, req.topVia, req.cseq, req.requestMethod,
                   req.proxyRequire, req.proxyAuthorization)
  }

  /** Two requests share an identity exactly when they are the same request. */
  lemma KeyOfIdentifies(a: Request, b: Request)
    ensures KeyOf(a) == KeyOf(b) <==> a == b
  {
  }

  /** The live client transactions of one stack. */
  datatype Registry = Registry(live: seq<ClientTransaction>)

  /** No two live transactions share a key. */
  predicate UniqueKeys(reg: Registry)
  {
    forall i, j :: 0 <= i < j < |reg.live| ==> KeyOf(reg.live[i].request) != KeyOf(reg.live[j].request)
  }

  /** Every live transaction is valid. */
  predicate AllValid(reg: Registry)
  {
    forall i :: 0 <= i < |reg.live| ==> Valid(reg.live[i])
  }

  predicate HasKey(reg: Registry, key: TransactionKey)
  {
    exists i :: 0 <= i < |reg.live| && KeyOf(reg.live[i].request) == key
  }

  /**
   * Registers a new transaction for `req`: refused when a live transaction
   * already has its key; otherwise appended in its initial state, so
   * uniqueness among the live transactions is kept.
   */
  function Register(reg: Registry, req: Request): (r: Result<Registry, SipException>)
    ensures r.Err? <==> HasKey(reg, KeyOf(req))
    ensures r.Err? ==> r.error == TransactionExists
    ensures r.Ok? ==> r.value.live == reg.live + [NewClientTransaction(req)]
    ensures r.Ok? && UniqueKeys(reg) ==> UniqueKeys(r.value)
    ensures r.Ok? && AllValid(reg) ==> AllValid(r.value)
  {
    if exists i :: 0 <= i < |reg.live| && KeyOf(reg.live[i].request) == KeyOf(req) then Err(TransactionExists)
    else Ok(Registry(reg.live + [NewClientTransaction(req)]))
  }

  /**
   * Hands an event to the live transaction with `key`; every other live
   * transaction is left exactly as it was, and uniqueness is kept.
   */
  function Deliver(reg: Registry, key: TransactionKey, ev: Event): (r: Registry)
    requires AllValid(reg)
    ensures |r.live| == |reg.live|
    ensures forall i :: 0 <= i < |reg.live| && KeyOf(reg.live[i].request) != key ==> r.live[i] == reg.live[i]
    ensures forall i :: 0 <= i < |reg.live| && KeyOf(reg.live[i].request) == key ==> r.live[i] == Receive(reg.live[i], ev)
    ensures UniqueKeys(reg) ==> UniqueKeys(r)
    ensures AllValid(r)
  {
    Registry(seq(|reg.live|, i requires 0 <= i < |reg.live| =>
      if KeyOf(reg.live[i].request) == key then Receive(reg.live[i], ev) else reg.live[i]))
  }

  /**
   * Cancelling leaves the original transaction alone: registering the
   * CANCEL of the live transaction at `i` keeps that transaction as it was,
   * gives the CANCEL its own key, and afterwards events delivered to either
   * one do not touch the other, so the two complete independently.
   */
  lemma CancelIsIndependent(reg: Registry, i: nat, ev: Event)
    requires UniqueKeys(reg) && AllValid(reg)
    requires i < |reg.live|
    requires CreateCancel(reg.live[i]).Ok?
    requires Register(reg, CreateCancel(reg.live[i]).value).Ok?
    ensures var reg' := Register(reg, CreateCancel(reg.live[i]).value).value;
      && reg'.live[i] == reg.live[i]
      && KeyOf(reg'.live[|reg.live|].request) != KeyOf(reg.live[i].request)
      && Deliver(reg', KeyOf(reg'.live[|reg.live|].request), ev).live[i] == reg.live[i]
      && Deliver(reg', KeyOf(reg.live[i].request), ev).live[|reg.live|] == reg'.live[|reg.live|]
  {
    var cancel := CreateCancel(reg.live[i]).value;
    var reg' := Register(reg, cancel).value;
    assert reg'.live[|reg.live|] == NewClientTransaction(cancel);
    assert !HasKey(reg, KeyOf(cancel));
    assert KeyOf(reg.live[i].request) != KeyOf(cancel);
  }
}
