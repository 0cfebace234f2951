/** What holds of the call table and the relay connection in every run. */
module CallLaws {
  import opened CallTable

  // ---------------------------------------------------------------- conservation

  /** +1 for an insertion; -1 for a terminal callback, and for a refused launch or a clearing, which make none. */
  function Weight(e: Entry): int {
    match e
    case Inserted(_) => 1
    case OnAnswered(_, accepted) => if accepted then 0 else -1
    case OnClosed(_) => -1
    case Declined(_) => -1
    case Cleared(_) => -1
    case _ => 0
  }

  /** Insertions of a call less its ends. */
  function Balance(journal: seq<Entry>, callId: nat): int {
    if journal == [] then 0 else
    var last := journal[|journal| - 1];
    Balance(journal[..|journal| - 1], callId) + if last.callId == callId then Weight(last) else 0
  }

  /** The same over all calls. */
  function Total(journal: seq<Entry>): int {
    if journal == [] then 0 else Total(journal[..|journal| - 1]) + Weight(journal[|journal| - 1])
  }

  /** Every call's insertions exceed its ends by one while it is in the table, else by none. */
  ghost predicate Books(t: Table) {
    && (forall callId :: Balance(t.journal, callId) == if callId in t.calls then 1 else 0)
    && Total(t.journal) == |t.calls|
  }

  lemma NotingBooks(t: Table, e: Entry)
    ensures Total(t.Noting(e).journal) == Total(t.journal) + Weight(e)
    ensures forall callId :: Balance(t.Noting(e).journal, callId)
                             == Balance(t.journal, callId) + if e.callId == callId then Weight(e) else 0
  {
    assert (t.journal + [e])[..|t.journal|] == t.journal;
  }

  lemma NeutralBooks(t: Table, e: Entry)
    requires Books(t) && Weight(e) == 0
    ensures Books(t.Noting(e))
  {
    hide Weight, Balance, Total;
    NotingBooks(t, e);
  }

  lemma InsertBooks(t: Table, callId: nat, s: Session)
    requires Books(t)
    ensures Books(Insert(t, callId, s))
  {
    hide Balance, Total;
    if callId !in t.calls {
      NotingBooks(t, Inserted(callId));
      assert |t.calls[callId := s]| == |t.calls| + 1;
      var v := t.(vec := t.vec + [callId], calls := t.calls[callId := s]);
      assert Insert(t, callId, s).journal == t.Noting(Inserted(callId)).journal;
    }
  }

  lemma DropBooks(t: Table, callId: nat, e: Entry)
    requires Books(t) && callId in t.calls && e.callId == callId && Weight(e) == -1
    ensures Books(Drop(t, callId, e))
  {
    hide Balance, Total, Weight;
    NotingBooks(t, e);
    assert Drop(t, callId, e).journal == t.Noting(e).journal;
    SizeWithout(t.calls, callId);
  }

  lemma SizeWithout(m: map<nat, Session>, callId: nat)
    requires callId in m
    ensures |m - {callId}| == |m| - 1
  {
    assert (m - {callId})[callId := m[callId]] == m;
  }

  // ---------------------------------------------------------------- the relay connection

  /**
   * Connection and link state agree, there is no connection without calls, and no invitation waits for a relay
   * that is bound.
   */
  ghost predicate Linked(t: Table) {
    && (t.relayConnId != 0 <==> t.link != NOT_CREATED)
    && (t.calls == map[] ==> t.relayConnId == 0)
    && (t.bound <==> t.link == SUCC_CREATED)
    && (forall id | id in t.calls && t.calls[id].state == WAIT_CALL_ONLAUNCHED ::
          !t.calls[id].creator && t.link != SUCC_CREATED)
  }

  /** There is no call without a connection. */
  ghost predicate Kept(t: Table) { t.calls != map[] ==> t.relayConnId != 0 }

  /** What is claimed of the relay link: that it is in order, and then that it was kept. */
  datatype Claim = Claim(linked: bool, kept: bool)

  /** The limit holds and the list covers the map; and the relay link is as claimed. */
  ghost predicate Shape(claim: Claim, t: Table) {
    && |t.calls| <= t.maxCallNum
    && (forall id | id in t.calls :: id in t.vec)
    && (claim.linked ==> Linked(t) && (claim.kept ==> Kept(t)))
  }

  lemma RemoveFirstKeeps(vec: seq<nat>, callId: nat, other: nat)
    requires other in vec && other != callId
    ensures other in RemoveFirst(vec, callId)
  {
  }

  lemma DeleteShape(claim: Claim, t: Table, callId: nat, vec: seq<nat>)
    requires Shape(claim, t) && callId in t.calls && forall id | id in t.vec && id != callId :: id in vec
    ensures Shape(claim, CloseRelayWhenNoCall(t.(calls := t.calls - {callId}, vec := vec)))
  {
    SizeWithout(t.calls, callId);
    var m := t.calls - {callId};
    assert |m| == 0 <==> m == map[];
  }

  lemma DropShape(claim: Claim, t: Table, callId: nat, e: Entry)
    requires Shape(claim, t) && callId in t.calls
    ensures Shape(claim, Drop(t, callId, e))
  {
    hide Shape;
    forall id | id in t.vec && id != callId ensures id in RemoveFirst(t.vec, callId) {
      RemoveFirstKeeps(t.vec, callId, id);
    }
    DeleteShape(claim, t, callId, RemoveFirst(t.vec, callId));
    JournalShape(claim, CloseRelayWhenNoCall(Delete(t, callId)), e);
  }

  lemma JournalShape(claim: Claim, t: Table, e: Entry)
    requires Shape(claim, t)
    ensures Shape(claim, t.Noting(e))
  {
  }

  /** `r` is the table with, as the case may be, a new relay connection; if linked, one that can carry the call. */
  ghost predicate Carrier(claim: Claim, t: Table, s: Session, r: Table) {
    && r == t.(relayConnId := r.relayConnId, link := r.link)
    && (claim.linked ==>
          && (r == t || (t.link == NOT_CREATED && r.link == BEING_CREATED))
          && r.relayConnId != 0 && r.link != NOT_CREATED
          && (s.state == WAIT_CALL_ONLAUNCHED ==> !s.creator && r.link != SUCC_CREATED))
  }

  /** A call comes in where there is room and a relay connection to carry it. */
  lemma InsertShape(claim: Claim, t: Table, callId: nat, s: Session, r: Table)
    requires Shape(claim, t) && |t.calls| != t.maxCallNum
    requires Carrier(claim, t, s, r)
    ensures Shape(claim, Insert(r, callId, s))
  {
    if callId !in t.calls {
      assert |t.calls[callId := s]| == |t.calls| + 1;
      assert callId in t.calls[callId := s];
    }
  }

  lemma ChangeShape(claim: Claim, t: Table, callId: nat, s: Session)
    requires Shape(claim, t) && callId in t.calls && s.state != WAIT_CALL_ONLAUNCHED
    ensures Shape(claim, t.(calls := t.calls[callId := s]))
  {
    assert t.calls[callId := s].Keys == t.calls.Keys;
    assert |t.calls[callId := s]| == |t.calls|;
  }

  lemma ChangeBooks(t: Table, callId: nat, s: Session)
    requires Books(t) && callId in t.calls
    ensures Books(t.(calls := t.calls[callId := s]))
  {
    hide Balance, Total;
    assert |t.calls[callId := s]| == |t.calls|;
  }

  ghost predicate Inv(claim: Claim, t: Table) { Books(t) && Shape(claim, t) }

  lemma NotingInv(claim: Claim, t: Table, e: Entry)
    requires Inv(claim, t) && Weight(e) == 0
    ensures Inv(claim, t.Noting(e))
  {
    NeutralBooks(t, e);
    JournalShape(claim, t, e);
  }

  lemma ChangeInv(claim: Claim, t: Table, callId: nat, s: Session)
    requires Inv(claim, t) && callId in t.calls && s.state != WAIT_CALL_ONLAUNCHED
    ensures Inv(claim, t.(calls := t.calls[callId := s]))
  {
    ChangeBooks(t, callId, s);
    ChangeShape(claim, t, callId, s);
  }

  lemma DropInv(claim: Claim, t: Table, callId: nat, e: Entry)
    requires Inv(claim, t) && callId in t.calls && e.callId == callId && Weight(e) == -1
    ensures Inv(claim, Drop(t, callId, e))
  {
    hide Drop, Books, Shape;
    DropBooks(t, callId, e);
    DropShape(claim, t, callId, e);
  }

  lemma InsertInv(claim: Claim, t: Table, callId: nat, s: Session, r: Table)
    requires Inv(claim, t) && |t.calls| != t.maxCallNum
    requires Carrier(claim, t, s, r)
    ensures Inv(claim, Insert(r, callId, s))
  {
    hide Shape, Balance, Total;
    InsertBooks(r, callId, s);
    InsertShape(claim, t, callId, s, r);
  }

  lemma RelayFor(claim: Claim, t: Table, env: Env)
    requires Shape(claim, t)
    ensures var r := CreateRelay(t, env);
            && r == t.(relayConnId := r.relayConnId, link := r.link) && (r.relayConnId == 0 ==> r == t)
            && (claim.linked && t.link == NOT_CREATED && r.relayConnId != 0 ==> r.link == BEING_CREATED)
    ensures claim.linked && t.link != NOT_CREATED ==> t.relayConnId != 0
  {
  }

  lemma InviteInv(claim: Claim, t: Table, m: RTSMessage, env: Env)
    requires Inv(claim, t) && m.signal.InviteRequest?
    ensures Inv(claim, HandleInvite(t, m, env))
  {
    hide Books, Shape, Insert, CreateRelay;
    RelayFor(claim, t, env);
    match Judge(t, m, env)
    case Refused(result) => if env.localInfo { NotingInv(claim, t, Sent(m.callId, InviteResponse(result))); }
    case Taken =>
      var from := FindMember(m.signal.members, m.uuid);
      if from != [] {
        var waiting := Session(from[0], m.single, WAIT_CALL_ONLAUNCHED, false, m.signal.appContent);
        if t.link == NOT_CREATED {
          InsertInv(claim, t, m.callId, waiting, CreateRelay(t, env));
        } else if t.link == BEING_CREATED {
          InsertInv(claim, t, m.callId, waiting, t);
        } else {
          InsertInv(claim, t, m.callId, waiting.(state := WAIT_INVITEE_RESPONSE), t);
          NotingInv(claim, Insert(t, m.callId, waiting.(state := WAIT_INVITEE_RESPONSE)), Launched(m.callId));
        }
      }
  }

  lemma AnsweredInv(claim: Claim, t: Table, m: RTSMessage, p2p: bool)
    requires Inv(claim, t) && m.callId in t.calls && m.signal.CreateResponse?
    ensures Inv(claim, Answered(t, m, p2p))
  {
    hide Books, Shape;
    var id := m.callId;
    ChangeInv(claim, t, id, t.calls[id].(state := RUNNING));
    if p2p {
      var r, to := SetState(t, id, RUNNING), FindMember(m.signal.members, m.uuid);
      ChangeInv(claim, r, id, r.calls[id].(peer := if to == [] then UserInfo(0, 0, "", "") else to[0]));
    }
  }

  /** A peer that changes its addresses keeps its state. */
  lemma PeerInv(claim: Claim, t: Table, callId: nat, peer: UserInfo)
    requires Inv(claim, t) && callId in t.calls
    ensures Inv(claim, t.(calls := t.calls[callId := t.calls[callId].(peer := peer)]))
  {
    var s := t.calls[callId].(peer := peer);
    ChangeBooks(t, callId, s);
    assert t.calls[callId := s].Keys == t.calls.Keys;
    assert |t.calls[callId := s]| == |t.calls|;
  }

  lemma SignalInv(claim: Claim, t: Table, m: RTSMessage, p2p: bool, env: Env)
    requires Inv(claim, t)
    ensures Inv(claim, HandleSignal(t, m, p2p, env))
  {
    hide Inv, Books, Shape, HandleInvite, Drop, Answered;
    var id := m.callId;
    if m.signal.InviteRequest? {
      InviteInv(claim, t, m, env);
    } else if id in t.calls {
      match m.signal
      case CreateResponse(parses, hasResult, hasErrMsg, members, success) =>
        DropInv(claim, t, id, OnAnswered(id, false));
        AnsweredInv(claim, t, m, p2p);
        NotingInv(claim, Answered(t, m, p2p), OnAnswered(id, true));
      case ByeRequestSignal(parses) =>
        NotingInv(claim, t, Sent(id, ByeResponse(INTERNAL_ERROR1)));
        NotingInv(claim, t, Sent(id, ByeResponse(SUCC)));
        DropInv(claim, t.Noting(Sent(id, ByeResponse(SUCC))), id, OnClosed(id));
      case ByeResponseSignal(_, _) => DropInv(claim, t, id, OnClosed(id));
      case UpdateRequestSignal(parses, user, addressed) =>
        NotingInv(claim, t, Sent(id, UpdateResponse(INTERNAL_ERROR1)));
        NotingInv(claim, t, Sent(id, UpdateResponse(PARAMETER_ERROR)));
        if user != [] {
          PeerInv(claim, t, id, user[0]);
          NotingInv(claim, t.(calls := t.calls[id := t.calls[id].(peer := user[0])]), Sent(id, UpdateResponse(SUCC)));
        }
      case UpdateResponseSignal(_, _) => ChangeInv(claim, t, id, t.calls[id].(state := RUNNING));
    }
  }

  lemma DialInv(claim: Claim, t: Table, callId: nat, to: UserInfo, appContent: string, ready: bool, env: Env)
    requires Inv(claim, t)
    ensures Inv(claim, Dial(t, callId, to, appContent, ready, env).0)
  {
    hide Books, Shape, Insert, CreateRelay, SameCall;
    RelayFor(claim, t, env);
    if ready && |t.calls| != t.maxCallNum && !SameCall(t, to, appContent) && callId !in t.calls && callId != 0 {
      var waiting := Session(to, true, WAIT_SEND_CREATE_REQUEST, true, appContent);
      if t.link == NOT_CREATED {
        var r := CreateRelay(t, env);
        if r.relayConnId != 0 { InsertInv(claim, t, callId, waiting, r); }
      } else if t.link == BEING_CREATED {
        InsertInv(claim, t, callId, waiting, t);
      } else {
        var r := Insert(t, callId, waiting.(state := WAIT_CREATE_RESPONSE));
        InsertInv(claim, t, callId, waiting.(state := WAIT_CREATE_RESPONSE), t);
        NotingInv(claim, r, Sent(callId, CreateRequest));
      }
    }
  }

  lemma CloseInv(claim: Claim, t: Table, callId: nat)
    requires Inv(claim, t)
    ensures Inv(claim, Close(t, callId))
  {
    hide Inv, Books, Shape, Drop;
    if callId in t.calls {
      NotingInv(claim, t, Sent(callId, ByeRequest));
      DropInv(claim, t, callId, OnClosed(callId));
      DropInv(claim, t.Noting(Sent(callId, ByeRequest)), callId, OnClosed(callId));
    }
  }

  lemma DeclineInv(claim: Claim, t: Table, callId: nat)
    requires Inv(claim, t) && callId in t.calls
    ensures Inv(claim, CloseRelayWhenNoCall(t.(calls := t.calls - {callId}).Noting(Declined(callId))))
  {
    hide Balance, Total, Shape;
    NotingBooks(t, Declined(callId));
    SizeWithout(t.calls, callId);
    DeleteShape(claim, t, callId, t.vec);
    var r := t.(calls := t.calls - {callId});
    JournalShape(claim, CloseRelayWhenNoCall(r), Declined(callId));
    assert CloseRelayWhenNoCall(r).Noting(Declined(callId)) == CloseRelayWhenNoCall(r.Noting(Declined(callId)));
  }

  lemma LaunchInv(claim: Claim, t: Table, callId: nat, accepted: bool, env: Env)
    requires Inv(claim, t)
    ensures Inv(claim, LaunchAnswered(t, callId, accepted, env))
  {
    hide Inv, Books, Shape, CloseRelayWhenNoCall;
    if callId in t.calls {
      NotingInv(claim, t, Sent(callId, InviteResponse(SUCC)));
      NotingInv(claim, t, Sent(callId, InviteResponse(PEER_REFUSE)));
      var r := SendInviteResponse(t, callId, if accepted then SUCC else PEER_REFUSE, env);
      if accepted {
        ChangeInv(claim, r, callId, r.calls[callId].(state := RUNNING));
      } else {
        DeclineInv(claim, r, callId);
      }
    }
  }

  // ---------------------------------------------------------------- waking the calls that waited for the relay

  ghost predicate Waits(t: Table, id: nat) {
    id in t.calls && t.calls[id].state == WAIT_CALL_ONLAUNCHED && !t.calls[id].creator
  }

  /** The same calls in other states, and the same relay. */
  ghost predicate SameCalls(t: Table, r: Table) {
    && r.calls.Keys == t.calls.Keys && r == t.(calls := r.calls, journal := r.journal)
    && forall id | id in t.calls :: r.calls[id].creator == t.calls[id].creator
                                    && (r.calls[id].state == WAIT_CALL_ONLAUNCHED ==> r.calls[id] == t.calls[id])
  }

  ghost predicate Woken(t: Table, r: Table, id: nat) {
    Books(r) && SameCalls(t, r) && !Waits(r, id) && forall k | Waits(r, k) :: Waits(t, k)
  }

  lemma WakeChanged(t: Table, id: nat, e: Entry, state: CallState)
    requires Books(t) && id in t.calls && Weight(e) == 0 && state != WAIT_CALL_ONLAUNCHED
    ensures Woken(t, SetState(t, id, state).Noting(e), id)
  {
    hide Books;
    ChangeBooks(t, id, t.calls[id].(state := state));
    NeutralBooks(SetState(t, id, state), e);
  }

  lemma WakeOneFacts(t: Table, id: nat, env: Env)
    requires Books(t)
    ensures Woken(t, WakeOne(t, id, env), id)
  {
    hide Books, Woken, SetState;
    if id !in t.calls {
      WokenSelf(t, id);
    } else if Waits(t, id) {
      WakeChanged(t, id, Launched(id), WAIT_INVITEE_RESPONSE);
    } else if t.calls[id].state == WAIT_SEND_CREATE_REQUEST && t.calls[id].creator && CanRequest(t, env) {
      NotedFirst(t, id, Sent(id, CreateRequest), WAIT_CREATE_RESPONSE);
      WakeChanged(t, id, Sent(id, CreateRequest), WAIT_CREATE_RESPONSE);
    } else if t.calls[id].state == WAIT_SEND_UPDATE_REQUEST && CanRequest(t, env) {
      NotedFirst(t, id, Sent(id, UpdateRequest), WAIT_UPDATE_RESPONSE);
      WakeChanged(t, id, Sent(id, UpdateRequest), WAIT_UPDATE_RESPONSE);
    } else {
      WokenSelf(t, id);
    }
  }

  lemma NotedFirst(t: Table, id: nat, e: Entry, state: CallState)
    requires id in t.calls
    ensures SetState(t.Noting(e), id, state) == SetState(t, id, state).Noting(e)
  {
  }

  lemma WokenSelf(t: Table, id: nat)
    requires Books(t) && !Waits(t, id)
    ensures Woken(t, t, id)
  {
    hide Books;
  }

  lemma {:induction false} WakeFacts(t: Table, ids: seq<nat>, env: Env)
    requires Books(t)
    ensures var r := Wake(t, ids, env);
            Books(r) && SameCalls(t, r) && (forall id | id in ids :: !Waits(r, id))
            && forall k | Waits(r, k) :: Waits(t, k)
    decreases |ids|
  {
    hide Books, WakeOne;
    if ids != [] {
      var front, last := ids[..|ids| - 1], ids[|ids| - 1];
      WakeFacts(t, front, env);
      WakeOneFacts(Wake(t, front, env), last, env);
      assert forall id | id in ids :: id in front || id == last;
    }
  }

  lemma BoundInv(claim: Claim, t: Table, env: Env)
    requires Inv(claim, t) && (claim.linked ==> t.relayConnId != 0)
    ensures Inv(claim, RelayBound(t, env))
  {
    hide Balance, Total, Wake;
    var b := t.(bound := true, link := SUCC_CREATED);
    assert Books(b);
    hide Books;
    WakeFacts(b, t.vec, env);
    var r := Wake(b, t.vec, env);
    assert |r.calls| == |t.calls| by { assert |r.calls.Keys| == |t.calls.Keys|; }
    assert forall id | id in r.calls :: id in t.vec && !Waits(r, id);
  }

  // ---------------------------------------------------------------- failures and timeouts

  lemma {:induction false} NeutralList(t: Table, es: seq<Entry>)
    requires Books(t) && forall e | e in es :: Weight(e) == 0
    ensures Books(t.(journal := t.journal + es))
    decreases |es|
  {
    hide Books, Weight;
    if es == [] {
      assert t.journal + es == t.journal;
    } else {
      var front, last := es[..|es| - 1], es[|es| - 1];
      NeutralList(t, front);
      NeutralBooks(t.(journal := t.journal + front), last);
      assert t.journal + es == t.journal + front + [last];
    }
  }

  lemma {:induction false} FarewellsSent(calls: map<nat, Session>, ids: seq<nat>, failure: Failure)
    ensures forall e | e in Farewells(calls, ids, failure) :: e.Sent?
  {
    if ids != [] { FarewellsSent(calls, ids[..|ids| - 1], failure); }
  }

  /** The calls that are listed. */
  function Listed(calls: map<nat, Session>, ids: seq<nat>): set<nat> { set id | id in ids && id in calls }

  /** Clearing ends every listed call once. */
  lemma {:induction false} ClearingsCount(t: Table, calls: map<nat, Session>, ids: seq<nat>)
    ensures var j := t.journal + Clearings(calls, ids);
            && Total(j) == Total(t.journal) - |Listed(calls, ids)|
            && forall callId :: Balance(j, callId)
                                == Balance(t.journal, callId) - if callId in Listed(calls, ids) then 1 else 0
  {
    hide Balance, Total;
    if ids == [] {
      assert t.journal + Clearings(calls, ids) == t.journal;
    } else {
      var front, id := ids[..|ids| - 1], ids[|ids| - 1];
      ClearingsCount(t, calls, front);
      var r := t.(journal := t.journal + Clearings(calls, front));
      assert ids == front + [id];
      if id in calls && id !in front {
        NotingBooks(r, Cleared(id));
        assert t.journal + Clearings(calls, ids) == r.Noting(Cleared(id)).journal;
        assert Listed(calls, ids) == Listed(calls, front) + {id};
      } else {
        assert t.journal + Clearings(calls, ids) == r.journal;
        assert Listed(calls, ids) == Listed(calls, front);
      }
    }
  }

  lemma ClearBooks(t: Table)
    requires Books(t) && forall id | id in t.calls :: id in t.vec
    ensures Books(Clear(t))
  {
    hide Balance, Total, Clearings;
    ClearingsCount(t, t.calls, t.vec);
    assert Listed(t.calls, t.vec) == t.calls.Keys;
    assert |t.calls.Keys| == |t.calls|;
  }

  /** Whatever the link was, a failure leaves it in order, and the books balanced. */
  lemma FailInv(claim: Claim, t: Table, failure: Failure)
    requires Inv(claim, t) && Fails(t, failure)
    ensures Inv(Claim(true, true), FailRelay(t, failure))
  {
    hide Balance, Total, Clearings, Farewells;
    var es := Farewells(t.calls, t.vec, failure);
    FarewellsSent(t.calls, t.vec, failure);
    NeutralList(t, es);
    ClearBooks(t.(journal := t.journal + es));
    assert Books(FailRelay(t, failure));
  }

  lemma EndedBooks(t: Table, id: nat, why: Reason)
    requires Books(t) && id in t.calls
    ensures Books(Ended(t, id, why)) && |Ended(t, id, why).calls| == |t.calls| - 1
  {
    hide Balance, Total;
    SizeWithout(t.calls, id);
    if WasConnected(t.calls[id]) {
      NotingBooks(t, Sent(id, ByeRequest));
      NotingBooks(t.Noting(Sent(id, ByeRequest)), OnClosed(id));
      assert t.journal + [Sent(id, ByeRequest), OnClosed(id)] == t.journal + [Sent(id, ByeRequest)] + [OnClosed(id)];
    } else {
      NotingBooks(t, Reports(t.calls[id], id, why)[0]);
    }
  }

  /** What a scan leaves: fewer calls, each as it was and still listed, and nothing else changed. */
  ghost predicate Fewer(t: Table, ids: seq<nat>, u: Table) {
    && u == t.(calls := u.calls, vec := u.vec, journal := u.journal) && |u.calls| <= |t.calls|
    && forall id | id in u.calls :: id in t.calls && u.calls[id] == t.calls[id] && (id in ids ==> id in u.vec)
  }

  lemma FewerEnded(t: Table, ids: seq<nat>, u: Table, id: nat, why: Reason)
    requires Fewer(t, ids, u) && id in u.calls
    ensures Fewer(t, ids + [id], Ended(u, id, why))
  {
    hide Reports;
    SizeWithout(u.calls, id);
  }

  lemma FewerKept(t: Table, ids: seq<nat>, u: Table, id: nat)
    requires Fewer(t, ids, u)
    ensures Fewer(t, ids + [id], u.(vec := u.vec + [id]))
  {
  }

  lemma NoFewer(t: Table)
    ensures Fewer(t, [], t.(vec := []))
  {
  }

  lemma {:induction false} ScanFacts(t: Table, ids: seq<nat>, why: Reason)
    requires Books(t)
    ensures Books(Scan(t, ids, why)) && Fewer(t, ids, Scan(t, ids, why))
    decreases |ids|
  {
    hide Books, Fewer, Ended;
    if ids == [] {
      SameBooks(t, t.(vec := []));
      NoFewer(t);
    } else {
      var front, id := ids[..|ids| - 1], ids[|ids| - 1];
      ScanFacts(t, front, why);
      var u := Scan(t, front, why);
      assert ids == front + [id];
      if Hits(u, id, why) {
        EndedBooks(u, id, why);
        FewerEnded(t, front, u, id, why);
      } else {
        SameBooks(u, u.(vec := u.vec + [id]));
        FewerKept(t, front, u, id);
      }
    }
  }

  lemma SameBooks(t: Table, u: Table)
    requires Books(t) && u.calls == t.calls && u.journal == t.journal
    ensures Books(u)
  {
    hide Balance, Total;
  }

  lemma ScanInv(claim: Claim, t: Table, expired: set<nat>)
    requires Inv(claim, t)
    ensures Inv(claim, ScanCalls(t, expired))
  {
    hide Books, Scan;
    if t.calls != map[] {
      ScanFacts(t, t.vec, Expired(expired));
      var u := Scan(t, t.vec, Expired(expired));
      SameBooks(u, ScanCalls(t, expired));
      assert |u.calls| == 0 <==> u.calls == map[];
    }
  }

  lemma ResetInv(claim: Claim, t: Table)
    requires Inv(claim, t)
    ensures Inv(claim.(kept := false), ResetRelay(t))
  {
    hide Balance, Total;
  }

  lemma UnreachableInv(claim: Claim, t: Table, direct: set<nat>)
    requires Inv(claim, t) && t.relayConnId == 0
    ensures Inv(claim, Scan(t, t.vec, Unreachable(direct)))
  {
    hide Books, Scan;
    ScanFacts(t, t.vec, Unreachable(direct));
    assert |t.calls| == 0 <==> t.calls == map[];
  }

  lemma LoseInv(claim: Claim, t: Table, relay: bool, direct: set<nat>)
    requires Inv(claim, t)
    ensures Inv(claim.(kept := claim.kept && !(relay && t.relayConnId != 0)), LoseConn(t, relay, direct))
  {
    hide Inv, Scan;
    if relay && t.relayConnId != 0 {
      ResetInv(claim, t);
      UnreachableInv(claim.(kept := false), ResetRelay(t), direct);
    } else if t.relayConnId == 0 {
      UnreachableInv(claim, t, direct);
    }
  }

  // ---------------------------------------------------------------- every run

  lemma RaiseInv(claim: Claim, t: Table, more: nat)
    requires Inv(claim, t)
    ensures Inv(claim, t.(maxCallNum := t.maxCallNum + more))
  {
  }

  /** A bind response without a connection spoils the link, the loss of a connection leaves its calls without one. */
  function ClaimAfter(claim: Claim, t: Table, e: Event): Claim {
    if e.RelayFailed? && Fails(t, e.failure) then Claim(true, true)
    else Claim(claim.linked && (e.BoundByRelay? ==> t.relayConnId != 0),
               claim.kept && !(e.ConnLost? && e.relay && t.relayConnId != 0))
  }

  lemma NextInv(claim: Claim, t: Table, e: Event)
    requires Inv(claim, t)
    ensures Inv(ClaimAfter(claim, t, e), Next(t, e))
  {
    hide Books, Linked, HandleSignal, Dial, Close, LaunchAnswered, RelayBound, ScanCalls, FailRelay, LoseConn;
    match e
    case Arrived(m, p2p, env) => SignalInv(claim, t, m, p2p, env);
    case Dialled(callId, to, appContent, ready, env) => DialInv(claim, t, callId, to, appContent, ready, env);
    case ClosedByUser(callId) => CloseInv(claim, t, callId);
    case LaunchReturned(callId, accepted, env) => LaunchInv(claim, t, callId, accepted, env);
    case BoundByRelay(env) => BoundInv(ClaimAfter(claim, t, e), t, env);
    case RelayFailed(failure) => if Fails(t, failure) { FailInv(claim, t, failure); } else { NotFailed(t, failure); }
    case ConnLost(relay, direct) => LoseInv(claim, t, relay, direct);
    case CallsScanned(expired) => ScanInv(claim, t, expired);
    case LimitRaised(more) => RaiseInv(claim, t, more);
  }

  lemma NotFailed(t: Table, failure: Failure)
    requires !Fails(t, failure)
    ensures FailRelay(t, failure) == t
  {
  }

  /** Since the last failure, no bind response arrived while there was no relay connection. */
  ghost predicate Timely(limit: nat, events: seq<Event>) {
    events != [] ==>
      var front, last := events[..|events| - 1], events[|events| - 1];
      var t := Run(limit, front);
      || (last.RelayFailed? && Fails(t, last.failure))
      || (Timely(limit, front) && (last.BoundByRelay? ==> t.relayConnId != 0))
  }

  /** Since a loss of the connection there have been calls, and no connection. */
  ghost predicate Orphaned(limit: nat, events: seq<Event>) {
    events != [] &&
    var front, last := events[..|events| - 1], events[|events| - 1];
    && !Kept(Run(limit, events))
    && (Orphaned(limit, front) || (last.ConnLost? && last.relay && Run(limit, front).relayConnId != 0))
  }

  /**
   * In every run: each call's insertions less its terminal callbacks, refused launches and clearings are 1
   * while it is in the table and 0 otherwise, over all calls the difference is the size of the table, the limit
   * holds and the list covers the map. If no bind response came too late: the relay link is in order, and
   * there is a connection exactly while there are calls, unless they have lost it.
   */
  lemma {:induction false} RunInv(limit: nat, events: seq<Event>)
    ensures Inv(Claim(Timely(limit, events), !Orphaned(limit, events)), Run(limit, events))
    decreases |events|
  {
    hide Next, Books, Linked, Kept, Fails;
    if events == [] {
      StartInv(Claim(true, true), limit);
    } else {
      var front, last := events[..|events| - 1], events[|events| - 1];
      RunInv(limit, front);
      NextInv(Claim(Timely(limit, front), !Orphaned(limit, front)), Run(limit, front), last);
    }
  }

  lemma StartInv(claim: Claim, limit: nat)
    ensures Inv(claim, Table(map[], [], 0, NOT_CREATED, false, limit, []))
  {
  }

  // ---------------------------------------------------------------- a bind response that comes too late

  /** A link that counts as created without a connection. */
  ghost predicate Stuck(t: Table) { t.relayConnId == 0 && t.link == SUCC_CREATED }

  lemma WakeLink(t: Table, ids: seq<nat>, env: Env)
    ensures var r := Wake(t, ids, env); r.relayConnId == t.relayConnId && r.link == t.link
    decreases |ids|
  {
  }

  lemma ScanLink(t: Table, ids: seq<nat>, why: Reason)
    ensures var r := Scan(t, ids, why); r.relayConnId == t.relayConnId && r.link == t.link
    decreases |ids|
  {
  }

  lemma StuckSignal(t: Table, m: RTSMessage, p2p: bool, env: Env)
    requires Stuck(t)
    ensures Stuck(HandleSignal(t, m, p2p, env))
  {
    hide RemoveFirst, FindMember;
  }

  lemma StuckOwn(t: Table, e: Event)
    requires Stuck(t) && (e.Dialled? || e.ClosedByUser? || e.LaunchReturned? || e.LimitRaised?)
    ensures Stuck(Next(t, e))
  {
    hide RemoveFirst, FindMember, SameCall, HandleSignal, RelayBound, FailRelay, ScanCalls, LoseConn;
  }

  /**
   * Only a reported failure mends it: otherwise no connection is created for a link that counts as created,
   * none is there to be closed or lost, and none is being created that could take too long.
   */
  lemma StuckStays(t: Table, e: Event)
    requires Stuck(t)
    ensures Stuck(Next(t, e)) <==> !(e.RelayFailed? && e.failure.Reported?)
  {
    hide HandleSignal, Dial, Close, LaunchAnswered, Wake, Scan, Clear, Farewells;
    match e
    case Arrived(m, p2p, env) => StuckSignal(t, m, p2p, env);
    case BoundByRelay(env) => WakeLink(t.(bound := true, link := SUCC_CREATED), t.vec, env);
    case CallsScanned(expired) => ScanLink(t, t.vec, Expired(expired));
    case ConnLost(relay, direct) => ScanLink(t, t.vec, Unreachable(direct));
    case RelayFailed(failure) =>
    case _ => StuckOwn(t, e);
  }

  /** From a late bind response on the link is stuck until a failure is reported. */
  lemma {:induction false} LateIsStuck(limit: nat, events: seq<Event>)
    requires !Timely(limit, events)
    ensures Stuck(Run(limit, events))
    decreases |events|
  {
    hide Next;
    var front, last := events[..|events| - 1], events[|events| - 1];
    if !Timely(limit, front) {
      LateIsStuck(limit, front);
      StuckStays(Run(limit, front), last);
    } else {
      LateBind(Run(limit, front), last.env);
    }
  }

  lemma LateBind(t: Table, env: Env)
    requires t.relayConnId == 0
    ensures Stuck(Next(t, BoundByRelay(env)))
  {
    WakeLink(t.(bound := true, link := SUCC_CREATED), t.vec, env);
  }

  /**
   * The relay link at the end of any run, exactly: the connection id and the link state agree if and only if
   * no bind response came too late since the last failure; and there is a connection exactly while there are
   * calls if and only if, besides, they have not lost it, or there are no calls.
   */
  lemma RelayExactly(limit: nat, events: seq<Event>)
    ensures var (t, timely) := (Run(limit, events), Timely(limit, events));
            && ((t.relayConnId != 0 <==> t.link != NOT_CREATED) <==> timely)
            && ((t.relayConnId != 0 <==> t.calls != map[])
                <==> (timely && !Orphaned(limit, events)) || t.calls == map[])
  {
    hide Run, Timely, Books;
    RunInv(limit, events);
    if !Timely(limit, events) {
      LateIsStuck(limit, events);
    }
  }

  /** After a late bind response every invitation that is taken, and every call that is dialled, has no relay. */
  lemma CallsWithoutRelay(limit: nat, events: seq<Event>, e: Event)
    requires !Timely(limit, events) && (e.Arrived? || e.Dialled?)
    ensures var (was, t) := (Run(limit, events), Run(limit, events + [e]));
            && t.relayConnId == 0 && t.link == SUCC_CREATED
            && (e.Arrived? && e.message.signal.InviteRequest? && Judge(was, e.message, e.env).Taken?
                ==> e.message.callId in t.calls)
            && (e.Dialled? && Dial(was, e.callId, e.to, e.appContent, e.ready, e.env).1 != 0
                ==> e.callId in t.calls && t.calls[e.callId].state == WAIT_CREATE_RESPONSE)
  {
    hide Next, Judge, Dial;
    assert (events + [e])[..|events|] == events;
    LateIsStuck(limit, events);
    StuckStays(Run(limit, events), e);
    if e.Dialled? {
      NextDial(Run(limit, events), e);
    } else if e.message.signal.InviteRequest? {
      NextInvite(Run(limit, events), e);
    }
  }

  lemma NextInvite(t: Table, e: Event)
    requires e.Arrived? && e.message.signal.InviteRequest?
    ensures Judge(t, e.message, e.env).Taken? ==> e.message.callId in Next(t, e).calls
  {
    hide Judge, FindMember, CreateRelay;
    var m := e.message;
    if Judge(t, m, e.env).Taken? { MemberFound(t, m, e.env); }
  }

  lemma MemberFound(t: Table, m: RTSMessage, env: Env)
    requires m.signal.InviteRequest? && Judge(t, m, env).Taken?
    ensures FindMember(m.signal.members, m.uuid) != []
  {
  }

  lemma NextDial(t: Table, e: Event)
    requires e.Dialled? && Stuck(t)
    ensures Dial(t, e.callId, e.to, e.appContent, e.ready, e.env).1 != 0 ==>
              e.callId in Next(t, e).calls && Next(t, e).calls[e.callId].state == WAIT_CREATE_RESPONSE
  {
    hide SameCall;
  }

  lemma RunFour(limit: nat, a: Event, b: Event, c: Event, d: Event)
    ensures var t := Run(limit, []);
            && Run(limit, [a, b]) == Next(Next(t, a), b)
            && Run(limit, [a, b, c, d]) == Next(Next(Next(Next(t, a), b), c), d)
    ensures c.BoundByRelay? && d.Arrived? && Run(limit, [a, b]).relayConnId == 0 ==> !Timely(limit, [a, b, c, d])
  {
    hide Next;
    var events := [a, b, c, d];
    assert events[..3] == [a, b, c] && [a, b, c][..2] == [a, b] && [a, b][..1] == [a] && [a][..0] == [];
    assert Run(limit, [a]) == Next(Run(limit, []), a);
    assert Run(limit, [a, b, c]) == Next(Run(limit, [a, b]), c);
    assert d.Arrived? && Timely(limit, events) ==> Timely(limit, [a, b, c]);
  }

  const PEER: UserInfo := UserInfo(1, 2, "peer", "r")
  const REACHABLE: Env := Env(true, 7)
  const INVITE: Event := Arrived(RTSMessage(5, 2, true, InviteRequest(true, true, [PEER], "")), false, REACHABLE)

  lemma DialAndClose()
    ensures var t := Next(Next(Run(1, []), Dialled(4, PEER, "", true, REACHABLE)), ClosedByUser(4));
            t == Table(map[], [], 0, NOT_CREATED, false, 1, [Inserted(4), OnClosed(4)])
  {
    var t0 := Table(map[], [], 0, NOT_CREATED, false, 1, []);
    assert Run(1, []) == t0;
    var waiting := Session(PEER, true, WAIT_SEND_CREATE_REQUEST, true, "");
    var t1 := Table(map[4 := waiting], [4], 7, BEING_CREATED, false, 1, [Inserted(4)]);
    assert Next(t0, Dialled(4, PEER, "", true, REACHABLE)) == t1;
    assert t1.calls - {4} == map[] && RemoveFirst([4], 4) == [];
  }

  /** Such a run: a call is dialled and closed, the relay answers after that, and an invitation arrives. */
  lemma LateBindRun()
    ensures var events := [Dialled(4, PEER, "", true, REACHABLE), ClosedByUser(4), BoundByRelay(REACHABLE), INVITE];
            var t := Run(1, events);
            t.relayConnId == 0 && t.calls.Keys == {5} && !Timely(1, events)
  {
    var t2 := Table(map[], [], 0, NOT_CREATED, false, 1, [Inserted(4), OnClosed(4)]);
    var t3 := t2.(bound := true, link := SUCC_CREATED);
    assert Next(t2, BoundByRelay(REACHABLE)) == t3;
    assert FindMember([PEER], 2) == [PEER];
    assert Next(t3, INVITE).calls.Keys == {5};
    assert Next(t3, INVITE).relayConnId == 0;
    hide Next;
    DialAndClose();
    RunFour(1, Dialled(4, PEER, "", true, REACHABLE), ClosedByUser(4), BoundByRelay(REACHABLE), INVITE);
  }
}
