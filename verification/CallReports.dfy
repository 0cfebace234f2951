/** What is said about a call: its end to the application, answers and refusals to its peer. */
module CallReports {
  import opened CallTable
  import opened CallLaws

  // ---------------------------------------------------------------- leaving the table, refusing a call

  /** How often an entry list reports the end of a call. */
  function Ends(es: seq<Entry>, callId: nat): nat {
    if es == [] then 0 else
      Ends(es[..|es| - 1], callId) + if es[|es| - 1].callId == callId && Weight(es[|es| - 1]) == -1 then 1 else 0
  }

  /** One signal: what it adds to the journal, and whose end that is. */
  ghost predicate EndsMatch(t: Table, r: Table, news: seq<Entry>) {
    && r.journal == t.journal + news
    && forall callId :: Ends(news, callId) == if callId in t.calls && callId !in r.calls then 1 else 0
  }

  lemma NoEnd(t: Table, r: Table, news: seq<Entry>)
    requires r.journal == t.journal + news && (forall e | e in news :: Weight(e) != -1) && t.calls.Keys <= r.calls.Keys
    ensures EndsMatch(t, r, news)
  {
    forall callId ensures Ends(news, callId) == 0 { NoEnds(news, callId); }
  }

  lemma {:induction false} NoEnds(news: seq<Entry>, callId: nat)
    requires forall e | e in news :: Weight(e) != -1
    ensures Ends(news, callId) == 0
  {
    if news != [] { NoEnds(news[..|news| - 1], callId); }
  }

  lemma OneEnd(t: Table, r: Table, front: seq<Entry>, e: Entry)
    requires r.journal == t.journal + (front + [e]) && (forall f | f in front :: Weight(f) != -1) && Weight(e) == -1
    requires e.callId in t.calls && r.calls == t.calls - {e.callId}
    ensures EndsMatch(t, r, front + [e])
  {
    forall callId ensures Ends(front + [e], callId) == if callId == e.callId then 1 else 0 {
      NoEnds(front, callId);
      assert (front + [e])[..|front|] == front;
    }
  }

  lemma DropEnds(t: Table, callId: nat, front: seq<Entry>, e: Entry)
    requires callId in t.calls && e.callId == callId && Weight(e) == -1 && forall f | f in front :: Weight(f) != -1
    ensures EndsMatch(t, Drop(t.(journal := t.journal + front), callId, e), front + [e])
  {
    hide EndsMatch, RemoveFirst;
    OneEnd(t, Drop(t.(journal := t.journal + front), callId, e), front, e);
  }

  /**
   * An invitation is either refused with exactly one INVITE_RESPONSE (none if there is no local address),
   * and nothing else changes; or it is taken without one, and the call is in the table afterwards.
   */
  lemma RefusedInvite(t: Table, m: RTSMessage, env: Env) returns (news: seq<Entry>)
    requires m.signal.InviteRequest?
    ensures var r := HandleInvite(t, m, env);
            && r.journal == t.journal + news && t.calls.Keys <= r.calls.Keys
            && (forall e | e in news :: Weight(e) != -1)
            && match Judge(t, m, env)
               case Refused(result) =>
                 && news == (if env.localInfo then [Sent(m.callId, InviteResponse(result))] else [])
                 && r == t.(journal := t.journal + news) && result != SUCC
               case Taken =>
                 && m.callId in r.calls && (m.callId in t.calls ==> r.calls == t.calls)
                 && forall e | e in news :: !e.Sent?
  {
    match Judge(t, m, env)
    case Refused(result) =>
      news := if env.localInfo then [Sent(m.callId, InviteResponse(result))] else [];
    case Taken =>
      news := (if m.callId in t.calls then [] else [Inserted(m.callId)])
              + if t.link == SUCC_CREATED then [Launched(m.callId)] else [];
  }

  /** A signal ends a call by exactly one terminal callback for it, and reports no end of any other call. */
  lemma SignalEnds(t: Table, m: RTSMessage, p2p: bool, env: Env) returns (news: seq<Entry>)
    ensures EndsMatch(t, HandleSignal(t, m, p2p, env), news)
  {
    hide EndsMatch, HandleInvite, Judge, Drop, Answered;
    var r, id := HandleSignal(t, m, p2p, env), m.callId;
    news := [];
    if m.signal.InviteRequest? {
      news := RefusedInvite(t, m, env);
      NoEnd(t, r, news);
    } else if id !in t.calls {
      NoEnd(t, r, []);
    } else if m.signal.CreateResponse? || m.signal.ByeResponseSignal?
              || (m.signal.ByeRequestSignal? && m.signal.parses) {
      news := EndingSignal(t, m, p2p, env);
    } else {
      news := UpdatingSignal(t, m, p2p, env);
    }
  }

  lemma EndingSignal(t: Table, m: RTSMessage, p2p: bool, env: Env) returns (news: seq<Entry>)
    requires m.callId in t.calls
    requires m.signal.CreateResponse? || m.signal.ByeResponseSignal? || (m.signal.ByeRequestSignal? && m.signal.parses)
    ensures EndsMatch(t, HandleSignal(t, m, p2p, env), news)
  {
    hide EndsMatch, Drop;
    var r, id := HandleSignal(t, m, p2p, env), m.callId;
    assert t.(journal := t.journal + []) == t;
    if m.signal.ByeRequestSignal? {
      news := [Sent(id, ByeResponse(SUCC))] + [OnClosed(id)];
      DropEnds(t, id, [Sent(id, ByeResponse(SUCC))], OnClosed(id));
    } else if r == t {
      news := [];
      NoEnd(t, t, []);
    } else if m.signal.ByeResponseSignal? {
      news := [] + [OnClosed(id)];
      DropEnds(t, id, [], OnClosed(id));
    } else if r == Answered(t, m, p2p).Noting(OnAnswered(id, true)) {
      news := [OnAnswered(id, true)];
      NoEnd(t, r, news);
    } else {
      news := [] + [OnAnswered(id, false)];
      DropEnds(t, id, [], OnAnswered(id, false));
    }
  }

  lemma UpdatingSignal(t: Table, m: RTSMessage, p2p: bool, env: Env) returns (news: seq<Entry>)
    requires m.callId in t.calls
    requires m.signal.UpdateRequestSignal? || m.signal.UpdateResponseSignal?
             || (m.signal.ByeRequestSignal? && !m.signal.parses)
    ensures EndsMatch(t, HandleSignal(t, m, p2p, env), news)
  {
    hide EndsMatch;
    var r, id := HandleSignal(t, m, p2p, env), m.callId;
    news := if m.signal.UpdateResponseSignal? then [] else [r.journal[|r.journal| - 1]];
    NoEnd(t, r, news);
  }

  // ---------------------------------------------------------------- timeouts end calls, failures clear them

  lemma {:induction false} EndsAppend(a: seq<Entry>, b: seq<Entry>, callId: nat)
    ensures Ends(a + b, callId) == Ends(a, callId) + Ends(b, callId)
    decreases |b|
  {
    if b == [] {
      assert a + b == a;
    } else {
      assert (a + b)[..|a + b| - 1] == a + b[..|b| - 1];
      EndsAppend(a, b[..|b| - 1], callId);
    }
  }

  lemma EndedEnds(t: Table, id: nat, why: Reason) returns (news: seq<Entry>)
    requires id in t.calls
    ensures EndsMatch(t, Ended(t, id, why), news) && news == Reports(t.calls[id], id, why)
  {
    hide EndsMatch;
    news := Reports(t.calls[id], id, why);
    var front, last := news[..|news| - 1], news[|news| - 1];
    assert news == front + [last];
    OneEnd(t, Ended(t, id, why), front, last);
  }

  /** Every entry is what is said about a call that is hit. */
  ghost predicate OnlySaid(t: Table, ids: seq<nat>, why: Reason, news: seq<Entry>) {
    forall e | e in news :: e.callId in ids && Hits(t, e.callId, why)
                            && e in Reports(t.calls[e.callId], e.callId, why)
  }

  lemma {:induction false} ScanEnds(t: Table, ids: seq<nat>, why: Reason) returns (news: seq<Entry>)
    ensures var u := Scan(t, ids, why);
            && EndsMatch(t, u, news) && OnlySaid(t, ids, why, news)
            && (forall id | id in u.calls :: id in t.calls && u.calls[id] == t.calls[id])
            && forall id | id in t.calls :: id !in u.calls <==> id in ids && Hits(t, id, why)
    decreases |ids|
  {
    hide Ends, Reports;
    news := [];
    if ids == [] {
      NoEnd(t, Scan(t, ids, why), []);
    } else {
      var front, id := ids[..|ids| - 1], ids[|ids| - 1];
      assert ids == front + [id];
      news := ScanEnds(t, front, why);
      var u := Scan(t, front, why);
      if Hits(u, id, why) {
        var more := EndedEnds(u, id, why);
        ReportsAbout(u.calls[id], id, why);
        forall callId ensures Ends(news + more, callId) == Ends(news, callId) + Ends(more, callId) {
          EndsAppend(news, more, callId);
        }
        news := news + more;
      }
    }
  }

  lemma ReportsAbout(s: Session, id: nat, why: Reason)
    ensures forall e | e in Reports(s, id, why) :: e.callId == id
  {
  }

  /**
   * A scan ends exactly the listed calls that are not running and whose time is up, each by one terminal
   * callback (a refusal for those dialled and not answered, else closing), and says nothing of any other.
   */
  lemma TimeoutsEnd(t: Table, expired: set<nat>) returns (news: seq<Entry>)
    ensures var r := ScanCalls(t, expired);
            && EndsMatch(t, r, news) && OnlySaid(t, t.vec, Expired(expired), news)
            && (forall e | e in news :: e.Sent? || e.OnClosed? || e.OnAnswered?)
            && forall id | id in t.calls :: id !in r.calls <==> id in t.vec && Hits(t, id, Expired(expired))
  {
    hide EndsMatch, Scan;
    if t.calls == map[] {
      news := [];
      NoEnd(t, t, []);
    } else {
      news := ScanEnds(t, t.vec, Expired(expired));
      SameEnds(t, Scan(t, t.vec, Expired(expired)), ScanCalls(t, expired), news);
    }
  }

  /**
   * A connection that is closed abnormally ends calls only when there is no relay connection (any more): exactly
   * the listed ones without a connection to their peer, with one callback if they were connected, else none.
   */
  lemma LossEnds(t: Table, relay: bool, direct: set<nat>) returns (news: seq<Entry>)
    ensures var r := LoseConn(t, relay, direct);
            && EndsMatch(t, r, news) && OnlySaid(t, t.vec, Unreachable(direct), news)
            && r.relayConnId == (if relay then 0 else t.relayConnId)
            && forall id | id in t.calls :: id !in r.calls <==> r.relayConnId == 0 && id in t.vec && id !in direct
  {
    hide EndsMatch, Scan;
    var u := if relay && t.relayConnId != 0 then ResetRelay(t) else t;
    if u.relayConnId != 0 {
      news := [];
      NoEnd(t, t, []);
    } else {
      news := ScanEnds(u, t.vec, Unreachable(direct));
      ScanLink(u, t.vec, Unreachable(direct));
      FromReset(t, u, Scan(u, t.vec, Unreachable(direct)), news);
    }
  }

  lemma FromReset(t: Table, u: Table, r: Table, news: seq<Entry>)
    requires EndsMatch(u, r, news) && u.journal == t.journal && u.calls == t.calls
    ensures EndsMatch(t, r, news)
  {
  }

  lemma SameEnds(t: Table, u: Table, r: Table, news: seq<Entry>)
    requires EndsMatch(t, u, news) && r.journal == u.journal && r.calls == u.calls
    ensures EndsMatch(t, r, news)
  {
  }

  lemma {:induction false} ClearingsMean(calls: map<nat, Session>, ids: seq<nat>)
    ensures forall e | e in Clearings(calls, ids) :: e.Cleared?
  {
    if ids != [] { ClearingsMean(calls, ids[..|ids| - 1]); }
  }

  lemma {:induction false} FarewellsMean(calls: map<nat, Session>, ids: seq<nat>, failure: Failure, e: Entry)
    ensures e in Farewells(calls, ids, failure)
            <==> e.callId in ids && e.callId in calls && e in Farewell(calls[e.callId], e.callId, failure)
  {
    if ids != [] {
      assert ids == ids[..|ids| - 1] + [ids[|ids| - 1]];
      FarewellsMean(calls, ids[..|ids| - 1], failure, e);
    }
  }

  /**
   * A reported failure empties the table and resets the relay, whatever they were, without any callback; of the
   * peers only those whose invitation was not answered yet are told, if there is a local address.
   */
  lemma FailureIsSilent(t: Table, env: Env) returns (news: seq<Entry>)
    ensures var r := FailRelay(t, Reported(env));
            && r == Table(map[], [], 0, NOT_CREATED, false, t.maxCallNum, t.journal + news)
            && forall e | e in news :: e.Cleared? || e.Sent?
    ensures forall id, message ::
              Sent(id, message) in news
              <==> message == InviteResponse(INVALID_OPERATION) && env.localInfo && id in t.vec && id in t.calls
                   && t.calls[id].state in {WAIT_CALL_ONLAUNCHED, WAIT_INVITEE_RESPONSE}
  {
    hide Farewells, Clearings;
    var told, cleared := Farewells(t.calls, t.vec, Reported(env)), Clearings(t.calls, t.vec);
    news := told + cleared;
    FarewellsSent(t.calls, t.vec, Reported(env));
    ClearingsMean(t.calls, t.vec);
    forall id, message
      ensures Sent(id, message) in news
              <==> message == InviteResponse(INVALID_OPERATION) && env.localInfo && id in t.vec && id in t.calls
                   && t.calls[id].state in {WAIT_CALL_ONLAUNCHED, WAIT_INVITEE_RESPONSE}
    {
      FarewellsMean(t.calls, t.vec, Reported(env), Sent(id, message));
    }
  }

  // ---------------------------------------------------------------- logging out

  lemma {:induction false} ClosingsCount(calls: map<nat, Session>, ids: seq<nat>, callId: nat)
    ensures multiset(Closings(calls, ids))[OnClosed(callId)]
            == if callId in calls && WasConnected(calls[callId]) then multiset(ids)[callId] else 0
  {
    if ids != [] {
      var front, id := ids[..|ids| - 1], ids[|ids| - 1];
      assert multiset(ids) == multiset(front) + multiset{id} by { assert ids == front + [id]; }
      ClosingsCount(calls, front, callId);
      var said := if id in calls && WasConnected(calls[id]) then [Sent(id, ByeRequest), OnClosed(id)] else [];
      assert Closings(calls, ids) == Closings(calls, front) + said;
      hide Closings, WasConnected;
      assert multiset(said)[OnClosed(callId)] == if said != [] && id == callId then 1 else 0;
    }
  }

  /**
   * Logging out leaves no call and no connection, and reports every connected call closed as often as it is
   * listed: exactly once if and only if it is listed once. The others are not reported.
   */
  lemma LogoutReports(t: Table, callId: nat) returns (news: seq<Entry>)
    ensures var r := Logout(t);
            && r.journal == t.journal + news && r.calls == map[] && r.vec == [] && r.relayConnId == 0
            && multiset(news)[OnClosed(callId)]
               == if callId in t.calls && WasConnected(t.calls[callId]) then multiset(t.vec)[callId] else 0
  {
    news := Closings(t.calls, t.vec);
    ClosingsCount(t.calls, t.vec, callId);
  }

  const INVITED: Table :=
    Table(map[5 := Session(PEER, true, WAIT_CALL_ONLAUNCHED, false, "")], [5], 7, BEING_CREATED, false, 2,
          [Inserted(5)])
  const LAUNCHED: Table :=
    Table(map[5 := Session(PEER, true, WAIT_INVITEE_RESPONSE, false, "")], [5], 7, SUCC_CREATED, true, 2,
          [Inserted(5), Launched(5)])
  const TALKING: Table :=
    Table(map[5 := Session(PEER, true, RUNNING, false, "")], [5], 7, SUCC_CREATED, true, 2,
          [Inserted(5), Launched(5), Sent(5, InviteResponse(SUCC))])

  lemma InviteTaken()
    ensures Next(Table(map[], [], 0, NOT_CREATED, false, 2, []), INVITE) == INVITED
  {
    assert FindMember([PEER], 2) == [PEER];
  }

  lemma InviteLaunched()
    ensures Next(INVITED, BoundByRelay(REACHABLE)) == LAUNCHED
  {
    var t := INVITED.(bound := true, link := SUCC_CREATED);
    assert [5][..0] == [];
    assert Wake(t, [], REACHABLE) == t;
    assert Wake(t, [5], REACHABLE) == WakeOne(t, 5, REACHABLE);
  }

  lemma InviteAnswered()
    ensures Next(LAUNCHED, LaunchReturned(5, true, REACHABLE)) == TALKING
  {
  }

  lemma InviteRepeated()
    ensures Next(TALKING, INVITE) == TALKING.(vec := [5, 5], journal := TALKING.journal + [Launched(5)])
  {
    assert FindMember([PEER], 2) == [PEER];
  }

  /** An invitation that is repeated during its call lists it twice, and logging out then reports it closed twice. */
  lemma ClosedTwice()
    ensures var t := Run(2, [INVITE, BoundByRelay(REACHABLE), LaunchReturned(5, true, REACHABLE), INVITE]);
            t.calls.Keys == {5} && t.vec == [5, 5] && multiset(Logout(t).journal)[OnClosed(5)] == 2
  {
    var t := TALKING.(vec := [5, 5], journal := TALKING.journal + [Launched(5)]);
    InviteTaken();
    InviteLaunched();
    InviteAnswered();
    InviteRepeated();
    assert Run(2, []) == Table(map[], [], 0, NOT_CREATED, false, 2, []);
    hide Next, Logout;
    RunFour(2, INVITE, BoundByRelay(REACHABLE), LaunchReturned(5, true, REACHABLE), INVITE);
    var news := LogoutReports(t, 5);
    assert Logout(t).journal == t.journal + news;
    assert multiset(t.vec)[5] == 2;
  }

  /** A connected call with a connection to its peer survives the loss of the relay, and then has none. */
  lemma LostRelayRun()
    ensures var events := [INVITE, BoundByRelay(REACHABLE), LaunchReturned(5, true, REACHABLE), ConnLost(true, {5})];
            var t := Run(2, events);
            t.relayConnId == 0 && t.calls.Keys == {5} && Timely(2, events) && Orphaned(2, events)
  {
    var bound, answered, lost := BoundByRelay(REACHABLE), LaunchReturned(5, true, REACHABLE), ConnLost(true, {5});
    InviteTaken();
    InviteLaunched();
    InviteAnswered();
    ScanFive();
    assert Next(TALKING, lost) == ResetRelay(TALKING);
    assert Run(2, []) == Table(map[], [], 0, NOT_CREATED, false, 2, []);
    hide Next;
    RunFour(2, INVITE, bound, answered, lost);
    var events := [INVITE, bound, answered, lost];
    assert events[..3] == [INVITE, bound, answered] && events[..3][..2] == [INVITE, bound]
           && [INVITE, bound][..1] == [INVITE] && [INVITE][..0] == [];
    assert Run(2, [INVITE]) == INVITED && Run(2, [INVITE, bound]) == LAUNCHED && Run(2, events[..3]) == TALKING;
    assert Timely(2, []) && Timely(2, [INVITE]) && Timely(2, [INVITE, bound]) && Timely(2, events[..3]);
  }

  lemma ScanFive()
    ensures Scan(ResetRelay(TALKING), [5], Unreachable({5})) == ResetRelay(TALKING)
  {
    var t := ResetRelay(TALKING);
    assert [5][..0] == [];
    assert Scan(t, [], Unreachable({5})) == t.(vec := []);
  }

  // ---------------------------------------------------------------- replies

  /** The messages among what a step noted. */
  function Replies(news: seq<Entry>): (r: seq<Message>) {
    if news == [] then []
    else if news[0].Sent? then [news[0].message] + Replies(news[1..]) else Replies(news[1..])
  }

  /** The answers a signal deserves. */
  ghost predicate Answers(t: Table, m: RTSMessage, env: Env, replies: seq<Message>) {
    match m.signal
    case InviteRequest(_, _, _, _) =>
      if Judge(t, m, env).Refused? && env.localInfo
      then |replies| == 1 && replies[0].InviteResponse? && replies[0].result != SUCC else replies == []
    case ByeRequestSignal(parses) =>
      if m.callId !in t.calls then replies == []
      else |replies| == 1 && replies[0].ByeResponse? && (replies[0].result == SUCC <==> parses)
    case UpdateRequestSignal(parses, user, addressed) =>
      if m.callId !in t.calls then replies == []
      else |replies| == 1 && replies[0].UpdateResponse?
           && (replies[0].result == SUCC <==> parses && user != [] && addressed)
    case _ => replies == []
  }

  lemma {:induction false} NoReplies(news: seq<Entry>)
    requires forall e | e in news :: !e.Sent?
    ensures Replies(news) == []
  {
    if news != [] { NoReplies(news[1..]); }
  }

  lemma OneReply(e: Entry, rest: seq<Entry>)
    requires e.Sent? && forall f | f in rest :: !f.Sent?
    ensures Replies([e] + rest) == [e.message]
  {
    assert ([e] + rest)[1..] == rest;
    NoReplies(rest);
  }

  /** No call but one is touched. */
  ghost predicate TouchesOnly(t: Table, r: Table, callId: nat) {
    forall id | id != callId :: (id in r.calls <==> id in t.calls) && (id in t.calls ==> r.calls[id] == t.calls[id])
  }

  /**
   * Every request on a call in the table is answered exactly once, with SUCC exactly when it was well
   * formed; responses and signals for unknown calls are never answered; a signal touches only its own call.
   */
  lemma SignalReplies(t: Table, m: RTSMessage, p2p: bool, env: Env) returns (news: seq<Entry>)
    ensures var r := HandleSignal(t, m, p2p, env);
            r.journal == t.journal + news && Answers(t, m, env, Replies(news)) && TouchesOnly(t, r, m.callId)
  {
    hide Judge, FindMember, HandleInvite, Drop, Answered, TouchesOnly;
    var r, id := HandleSignal(t, m, p2p, env), m.callId;
    if m.signal.InviteRequest? {
      news := RefusedInvite(t, m, env);
      InviteTouchesOne(t, m, env);
      if Judge(t, m, env).Taken? { NoReplies(news); }
      else if env.localInfo { OneReply(news[0], []); }
    } else if id !in t.calls {
      news := [];
      SelfTouches(t, id);
    } else if m.signal.ByeRequestSignal? {
      news := ByeReply(t, m, p2p, env);
    } else if m.signal.UpdateRequestSignal? {
      news := UpdateReply(t, m, p2p, env);
    } else {
      news := ResponseSilent(t, m, p2p, env);
      NoReplies(news);
    }
  }

  lemma SelfTouches(t: Table, callId: nat)
    ensures TouchesOnly(t, t, callId)
  {
  }

  lemma DropTouches(t: Table, callId: nat, e: Entry)
    ensures TouchesOnly(t, Drop(t, callId, e), callId) && Drop(t, callId, e).journal == t.journal + [e]
  {
    hide RemoveFirst;
  }

  lemma ByeReply(t: Table, m: RTSMessage, p2p: bool, env: Env) returns (news: seq<Entry>)
    requires m.signal.ByeRequestSignal? && m.callId in t.calls
    ensures var r := HandleSignal(t, m, p2p, env);
            r.journal == t.journal + news && Answers(t, m, env, Replies(news)) && TouchesOnly(t, r, m.callId)
  {
    hide Drop;
    var id, parses := m.callId, m.signal.parses;
    var reply := Sent(id, ByeResponse(if parses then SUCC else INTERNAL_ERROR1));
    var rest := if parses then [OnClosed(id)] else [];
    news := [reply] + rest;
    OneReply(reply, rest);
    DropTouches(t.Noting(reply), id, OnClosed(id));
    assert t.journal + [reply] + [OnClosed(id)] == t.journal + ([reply] + [OnClosed(id)]);
  }

  lemma UpdateReply(t: Table, m: RTSMessage, p2p: bool, env: Env) returns (news: seq<Entry>)
    requires m.signal.UpdateRequestSignal? && m.callId in t.calls
    ensures var r := HandleSignal(t, m, p2p, env);
            r.journal == t.journal + news && Answers(t, m, env, Replies(news)) && TouchesOnly(t, r, m.callId)
  {
    var s := m.signal;
    var result := if !s.parses then INTERNAL_ERROR1 else if s.user == [] || !s.addressed then PARAMETER_ERROR else SUCC;
    news := [Sent(m.callId, UpdateResponse(result))] + [];
    OneReply(Sent(m.callId, UpdateResponse(result)), []);
  }

  lemma ResponseSilent(t: Table, m: RTSMessage, p2p: bool, env: Env) returns (news: seq<Entry>)
    requires m.signal.CreateResponse? || m.signal.ByeResponseSignal? || m.signal.UpdateResponseSignal?
    requires m.callId in t.calls
    ensures var r := HandleSignal(t, m, p2p, env);
            r.journal == t.journal + news && TouchesOnly(t, r, m.callId) && forall e | e in news :: !e.Sent?
  {
    hide Drop, FindMember;
    var r, id := HandleSignal(t, m, p2p, env), m.callId;
    DropTouches(t, id, OnAnswered(id, false));
    DropTouches(t, id, OnClosed(id));
    if r == t || m.signal.UpdateResponseSignal? {
      news := [];
    } else if m.signal.ByeResponseSignal? {
      news := [OnClosed(id)];
    } else {
      news := [OnAnswered(id, r != Drop(t, id, OnAnswered(id, false)))];
    }
  }

  lemma InviteTouchesOne(t: Table, m: RTSMessage, env: Env)
    requires m.signal.InviteRequest?
    ensures TouchesOnly(t, HandleInvite(t, m, env), m.callId)
  {
    hide Judge, FindMember;
  }
}
