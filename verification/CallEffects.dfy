/**
 * What every signal, every action of the user and every event of the relay does to the calls, said in terms of
 * the signal's fields and the calls' states: who stays, in which state, with which peer, and what is noted.
 */
module CallEffects {
  import opened CallTable
  import opened CallLaws

  /** `u` is the first member with this uuid. */
  ghost predicate IsFirst(members: seq<UserInfo>, uuid: int, u: UserInfo) {
    exists k | 0 <= k < |members| ::
      members[k] == u && u.uuid == uuid && forall j | 0 <= j < k :: members[j].uuid != uuid
  }

  ghost predicate Knows(members: seq<UserInfo>, uuid: int) { exists u | u in members :: u.uuid == uuid }

  lemma {:induction false} FirstMember(members: seq<UserInfo>, uuid: int)
    ensures var r := FindMember(members, uuid);
            if Knows(members, uuid) then |r| == 1 && IsFirst(members, uuid, r[0]) else r == []
  {
    if members != [] {
      if members[0].uuid != uuid {
        FirstMember(members[1..], uuid);
        if Knows(members[1..], uuid) {
          var u := FindMember(members[1..], uuid)[0];
          var k :| 0 <= k < |members[1..]| && members[1..][k] == u
                   && forall j | 0 <= j < k :: members[1..][j].uuid != uuid;
          assert members[k + 1] == u;
          forall j | 0 <= j < k + 1 ensures members[j].uuid != uuid {
            assert j > 0 ==> members[j] == members[1..][j - 1];
          }
        }
      }
    }
  }

  /** The call is gone, one place in the list with it, and the relay with the last call; nothing else changed. */
  ghost predicate Gone(t: Table, r: Table, id: nat, news: seq<Entry>) {
    && r.calls == t.calls - {id} && r.journal == t.journal + news && r.maxCallNum == t.maxCallNum
    && multiset(r.vec) == multiset(t.vec) - multiset{id}
    && (if t.calls.Keys == {id} && t.relayConnId != 0
        then r.relayConnId == 0 && r.link == NOT_CREATED && !r.bound
        else r.relayConnId == t.relayConnId && r.link == t.link && r.bound == t.bound)
  }

  /** The call is now as given, and nothing else changed. */
  ghost predicate Became(t: Table, r: Table, id: nat, s: Session, news: seq<Entry>) {
    r == t.(calls := t.calls[id := s], journal := t.journal + news)
  }

  lemma {:induction false} RemoveOne(vec: seq<nat>, id: nat)
    ensures multiset(RemoveFirst(vec, id)) == multiset(vec) - multiset{id}
  {
    if vec != [] {
      assert vec == [vec[0]] + vec[1..];
      if vec[0] != id { RemoveOne(vec[1..], id); }
    }
  }

  lemma Dropped(t: Table, id: nat, e: Entry)
    requires id in t.calls
    ensures Gone(t, Drop(t, id, e), id, [e])
  {
    hide RemoveFirst;
    RemoveOne(t.vec, id);
    SizeWithout(t.calls, id);
    assert |t.calls| == 1 <==> t.calls.Keys == {id} by {
      if |t.calls.Keys| == 1 {
        assert t.calls.Keys - {id} == {};
      }
    }
  }

  // ---------------------------------------------------------------- responses to a call that was dialled

  /**
   * A CREATE_RESPONSE that parses decides the call: it is accepted if and only if the result and the error text
   * are there, there are members (two of them in a single call), and the result is success. Then it runs, with
   * the first member that has the sender's uuid as its peer if peer-to-peer is on; otherwise it is gone.
   */
  lemma CreateResponseDecides(t: Table, m: RTSMessage, p2p: bool, env: Env)
    requires m.signal.CreateResponse? && m.signal.parses && m.callId in t.calls
    ensures var (r, s, id) := (HandleSignal(t, m, p2p, env), m.signal, m.callId);
            var accepted := s.hasResult && s.hasErrMsg && s.members != [] && (m.single ==> |s.members| == 2)
                            && s.success;
            if accepted
            then id in r.calls
                 && Became(t, r, id, t.calls[id].(state := RUNNING, peer := r.calls[id].peer), [OnAnswered(id, true)])
                 && (!p2p ==> r.calls[id].peer == t.calls[id].peer)
                 && (p2p && Knows(s.members, m.uuid) ==> IsFirst(s.members, m.uuid, r.calls[id].peer))
                 && (p2p && !Knows(s.members, m.uuid) ==> r.calls[id].peer == UserInfo(0, 0, "", ""))
            else Gone(t, r, id, [OnAnswered(id, false)])
  {
    hide Drop, FindMember, IsFirst, Knows, Gone;
    FirstMember(m.signal.members, m.uuid);
    Dropped(t, m.callId, OnAnswered(m.callId, false));
  }

  /** The other signals for a call in the table, and the signals that change nothing. */
  lemma OtherSignalsDecide(t: Table, m: RTSMessage, p2p: bool, env: Env)
    requires !m.signal.InviteRequest?
    ensures var (r, s, id) := (HandleSignal(t, m, p2p, env), m.signal, m.callId);
            if id !in t.calls then r == t else
            match s
            case ByeRequestSignal(parses) =>
              if parses then Gone(t, r, id, [Sent(id, ByeResponse(SUCC)), OnClosed(id)])
              else r == t.Noting(Sent(id, ByeResponse(INTERNAL_ERROR1)))
            case ByeResponseSignal(parses, hasResult) =>
              if parses && hasResult then Gone(t, r, id, [OnClosed(id)]) else r == t
            case UpdateRequestSignal(parses, user, addressed) =>
              if parses && |user| > 0 && addressed
              then Became(t, r, id, t.calls[id].(peer := user[0]), [Sent(id, UpdateResponse(SUCC))])
              else r == t.Noting(Sent(id, UpdateResponse(if parses then PARAMETER_ERROR else INTERNAL_ERROR1)))
            case UpdateResponseSignal(parses, hasResult) =>
              if parses && hasResult then Became(t, r, id, t.calls[id].(state := RUNNING), []) else r == t
            case _ => !m.signal.parses ==> r == t
  {
    hide Drop, FindMember, Answered, Gone;
    var s, id := m.signal, m.callId;
    if id in t.calls {
      Dropped(t, id, OnClosed(id));
      if s.ByeRequestSignal? && s.parses {
        var u := t.Noting(Sent(id, ByeResponse(SUCC)));
        Dropped(u, id, OnClosed(id));
        AfterNoting(t, u, HandleSignal(t, m, p2p, env), id, Sent(id, ByeResponse(SUCC)), OnClosed(id));
      }
      assert t.journal + [] == t.journal;
    }
  }

  lemma AfterNoting(t: Table, u: Table, r: Table, id: nat, e: Entry, f: Entry)
    requires u == t.Noting(e) && Gone(u, r, id, [f])
    ensures Gone(t, r, id, [e, f])
  {
    assert t.journal + [e] + [f] == t.journal + [e, f];
  }

  // ---------------------------------------------------------------- invitations

  /** Room for a call, and a relay connection or the means to get one. */
  ghost predicate Carries(t: Table, env: Env) {
    && |t.calls| != t.maxCallNum
    && (t.link != NOT_CREATED || t.relayConnId != 0 || (env.localInfo && env.newConn != 0))
  }

  /** The relay after a call came in: a new connection only if there was neither a link nor a connection. */
  ghost predicate Carried(t: Table, r: Table, env: Env) {
    && r.bound == t.bound && r.maxCallNum == t.maxCallNum
    && if t.link == NOT_CREATED && t.relayConnId == 0
       then r.relayConnId == env.newConn && r.link == BEING_CREATED
       else r.relayConnId == t.relayConnId && r.link == t.link
  }

  /** The call is in the map (as it was, if it was), and listed once more. */
  ghost predicate CameIn(t: Table, r: Table, id: nat, s: Session, news: seq<Entry>) {
    && r.calls == (if id in t.calls then t.calls else t.calls[id := s]) && r.vec == t.vec + [id]
    && r.journal == t.journal + (if id in t.calls then [] else [Inserted(id)]) + news
  }

  /**
   * An invitation is refused for the first of these reasons that applies, with its code, and otherwise taken:
   * it comes in with the sender's entry as its peer, and is launched at once if the relay is there.
   */
  lemma InvitationDecides(t: Table, m: RTSMessage, env: Env)
    requires m.signal.InviteRequest?
    ensures var (r, s, id) := (HandleInvite(t, m, env), m.signal, m.callId);
            var reason := if !s.parses then INTERNAL_ERROR1
                          else if !s.hasStreamType || s.members == [] || !Knows(s.members, m.uuid) then PARAMETER_ERROR
                          else if |t.calls| == t.maxCallNum then PEER_REFUSE
                          else if !Carries(t, env) then PEER_OFFLINE else SUCC;
            if reason != SUCC
            then r == if env.localInfo then t.Noting(Sent(id, InviteResponse(reason))) else t
            else Carried(t, r, env)
                 && exists from ::
                      && IsFirst(s.members, m.uuid, from)
                      && CameIn(t, r, id, Session(from, m.single, if t.link == SUCC_CREATED then WAIT_INVITEE_RESPONSE
                                                                  else WAIT_CALL_ONLAUNCHED, false, s.appContent),
                                if t.link == SUCC_CREATED then [Launched(id)] else [])
  {
    hide IsFirst, Knows, FindMember;
    var s := m.signal;
    FirstMember(s.members, m.uuid);
    if s.members == [] { NobodyKnown(m.uuid); }
    if Judge(t, m, env).Taken? {
      var from := FindMember(s.members, m.uuid)[0];
      assert IsFirst(s.members, m.uuid, from);
    }
  }

  lemma NobodyKnown(uuid: int)
    ensures !Knows([], uuid) && FindMember([], uuid) == []
  {
  }

  /** The application's answer: accepted, the call runs and the peer hears SUCC; refused, it leaves the map only. */
  lemma AnswerDecides(t: Table, id: nat, accepted: bool, env: Env)
    ensures var r := LaunchAnswered(t, id, accepted, env);
            var reply := if !env.localInfo then []
                         else [Sent(id, InviteResponse(if accepted then SUCC else PEER_REFUSE))];
            if id !in t.calls then r == t
            else if accepted then Became(t, r, id, t.calls[id].(state := RUNNING), reply)
            else r.calls == t.calls - {id} && r.vec == t.vec && r.journal == t.journal + reply + [Declined(id)]
                 && r.relayConnId == (if t.calls.Keys == {id} then 0 else t.relayConnId)
  {
    if id in t.calls {
      SizeWithout(t.calls, id);
      assert |t.calls| == 1 <==> t.calls.Keys == {id} by {
        if |t.calls.Keys| == 1 { assert t.calls.Keys - {id} == {}; }
      }
      assert t.journal + [] == t.journal;
    }
  }

  // ---------------------------------------------------------------- calls of the user

  /** Someone is called already: a listed call to the same account, application and resource with the same content. */
  ghost predicate CalledAlready(t: Table, to: UserInfo, appContent: string) {
    exists id | id in t.vec && id in t.calls ::
      var s := t.calls[id];
      (s.peer.appId, s.peer.appAccount, s.peer.resource, s.appContent)
      == (to.appId, to.appAccount, to.resource, appContent)
  }

  /**
   * A call that is dialled comes in if the user is ready, there is room and a relay, and it is not made already;
   * it is requested at once if the relay is bound and waits for it otherwise. A refused one changes nothing.
   */
  lemma DialDecides(t: Table, id: nat, to: UserInfo, appContent: string, ready: bool, env: Env)
    ensures var (r, made) := Dial(t, id, to, appContent, ready, env);
            if ready && Carries(t, env) && !CalledAlready(t, to, appContent) && id !in t.calls && id != 0
            then made == id && Carried(t, r, env)
                 && CameIn(t, r, id, Session(to, true, if t.link == SUCC_CREATED then WAIT_CREATE_RESPONSE
                                                       else WAIT_SEND_CREATE_REQUEST, true, appContent),
                           if t.link == SUCC_CREATED && t.bound && env.localInfo then [Sent(id, CreateRequest)] else [])
            else made == 0 && r == t
  {
    assert SameCall(t, to, appContent) == CalledAlready(t, to, appContent) by {
      if SameCall(t, to, appContent) {
        var k :| k in t.vec && k in t.calls && t.calls[k].peer.appId == to.appId
                 && t.calls[k].peer.appAccount == to.appAccount && t.calls[k].peer.resource == to.resource
                 && t.calls[k].appContent == appContent;
        assert k in t.vec;
      }
    }
    hide SameCall, CalledAlready;
  }

  /** A call that is closed is gone; its peer is told if it was connected, and the application always. */
  lemma CloseDecides(t: Table, id: nat)
    ensures var r := Close(t, id);
            if id !in t.calls then r == t
            else Gone(t, r, id, (if t.calls[id].state in {RUNNING, WAIT_SEND_UPDATE_REQUEST, WAIT_UPDATE_RESPONSE}
                                 then [Sent(id, ByeRequest)] else []) + [OnClosed(id)])
  {
    hide Drop, Gone;
    if id in t.calls {
      var e := Sent(id, ByeRequest);
      Dropped(t, id, OnClosed(id));
      Dropped(t.Noting(e), id, OnClosed(id));
      AfterNoting(t, t.Noting(e), Drop(t.Noting(e), id, OnClosed(id)), id, e, OnClosed(id));
      assert [] + [OnClosed(id)] == [OnClosed(id)] && [e] + [OnClosed(id)] == [e, OnClosed(id)];
    }
  }

  // ---------------------------------------------------------------- the bind response

  /** Where a listed call is after the bind response, and what was noted for it. */
  function StateAfter(s: Session, local: bool): CallState {
    if s.state == WAIT_SEND_CREATE_REQUEST && s.creator && local then WAIT_CREATE_RESPONSE
    else if s.state == WAIT_CALL_ONLAUNCHED && !s.creator then WAIT_INVITEE_RESPONSE
    else if s.state == WAIT_SEND_UPDATE_REQUEST && local then WAIT_UPDATE_RESPONSE
    else s.state
  }

  function NotedFor(id: nat, was: CallState, now: CallState): seq<Entry> {
    if was == now then []
    else if now == WAIT_CREATE_RESPONSE then [Sent(id, CreateRequest)]
    else if now == WAIT_INVITEE_RESPONSE then [Launched(id)] else [Sent(id, UpdateRequest)]
  }

  /** What is noted for the listed calls, each once. */
  function MoveNews(calls: map<nat, Session>, ids: seq<nat>, local: bool): seq<Entry> {
    if ids == [] then [] else
    var (front, id) := (ids[..|ids| - 1], ids[|ids| - 1]);
    MoveNews(calls, front, local)
    + if id in calls && id !in front then NotedFor(id, calls[id].state, StateAfter(calls[id], local)) else []
  }

  /** The listed calls have moved on. */
  ghost predicate MovedOn(calls: map<nat, Session>, ids: seq<nat>, local: bool, after: map<nat, Session>) {
    && after.Keys == calls.Keys
    && forall id | id in calls ::
         after[id] == if id in ids then calls[id].(state := StateAfter(calls[id], local)) else calls[id]
  }

  /**
   * A successful bind response, for any table: every listed call that was dialled and waits is requested, once,
   * every listed invitation that waits is launched, once, every listed call that waits for its update is updated,
   * once; requests need a local address. No other call changes, and nothing else is noted.
   */
  lemma BindDecides(t: Table, env: Env) returns (news: seq<Entry>)
    ensures var r := RelayBound(t, env);
            && r == t.(bound := true, link := SUCC_CREATED, calls := r.calls, journal := t.journal + news)
            && MovedOn(t.calls, t.vec, env.localInfo, r.calls)
    ensures forall e :: multiset(news)[e]
                        == if e.callId in t.vec && e.callId in t.calls
                              && var s := t.calls[e.callId];
                                 e in NotedFor(e.callId, s.state, StateAfter(s, env.localInfo))
                           then 1 else 0
  {
    hide MovedOn, StateAfter, NotedFor;
    WakeMoves(t.(bound := true, link := SUCC_CREATED), t.vec, env);
    news := MoveNews(t.calls, t.vec, env.localInfo);
    forall e ensures multiset(news)[e] == if e.callId in t.vec && e.callId in t.calls
                                             && var s := t.calls[e.callId];
                                                e in NotedFor(e.callId, s.state, StateAfter(s, env.localInfo))
                                          then 1 else 0
    {
      MoveCount(t.calls, t.vec, env.localInfo, e);
    }
  }

  lemma {:induction false} MoveCount(calls: map<nat, Session>, ids: seq<nat>, local: bool, e: Entry)
    ensures multiset(MoveNews(calls, ids, local))[e]
            == if e.callId in ids && e.callId in calls
                  && e in NotedFor(e.callId, calls[e.callId].state, StateAfter(calls[e.callId], local)) then 1 else 0
  {
    hide StateAfter, NotedFor;
    if ids != [] {
      var front, id := ids[..|ids| - 1], ids[|ids| - 1];
      assert forall k :: k in ids <==> k in front || k == id;
      MoveCount(calls, front, local, e);
      if id in calls { NotedOnce(id, calls[id].state, StateAfter(calls[id], local), e); }
      var said := if id in calls && id !in front then NotedFor(id, calls[id].state, StateAfter(calls[id], local))
                  else [];
      assert MoveNews(calls, ids, local) == MoveNews(calls, front, local) + said;
      hide MoveNews;
    }
  }

  lemma NotedOnce(id: nat, was: CallState, now: CallState, e: Entry)
    ensures multiset(NotedFor(id, was, now))[e] == if e in NotedFor(id, was, now) then 1 else 0
    ensures e in NotedFor(id, was, now) ==> e.callId == id
  {
  }

  lemma {:induction false} WakeMoves(t: Table, ids: seq<nat>, env: Env)
    requires t.bound
    ensures var r := Wake(t, ids, env);
            && r == t.(calls := r.calls, journal := t.journal + MoveNews(t.calls, ids, env.localInfo))
            && MovedOn(t.calls, ids, env.localInfo, r.calls)
    decreases |ids|
  {
    hide MovedOn, WakeOne, StateAfter, NotedFor;
    if ids == [] {
      NobodyMoves(t.calls, env.localInfo);
      assert t.journal + [] == t.journal;
    } else {
      var front, id := ids[..|ids| - 1], ids[|ids| - 1];
      assert ids == front + [id];
      WakeMoves(t, front, env);
      var u := Wake(t, front, env);
      OneMoves(u, id, env);
      MovesAdd(t.calls, front, env.localInfo, u.calls, id, WakeOne(u, id, env).calls);
      SameMembers(t.calls, front, env.localInfo, u.calls, id);
      var before := MoveNews(t.calls, front, env.localInfo);
      assert before + [] == before;
      if id in t.calls {
        var said := NotedFor(id, u.calls[id].state, StateAfter(u.calls[id], env.localInfo));
        assert t.journal + before + said == t.journal + (before + said);
      }
    }
  }

  lemma SameMembers(calls: map<nat, Session>, ids: seq<nat>, local: bool, after: map<nat, Session>, id: nat)
    requires MovedOn(calls, ids, local, after)
    ensures id in calls <==> id in after
  {
  }

  lemma NobodyMoves(calls: map<nat, Session>, local: bool)
    ensures MovedOn(calls, [], local, calls)
  {
  }

  /** One call. */
  lemma OneMoves(t: Table, id: nat, env: Env)
    requires t.bound
    ensures var r := WakeOne(t, id, env);
            if id !in t.calls then r == t else
            var state := StateAfter(t.calls[id], env.localInfo);
            r == t.(calls := t.calls[id := t.calls[id].(state := state)],
                    journal := t.journal + NotedFor(id, t.calls[id].state, state))
  {
    assert t.journal + [] == t.journal;
    if id in t.calls { assert t.calls[id := t.calls[id]] == t.calls; }
  }

  lemma MovesAdd(calls: map<nat, Session>, front: seq<nat>, local: bool, mid: map<nat, Session>, id: nat,
                 after: map<nat, Session>)
    requires MovedOn(calls, front, local, mid)
    requires after == if id in mid then mid[id := mid[id].(state := StateAfter(mid[id], local))] else mid
    ensures MovedOn(calls, front + [id], local, after)
    ensures id in mid ==>
              NotedFor(id, mid[id].state, StateAfter(mid[id], local))
              == if id in front then [] else NotedFor(id, calls[id].state, StateAfter(calls[id], local))
  {
    if id in calls { OnceIsEnough(calls[id], id, local); }
    hide StateAfter, NotedFor;
  }

  /** A call that has moved on does not move again. */
  lemma OnceIsEnough(s: Session, id: nat, local: bool)
    ensures var state := StateAfter(s, local);
            StateAfter(s.(state := state), local) == state && NotedFor(id, state, state) == []
  {
  }

  // ---------------------------------------------------------------- timeouts, lost connections, failures, logging out

  /** A listed call whose time is up, or that has no data channel left. */
  predicate Hit(calls: map<nat, Session>, ids: seq<nat>, id: nat, why: Reason) {
    && id in ids && id in calls
    && match why
       case Expired(late) => id in late && calls[id].state != RUNNING
       case Unreachable(direct) => id !in direct
  }

  /** What is said about a call that ends so, by the state it is in. */
  function LastWords(id: nat, state: CallState, timeout: bool): seq<Entry> {
    match state
    case WAIT_SEND_CREATE_REQUEST => [if timeout then OnAnswered(id, false) else Cleared(id)]
    case WAIT_CREATE_RESPONSE => [if timeout then OnAnswered(id, false) else Cleared(id)]
    case WAIT_CALL_ONLAUNCHED => [if timeout then OnClosed(id) else Cleared(id)]
    case WAIT_INVITEE_RESPONSE => [if timeout then OnClosed(id) else Cleared(id)]
    case _ => [Sent(id, ByeRequest), OnClosed(id)]
  }

  /** The last words of the calls that are hit, said once. */
  function SweepNews(calls: map<nat, Session>, ids: seq<nat>, why: Reason): seq<Entry> {
    if ids == [] then [] else
    var (front, id) := (ids[..|ids| - 1], ids[|ids| - 1]);
    SweepNews(calls, front, why)
    + if Hit(calls, [id], id, why) && id !in front then LastWords(id, calls[id].state, why.Expired?) else []
  }

  /** The calls that are hit are gone, with one place in the list each, and no others. */
  ghost predicate Swept(calls: map<nat, Session>, ids: seq<nat>, why: Reason, after: map<nat, Session>, vec: seq<nat>) {
    && (forall id :: id in after <==> id in calls && !Hit(calls, ids, id, why))
    && (forall id | id in after :: after[id] == calls[id])
    && forall id :: multiset(vec)[id] == multiset(ids)[id] - if Hit(calls, ids, id, why) then 1 else 0
  }

  lemma {:induction false} SweepCount(calls: map<nat, Session>, ids: seq<nat>, why: Reason, e: Entry)
    ensures multiset(SweepNews(calls, ids, why))[e]
            == if Hit(calls, ids, e.callId, why) && e in LastWords(e.callId, calls[e.callId].state, why.Expired?)
               then 1 else 0
  {
    hide LastWords, Hit;
    if ids == [] {
      NothingHit(calls, why, e.callId);
    } else {
      var front, id := ids[..|ids| - 1], ids[|ids| - 1];
      SweepCount(calls, front, why, e);
      HitStep(calls, front, id, why, e.callId);
      assert ids == front + [id];
      HitInMap(calls, [id], id, why);
      var hit := Hit(calls, [id], id, why) && id !in front;
      var said := if hit then LastWords(id, calls[id].state, why.Expired?) else [];
      if hit { SaysOnce(id, calls[id].state, why.Expired?, e); }
      assert SweepNews(calls, ids, why) == SweepNews(calls, front, why) + said;
      hide SweepNews;
    }
  }

  lemma NothingHit(calls: map<nat, Session>, why: Reason, id: nat)
    ensures !Hit(calls, [], id, why)
  {
  }

  lemma HitInMap(calls: map<nat, Session>, ids: seq<nat>, id: nat, why: Reason)
    ensures Hit(calls, ids, id, why) ==> id in calls && id in ids
  {
  }

  lemma HitStep(calls: map<nat, Session>, front: seq<nat>, id: nat, why: Reason, k: nat)
    ensures Hit(calls, front + [id], k, why) <==> Hit(calls, front, k, why) || (k == id && Hit(calls, [id], id, why))
    ensures k == id && k in front && Hit(calls, [id], id, why) ==> Hit(calls, front, k, why)
    ensures k !in front ==> !Hit(calls, front, k, why)
  {
  }

  lemma SaysOnce(id: nat, state: CallState, timeout: bool, e: Entry)
    ensures multiset(LastWords(id, state, timeout))[e] == if e in LastWords(id, state, timeout) then 1 else 0
    ensures e in LastWords(id, state, timeout) ==> e.callId == id
  {
  }

  lemma {:induction false} ScanSweeps(t: Table, ids: seq<nat>, why: Reason)
    ensures var u := Scan(t, ids, why);
            && u == t.(calls := u.calls, vec := u.vec, journal := t.journal + SweepNews(t.calls, ids, why))
            && Swept(t.calls, ids, why, u.calls, u.vec)
    decreases |ids|
  {
    hide Swept, Ended, Hits, LastWords, Hit;
    if ids == [] {
      NothingSwept(t.calls, why);
      assert t.journal + [] == t.journal;
    } else {
      var front, id := ids[..|ids| - 1], ids[|ids| - 1];
      assert ids == front + [id];
      ScanSweeps(t, front, why);
      var u := Scan(t, front, why);
      HitNow(t.calls, front, why, u, id);
      if Hits(u, id, why) {
        EndedSays(u, id, why);
        SweptMore(t.calls, front, why, u.calls, u.vec, id);
      } else {
        SweptNoMore(t.calls, front, why, u.calls, u.vec, id);
      }
    }
  }

  lemma NothingSwept(calls: map<nat, Session>, why: Reason)
    ensures Swept(calls, [], why, calls, [])
  {
  }

  lemma EndedSays(t: Table, id: nat, why: Reason)
    requires Hits(t, id, why)
    ensures Ended(t, id, why)
            == t.(calls := t.calls - {id}, journal := t.journal + LastWords(id, t.calls[id].state, why.Expired?))
  {
  }

  lemma HitNow(calls: map<nat, Session>, front: seq<nat>, why: Reason, u: Table, id: nat)
    requires Swept(calls, front, why, u.calls, u.vec)
    ensures Hits(u, id, why) <==> Hit(calls, [id], id, why) && id !in front
    ensures Hits(u, id, why) ==> id in u.calls && id in calls && calls[id] == u.calls[id]
  {
  }

  lemma SweptNoMore(calls: map<nat, Session>, front: seq<nat>, why: Reason, mid: map<nat, Session>, vec: seq<nat>,
                    id: nat)
    requires Swept(calls, front, why, mid, vec) && !(Hit(calls, [id], id, why) && id !in front)
    ensures Swept(calls, front + [id], why, mid, vec + [id])
  {
    SameHits(calls, front, id, why);
    hide Hit;
  }

  lemma SameHits(calls: map<nat, Session>, front: seq<nat>, id: nat, why: Reason)
    ensures forall k :: Hit(calls, front + [id], k, why)
                        <==> Hit(calls, front, k, why) || (k == id && Hit(calls, [id], id, why))
    ensures id in front && Hit(calls, [id], id, why) ==> Hit(calls, front, id, why)
    ensures id !in front ==> !Hit(calls, front, id, why)
  {
  }

  lemma SweptMore(calls: map<nat, Session>, front: seq<nat>, why: Reason, mid: map<nat, Session>, vec: seq<nat>,
                  id: nat)
    requires Swept(calls, front, why, mid, vec) && Hit(calls, [id], id, why) && id !in front
    ensures Swept(calls, front + [id], why, mid - {id}, vec)
  {
    SameHits(calls, front, id, why);
    hide Hit;
  }

  /** What is said in a scan: the last words of every call that is hit, once, and nothing else. */
  ghost predicate SaidOnce(calls: map<nat, Session>, ids: seq<nat>, why: Reason, news: seq<Entry>) {
    forall e :: multiset(news)[e]
                == if Hit(calls, ids, e.callId, why) && e in LastWords(e.callId, calls[e.callId].state, why.Expired?)
                   then 1 else 0
  }

  lemma SweepSays(calls: map<nat, Session>, ids: seq<nat>, why: Reason)
    ensures SaidOnce(calls, ids, why, SweepNews(calls, ids, why))
  {
    hide SweepNews, LastWords;
    forall e ensures multiset(SweepNews(calls, ids, why))[e]
                     == if Hit(calls, ids, e.callId, why)
                           && e in LastWords(e.callId, calls[e.callId].state, why.Expired?) then 1 else 0
    {
      SweepCount(calls, ids, why, e);
    }
  }

  /** A scan for timeouts; the relay is closed with the last call. */
  lemma TimeoutsDecide(t: Table, late: set<nat>) returns (news: seq<Entry>)
    ensures var r := ScanCalls(t, late);
            && r.journal == t.journal + news && r.maxCallNum == t.maxCallNum
            && (if t.calls == map[] then r == t
                else Swept(t.calls, t.vec, Expired(late), r.calls, r.vec)
                     && SaidOnce(t.calls, t.vec, Expired(late), news))
            && (if t.calls != map[] && r.calls == map[] && t.relayConnId != 0
                then r.relayConnId == 0 && r.link == NOT_CREATED && !r.bound
                else r.relayConnId == t.relayConnId && r.link == t.link && r.bound == t.bound)
  {
    hide Swept, Scan, SaidOnce;
    if t.calls == map[] {
      news := [];
      assert t.journal + [] == t.journal;
    } else {
      ScanSweeps(t, t.vec, Expired(late));
      SweepSays(t.calls, t.vec, Expired(late));
      news := SweepNews(t.calls, t.vec, Expired(late));
      var u := Scan(t, t.vec, Expired(late));
      assert |u.calls| == 0 <==> u.calls == map[];
    }
  }

  /** A connection is closed abnormally: without a relay connection (any more) calls without one of their own end. */
  lemma LossDecides(t: Table, relay: bool, direct: set<nat>) returns (news: seq<Entry>)
    ensures var r := LoseConn(t, relay, direct);
            && r.journal == t.journal + news && r.maxCallNum == t.maxCallNum
            && (if relay || t.relayConnId == 0
                then Swept(t.calls, t.vec, Unreachable(direct), r.calls, r.vec) && r.relayConnId == 0
                     && SaidOnce(t.calls, t.vec, Unreachable(direct), news)
                else r == t)
            && (if relay && t.relayConnId != 0 then r.link == NOT_CREATED && !r.bound
                else r.link == t.link && r.bound == t.bound)
  {
    hide Swept, Scan, SaidOnce;
    var u := if relay && t.relayConnId != 0 then ResetRelay(t) else t;
    if u.relayConnId == 0 {
      ScanSweeps(u, t.vec, Unreachable(direct));
      SweepSays(t.calls, t.vec, Unreachable(direct));
      news := SweepNews(t.calls, t.vec, Unreachable(direct));
    } else {
      news := [];
      assert t.journal + [] == t.journal;
    }
  }

  /** `message` is what a call in this state is told before it is cleared. */
  predicate Tells(s: Session, failure: Failure, message: Message) {
    match failure
    case Reported(env) =>
      env.localInfo && message == InviteResponse(INVALID_OPERATION)
      && s.state in {WAIT_CALL_ONLAUNCHED, WAIT_INVITEE_RESPONSE}
    case Overdue => message == ByeRequest && s.state == WAIT_SEND_UPDATE_REQUEST
  }

  lemma {:induction false} FarewellCount(calls: map<nat, Session>, ids: seq<nat>, failure: Failure, e: Entry)
    ensures multiset(Farewells(calls, ids, failure))[e]
            == if e.Sent? && e.callId in calls && Tells(calls[e.callId], failure, e.message)
               then multiset(ids)[e.callId] else 0
  {
    if ids != [] {
      assert ids == ids[..|ids| - 1] + [ids[|ids| - 1]];
      FarewellCount(calls, ids[..|ids| - 1], failure, e);
    }
  }

  lemma {:induction false} ClearingCount(calls: map<nat, Session>, ids: seq<nat>, e: Entry)
    ensures multiset(Clearings(calls, ids))[e]
            == if e.Cleared? && e.callId in calls && e.callId in ids then 1 else 0
  {
    if ids != [] {
      assert ids == ids[..|ids| - 1] + [ids[|ids| - 1]];
      ClearingCount(calls, ids[..|ids| - 1], e);
    }
  }

  /**
   * A failing relay, reported or overdue while it is created: the table is empty, every listed call cleared once.
   * After a report the peers of unanswered invitations are told, with a local address; after a delay those of
   * calls that wait for their update; once for every place in the list.
   */
  lemma FailureDecides(t: Table, failure: Failure) returns (news: seq<Entry>)
    requires failure.Overdue? ==> t.link == BEING_CREATED
    ensures FailRelay(t, failure) == Table(map[], [], 0, NOT_CREATED, false, t.maxCallNum, t.journal + news)
    ensures forall e :: multiset(news)[e]
                        == if e.callId !in t.calls then 0
                           else if e.Sent? && Tells(t.calls[e.callId], failure, e.message)
                           then multiset(t.vec)[e.callId]
                           else if e.Cleared? && e.callId in t.vec then 1 else 0
  {
    hide Farewells, Clearings, Tells;
    var told, cleared := Farewells(t.calls, t.vec, failure), Clearings(t.calls, t.vec);
    news := told + cleared;
    assert t.journal + told + cleared == t.journal + news;
    forall e ensures multiset(news)[e]
                     == if e.callId !in t.calls then 0
                        else if e.Sent? && Tells(t.calls[e.callId], failure, e.message) then multiset(t.vec)[e.callId]
                        else if e.Cleared? && e.callId in t.vec then 1 else 0
    {
      FarewellCount(t.calls, t.vec, failure, e);
      ClearingCount(t.calls, t.vec, e);
    }
  }

  /** A call that logging out closes aloud, and the two entries for it. */
  predicate ClosedAloud(calls: map<nat, Session>, e: Entry) {
    && e.callId in calls && (e == Sent(e.callId, ByeRequest) || e == OnClosed(e.callId))
    && calls[e.callId].state in {RUNNING, WAIT_SEND_UPDATE_REQUEST, WAIT_UPDATE_RESPONSE}
  }

  lemma {:induction false} ClosingCount(calls: map<nat, Session>, ids: seq<nat>, e: Entry)
    ensures multiset(Closings(calls, ids))[e] == if ClosedAloud(calls, e) then multiset(ids)[e.callId] else 0
  {
    if ids != [] {
      var front, id := ids[..|ids| - 1], ids[|ids| - 1];
      assert multiset(ids) == multiset(front) + multiset{id} by { assert ids == front + [id]; }
      ClosingCount(calls, front, e);
      var said := if id in calls && WasConnected(calls[id]) then [Sent(id, ByeRequest), OnClosed(id)] else [];
      assert Closings(calls, ids) == Closings(calls, front) + said;
      hide Closings;
      assert multiset(said)[e] == if e.callId == id && ClosedAloud(calls, e) then 1 else 0;
    }
  }

  /** Logging out empties the table; for every place of a connected call in the list a BYE_REQUEST and a callback. */
  lemma LogoutDecides(t: Table) returns (news: seq<Entry>)
    ensures var r := Logout(t);
            && r.calls == map[] && r.vec == [] && r.journal == t.journal + news && r.maxCallNum == t.maxCallNum
            && (if t.relayConnId != 0 then r.relayConnId == 0 && r.link == NOT_CREATED && !r.bound
                else r.relayConnId == 0 && r.link == t.link && r.bound == t.bound)
    ensures forall e :: multiset(news)[e] == if ClosedAloud(t.calls, e) then multiset(t.vec)[e.callId] else 0
  {
    hide Closings;
    news := Closings(t.calls, t.vec);
    forall e ensures multiset(news)[e] == if ClosedAloud(t.calls, e) then multiset(t.vec)[e.callId] else 0 {
      ClosingCount(t.calls, t.vec, e);
    }
  }
}
