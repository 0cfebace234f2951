/** The user object whose fields the signal handlers change, against the functions of CallTable. */
module CallUser {
  import opened CallTable

  /** Removing the first occurrence is cutting the list at the first place that holds the id, if one does. */
  lemma {:induction false} RemoveFirstAt(vec: seq<nat>, callId: nat, it: nat)
    requires it <= |vec| && callId !in vec[..it] && (it < |vec| ==> vec[it] == callId)
    ensures RemoveFirst(vec, callId) == if it == |vec| then vec else vec[..it] + vec[it + 1..]
  {
    if it > 0 {
      var rest := vec[1..];
      assert vec[0] == vec[..it][0] && rest[..it - 1] == vec[..it][1..];
      RemoveFirstAt(rest, callId, it - 1);
      assert RemoveFirst(vec, callId) == [vec[0]] + RemoveFirst(rest, callId);
      hide RemoveFirst;
      if it == |vec| {
        assert vec == [vec[0]] + rest;
      } else {
        assert rest[it..] == vec[it + 1..] && vec[..it] == [vec[0]] + rest[..it - 1];
      }
    }
  }

  /** The scan of `t` has come to its n-th entry, which is the i-th of what is left of the list in `cur`. */
  ghost predicate Scanning(t: Table, n: nat, i: nat, cur: Table, why: Reason) {
    && n <= |t.vec|
    && var u := Scan(t, t.vec[..n], why);
       i == |u.vec| && cur == u.(vec := u.vec + t.vec[n..])
  }

  lemma ScanStart(t: Table, why: Reason)
    ensures Scanning(t, 0, 0, t, why)
  {
    assert t.vec[..0] == [] && [] + t.vec[0..] == t.vec;
  }

  lemma ScanNext(t: Table, n: nat, i: nat, cur: Table, why: Reason)
    requires i < |cur.vec| && Scanning(t, n, i, cur, why)
    ensures if Hits(cur, cur.vec[i], why)
            then Scanning(t, n + 1, i, Ended(cur, cur.vec[i], why).(vec := cur.vec[..i] + cur.vec[i + 1..]), why)
            else Scanning(t, n + 1, i + 1, cur, why)
  {
    hide Reports;
    var u, id := Scan(t, t.vec[..n], why), cur.vec[i];
    assert id == t.vec[n] && t.vec[..n + 1][..n] == t.vec[..n] && t.vec[n..] == [id] + t.vec[n + 1..];
    assert cur.vec[..i] == u.vec && cur.vec[i + 1..] == t.vec[n + 1..];
    if !Hits(cur, id, why) {
      assert (u.vec + [id]) + t.vec[n + 1..] == cur.vec;
    }
  }

  lemma ScanEnd(t: Table, n: nat, i: nat, cur: Table, why: Reason)
    requires i == |cur.vec| && Scanning(t, n, i, cur, why)
    ensures cur == Scan(t, t.vec, why)
  {
    assert t.vec[..n] == t.vec && t.vec[n..] == [];
  }

  lemma EndedCalls(t: Table, id: nat, why: Reason)
    requires id in t.calls
    ensures |Ended(t, id, why).calls| < |t.calls|
  {
    assert Ended(t, id, why).calls[id := t.calls[id]] == t.calls;
  }

  /** What is said about a call depends on the kind of scan only. */
  lemma SameReports(s: Session, id: nat, why: Reason)
    ensures Reports(s, id, why) == Reports(s, id, if why.Expired? then Expired({}) else Unreachable({}))
  {
  }

  /** What a scan keeps in the list is not hit. */
  lemma {:induction false} KeptNotHit(t: Table, ids: seq<nat>, direct: set<nat>)
    ensures var u := Scan(t, ids, Unreachable(direct)); forall id | id in u.vec :: id in u.calls ==> id in direct
    decreases |ids|
  {
    if ids != [] { KeptNotHit(t, ids[..|ids| - 1], direct); }
  }

  /** So the first place of a call that is hit is the one the scan has come to. */
  lemma FirstHit(t: Table, n: nat, i: nat, cur: Table, direct: set<nat>)
    requires i < |cur.vec| && Scanning(t, n, i, cur, Unreachable(direct)) && Hits(cur, cur.vec[i], Unreachable(direct))
    ensures Delete(cur, cur.vec[i]).vec == cur.vec[..i] + cur.vec[i + 1..]
  {
    KeptNotHit(t, t.vec[..n], direct);
    assert cur.vec[..i] == Scan(t, t.vec[..n], Unreachable(direct)).vec;
    RemoveFirstAt(cur.vec, cur.vec[i], i);
  }

  class User {
    var currentCalls: map<nat, Session>
    var currentCallVec: seq<nat>
    var relayConnId: nat
    var relayLinkState: LinkState
    var relayBound: bool
    var maxCallNum: nat
    var journal: seq<Entry>

    constructor (limit: nat)
      ensures AsTable() == Run(limit, [])
    {
      currentCalls, currentCallVec, journal := map[], [], [];
      relayConnId, relayLinkState, relayBound, maxCallNum := 0, NOT_CREATED, false, limit;
    }

    ghost function AsTable(): Table
      reads this
    {
      Table(currentCalls, currentCallVec, relayConnId, relayLinkState, relayBound, maxCallNum, journal)
    }

    method Note(e: Entry)
      modifies this`journal
      ensures AsTable() == old(AsTable()).Noting(e)
    {
      journal := journal + [e];
    }

    method InsertIntoCurrentCallsMap(callId: nat, s: Session)
      modifies this
      ensures AsTable() == Insert(old(AsTable()), callId, s)
    {
      if callId !in currentCalls {
        currentCalls := currentCalls[callId := s];
        Note(Inserted(callId));
      }
      currentCallVec := currentCallVec + [callId];
    }

    /** Removes the first occurrence of the id from the list. */
    method DeleteFromCurrentCallsMap(callId: nat)
      modifies this
      ensures AsTable() == Delete(old(AsTable()), callId)
    {
      if callId !in currentCalls {
        return;
      }
      currentCalls := currentCalls - {callId};
      for it := 0 to |currentCallVec|
        invariant AsTable() == old(AsTable()).(calls := old(currentCalls) - {callId})
        invariant callId !in currentCallVec[..it]
      {
        if currentCallVec[it] == callId {
          RemoveFirstAt(currentCallVec, callId, it);
          currentCallVec := currentCallVec[..it] + currentCallVec[it + 1..];
          return;
        }
      }
      RemoveFirstAt(currentCallVec, callId, |currentCallVec|);
    }

    method ResetRelayLinkState()
      modifies this
      ensures AsTable() == ResetRelay(old(AsTable()))
    {
      relayConnId, relayLinkState, relayBound := 0, NOT_CREATED, false;
    }

    method CreateRelayConn(env: Env) returns (connId: nat)
      modifies this
      ensures AsTable() == CreateRelay(old(AsTable()), env) && connId == relayConnId
    {
      if relayConnId != 0 {
        return relayConnId;
      }
      if !env.localInfo || env.newConn == 0 {
        return 0;
      }
      relayConnId := env.newConn;
      relayLinkState := BEING_CREATED;
      return relayConnId;
    }

    method CloseRelayConnWhenNoCall() returns (closed: bool)
      modifies this
      ensures AsTable() == CloseRelayWhenNoCall(old(AsTable()))
      ensures closed == (old(relayConnId) != 0 && |old(currentCalls)| == 0)
    {
      if relayConnId == 0 || |currentCalls| > 0 {
        return false;
      }
      ResetRelayLinkState();
      return true;
    }

    method SendInviteResponse(callId: nat, result: RTSResult, env: Env) returns (sent: bool)
      modifies this`journal
      ensures AsTable() == CallTable.SendInviteResponse(old(AsTable()), callId, result, env) && sent == env.localInfo
    {
      if !env.localInfo {
        return false;
      }
      Note(Sent(callId, InviteResponse(result)));
      return true;
    }

    /** The INVITE_REQUEST case; the result is the handler's. */
    method HandleInviteRequest(m: RTSMessage, env: Env) returns (ret: int)
      requires m.signal.InviteRequest?
      modifies this
      ensures AsTable() == HandleInvite(old(AsTable()), m, env)
      ensures ret == if m.signal.parses then 0 else -1
    {
      hide RemoveFirst;
      var s := m.signal;
      if !s.parses {
        var sent := SendInviteResponse(m.callId, INTERNAL_ERROR1, env);
        return -1;
      }
      ret := 0;
      if !s.hasStreamType || |s.members| == 0 {
        var sent := SendInviteResponse(m.callId, PARAMETER_ERROR, env);
        return;
      }
      var from := UserInMembers(s.members, m.uuid);
      if from == [] {
        var sent := SendInviteResponse(m.callId, PARAMETER_ERROR, env);
        return;
      }
      if |currentCalls| == maxCallNum {
        var sent := SendInviteResponse(m.callId, PEER_REFUSE, env);
        return;
      }
      if relayLinkState == NOT_CREATED {
        var connId := CreateRelayConn(env);
        if connId == 0 {
          var sent := SendInviteResponse(m.callId, PEER_OFFLINE, env);
          return;
        }
        InsertIntoCurrentCallsMap(m.callId, Session(from[0], m.single, WAIT_CALL_ONLAUNCHED, false, s.appContent));
      } else if relayLinkState == BEING_CREATED {
        InsertIntoCurrentCallsMap(m.callId, Session(from[0], m.single, WAIT_CALL_ONLAUNCHED, false, s.appContent));
      } else {
        InsertIntoCurrentCallsMap(m.callId, Session(from[0], m.single, WAIT_INVITEE_RESPONSE, false, s.appContent));
        Note(Launched(m.callId));
      }
    }

    /** The loop over the members. */
    static method UserInMembers(members: seq<UserInfo>, uuid: int) returns (from: seq<UserInfo>)
      ensures from == FindMember(members, uuid)
    {
      from := [];
      var i := 0;
      while i < |members|
        invariant 0 <= i <= |members|
        invariant FindMember(members, uuid) == FindMember(members[i..], uuid)
      {
        assert members[i..][1..] == members[i + 1..];
        if members[i].uuid == uuid {
          return [members[i]];
        }
        i := i + 1;
      }
    }

    /** deleteFromCurrentCallsMap, closeRelayConnWhenNoCall, and the callback. */
    method DropCall(callId: nat, e: Entry)
      modifies this
      ensures AsTable() == Drop(old(AsTable()), callId, e)
    {
      hide RemoveFirst;
      DeleteFromCurrentCallsMap(callId);
      var closed := CloseRelayConnWhenNoCall();
      Note(e);
    }

    method HandleCreateResponse(m: RTSMessage, p2p: bool, env: Env) returns (ret: int)
      requires m.signal.CreateResponse?
      modifies this
      ensures AsTable() == HandleSignal(old(AsTable()), m, p2p, env)
    {
      hide Drop, FindMember;
      var s, id := m.signal, m.callId;
      ret := 0;
      if id !in currentCalls {
        return;
      }
      if !s.parses {
        return -1;
      }
      if !s.hasResult || !s.hasErrMsg || |s.members| == 0 {
        DropCall(id, OnAnswered(id, false));
        return;
      }
      if m.single && |s.members| != 2 {
        DropCall(id, OnAnswered(id, false));
        return;
      }
      if s.success {
        var toUser := UserInMembers(s.members, m.uuid);
        currentCalls := currentCalls[id := currentCalls[id].(state := RUNNING)];
        if p2p {
          var peer := if toUser == [] then UserInfo(0, 0, "", "") else toUser[0];
          currentCalls := currentCalls[id := currentCalls[id].(peer := peer)];
        }
        Note(OnAnswered(id, true));
      } else {
        DropCall(id, OnAnswered(id, false));
      }
    }

    /** BYE_REQUEST, BYE_RESPONSE, UPDATE_REQUEST and UPDATE_RESPONSE. */
    method HandleOtherSignal(m: RTSMessage, p2p: bool, env: Env) returns (ret: int)
      requires !m.signal.InviteRequest? && !m.signal.CreateResponse?
      modifies this
      ensures AsTable() == HandleSignal(old(AsTable()), m, p2p, env)
    {
      hide Drop, FindMember, HandleInvite;
      var id := m.callId;
      ret := 0;
      if id !in currentCalls {
        return;
      }
      match m.signal {
        case ByeRequestSignal(parses) =>
          if !parses {
            Note(Sent(id, ByeResponse(INTERNAL_ERROR1)));
            return -1;
          }
          Note(Sent(id, ByeResponse(SUCC)));
          DropCall(id, OnClosed(id));
        case ByeResponseSignal(parses, hasResult) =>
          if !parses {
            return -1;
          }
          if hasResult {
            DropCall(id, OnClosed(id));
          }
        case UpdateRequestSignal(parses, user, addressed) =>
          if !parses {
            Note(Sent(id, UpdateResponse(INTERNAL_ERROR1)));
            return -1;
          }
          if user == [] || !addressed {
            Note(Sent(id, UpdateResponse(PARAMETER_ERROR)));
            return;
          }
          currentCalls := currentCalls[id := currentCalls[id].(peer := user[0])];
          Note(Sent(id, UpdateResponse(SUCC)));
        case UpdateResponseSignal(parses, hasResult) =>
          if !parses {
            return -1;
          }
          if hasResult {
            currentCalls := currentCalls[id := currentCalls[id].(state := RUNNING)];
          }
      }
    }

    /** The RTS_SIGNAL branch of the dispatcher. */
    method HandleRtsSignal(m: RTSMessage, p2p: bool, env: Env) returns (ret: int)
      modifies this
      ensures AsTable() == HandleSignal(old(AsTable()), m, p2p, env)
    {
      hide HandleInvite;
      if m.signal.InviteRequest? {
        ret := HandleInviteRequest(m, env);
      } else if m.signal.CreateResponse? {
        ret := HandleCreateResponse(m, p2p, env);
      } else {
        ret := HandleOtherSignal(m, p2p, env);
      }
    }

    /** sendCreateRequest: only with a bound relay and a local address; then the session waits for the answer. */
    method SendCreateRequest(callId: nat, s: Session, env: Env) returns (sent: bool, s': Session)
      modifies this`journal
      ensures sent == CanRequest(old(AsTable()), env)
      ensures s' == if sent then s.(state := WAIT_CREATE_RESPONSE) else s
      ensures AsTable() == if sent then old(AsTable()).Noting(Sent(callId, CreateRequest)) else old(AsTable())
    {
      s' := s;
      if !relayBound {
        return false, s;
      }
      if !env.localInfo {
        return false, s;
      }
      Note(Sent(callId, CreateRequest));
      return true, s.(state := WAIT_CREATE_RESPONSE);
    }

    method SendUpdateRequest(callId: nat, s: Session, env: Env) returns (sent: bool, s': Session)
      modifies this`journal
      ensures sent == CanRequest(old(AsTable()), env)
      ensures s' == if sent then s.(state := WAIT_UPDATE_RESPONSE) else s
      ensures AsTable() == if sent then old(AsTable()).Noting(Sent(callId, UpdateRequest)) else old(AsTable())
    {
      s' := s;
      if !relayBound || !env.localInfo {
        return false, s;
      }
      Note(Sent(callId, UpdateRequest));
      return true, s.(state := WAIT_UPDATE_RESPONSE);
    }

    /** dialCall, with the id generateCallId drew. */
    method DialCall(callId: nat, to: UserInfo, appContent: string, ready: bool, env: Env) returns (id: nat)
      modifies this
      ensures (AsTable(), id) == Dial(old(AsTable()), callId, to, appContent, ready, env)
    {
      if !ready || |currentCalls| == maxCallNum || callId in currentCalls || callId == 0 {
        return 0;
      }
      var i := 0;
      while i < |currentCallVec|
        invariant 0 <= i <= |currentCallVec|
        invariant forall k | 0 <= k < i && currentCallVec[k] in currentCalls ::
                    var s := currentCalls[currentCallVec[k]];
                    s.peer.appId != to.appId || s.peer.appAccount != to.appAccount || s.peer.resource != to.resource
                    || s.appContent != appContent
      {
        if currentCallVec[i] in currentCalls {
          var s := currentCalls[currentCallVec[i]];
          if s.peer.appId == to.appId && s.peer.appAccount == to.appAccount && s.peer.resource == to.resource
             && s.appContent == appContent {
            assert SameCall(AsTable(), to, appContent);
            return 0;
          }
        }
        i := i + 1;
      }
      assert !SameCall(AsTable(), to, appContent);
      hide SameCall;
      if relayLinkState == NOT_CREATED {
        var connId := CreateRelayConn(env);
        if connId == 0 {
          return 0;
        }
        InsertIntoCurrentCallsMap(callId, Session(to, true, WAIT_SEND_CREATE_REQUEST, true, appContent));
      } else if relayLinkState == BEING_CREATED {
        InsertIntoCurrentCallsMap(callId, Session(to, true, WAIT_SEND_CREATE_REQUEST, true, appContent));
      } else {
        var s := Session(to, true, WAIT_CREATE_RESPONSE, true, appContent);
        InsertIntoCurrentCallsMap(callId, s);
        var sent, s' := SendCreateRequest(callId, s, env);
        assert currentCalls[callId := s'] == currentCalls;
        currentCalls := currentCalls[callId := s'];
      }
      return callId;
    }

    method CloseCall(callId: nat)
      modifies this
      ensures AsTable() == Close(old(AsTable()), callId)
    {
      hide Drop;
      if callId !in currentCalls {
        return;
      }
      var state := currentCalls[callId].state;
      if state == RUNNING || state == WAIT_SEND_UPDATE_REQUEST || state == WAIT_UPDATE_RESPONSE {
        Note(Sent(callId, ByeRequest));
      }
      DropCall(callId, OnClosed(callId));
    }

    /** onLaunched, after the application's answer. */
    method OnLaunched(callId: nat, accepted: bool, env: Env)
      modifies this
      ensures AsTable() == LaunchAnswered(old(AsTable()), callId, accepted, env)
    {
      if callId !in currentCalls {
        return;
      }
      if !accepted {
        var sent := SendInviteResponse(callId, PEER_REFUSE, env);
        currentCalls := currentCalls - {callId};
        Note(Declined(callId));
        var closed := CloseRelayConnWhenNoCall();
        return;
      }
      var sent := SendInviteResponse(callId, SUCC, env);
      currentCalls := currentCalls[callId := currentCalls[callId].(state := RUNNING)];
    }

    /** BIND_RELAY_RESPONSE, on whatever connection: a failure, or every listed call that waited moves on. */
    method HandleBindRelayResponse(parses: bool, complete: bool, result: bool, env: Env)
      modifies this
      ensures AsTable() == if parses && complete && result then RelayBound(old(AsTable()), env)
                           else FailRelay(old(AsTable()), Reported(env))
    {
      if !parses {
        FailRelayConn(env);
        return;
      }
      if !complete {
        FailRelayConn(env);
        return;
      }
      if !result {
        FailRelayConn(env);
        return;
      }
      hide WakeOne, SetState, CanRequest;
      relayBound := true;
      relayLinkState := SUCC_CREATED;
      ghost var b := AsTable();
      var ids := currentCallVec;
      assert ids[..0] == [] && Wake(b, [], env) == b;
      var i := 0;
      while i < |ids|
        invariant 0 <= i <= |ids|
        invariant AsTable() == Wake(b, ids[..i], env)
      {
        assert ids[..i + 1][..i] == ids[..i];
        WakeCall(ids[i], env);
        i := i + 1;
      }
      assert ids[..i] == ids;
    }

    method WakeCall(callId: nat, env: Env)
      modifies this
      ensures AsTable() == WakeOne(old(AsTable()), callId, env)
    {
      if callId !in currentCalls {
        return;
      }
      var s := currentCalls[callId];
      if s.state == WAIT_SEND_CREATE_REQUEST && s.creator {
        var sent, s' := SendCreateRequest(callId, s, env);
        if !sent { assert currentCalls[callId := s'] == currentCalls; }
        currentCalls := currentCalls[callId := s'];
      } else if s.state == WAIT_CALL_ONLAUNCHED && !s.creator {
        currentCalls := currentCalls[callId := s.(state := WAIT_INVITEE_RESPONSE)];
        Note(Launched(callId));
      } else if s.state == WAIT_SEND_UPDATE_REQUEST {
        var sent, s' := SendUpdateRequest(callId, s, env);
        if !sent { assert currentCalls[callId := s'] == currentCalls; }
        currentCalls := currentCalls[callId := s'];
      }
    }

    /** sendExceptInviteResponse, to every listed call whose invitation is not answered yet. */
    method SendExceptInviteResponse(env: Env)
      modifies this`journal
      ensures AsTable() == old(AsTable()).(journal :=
                old(journal) + Farewells(currentCalls, currentCallVec, Reported(env)))
    {
      var i := 0;
      while i < |currentCallVec|
        invariant 0 <= i <= |currentCallVec|
        invariant journal == old(journal) + Farewells(currentCalls, currentCallVec[..i], Reported(env))
      {
        var callId := currentCallVec[i];
        assert currentCallVec[..i + 1][..i] == currentCallVec[..i];
        if callId in currentCalls {
          var s := currentCalls[callId];
          if s.state == WAIT_CALL_ONLAUNCHED || s.state == WAIT_INVITEE_RESPONSE {
            var sent := SendInviteResponse(callId, INVALID_OPERATION, env);
          }
        }
        i := i + 1;
      }
      assert currentCallVec[..i] == currentCallVec;
    }

    method ClearCurrentCallsMap()
      modifies this
      ensures AsTable() == Clear(old(AsTable()))
    {
      journal := journal + Clearings(currentCalls, currentCallVec);
      currentCalls := map[];
      currentCallVec := [];
    }

    /** What a failing bind response and a relay connection that cannot be created do. */
    method FailRelayConn(env: Env)
      modifies this
      ensures AsTable() == FailRelay(old(AsTable()), Reported(env))
    {
      hide Farewells, Clearings;
      SendExceptInviteResponse(env);
      ClearCurrentCallsMap();
      ResetRelayLinkState();
    }

    /** relayConnScanAndCallBack; `overdue` is the test of the clock. */
    method RelayConnScanAndCallBack(overdue: bool)
      modifies this
      ensures AsTable() == if overdue then FailRelay(old(AsTable()), Overdue) else old(AsTable())
    {
      hide Clearings;
      if relayLinkState != BEING_CREATED || !overdue {
        return;
      }
      var i := 0;
      while i < |currentCallVec|
        invariant 0 <= i <= |currentCallVec|
        invariant AsTable() == old(AsTable()).(journal :=
                    old(journal) + Farewells(currentCalls, currentCallVec[..i], Overdue))
      {
        var callId := currentCallVec[i];
        assert currentCallVec[..i + 1][..i] == currentCallVec[..i];
        if callId in currentCalls && currentCalls[callId].state == WAIT_SEND_UPDATE_REQUEST {
          Note(Sent(callId, ByeRequest));
        }
        i := i + 1;
      }
      assert currentCallVec[..i] == currentCallVec;
      ClearCurrentCallsMap();
      ResetRelayLinkState();
    }

    /**
     * handleXMDConnClosed; ids of connections are not 0, and `direct` are the calls with a connection to their
     * peer, other than the closed one.
     */
    method HandleXMDConnClosed(connId: nat, direct: set<nat>)
      requires connId != 0
      modifies this
      ensures AsTable() == LoseConn(old(AsTable()), connId == old(relayConnId), direct)
    {
      if connId == relayConnId {
        ResetRelayLinkState();
      }
      CheckAndCloseCalls(direct);
    }

    method CheckAndCloseCalls(direct: set<nat>)
      modifies this
      ensures AsTable() == if old(relayConnId) != 0 then old(AsTable())
                           else Scan(old(AsTable()), old(currentCallVec), Unreachable(direct))
    {
      hide Scan, Scanning, Reports, Delete;
      if relayConnId != 0 {
        return;
      }
      ghost var t, n := AsTable(), 0;
      var i := 0;
      ScanStart(t, Unreachable(direct));
      while i < |currentCallVec|
        invariant 0 <= i <= |currentCallVec| && Scanning(t, n, i, AsTable(), Unreachable(direct))
        decreases |currentCallVec| - i
      {
        var callId := currentCallVec[i];
        ScanNext(t, n, i, AsTable(), Unreachable(direct));
        if callId in currentCalls && callId !in direct {
          FirstHit(t, n, i, AsTable(), direct);
          SameReports(currentCalls[callId], callId, Unreachable(direct));
          CloseUnreachable(callId);
        } else {
          i := i + 1;
        }
        n := n + 1;
      }
      ScanEnd(t, n, i, AsTable(), Unreachable(direct));
    }

    /** A call that has no data channel left: the application hears of it only if it was connected. */
    method CloseUnreachable(callId: nat)
      requires callId in currentCalls
      modifies this
      ensures AsTable() == Ended(old(AsTable()), callId, Unreachable({})).(vec := Delete(old(AsTable()), callId).vec)
    {
      if WasConnected(currentCalls[callId]) {
        Note(Sent(callId, ByeRequest));
        Note(OnClosed(callId));
      } else {
        Note(Cleared(callId));
      }
      DeleteFromCurrentCallsMap(callId);
    }

    /** The end of a call whose time is up, at its place in the list. */
    method ExpireCall(i: nat)
      requires i < |currentCallVec| && currentCallVec[i] in currentCalls
      requires currentCalls[currentCallVec[i]].state != RUNNING
      modifies this
      ensures AsTable() == Ended(old(AsTable()), old(currentCallVec[i]), Expired({}))
                           .(vec := old(currentCallVec[..i]) + old(currentCallVec[i + 1..]))
    {
      var callId := currentCallVec[i];
      var callState := currentCalls[callId].state;
      if callState == WAIT_CREATE_RESPONSE || callState == WAIT_SEND_CREATE_REQUEST {
        currentCalls := currentCalls - {callId};
        currentCallVec := currentCallVec[..i] + currentCallVec[i + 1..];
        Note(OnAnswered(callId, false));
      } else if callState == WAIT_INVITEE_RESPONSE || callState == WAIT_CALL_ONLAUNCHED {
        currentCalls := currentCalls - {callId};
        currentCallVec := currentCallVec[..i] + currentCallVec[i + 1..];
        Note(OnClosed(callId));
      } else {
        Note(Sent(callId, ByeRequest));
        currentCalls := currentCalls - {callId};
        currentCallVec := currentCallVec[..i] + currentCallVec[i + 1..];
        Note(OnClosed(callId));
      }
    }

    /** rtsScanAndCallBack; `expired` are the calls the clock finds too old. */
    method RtsScanAndCallBack(expired: set<nat>)
      modifies this
      ensures AsTable() == ScanCalls(old(AsTable()), expired)
    {
      hide Scan, Scanning, CloseRelayWhenNoCall, Reports;
      if |currentCalls| == 0 {
        return;
      }
      ghost var t, n := AsTable(), 0;
      var flags := false;
      var i := 0;
      ScanStart(t, Expired(expired));
      while i < |currentCallVec|
        invariant 0 <= i <= |currentCallVec| && Scanning(t, n, i, AsTable(), Expired(expired))
        invariant if flags then |currentCalls| < |t.calls| else currentCalls == t.calls
        decreases |currentCallVec| - i
      {
        var callId := currentCallVec[i];
        ScanNext(t, n, i, AsTable(), Expired(expired));
        if callId in currentCalls && currentCalls[callId].state != RUNNING && callId in expired {
          EndedCalls(AsTable(), callId, Expired(expired));
          SameReports(currentCalls[callId], callId, Expired(expired));
          ExpireCall(i);
          flags := true;
        } else {
          i := i + 1;
        }
        n := n + 1;
      }
      ScanEnd(t, n, i, AsTable(), Expired(expired));
      if flags {
        var closed := CloseRelayConnWhenNoCall();
      }
    }

    /** The BYE_REQUESTs and callbacks of a logout. */
    method CloseConnected()
      modifies this`journal
      ensures journal == old(journal) + Closings(currentCalls, currentCallVec)
    {
      var i := 0;
      while i < |currentCallVec|
        invariant 0 <= i <= |currentCallVec|
        invariant journal == old(journal) + Closings(currentCalls, currentCallVec[..i])
      {
        var callId := currentCallVec[i];
        assert currentCallVec[..i + 1][..i] == currentCallVec[..i];
        if callId in currentCalls && WasConnected(currentCalls[callId]) {
          Note(Sent(callId, ByeRequest));
          Note(OnClosed(callId));
        }
        i := i + 1;
      }
      assert currentCallVec[..i] == currentCallVec;
    }

    /** logout, while online. */
    method Logout()
      modifies this
      ensures AsTable() == CallTable.Logout(old(AsTable()))
    {
      hide Closings, CloseRelayWhenNoCall;
      CloseConnected();
      currentCalls := map[];
      currentCallVec := [];
      var closed := CloseRelayConnWhenNoCall();
    }
  }
}
