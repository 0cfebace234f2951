/**
 * The call table of a user and the relay connection it keeps alive: what every inbound RTS signal,
 * a dialled or closed call, the user's answer to an invitation and the relay's bind response do.
 */
module CallTable {
  datatype CallState =
    | WAIT_SEND_CREATE_REQUEST | WAIT_CALL_ONLAUNCHED | WAIT_INVITEE_RESPONSE | WAIT_CREATE_RESPONSE
    | RUNNING | WAIT_SEND_UPDATE_REQUEST | WAIT_UPDATE_RESPONSE

  datatype LinkState = NOT_CREATED | BEING_CREATED | SUCC_CREATED

  datatype RTSResult =
    | SUCC | PARAMETER_ERROR | INTERNAL_ERROR1 | PEER_REFUSE | PEER_OFFLINE | INVALID_OPERATION

  datatype UserInfo = UserInfo(appId: int, uuid: int, appAccount: string, resource: string)

  datatype Session = Session(peer: UserInfo, single: bool, state: CallState, creator: bool, appContent: string)

  datatype Message =
    | InviteResponse(result: RTSResult) | CreateRequest | ByeRequest | ByeResponse(result: RTSResult)
    | UpdateRequest | UpdateResponse(result: RTSResult)

  /** What leaves the user object: callbacks, messages queued, and the changes of the table themselves. */
  datatype Entry =
    | Inserted(callId: nat)
    | OnAnswered(callId: nat, accepted: bool)
    | OnClosed(callId: nat)
    | Declined(callId: nat)
    | Cleared(callId: nat)
    | Launched(callId: nat)
    | Sent(callId: nat, message: Message)

  datatype Table = Table(calls: map<nat, Session>, vec: seq<nat>, relayConnId: nat, link: LinkState, bound: bool,
                         maxCallNum: nat, journal: seq<Entry>)
  {
    function Noting(e: Entry): Table { this.(journal := journal + [e]) }
  }

  /** getLocalInfo succeeds; what createConnection returns if it is called. */
  datatype Env = Env(localInfo: bool, newConn: nat)

  // ---------------------------------------------------------------- the pieces

  function SendInviteResponse(t: Table, callId: nat, result: RTSResult, env: Env): Table {
    if env.localInfo then t.Noting(Sent(callId, InviteResponse(result))) else t
  }

  /** insertIntoCurrentCallsMap: an id that is in the map keeps its session, the list grows anyway. */
  function Insert(t: Table, callId: nat, s: Session): Table {
    var t := t.(vec := t.vec + [callId]);
    if callId in t.calls then t else t.(calls := t.calls[callId := s]).Noting(Inserted(callId))
  }

  function RemoveFirst(vec: seq<nat>, callId: nat): seq<nat> {
    if vec == [] then [] else if vec[0] == callId then vec[1..] else [vec[0]] + RemoveFirst(vec[1..], callId)
  }

  function Delete(t: Table, callId: nat): Table {
    if callId !in t.calls then t else t.(calls := t.calls - {callId}, vec := RemoveFirst(t.vec, callId))
  }

  function ResetRelay(t: Table): Table { t.(relayConnId := 0, link := NOT_CREATED, bound := false) }

  function CloseRelayWhenNoCall(t: Table): Table {
    if t.relayConnId == 0 || |t.calls| > 0 then t else ResetRelay(t)
  }

  /** createRelayConn, where address and local address are part of whether a connection came about. */
  function CreateRelay(t: Table, env: Env): Table {
    if t.relayConnId != 0 || !env.localInfo || env.newConn == 0 then t
    else t.(relayConnId := env.newConn, link := BEING_CREATED)
  }

  /** sendCreateRequest and sendUpdateRequest: only with a bound relay and a local address. */
  function CanRequest(t: Table, env: Env): bool { t.bound && env.localInfo }

  // ---------------------------------------------------------------- inbound signals

  /** The payload of a signal, or none if it does not parse. */
  datatype Signal =
    | InviteRequest(parses: bool, hasStreamType: bool, members: seq<UserInfo>, appContent: string)
    | CreateResponse(parses: bool, hasResult: bool, hasErrMsg: bool, members: seq<UserInfo>, success: bool)
    | ByeRequestSignal(parses: bool)
    | ByeResponseSignal(parses: bool, hasResult: bool)
    | UpdateRequestSignal(parses: bool, user: seq<UserInfo>, addressed: bool)
    | UpdateResponseSignal(parses: bool, hasResult: bool)

  datatype RTSMessage = RTSMessage(callId: nat, uuid: int, single: bool, signal: Signal)

  /** The first member with the sender's uuid. */
  function FindMember(members: seq<UserInfo>, uuid: int): (r: seq<UserInfo>)
    ensures |r| <= 1 && (r != [] ==> r[0] in members && r[0].uuid == uuid)
    ensures r == [] ==> forall m | m in members :: m.uuid != uuid
  {
    if members == [] then [] else if members[0].uuid == uuid then [members[0]] else FindMember(members[1..], uuid)
  }

  /** Why an invitation is refused on the spot, if it is. */
  datatype Verdict = Taken | Refused(result: RTSResult)

  function Judge(t: Table, m: RTSMessage, env: Env): Verdict
    requires m.signal.InviteRequest?
  {
    var s := m.signal;
    if !s.parses then Refused(INTERNAL_ERROR1)
    else if !s.hasStreamType || |s.members| == 0 then Refused(PARAMETER_ERROR)
    else if FindMember(s.members, m.uuid) == [] then Refused(PARAMETER_ERROR)
    else if |t.calls| == t.maxCallNum then Refused(PEER_REFUSE)
    else if t.link == NOT_CREATED && CreateRelay(t, env).relayConnId == 0 then Refused(PEER_OFFLINE)
    else Taken
  }

  function HandleInvite(t: Table, m: RTSMessage, env: Env): Table
    requires m.signal.InviteRequest?
  {
    match Judge(t, m, env)
    case Refused(result) => SendInviteResponse(t, m.callId, result, env)
    case Taken =>
      var from := FindMember(m.signal.members, m.uuid);
      if from == [] then t else
      var waiting := Session(from[0], m.single, WAIT_CALL_ONLAUNCHED, false, m.signal.appContent);
      if t.link == NOT_CREATED then Insert(CreateRelay(t, env), m.callId, waiting)
      else if t.link == BEING_CREATED then Insert(t, m.callId, waiting)
      else Insert(t, m.callId, waiting.(state := WAIT_INVITEE_RESPONSE)).Noting(Launched(m.callId))
  }

  function Drop(t: Table, callId: nat, e: Entry): Table { CloseRelayWhenNoCall(Delete(t, callId)).Noting(e) }

  function SetState(t: Table, callId: nat, state: CallState): Table
    requires callId in t.calls
  {
    t.(calls := t.calls[callId := t.calls[callId].(state := state)])
  }

  /** The peer of a call that was answered, kept only if peer-to-peer is enabled. */
  function Answered(t: Table, m: RTSMessage, p2p: bool): Table
    requires m.callId in t.calls && m.signal.CreateResponse?
  {
    var t := SetState(t, m.callId, RUNNING);
    var to := FindMember(m.signal.members, m.uuid);
    if p2p
    then
      var peer := if to == [] then UserInfo(0, 0, "", "") else to[0];
      t.(calls := t.calls[m.callId := t.calls[m.callId].(peer := peer)])
    else t
  }

  /** The RTS_SIGNAL branch of decodePacketAndHandle. */
  function HandleSignal(t: Table, m: RTSMessage, p2p: bool, env: Env): Table {
    var id := m.callId;
    if m.signal.InviteRequest? then HandleInvite(t, m, env)
    else if id !in t.calls then t
    else match m.signal
      case InviteRequest(_, _, _, _) => t
      case CreateResponse(parses, hasResult, hasErrMsg, members, success) =>
        if !parses then t
        else if !hasResult || !hasErrMsg || |members| == 0 then Drop(t, id, OnAnswered(id, false))
        else if m.single && |members| != 2 then Drop(t, id, OnAnswered(id, false))
        else if success then Answered(t, m, p2p).Noting(OnAnswered(id, true))
        else Drop(t, id, OnAnswered(id, false))
      case ByeRequestSignal(parses) =>
        if !parses then t.Noting(Sent(id, ByeResponse(INTERNAL_ERROR1)))
        else Drop(t.Noting(Sent(id, ByeResponse(SUCC))), id, OnClosed(id))
      case ByeResponseSignal(parses, hasResult) =>
        if !parses || !hasResult then t else Drop(t, id, OnClosed(id))
      case UpdateRequestSignal(parses, user, addressed) =>
        if !parses then t.Noting(Sent(id, UpdateResponse(INTERNAL_ERROR1)))
        else if user == [] || !addressed then t.Noting(Sent(id, UpdateResponse(PARAMETER_ERROR)))
        else t.(calls := t.calls[id := t.calls[id].(peer := user[0])]).Noting(Sent(id, UpdateResponse(SUCC)))
      case UpdateResponseSignal(parses, hasResult) =>
        if !parses || !hasResult then t else SetState(t, id, RUNNING)
  }

  // ---------------------------------------------------------------- the user's own calls, and the relay

  /** Someone is being called already with the same content. */
  predicate SameCall(t: Table, to: UserInfo, appContent: string) {
    exists id | id in t.vec && id in t.calls ::
      t.calls[id].peer.appId == to.appId && t.calls[id].peer.appAccount == to.appAccount
      && t.calls[id].peer.resource == to.resource
      && t.calls[id].appContent == appContent
  }

  /**
   * dialCall with the id it drew (never 0 and never one in use: it draws again); `ready` is a registered
   * handler, a name to call, and being online.
   */
  function Dial(t: Table, callId: nat, to: UserInfo, appContent: string, ready: bool, env: Env): (Table, nat) {
    if !ready || |t.calls| == t.maxCallNum || SameCall(t, to, appContent) || callId in t.calls || callId == 0
    then (t, 0)
    else
      var waiting := Session(to, true, WAIT_SEND_CREATE_REQUEST, true, appContent);
      if t.link == NOT_CREATED then
        var t := CreateRelay(t, env);
        if t.relayConnId == 0 then (t, 0) else (Insert(t, callId, waiting), callId)
      else if t.link == BEING_CREATED then (Insert(t, callId, waiting), callId)
      else
        var t := Insert(t, callId, waiting.(state := WAIT_CREATE_RESPONSE));
        (if CanRequest(t, env) then t.Noting(Sent(callId, CreateRequest)) else t, callId)
  }

  /** The states from RUNNING on. */
  predicate WasConnected(s: Session) { s.state in {RUNNING, WAIT_SEND_UPDATE_REQUEST, WAIT_UPDATE_RESPONSE} }

  /** closeCall: a BYE_REQUEST only for a call that was connected. */
  function Close(t: Table, callId: nat): Table {
    if callId !in t.calls then t else
    var t := if WasConnected(t.calls[callId]) then t.Noting(Sent(callId, ByeRequest)) else t;
    Drop(t, callId, OnClosed(callId))
  }

  /** onLaunched after the user's answer; a refused call leaves the map but not the list. */
  function LaunchAnswered(t: Table, callId: nat, accepted: bool, env: Env): Table {
    if callId !in t.calls then t
    else if accepted then SetState(SendInviteResponse(t, callId, SUCC, env), callId, RUNNING)
    else
      var t := SendInviteResponse(t, callId, PEER_REFUSE, env);
      CloseRelayWhenNoCall(t.(calls := t.calls - {callId}).Noting(Declined(callId)))
  }

  /** What the bind response means for one call that waited for it. */
  function WakeOne(t: Table, id: nat, env: Env): Table {
    if id !in t.calls then t else
    var s := t.calls[id];
    if s.state == WAIT_SEND_CREATE_REQUEST && s.creator then
      if CanRequest(t, env) then SetState(t.Noting(Sent(id, CreateRequest)), id, WAIT_CREATE_RESPONSE) else t
    else if s.state == WAIT_CALL_ONLAUNCHED && !s.creator then
      SetState(t, id, WAIT_INVITEE_RESPONSE).Noting(Launched(id))
    else if s.state == WAIT_SEND_UPDATE_REQUEST then
      if CanRequest(t, env) then SetState(t.Noting(Sent(id, UpdateRequest)), id, WAIT_UPDATE_RESPONSE) else t
    else t
  }

  function Wake(t: Table, ids: seq<nat>, env: Env): Table
    decreases |ids|
  {
    if ids == [] then t else WakeOne(Wake(t, ids[..|ids| - 1], env), ids[|ids| - 1], env)
  }

  /** A successful BIND_RELAY_RESPONSE, on whatever connection: its id is not compared with the relay's. */
  function RelayBound(t: Table, env: Env): Table {
    Wake(t.(bound := true, link := SUCC_CREATED), t.vec, env)
  }

  // ---------------------------------------------------------------- failures and timeouts

  /** Why a relay connection is given up: a failure is reported for one, or its creation takes too long. */
  datatype Failure = Reported(env: Env) | Overdue

  /** A report counts whatever connection it is about; a delay only while one is being created. */
  predicate Fails(t: Table, failure: Failure) { failure.Reported? || t.link == BEING_CREATED }

  /** What the peer of a call is told before the call is cleared away. */
  function Farewell(s: Session, id: nat, failure: Failure): seq<Entry> {
    match failure
    case Reported(env) =>
      if env.localInfo && s.state in {WAIT_CALL_ONLAUNCHED, WAIT_INVITEE_RESPONSE}
      then [Sent(id, InviteResponse(INVALID_OPERATION))] else []
    case Overdue => if s.state == WAIT_SEND_UPDATE_REQUEST then [Sent(id, ByeRequest)] else []
  }

  function Farewells(calls: map<nat, Session>, ids: seq<nat>, failure: Failure): seq<Entry> {
    if ids == [] then [] else
    var id := ids[|ids| - 1];
    Farewells(calls, ids[..|ids| - 1], failure) + if id in calls then Farewell(calls[id], id, failure) else []
  }

  /** One entry for every listed call that is in the map. */
  function Clearings(calls: map<nat, Session>, ids: seq<nat>): seq<Entry> {
    if ids == [] then [] else
    var (front, id) := (ids[..|ids| - 1], ids[|ids| - 1]);
    Clearings(calls, front) + if id in calls && id !in front then [Cleared(id)] else []
  }

  /** clearCurrentCallsMap: no call gets a callback. */
  function Clear(t: Table): Table {
    t.(calls := map[], vec := [], journal := t.journal + Clearings(t.calls, t.vec))
  }

  function FailRelay(t: Table, failure: Failure): Table {
    if !Fails(t, failure) then t
    else ResetRelay(Clear(t.(journal := t.journal + Farewells(t.calls, t.vec, failure))))
  }

  /** Why a scan ends calls: nothing happened to them for too long, or they have no data channel left. */
  datatype Reason = Expired(calls: set<nat>) | Unreachable(direct: set<nat>)

  predicate Hits(t: Table, id: nat, why: Reason) {
    && id in t.calls
    && match why
       case Expired(calls) => t.calls[id].state != RUNNING && id in calls
       case Unreachable(direct) => id !in direct
  }

  /** What is said about such a call: nothing, if it was not connected and has no channel. */
  function Reports(s: Session, id: nat, why: Reason): seq<Entry> {
    if WasConnected(s) then [Sent(id, ByeRequest), OnClosed(id)]
    else if why.Unreachable? then [Cleared(id)]
    else if s.state in {WAIT_CREATE_RESPONSE, WAIT_SEND_CREATE_REQUEST} then [OnAnswered(id, false)]
    else [OnClosed(id)]
  }

  function Ended(t: Table, id: nat, why: Reason): Table
    requires id in t.calls
  {
    t.(calls := t.calls - {id}, journal := t.journal + Reports(t.calls[id], id, why))
  }

  /** The scan through the list, which becomes what is left of it. */
  function Scan(t: Table, ids: seq<nat>, why: Reason): Table
    decreases |ids|
  {
    if ids == [] then t.(vec := []) else
    var (u, id) := (Scan(t, ids[..|ids| - 1], why), ids[|ids| - 1]);
    if Hits(u, id, why) then Ended(u, id, why) else u.(vec := u.vec + [id])
  }

  /** rtsScanAndCallBack */
  function ScanCalls(t: Table, expired: set<nat>): Table {
    if t.calls == map[] then t else
    var u := Scan(t, t.vec, Expired(expired));
    if u.calls == t.calls then u else CloseRelayWhenNoCall(u)
  }

  /**
   * A connection is closed abnormally, the relay's or another; `direct` are the calls that have one to their peer
   * then. Without a relay connection the others end.
   */
  function LoseConn(t: Table, relay: bool, direct: set<nat>): Table {
    var t := if relay && t.relayConnId != 0 then ResetRelay(t) else t;
    if t.relayConnId != 0 then t else Scan(t, t.vec, Unreachable(direct))
  }

  /** What logout says about the listed calls, once for every place in the list. */
  function Closings(calls: map<nat, Session>, ids: seq<nat>): seq<Entry> {
    if ids == [] then [] else
    var id := ids[|ids| - 1];
    Closings(calls, ids[..|ids| - 1])
    + if id in calls && WasConnected(calls[id]) then [Sent(id, ByeRequest), OnClosed(id)] else []
  }

  /** logout: the calls that were not connected yet go without a word. */
  function Logout(t: Table): Table {
    CloseRelayWhenNoCall(t.(calls := map[], vec := [], journal := t.journal + Closings(t.calls, t.vec)))
  }

  // ---------------------------------------------------------------- runs

  datatype Event =
    | Arrived(message: RTSMessage, p2p: bool, env: Env)
    | Dialled(callId: nat, to: UserInfo, appContent: string, ready: bool, env: Env)
    | ClosedByUser(callId: nat)
    | LaunchReturned(callId: nat, accepted: bool, env: Env)
    | BoundByRelay(env: Env)
    | RelayFailed(failure: Failure)
    | ConnLost(relay: bool, direct: set<nat>)
    | CallsScanned(expired: set<nat>)
    | LimitRaised(more: nat)

  function Next(t: Table, e: Event): Table {
    match e
    case Arrived(m, p2p, env) => HandleSignal(t, m, p2p, env)
    case Dialled(callId, to, appContent, ready, env) => Dial(t, callId, to, appContent, ready, env).0
    case ClosedByUser(callId) => Close(t, callId)
    case LaunchReturned(callId, accepted, env) => LaunchAnswered(t, callId, accepted, env)
    case BoundByRelay(env) => RelayBound(t, env)
    case RelayFailed(failure) => FailRelay(t, failure)
    case ConnLost(relay, direct) => LoseConn(t, relay, direct)
    case CallsScanned(expired) => ScanCalls(t, expired)
    case LimitRaised(more) => t.(maxCallNum := t.maxCallNum + more)
  }

  function Run(limit: nat, events: seq<Event>): Table {
    if events == [] then Table(map[], [], 0, NOT_CREATED, false, limit, [])
    else Next(Run(limit, events[..|events| - 1]), events[|events| - 1])
  }
}
