/**
 * The two ends of one call over a network that may lose, repeat and reorder what they send: packets
 * stay available for delivery forever and need never be delivered. Every action of either end is a step.
 */
module P2PPeers {
  import opened ProtoWire
  import opened P2PNode
  import opened P2PProcessor

  datatype Side = Left | Right

  function Other(s: Side): Side { if s == Left then Right else Left }

  /** What an observer writes down. */
  datatype Entry =
    | Accepted(who: Side, channel: Channel, id: nat)
    | Opened(who: Side, channel: Channel, id: nat, conn: nat)
    | Lost(who: Side, channel: Channel)
    | Learned(who: Side, wan: Addr)

  datatype World = World(left: End, right: End, burrows: set<BurrowPacket>, infos: set<(Side, UserInfo)>,
                         log: seq<Entry>)
  {
    function At(s: Side): End { if s == Left then left else right }

    function With(s: Side, e: End): World { if s == Left then this.(left := e) else this.(right := e) }
  }

  const INITIAL := World(START_END, START_END, {}, {}, [])

  datatype Calls = Calls(left: Call, right: Call) {
    function At(s: Side): Call { if s == Left then left else right }

    /** The two call sessions describe each other, and the ends are different. */
    ghost predicate Match() {
      && left.callId == right.callId
      && left.peerUuid == right.uuid && left.peerResource == right.resource
      && right.peerUuid == left.uuid && right.peerResource == left.resource
      && (left.uuid != right.uuid || left.resource != right.resource)
    }
  }

  datatype Action =
    | Look(who: Side)
    | Pass(who: Side, env: Env)
    | GetDetectResponse(who: Side, responder: Addr, wan: Addr, relayPort: Option<nat>)
    | GetInfo(who: Side, info: UserInfo)
    | GetBurrow(who: Side, packet: BurrowPacket, live: bool, sender: Addr, conn: nat, answered: bool)
    | CloseConn(who: Side, channel: Channel)

  function Step(w: World, calls: Calls, act: Action): World {
    var s := act.who;
    var e, call := w.At(s), calls.At(s);
    match act
    case Look(_) => w.With(s, e.(seen := e.node.state))
    case Pass(_, env) => PassStep(w, call, s, env)
    case GetDetectResponse(_, from, wan, relayPort) =>
      w.With(s, e.(node := HandleNetDetectResp(e.node, from, wan, relayPort)))
    case GetInfo(_, info) => if (Other(s), info) in w.infos then InfoStep(w, s, info) else w
    case GetBurrow(_, p, live, from, conn, answered) =>
      if p in w.burrows then BurrowStep(w, call, s, p, live, from, conn, answered) else w
    case CloseConn(_, channel) => if Opens(e.node, channel) then w else LossStep(w, s, channel)
  }

  /** A pass of the loop, with what it sends put on the network. */
  function PassStep(w: World, call: Call, s: Side, env: Env): World {
    var e := w.At(s);
    var (n, l) := Act(e.node, e.loop, e.seen, env);
    var did := DoneBy(e.loop, e.seen);
    w.With(s, e.(node := n, loop := l))
     .(burrows := w.burrows + (if did.PunchCall? then BurrowRequests(e.node, call, did.num, env) else {}),
       infos := w.infos + (if did.InfoCall? && InfoSendable(e.node, env)
                           then {(s, InfoMessage(e.node, call.uuid, env))} else {}))
  }

  function InfoStep(w: World, s: Side, info: UserInfo): World {
    var e := w.At(s);
    w.With(s, e.(node := HandleNetInfo(e.node, info)))
     .(log := w.log + if info.wan.port != 0 then [Learned(s, info.wan)] else [])
  }

  function LossStep(w: World, s: Side, channel: Channel): World {
    var e := w.At(s);
    w.With(s, e.(node := LoseConn(e.node, channel))).(log := w.log + [Lost(s, channel)])
  }

  function BurrowStep(w: World, call: Call, s: Side, p: BurrowPacket, live: bool, from: Addr, conn: nat,
                      answered: bool): World
  {
    var e := w.At(s);
    if !Accepts(call, live, p) then w else
    var n := HandleBurrowPacket(e.node, call, live, p, from, conn);
    var opens := if p.channel == INTRANET then n.intranet && !e.node.intranet else n.internet && !e.node.internet;
    w.With(s, e.(node := n))
     .(burrows := w.burrows + (if p.request && answered then {BurrowResponse(call, p)} else {}),
       log := w.log + ((if p.request then [Accepted(s, p.channel, p.id)] else [])
                       + (if opens then [Opened(s, p.channel, p.id, conn)] else [])
                       + (if p.channel == INTERNET && from.port != 0 then [Learned(s, from)] else [])))
  }

  function Run(calls: Calls, acts: seq<Action>): World {
    if acts == [] then INITIAL else Step(Run(calls, acts[..|acts| - 1]), calls, acts[|acts| - 1])
  }

  // ---------------------------------------------------------------- what holds in every run

  /**
   * An end may call a channel open only on this evidence: the peer accepted one of its requests on that
   * channel, and after that the end opened the channel on the echoed number; a creator got a connection.
   */
  ghost predicate Evidence(log: seq<Entry>, s: Side, channel: Channel, creator: bool) {
    exists i, j ::
      && 0 <= i < j < |log|
      && log[j].Opened? && log[j].who == s && log[j].channel == channel && (creator ==> log[j].conn > 0)
      && log[i] == Accepted(Other(s), channel, log[j].id)
  }

  ghost predicate SentBy(call: Call, p: BurrowPacket) {
    p.uuid == call.uuid && p.resource == call.resource && p.callId == call.callId
  }

  /** Every packet is a request numbered by its sender's loop, or the echo of an accepted request of the peer. */
  ghost predicate PacketOk(w: World, calls: Calls, s: Side, p: BurrowPacket) {
    && SentBy(calls.At(s), p)
    && if p.request then p.id < w.At(s).loop.burrowNum else Accepted(s, p.channel, p.id) in w.log
  }

  ghost predicate PacketsOk(w: World, calls: Calls) {
    forall p | p in w.burrows :: PacketOk(w, calls, Left, p) || PacketOk(w, calls, Right, p)
  }

  /** Only requests the peer's loop sent are accepted. */
  ghost predicate AcceptedOk(w: World) {
    forall e | e in w.log && e.Accepted? :: e.id < w.At(Other(e.who)).loop.burrowNum
  }

  ghost predicate Knew(log: seq<Entry>, s: Side) {
    exists e :: e in log && e.Learned? && e.who == s && e.wan.port != 0
  }

  ghost predicate EndOk(w: World, calls: Calls, s: Side) {
    var n := w.At(s).node;
    && n.net.natType < 4
    && (n.intranet || n.state == INTRANET_OK ==> Evidence(w.log, s, INTRANET, calls.At(s).creator))
    && (n.internet || n.state == INTERNET_OK ==> Evidence(w.log, s, INTERNET, calls.At(s).creator))
    && (n.peer.wan.port != 0 ==> Knew(w.log, s))
  }

  ghost predicate LoopOk(l: Loop) {
    l.punch <= MAX_P2P_PUNCH_COUNT && l.burrowNum == PunchesDue(l.punch)
  }

  /** The channel was opened and not lost since. */
  function OpenNow(log: seq<Entry>, s: Side, channel: Channel): bool {
    log != [] &&
    var last := log[|log| - 1];
    last != Lost(s, channel)
    && ((last.Opened? && last.who == s && last.channel == channel) || OpenNow(log[..|log| - 1], s, channel))
  }

  /** No end opens a channel that is open, and the flags say which are. */
  ghost predicate OpenedOnce(w: World) {
    && (forall j | 0 <= j < |w.log| && w.log[j].Opened? :: !OpenNow(w.log[..j], w.log[j].who, w.log[j].channel))
    && forall s, channel :: OpenNow(w.log, s, channel) == !Opens(w.At(s).node, channel)
  }

  ghost predicate Inv(w: World, calls: Calls) {
    && PacketsOk(w, calls) && AcceptedOk(w) && OpenedOnce(w)
    && EndOk(w, calls, Left) && EndOk(w, calls, Right)
    && LoopOk(w.left.loop) && LoopOk(w.right.loop)
  }

  // ---------------------------------------------------------------- steps that send or learn nothing new

  /** Nothing the loop does opens a channel or touches what is known of the peer. */
  lemma ActFacts(n: Node, l: Loop, seen: P2PState, env: Env)
    requires LoopOk(l)
    ensures var (m, k) := Act(n, l, seen, env);
            && LoopOk(k) && k.burrowNum >= l.burrowNum
            && (DoneBy(l, seen).PunchCall? ==> DoneBy(l, seen).num < k.burrowNum)
            && Quieter(n, m) && SameFlags(n, m)
  {
    hide PunchesDue;
    if l.punch < MAX_P2P_PUNCH_COUNT { PunchSchedule(l.punch); }
  }

  /** Nothing is open that was not, the peer is as before, and an OK state was one before. */
  ghost predicate Quieter(n: Node, m: Node) {
    && (m.intranet ==> n.intranet) && (m.internet ==> n.internet) && m.peer == n.peer
    && (m.state in {INTRANET_OK, INTERNET_OK} ==> m.state == n.state)
    && (n.net.natType < 4 ==> m.net.natType < 4)
  }

  ghost predicate SameFlags(n: Node, m: Node) { m.intranet == n.intranet && m.internet == n.internet }

  lemma DetectFacts(n: Node, from: Addr, wan: Addr, relayPort: Option<nat>)
    ensures var m := HandleNetDetectResp(n, from, wan, relayPort); Quieter(n, m) && SameFlags(n, m)
  {
  }

  lemma EvidenceGrows(log: seq<Entry>, more: seq<Entry>, s: Side, channel: Channel, creator: bool)
    requires Evidence(log, s, channel, creator)
    ensures Evidence(log + more, s, channel, creator)
  {
    var i, j :| 0 <= i < j < |log| && log[j].Opened? && log[j].who == s && log[j].channel == channel
                && (creator ==> log[j].conn > 0) && log[i] == Accepted(Other(s), channel, log[j].id);
    assert (log + more)[i] == log[i] && (log + more)[j] == log[j];
  }

  lemma BothGrow(log: seq<Entry>, more: seq<Entry>, s: Side, creator: bool)
    ensures Evidence(log, s, INTRANET, creator) ==> Evidence(log + more, s, INTRANET, creator)
    ensures Evidence(log, s, INTERNET, creator) ==> Evidence(log + more, s, INTERNET, creator)
  {
    hide Evidence;
    if Evidence(log, s, INTRANET, creator) { EvidenceGrows(log, more, s, INTRANET, creator); }
    if Evidence(log, s, INTERNET, creator) { EvidenceGrows(log, more, s, INTERNET, creator); }
  }

  /** What was true of one end stays true while the log grows and the end is left alone or grows quieter. */
  lemma EndKept(w: World, v: World, calls: Calls, s: Side, more: seq<Entry>)
    requires EndOk(w, calls, s) && v.log == w.log + more && Quieter(w.At(s).node, v.At(s).node)
    ensures EndOk(v, calls, s)
  {
    hide Evidence, Knew;
    var n := w.At(s).node;
    BothGrow(w.log, more, s, calls.At(s).creator);
    KnewGrows(w.log, more, s);
  }

  lemma KnewGrows(log: seq<Entry>, more: seq<Entry>, s: Side)
    ensures Knew(log, s) ==> Knew(log + more, s)
  {
    if Knew(log, s) {
      var e :| e in log && e.Learned? && e.who == s && e.wan.port != 0;
      assert e in log + more;
    }
  }

  lemma PacketsKept(w: World, v: World, calls: Calls)
    requires PacketsOk(w, calls) && (forall e | e in w.log :: e in v.log)
    requires v.left.loop.burrowNum >= w.left.loop.burrowNum && v.right.loop.burrowNum >= w.right.loop.burrowNum
    ensures forall p | p in w.burrows :: PacketOk(v, calls, Left, p) || PacketOk(v, calls, Right, p)
  {
  }

  lemma {:induction false} OpenNowKept(log: seq<Entry>, more: seq<Entry>, s: Side, channel: Channel)
    requires forall e | e in more :: !e.Opened? && !e.Lost?
    ensures OpenNow(log + more, s, channel) == OpenNow(log, s, channel)
    decreases |more|
  {
    if more == [] {
      assert log + more == log;
    } else {
      assert (log + more)[..|log + more| - 1] == log + more[..|more| - 1];
      OpenNowKept(log, more[..|more| - 1], s, channel);
    }
  }

  lemma OpenedKept(w: World, v: World, more: seq<Entry>)
    requires OpenedOnce(w) && v.log == w.log + more && forall e | e in more :: !e.Opened? && !e.Lost?
    requires SameFlags(w.left.node, v.left.node) && SameFlags(w.right.node, v.right.node)
    ensures OpenedOnce(v)
  {
    hide OpenNow;
    OpenedBefore(w, v, more);
    forall s, channel ensures OpenNow(v.log, s, channel) == !Opens(v.At(s).node, channel) {
      OpenNowKept(w.log, more, s, channel);
    }
    forall k | |w.log| <= k < |v.log| ensures !v.log[k].Opened? {
      assert v.log[k] == more[k - |w.log|];
    }
  }

  /** The openings logged before are as they were. */
  lemma OpenedBefore(w: World, v: World, more: seq<Entry>)
    requires OpenedOnce(w) && v.log == w.log + more
    ensures forall j | 0 <= j < |w.log| && v.log[j].Opened? :: !OpenNow(v.log[..j], v.log[j].who, v.log[j].channel)
  {
    hide OpenNow;
    forall j | 0 <= j < |w.log| && v.log[j].Opened?
      ensures !OpenNow(v.log[..j], v.log[j].who, v.log[j].channel)
    {
      assert v.log[..j] == w.log[..j] && v.log[j] == w.log[j];
    }
  }

  /** Looking at the state, or handling a detection response. */
  lemma QuietStep(w: World, v: World, calls: Calls)
    requires Inv(w, calls) && v.log == w.log && v.burrows == w.burrows && v.infos == w.infos
    requires v.left.loop == w.left.loop && v.right.loop == w.right.loop
    requires Quieter(w.left.node, v.left.node) && Quieter(w.right.node, v.right.node)
    requires SameFlags(w.left.node, v.left.node) && SameFlags(w.right.node, v.right.node)
    ensures Inv(v, calls)
  {
    hide EndOk, Quieter, OpenedOnce, LoopOk;
    assert v.log == w.log + [];
    EndKept(w, v, calls, Left, []);
    EndKept(w, v, calls, Right, []);
    PacketsKept(w, v, calls);
    OpenedKept(w, v, []);
  }

  lemma QuietSelf(n: Node)
    ensures Quieter(n, n) && SameFlags(n, n)
  {
  }

  lemma NewRequests(w: World, v: World, calls: Calls, s: Side, env: Env, num: nat)
    requires num < v.At(s).loop.burrowNum
    ensures forall p | p in BurrowRequests(w.At(s).node, calls.At(s), num, env) :: PacketOk(v, calls, s, p)
  {
  }

  lemma PassKeeps(w: World, calls: Calls, s: Side, env: Env)
    requires Inv(w, calls)
    ensures Inv(PassStep(w, calls.At(s), s, env), calls)
  {
    hide EndOk, Quieter, OpenedOnce, LoopOk, Act, DoneBy, PacketOk, InfoMessage, BurrowRequests, InfoSendable;
    var e := w.At(s);
    var v := PassStep(w, calls.At(s), s, env);
    var did := DoneBy(e.loop, e.seen);
    ActFacts(e.node, e.loop, e.seen, env);
    QuietSelf(w.left.node);
    QuietSelf(w.right.node);
    assert v.log == w.log + [];
    EndKept(w, v, calls, Left, []);
    EndKept(w, v, calls, Right, []);
    PacketsKept(w, v, calls);
    OpenedKept(w, v, []);
    if did.PunchCall? { NewRequests(w, v, calls, s, env, did.num); }
  }

  // ---------------------------------------------------------------- steps that learn something

  lemma InfoEnd(w: World, v: World, calls: Calls, s: Side, info: UserInfo, more: seq<Entry>)
    requires EndOk(w, calls, s) && v.log == w.log + more
    requires more == if info.wan.port != 0 then [Learned(s, info.wan)] else []
    requires v.At(s).node == HandleNetInfo(w.At(s).node, info)
    ensures EndOk(v, calls, s) && SameFlags(w.At(s).node, v.At(s).node)
  {
    hide ParseResource, Evidence;
    BothGrow(w.log, more, s, calls.At(s).creator);
    if info.wan.port != 0 { assert Learned(s, info.wan) in v.log; }
  }

  lemma AcceptedKept(w: World, v: World, more: seq<Entry>)
    requires AcceptedOk(w) && v.log == w.log + more
    requires forall e | e in more && e.Accepted? :: e.id < w.At(Other(e.who)).loop.burrowNum
    requires v.left.loop == w.left.loop && v.right.loop == w.right.loop
    ensures AcceptedOk(v)
  {
  }

  lemma InfoKeeps(w: World, calls: Calls, s: Side, info: UserInfo)
    requires Inv(w, calls) && (Other(s), info) in w.infos
    ensures Inv(InfoStep(w, s, info), calls)
  {
    hide EndOk, HandleNetInfo, LoopOk, OpenedOnce, AcceptedOk, Quieter;
    var v := InfoStep(w, s, info);
    var more := if info.wan.port != 0 then [Learned(s, info.wan)] else [];
    assert v.log == w.log + more;
    QuietSelf(w.At(Other(s)).node);
    PacketsKept(w, v, calls);
    EndKept(w, v, calls, Other(s), more);
    InfoEnd(w, v, calls, s, info, more);
    OpenedKept(w, v, more);
    AcceptedKept(w, v, more);
  }

  /** What the peer check rules in: the packet came from the other end. */
  lemma FromPeer(w: World, calls: Calls, s: Side, p: BurrowPacket, live: bool)
    requires calls.Match() && PacketsOk(w, calls) && p in w.burrows && Accepts(calls.At(s), live, p)
    ensures PacketOk(w, calls, Other(s), p)
  {
    assert PacketOk(w, calls, Left, p) || PacketOk(w, calls, Right, p);
  }

  /** An opening of a channel, on the echo of an accepted request. */
  lemma OpenedNow(w: World, v: World, s: Side, channel: Channel, id: nat, conn: nat, creator: bool, rest: seq<Entry>)
    requires OpenedOnce(w) && Accepted(Other(s), channel, id) in w.log && (creator ==> conn > 0)
    requires v.log == w.log + ([Opened(s, channel, id, conn)] + rest)
    requires forall e | e in rest :: !e.Opened? && !e.Lost?
    requires Opens(w.At(s).node, channel) && v.At(Other(s)).node == w.At(Other(s)).node
    requires v.At(s).node.intranet == (w.At(s).node.intranet || channel == INTRANET)
    requires v.At(s).node.internet == (w.At(s).node.internet || channel == INTERNET)
    ensures Evidence(v.log, s, channel, creator) && OpenedOnce(v)
  {
    var e, j := Opened(s, channel, id, conn), |w.log|;
    var i :| 0 <= i < |w.log| && w.log[i] == Accepted(Other(s), channel, id);
    assert v.log[i] == w.log[i] && v.log[j] == e && v.log[..j] == w.log;
    OpenedBefore(w, v, [e] + rest);
    forall k | j < k < |v.log| ensures !v.log[k].Opened? {
      assert v.log[k] == rest[k - j - 1];
    }
    FlagsNow(w, v, e, rest);
    hide OpenNow, Evidence;
    assert OpenNow(w.log, s, channel) == !Opens(w.At(s).node, channel);
  }

  /** What an opening or a loss does to the channels that are open. */
  lemma FlagsNow(w: World, v: World, e: Entry, rest: seq<Entry>)
    requires OpenedOnce(w) && (e.Opened? || e.Lost?) && v.log == w.log + ([e] + rest)
    requires forall f | f in rest :: !f.Opened? && !f.Lost?
    requires v.At(Other(e.who)).node == w.At(Other(e.who)).node
    requires v.At(e.who).node.intranet == (if e.channel == INTRANET then e.Opened? else w.At(e.who).node.intranet)
    requires v.At(e.who).node.internet == (if e.channel == INTERNET then e.Opened? else w.At(e.who).node.internet)
    ensures forall s, channel :: OpenNow(v.log, s, channel) == !Opens(v.At(s).node, channel)
  {
    forall s, channel ensures OpenNow(v.log, s, channel) == !Opens(v.At(s).node, channel) {
      assert v.log == (w.log + [e]) + rest;
      OpenNowKept(w.log + [e], rest, s, channel);
      assert (w.log + [e])[..|w.log|] == w.log;
      assert OpenNow(w.log, s, channel) == !Opens(w.At(s).node, channel);
    }
  }

  /** The part of the log entry list that is about addresses. */
  function LearnedBy(s: Side, p: BurrowPacket, from: Addr): seq<Entry> {
    if p.channel == INTERNET && from.port != 0 then [Learned(s, from)] else []
  }

  lemma BurrowLearned(n: Node, call: Call, live: bool, p: BurrowPacket, from: Addr, conn: nat, log: seq<Entry>,
                      front: seq<Entry>, s: Side)
    requires Accepts(call, live, p) && (n.peer.wan.port != 0 ==> Knew(log, s))
    ensures var m := HandleBurrowPacket(n, call, live, p, from, conn);
            m.peer.wan.port != 0 ==> Knew(log + (front + LearnedBy(s, p, from)), s)
  {
    KnewGrows(log, front + LearnedBy(s, p, from), s);
    if p.channel == INTERNET && from.port != 0 {
      assert Learned(s, from) in log + (front + LearnedBy(s, p, from));
    }
  }

  /** A request changes no flag; a response opens at most its own channel, for a creator with a connection. */
  lemma BurrowFlags(n: Node, call: Call, live: bool, p: BurrowPacket, from: Addr, conn: nat)
    requires Accepts(call, live, p)
    ensures var m := HandleBurrowPacket(n, call, live, p, from, conn);
            var opens := !p.request && Opens(n, p.channel) && (call.creator ==> conn > 0);
            && m.net == n.net
            && m.intranet == (n.intranet || (opens && p.channel == INTRANET))
            && m.internet == (n.internet || (opens && p.channel == INTERNET))
            && (m.state == INTRANET_OK ==> n.state == INTRANET_OK || (opens && p.channel == INTRANET))
            && (m.state == INTERNET_OK ==> n.state == INTERNET_OK || (opens && p.channel == INTERNET))
  {
  }

  lemma BurrowEnd(w: World, v: World, calls: Calls, s: Side, p: BurrowPacket, live: bool, from: Addr, conn: nat,
                  front: seq<Entry>)
    requires EndOk(w, calls, s) && Accepts(calls.At(s), live, p)
    requires v.At(s).node == HandleBurrowPacket(w.At(s).node, calls.At(s), live, p, from, conn)
    requires v.log == w.log + (front + LearnedBy(s, p, from))
    requires !p.request && Opens(w.At(s).node, p.channel) && (calls.At(s).creator ==> conn > 0) ==>
               Evidence(v.log, s, p.channel, calls.At(s).creator)
    ensures EndOk(v, calls, s)
  {
    hide HandleBurrowPacket, Accepts, Evidence, Knew, LearnedBy;
    var n, more := w.At(s).node, front + LearnedBy(s, p, from);
    BurrowFlags(n, calls.At(s), live, p, from, conn);
    BurrowLearned(n, calls.At(s), live, p, from, conn, w.log, front, s);
    BothGrow(w.log, more, s, calls.At(s).creator);
  }

  /** The entries before the address, and what they do to the log's invariants. */
  lemma BurrowLog(w: World, v: World, calls: Calls, s: Side, p: BurrowPacket, live: bool, from: Addr, conn: nat,
                  front: seq<Entry>)
    requires calls.Match() && Inv(w, calls) && p in w.burrows && Accepts(calls.At(s), live, p)
    requires v.At(s).node == HandleBurrowPacket(w.At(s).node, calls.At(s), live, p, from, conn)
    requires v.At(Other(s)).node == w.At(Other(s)).node
    requires v.log == w.log + (front + LearnedBy(s, p, from))
    requires front == if p.request then [Accepted(s, p.channel, p.id)]
                      else if Opens(w.At(s).node, p.channel) && (calls.At(s).creator ==> conn > 0)
                      then [Opened(s, p.channel, p.id, conn)] else []
    ensures OpenedOnce(v)
    ensures !p.request && Opens(w.At(s).node, p.channel) && (calls.At(s).creator ==> conn > 0) ==>
              Evidence(v.log, s, p.channel, calls.At(s).creator)
  {
    hide HandleBurrowPacket, Accepts, Evidence, PacketsOk, AcceptedOk, OpenedOnce, LoopOk;
    FromPeer(w, calls, s, p, live);
    BurrowFlags(w.At(s).node, calls.At(s), live, p, from, conn);
    var rest := LearnedBy(s, p, from);
    if front != [] && front[0].Opened? {
      OpenedNow(w, v, s, p.channel, p.id, conn, calls.At(s).creator, rest);
    } else {
      OpenedKept(w, v, front + rest);
    }
  }

  lemma BurrowKeeps(w: World, calls: Calls, s: Side, p: BurrowPacket, live: bool, from: Addr, conn: nat, answered: bool)
    requires calls.Match() && Inv(w, calls) && p in w.burrows && Accepts(calls.At(s), live, p)
    ensures Inv(BurrowStep(w, calls.At(s), s, p, live, from, conn, answered), calls)
  {
    hide EndOk, HandleBurrowPacket, LoopOk, OpenedOnce, AcceptedOk, Quieter, Accepts, Evidence;
    var v := BurrowStep(w, calls.At(s), s, p, live, from, conn, answered);
    var front := if p.request then [Accepted(s, p.channel, p.id)]
                 else if Opens(w.At(s).node, p.channel) && (calls.At(s).creator ==> conn > 0)
                 then [Opened(s, p.channel, p.id, conn)] else [];
    var more := front + LearnedBy(s, p, from);
    assert EndOk(w, calls, s);
    BurrowFlags(w.At(s).node, calls.At(s), live, p, from, conn);
    assert v.log == w.log + more;
    FromPeer(w, calls, s, p, live);
    BurrowLog(w, v, calls, s, p, live, from, conn, front);
    BurrowEnd(w, v, calls, s, p, live, from, conn, front);
    QuietSelf(w.At(Other(s)).node);
    EndKept(w, v, calls, Other(s), more);
    PacketsKept(w, v, calls);
    AcceptedKept(w, v, more);
  }

  /** A loss leaves what was earned, and closes one channel. */
  lemma LossKeeps(w: World, calls: Calls, s: Side, channel: Channel)
    requires Inv(w, calls)
    ensures Inv(LossStep(w, s, channel), calls)
  {
    hide EndOk, LoopOk, AcceptedOk, Quieter;
    var v, lost := LossStep(w, s, channel), Lost(s, channel);
    assert v.log == w.log + [lost] && v.log == w.log + ([lost] + []);
    QuietSelf(w.At(Other(s)).node);
    QuietLoss(w.At(s).node, channel);
    EndKept(w, v, calls, Left, [lost]);
    EndKept(w, v, calls, Right, [lost]);
    PacketsKept(w, v, calls);
    AcceptedKept(w, v, [lost]);
    OpenedBefore(w, v, [lost]);
    FlagsNow(w, v, lost, []);
    hide OpenNow;
    assert OpenedOnce(v);
  }

  lemma QuietLoss(n: Node, channel: Channel)
    ensures Quieter(n, LoseConn(n, channel))
  {
  }

  // ---------------------------------------------------------------- every run

  lemma InitialInv(calls: Calls)
    ensures Inv(INITIAL, calls)
  {
  }

  lemma StepKeeps(w: World, calls: Calls, act: Action)
    requires calls.Match() && Inv(w, calls)
    ensures Inv(Step(w, calls, act), calls)
  {
    hide Inv, Quieter, PassStep, InfoStep, HandleNetDetectResp, Accepts, HandleBurrowPacket;
    var s, v := act.who, Step(w, calls, act);
    match act
    case Look(_) =>
      QuietSelf(w.left.node);
      QuietSelf(w.right.node);
      QuietStep(w, v, calls);
    case Pass(_, env) => PassKeeps(w, calls, s, env);
    case GetDetectResponse(_, from, wan, relayPort) =>
      QuietSelf(w.left.node);
      QuietSelf(w.right.node);
      DetectFacts(w.At(s).node, from, wan, relayPort);
      QuietStep(w, v, calls);
    case GetInfo(_, info) => if (Other(s), info) in w.infos { InfoKeeps(w, calls, s, info); }
    case GetBurrow(_, p, live, from, conn, answered) =>
      if p in w.burrows && Accepts(calls.At(s), live, p) {
        BurrowKeeps(w, calls, s, p, live, from, conn, answered);
      }
    case CloseConn(_, channel) => if !Opens(w.At(s).node, channel) { LossKeeps(w, calls, s, channel); }
  }

  lemma {:induction false} RunKeeps(calls: Calls, acts: seq<Action>)
    requires calls.Match()
    ensures Inv(Run(calls, acts), calls)
  {
    hide Inv, Step;
    if acts == [] {
      InitialInv(calls);
    } else {
      RunKeeps(calls, acts[..|acts| - 1]);
      StepKeeps(Run(calls, acts[..|acts| - 1]), calls, acts[|acts| - 1]);
    }
  }

  /** The number the peer accepted and echoed, one of the at most 13 a loop gives out. */
  ghost predicate Earned(log: seq<Entry>, s: Side, channel: Channel, creator: bool) {
    exists i, j ::
      && 0 <= i < j < |log|
      && log[j].Opened? && log[j].who == s && log[j].channel == channel && (creator ==> log[j].conn > 0)
      && log[i] == Accepted(Other(s), channel, log[j].id) && log[j].id < 13
  }

  lemma EvidenceIsEarned(w: World, calls: Calls, s: Side, channel: Channel)
    requires AcceptedOk(w) && LoopOk(w.left.loop) && LoopOk(w.right.loop)
    requires Evidence(w.log, s, channel, calls.At(s).creator)
    ensures Earned(w.log, s, channel, calls.At(s).creator)
  {
    var log, creator := w.log, calls.At(s).creator;
    var i, j :| 0 <= i < j < |log| && log[j].Opened? && log[j].who == s && log[j].channel == channel
                && (creator ==> log[j].conn > 0) && log[i] == Accepted(Other(s), channel, log[j].id);
    assert log[i] in w.log;
    var l := w.At(s).loop;
    CountsBounded(LOOP_START.(punch := l.punch));
    assert log[j].id < 13;
  }

  /**
   * Two-peer safety. Whatever the two loops, the handlers and the network do: an end is in INTRANET_OK
   * (INTERNET_OK) only if its peer accepted one of its requests on that channel, numbered below 13, and the
   * end then handled the echo of that number, a creator with a connection; and no end opens a channel a
   * second time unless it has lost it in between.
   */
  lemma OkIsEarned(calls: Calls, acts: seq<Action>, s: Side)
    requires calls.Match()
    ensures var w := Run(calls, acts);
            && (w.At(s).node.state == INTRANET_OK ==> Earned(w.log, s, INTRANET, calls.At(s).creator))
            && (w.At(s).node.state == INTERNET_OK ==> Earned(w.log, s, INTERNET, calls.At(s).creator))
            && forall i, j | 0 <= i < j < |w.log| && OpensAgain(w.log[i], w.log[j]) ::
                 Lost(w.log[j].who, w.log[j].channel) in w.log[i..j]
  {
    hide Run, Earned, Evidence, AcceptedOk, LoopOk, PacketsOk, OpenNow;
    RunKeeps(calls, acts);
    var w := Run(calls, acts);
    assert EndOk(w, calls, s);
    if w.At(s).node.state == INTRANET_OK { EvidenceIsEarned(w, calls, s, INTRANET); }
    if w.At(s).node.state == INTERNET_OK { EvidenceIsEarned(w, calls, s, INTERNET); }
    forall i, j | 0 <= i < j < |w.log| && OpensAgain(w.log[i], w.log[j])
      ensures Lost(w.log[j].who, w.log[j].channel) in w.log[i..j]
    {
      LostBetween(w.log, i, j, w.log[j].who, w.log[j].channel);
    }
  }

  predicate OpensAgain(e: Entry, f: Entry) { e.Opened? && f.Opened? && e.who == f.who && e.channel == f.channel }

  /** A channel that was opened and is not open now was lost. */
  lemma {:induction false} LostBetween(log: seq<Entry>, i: nat, j: nat, s: Side, channel: Channel)
    requires i < j <= |log| && log[i].Opened? && log[i].who == s && log[i].channel == channel
    requires !OpenNow(log[..j], s, channel)
    ensures Lost(s, channel) in log[i..j]
  {
    assert log[..j][..j - 1] == log[..j - 1] && log[..j][j - 1] == log[j - 1];
    if log[j - 1] == Lost(s, channel) {
      assert log[i..j][j - 1 - i] == log[j - 1];
    } else if i < j - 1 {
      LostBetween(log, i, j - 1, s, channel);
      assert log[i..j] == log[i..j - 1] + [log[j - 1]];
    }
  }

  /** The log is a record: an acceptance stands for a delivered request of the peer that passed the checks. */
  lemma {:induction false} AcceptanceHappened(calls: Calls, acts: seq<Action>, s: Side, channel: Channel, id: nat)
    returns (k: nat)
    requires Accepted(s, channel, id) in Run(calls, acts).log
    ensures k < |acts| && acts[k].GetBurrow? && acts[k].who == s
    ensures var p := acts[k].packet;
            && p.request && p.channel == channel && p.id == id
            && p in Run(calls, acts[..k]).burrows && Accepts(calls.At(s), acts[k].live, p)
  {
    hide Step, Accepts;
    var front, last := acts[..|acts| - 1], acts[|acts| - 1];
    if Accepted(s, channel, id) in Run(calls, front).log {
      k := AcceptanceHappened(calls, front, s, channel, id);
      assert front[..k] == acts[..k];
    } else {
      k := |acts| - 1;
      NewAcceptance(Run(calls, front), calls, last, s, channel, id);
    }
  }

  lemma NewAcceptance(w: World, calls: Calls, act: Action, s: Side, channel: Channel, id: nat)
    requires var e := Accepted(s, channel, id); e in Step(w, calls, act).log && e !in w.log
    ensures act.GetBurrow? && act.who == s && act.packet in w.burrows && Accepts(calls.At(s), act.live, act.packet)
    ensures act.packet.request && act.packet.channel == channel && act.packet.id == id
  {
    hide Act, HandleBurrowPacket, HandleNetInfo, HandleNetDetectResp, Accepts, DoneBy, InfoSendable, InfoMessage,
      BurrowRequests;
  }

  /**
   * And an opening stands for a delivered echo: of a request the peer had accepted by then, on a channel
   * that was not open, for a creator with the connection that is logged.
   */
  lemma {:induction false} OpeningHappened(calls: Calls, acts: seq<Action>, s: Side, channel: Channel, id: nat,
                                           conn: nat)
    returns (k: nat)
    requires calls.Match() && Opened(s, channel, id, conn) in Run(calls, acts).log
    ensures k < |acts| && acts[k].GetBurrow? && acts[k].who == s && acts[k].conn == conn
    ensures var (p, w) := (acts[k].packet, Run(calls, acts[..k]));
            && !p.request && p.channel == channel && p.id == id
            && p in w.burrows && Accepts(calls.At(s), acts[k].live, p)
            && Accepted(Other(s), channel, id) in w.log
            && Opens(w.At(s).node, channel) && (calls.At(s).creator ==> conn > 0)
  {
    hide Step, Accepts, Inv;
    var front, last := acts[..|acts| - 1], acts[|acts| - 1];
    if Opened(s, channel, id, conn) in Run(calls, front).log {
      k := OpeningHappened(calls, front, s, channel, id, conn);
      assert front[..k] == acts[..k];
    } else {
      k := |acts| - 1;
      var w := Run(calls, front);
      NewOpening(w, calls, last, s, channel, id, conn);
      RunKeeps(calls, front);
      PacketsOfInv(w, calls);
      FromPeer(w, calls, s, last.packet, last.live);
    }
  }

  lemma PacketsOfInv(w: World, calls: Calls)
    requires Inv(w, calls)
    ensures PacketsOk(w, calls)
  {
  }

  lemma NewOpening(w: World, calls: Calls, act: Action, s: Side, channel: Channel, id: nat, conn: nat)
    requires var e := Opened(s, channel, id, conn); e in Step(w, calls, act).log && e !in w.log
    ensures act.GetBurrow? && act.who == s && act.packet in w.burrows && Accepts(calls.At(s), act.live, act.packet)
    ensures !act.packet.request && act.packet.channel == channel && act.packet.id == id && act.conn == conn
    ensures Opens(w.At(s).node, channel) && (calls.At(s).creator ==> conn > 0)
  {
    hide Act, HandleNetInfo, HandleNetDetectResp, Accepts, DoneBy, InfoSendable, InfoMessage, BurrowRequests;
  }

  /** A net-info message on the network was printed by a pass of its sender, from the node it then was. */
  lemma {:induction false} InfoHappened(calls: Calls, acts: seq<Action>, s: Side, info: UserInfo) returns (k: nat)
    requires (s, info) in Run(calls, acts).infos
    ensures k < |acts| && acts[k].Pass? && acts[k].who == s
    ensures var n := Run(calls, acts[..k]).At(s).node;
            InfoSendable(n, acts[k].env) && info == InfoMessage(n, calls.At(s).uuid, acts[k].env)
  {
    hide Step, InfoSendable, InfoMessage;
    var front, last := acts[..|acts| - 1], acts[|acts| - 1];
    if (s, info) in Run(calls, front).infos {
      k := InfoHappened(calls, front, s, info);
      assert front[..k] == acts[..k];
    } else {
      k := |acts| - 1;
      NewInfoSent(Run(calls, front), calls, last, s, info);
    }
  }

  lemma NewInfoSent(w: World, calls: Calls, act: Action, s: Side, info: UserInfo)
    requires (s, info) in Step(w, calls, act).infos && (s, info) !in w.infos
    ensures act.Pass? && act.who == s && InfoSendable(w.At(s).node, act.env)
    ensures info == InfoMessage(w.At(s).node, calls.At(s).uuid, act.env)
  {
    hide Act, HandleBurrowPacket, HandleNetInfo, HandleNetDetectResp, Accepts, DoneBy, InfoSendable, InfoMessage,
      BurrowRequests;
  }

  /**
   * Exchange-phase knowledge. When a net-info message moves an end to EXCHANGE_NET_INFO_OK, a pass of its
   * sender had printed it from a node that held a nonzero WAN port for this end, one it had learned; and the
   * end now holds that node's NAT type and its own addresses, each in its place, as far as the node had them.
   */
  lemma ExchangeKnowledge(calls: Calls, acts: seq<Action>, s: Side, info: UserInfo) returns (k: nat)
    requires calls.Match()
    ensures var w := Run(calls, acts);
            var v := Step(w, calls, GetInfo(s, info));
            v.At(s).node.state == EXCHANGE_NET_INFO_OK != w.At(s).node.state ==>
              && (Other(s), info) in w.infos
              && k < |acts| && acts[k].Pass? && acts[k].who == Other(s) && Knew(Run(calls, acts[..k]).log, Other(s))
              && var n := Run(calls, acts[..k]).At(Other(s)).node;
                 && n.peer.wan.port != 0 && info == InfoMessage(n, calls.At(Other(s)).uuid, acts[k].env)
                 && v.At(s).node.peer == NetInfo(info.lan, info.wan, n.net.natType)
                 && (n.net.wan.ip != 0 && n.net.wan.ip != 0x7f00_0001 && n.net.wan.port != 0 ==>
                       v.At(s).node.peer.wan == n.net.wan)
                 && (n.net.lan.ip != 0 && n.net.lan.ip != 0x7f00_0001 && n.net.lan.port != 0 ==>
                       v.At(s).node.peer.lan == n.net.lan)
  {
    hide Run, Evidence, AcceptedOk, LoopOk, PacketsOk, OpenedOnce, PrintResource, ParseResource, Knew, InfoSendable;
    RunKeeps(calls, acts);
    var w := Run(calls, acts);
    k := 0;
    if (Other(s), info) in w.infos {
      k := InfoHappened(calls, acts, Other(s), info);
      var before := Run(calls, acts[..k]);
      RunKeeps(calls, acts[..k]);
      assert EndOk(before, calls, Other(s));
      var n := before.At(Other(s)).node;
      ResourceRoundTrip(n.net.natType, n.peer.wan.port != 0);
    }
  }

  // ---------------------------------------------------------------- what leaves an end, and when

  ghost predicate HasAddress(a: Addr) { a.ip != 0 && a.ip != 0x7f00_0001 && a.port != 0 }

  /** The message is about this node: its user, its type, its addresses, and whether it knows its peer's port. */
  ghost predicate Describes(info: UserInfo, n: Node, uuid: nat) {
    && info.uuid == uuid && ParseResource(info.resource) == (n.net.natType, n.peer.wan.port != 0)
    && (HasAddress(n.net.lan) ==> info.lan == n.net.lan)
    && (HasAddress(n.net.wan) ==> info.wan == n.net.wan)
  }

  /**
   * A pass sends net info exactly if it saw one of the exchange states, with a counter that is due, and the node
   * is not in NET_DETECT_TIMEOUT, its call is there and single, neither channel is open, and it has an address.
   * Then the message describes the node, and the node goes on to EXCHANGE_NET_INFO.
   */
  lemma InfoSentWhen(w: World, calls: Calls, s: Side, env: Env)
    requires w.At(s).node.net.natType < 0x100
    ensures var (e, u) := (w.At(s), Step(w, calls, Pass(s, env)));
            var n := e.node;
            if && e.seen in {NET_DETECT_TIMEOUT, NET_DETECT_OK, EXCHANGE_NET_INFO}
               && e.loop.exchange in {0, 40, 80, 120, 160} && n.state != NET_DETECT_TIMEOUT
               && env.present && env.single && !n.intranet && !n.internet
               && (HasAddress(n.net.lan) || HasAddress(n.net.wan))
            then (exists info :: Describes(info, n, calls.At(s).uuid) && u.infos == w.infos + {(s, info)})
                 && u.At(s).node == n.(state := Advance(n.state, EXCHANGE_NET_INFO))
            else u.infos == w.infos
  {
    hide PrintResource, ParseResource, PunchDue, WithBit, BurrowRequests;
    var (e, u) := (w.At(s), Step(w, calls, Pass(s, env)));
    var n := e.node;
    Schedule(e.loop, e.seen);
    ResourceRoundTrip(n.net.natType, n.peer.wan.port != 0);
    var info := InfoMessage(n, calls.At(s).uuid, env);
    assert Describes(info, n, calls.At(s).uuid);
    InfoPass(n, e.loop, e.seen, env);
    hide Act, DoneBy, Describes;
  }

  lemma InfoPass(n: Node, l: Loop, seen: P2PState, env: Env)
    ensures DoneBy(l, seen) == InfoCall ==> Act(n, l, seen, env).0 == SendNetInfo(n, env)
  {
    hide SendNetInfo;
  }

  /**
   * And burrow requests: in one of the punch states, with a counter that is due, a call that is there and single,
   * and no open intranet channel: one for the intranet if its datagram left, and one for the internet unless that
   * channel is open, with the number of the round. The node goes on to PUNCH if one left and no channel is open.
   */
  lemma RequestsSentWhen(w: World, calls: Calls, s: Side, env: Env)
    ensures var (e, u, call) := (w.At(s), Step(w, calls, Pass(s, env)), calls.At(s));
            && w.burrows <= u.burrows
            && forall p :: p in u.burrows && p !in w.burrows ==>
                 && e.seen in {EXCHANGE_NET_INFO_TIMEOUT, EXCHANGE_NET_INFO_OK, PUNCH}
                 && e.loop.punch in {0, 20, 40, 60, 80, 100, 150, 200, 250, 300, 350, 400, 450}
                 && p == BurrowPacket(call.uuid, call.resource, call.callId, e.loop.burrowNum, true, p.channel)
    ensures var (e, u, call) := (w.At(s), Step(w, calls, Pass(s, env)), calls.At(s));
            && e.seen in {EXCHANGE_NET_INFO_TIMEOUT, EXCHANGE_NET_INFO_OK, PUNCH}
            && e.loop.punch in {0, 20, 40, 60, 80, 100, 150, 200, 250, 300, 350, 400, 450} ==>
              var request := (c: Channel) =>
                               BurrowPacket(call.uuid, call.resource, call.callId, e.loop.burrowNum, true, c);
              var may := env.present && env.single && !e.node.intranet;
              && u.burrows == w.burrows + (if may && env.lanSent then {request(INTRANET)} else {})
                              + (if may && env.wanSent && !e.node.internet then {request(INTERNET)} else {})
              && u.At(s).node == if may && !e.node.internet && (env.lanSent || env.wanSent)
                                 then e.node.(state := Advance(e.node.state, PUNCH)) else e.node
  {
    hide PunchDue, WithBit, InfoMessage, InfoSendable;
    Schedule(w.At(s).loop, w.At(s).seen);
    PunchCallPass(w.At(s).node, w.At(s).loop, w.At(s).seen, env);
    hide Act, DoneBy;
  }

  lemma PunchCallPass(n: Node, l: Loop, seen: P2PState, env: Env)
    ensures DoneBy(l, seen).PunchCall? ==> Act(n, l, seen, env).0 == SendBurrowRequest(n, env)
  {
    hide SendBurrowRequest, PunchDue;
  }

  /** What a burrow packet does to an end, field by field; one that fails a check does nothing. */
  lemma BurrowDoes(n: Node, call: Call, live: bool, p: BurrowPacket, from: Addr, conn: nat)
    ensures var m := HandleBurrowPacket(n, call, live, p, from, conn);
            if !live || p.callId != call.callId || p.uuid != call.peerUuid || p.resource != call.peerResource
            then m == n
            else && m.net == n.net && m.detected == n.detected && m.peer.natType == n.peer.natType
                 && m.peer.lan == (if p.channel == INTRANET then from else n.peer.lan)
                 && m.peer.wan == (if p.channel == INTERNET then from else n.peer.wan)
                 && (m.intranet <==> n.intranet || (p.channel == INTRANET && !p.request && (!call.creator || conn > 0)))
                 && (m.internet <==> n.internet || (p.channel == INTERNET && !p.request && (!call.creator || conn > 0)))
                 && m.state == Advance(n.state, if m.intranet != n.intranet then INTRANET_OK
                                                else if m.internet != n.internet then INTERNET_OK else PUNCH)
  {
  }

  /** A net-info message that was printed is stored as it was meant, and its flag alone moves the end on. */
  lemma InfoStored(n: Node, natType: nat, flag: bool, info: UserInfo)
    requires natType < 0x100 && info.resource == PrintResource(natType, flag)
    ensures var m := HandleNetInfo(n, info);
            && m == n.(peer := NetInfo(info.lan, info.wan, natType), state := m.state)
            && m.state == if flag then Advance(n.state, EXCHANGE_NET_INFO_OK) else n.state
  {
    ResourceRoundTrip(natType, flag);
    hide PrintResource, ParseResource;
  }

  // ---------------------------------------------------------------- and the exchange can succeed

  /**
   * An undisturbed exchange: the loop of an end that has opened neither this channel nor the intranet one
   * sends a request, the peer echoes it, and the echo opens the channel, whatever state the two ends were in.
   */
  lemma EchoOpens(w: World, calls: Calls, s: Side, channel: Channel, env: Env, a: Addr, b: Addr, conn: nat)
    requires calls.Match() && DoneBy(w.At(s).loop, w.At(s).seen).PunchCall?
    requires env.present && env.single && (if channel == INTRANET then env.lanSent else env.wanSent)
    requires !w.At(s).node.intranet && Opens(w.At(s).node, channel) && conn > 0
    ensures var num := DoneBy(w.At(s).loop, w.At(s).seen).num;
            var call := calls.At(s);
            var request := BurrowPacket(call.uuid, call.resource, call.callId, num, true, channel);
            var u := Step(w, calls, Pass(s, env));
            var v := Step(u, calls, GetBurrow(Other(s), request, true, a, conn, true));
            var x := Step(v, calls, GetBurrow(s, BurrowResponse(calls.At(Other(s)), request), true, b, conn, true));
            && !Opens(x.At(s).node, channel) && Connected(x.At(s).node.state)
            && (channel == INTRANET ==> x.At(s).node.state == INTRANET_OK)
  {
    hide DoneBy, PunchDue, WithBit;
    var e := w.At(s);
    LoopKeepsChannel(e.node, e.loop, e.seen, env);
    hide Act;
    var num := DoneBy(e.loop, e.seen).num;
    var request := BurrowPacket(calls.At(s).uuid, calls.At(s).resource, calls.At(s).callId, num, true, channel);
    var u := Step(w, calls, Pass(s, env));
    assert request in u.burrows && Opens(u.At(s).node, channel);
    var v := Step(u, calls, GetBurrow(Other(s), request, true, a, conn, true));
    var response := BurrowResponse(calls.At(Other(s)), request);
    assert response in v.burrows && v.At(s) == u.At(s);
    ResponseOpens(v.At(s).node, calls.At(s), response, b, conn);
  }

  /** And a channel that was lost is opened again by an echo that comes once more, whatever was asked since. */
  lemma EchoReopens(w: World, calls: Calls, s: Side, p: BurrowPacket, from: Addr, conn: nat)
    requires p in w.burrows && !p.request && Accepts(calls.At(s), true, p) && conn > 0
    requires !Opens(w.At(s).node, p.channel)
    ensures var u := Step(w, calls, CloseConn(s, p.channel));
            var v := Step(u, calls, GetBurrow(s, p, true, from, conn, false));
            && Opens(u.At(s).node, p.channel) && !Opens(v.At(s).node, p.channel)
            && w.log + [Lost(s, p.channel), Opened(s, p.channel, p.id, conn)] <= v.log
  {
    hide Accepts;
    var u := Step(w, calls, CloseConn(s, p.channel));
    var v := Step(u, calls, GetBurrow(s, p, true, from, conn, false));
    assert u.log == w.log + [Lost(s, p.channel)];
    ResponseOpens(u.At(s).node, calls.At(s), p, from, conn);
  }

  lemma LoopKeepsChannel(n: Node, l: Loop, seen: P2PState, env: Env)
    ensures SameFlags(n, Act(n, l, seen, env).0)
  {
  }

  lemma ResponseOpens(n: Node, call: Call, p: BurrowPacket, from: Addr, conn: nat)
    requires Accepts(call, true, p) && !p.request && Opens(n, p.channel) && conn > 0
    ensures var m := HandleBurrowPacket(n, call, true, p, from, conn);
            && !Opens(m, p.channel) && Connected(m.state) && (p.channel == INTRANET ==> m.state == INTRANET_OK)
  {
  }
}
