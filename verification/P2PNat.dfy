/** What NAT detection concludes from the responses of the detection servers. */
module P2PNat {
  import opened ProtoWire
  import opened P2PNode
  import opened P2PProcessor

  /** An answer of a detection server, and the internet port the relay had reported when it came, if any. */
  datatype Response = Response(from: Addr, wan: Addr, relayPort: Option<nat>)

  function Take(n: Node, r: Response): Node { HandleNetDetectResp(n, r.from, r.wan, r.relayPort) }

  /** Handling a list of responses in the order they arrive. */
  function Detect(n: Node, rs: seq<Response>): Node {
    if rs == [] then n else Take(Detect(n, rs[..|rs| - 1]), rs[|rs| - 1])
  }

  predicate FromServer(r: Response) { r.from.port == P2P_SERVER_PORT && 0 < r.wan.port < 0x1_0000 }

  /** Responses sent from the servers' own port that report a port. */
  ghost predicate FromServers(rs: seq<Response>) {
    forall r | r in rs :: FromServer(r)
  }

  /** The first answer of every server. */
  function Recorded(rs: seq<Response>): map<Addr, Addr> {
    if rs == [] then map[] else
    var m, last := Recorded(rs[..|rs| - 1]), rs[|rs| - 1];
    if last.from in m then m else m[last.from := last.wan]
  }

  ghost predicate PortsDiffer(m: map<Addr, Addr>) {
    exists a, b | a in m && b in m :: m[a].port != m[b].port
  }

  /**
   * The port the first answer is compared with: the one the node holds already, which it has from the relay if
   * its detection timed out, or else the one the relay reported. 0 stands for none.
   */
  function Expected(held: nat, relayPort: Option<nat>): nat {
    if held != 0 then held else if relayPort.Some? then relayPort.value % 0x1_0000 else 0
  }

  ghost predicate Disagrees(m: map<Addr, Addr>, port: nat) {
    port != 0 && exists a | a in m :: m[a].port != port
  }

  /** A cone NAT takes two agreeing ports to tell, one of which the node may hold already. */
  ghost function Classification(m: map<Addr, Addr>, held: nat, relayPort: Option<nat>): nat {
    if PortsDiffer(m) || Disagrees(m, Expected(held, relayPort)) then NAT_SYMMETRIC
    else if |m| >= (if held == 0 then 2 else 1) then NAT_PORT_RESTRICTED_CONE else NAT_UNKNOWN
  }

  /** The address held before, or one of the reported ones, with the largest port. */
  ghost predicate IsLargest(wan: Addr, held: Addr, m: map<Addr, Addr>) {
    && (wan == held || exists a | a in m :: m[a] == wan)
    && (held.port <= wan.port && forall a | a in m :: m[a].port <= wan.port)
  }

  /** A node no server has answered yet, whatever else it has done, and whatever address it holds. */
  ghost predicate Unanswered(n: Node) {
    n.detected == map[] && n.net.natType == NAT_UNKNOWN
  }

  /** What the answers `m` make of a node that held an address when the first of them came. */
  ghost predicate Found(n: Node, held: Addr, m: map<Addr, Addr>, relayPort: Option<nat>) {
    n.detected == m && IsLargest(n.net.wan, held, m) && n.net.natType == Classification(m, held.port, relayPort)
  }

  ghost predicate PortsOk(m: map<Addr, Addr>) {
    forall a | a in m :: 0 < m[a].port < 0x1_0000
  }

  lemma NothingFound(n: Node, relayPort: Option<nat>)
    requires Unanswered(n)
    ensures Found(n, n.net.wan, map[], relayPort)
  {
  }

  lemma FirstAnswer(n: Node, r: Response)
    requires Unanswered(n) && FromServer(r)
    ensures Found(Take(n, r), n.net.wan, map[r.from := r.wan], r.relayPort)
  {
    var m: map<Addr, Addr> := map[];
    assert m[r.from := r.wan] == map[r.from := r.wan];
    assert r.from in map[r.from := r.wan];
  }

  lemma PortsDifferWith(m: map<Addr, Addr>, from: Addr, wan: Addr, a: Addr)
    requires from !in m && a in m
    ensures PortsDiffer(m[from := wan]) <==> PortsDiffer(m) || m[a].port != wan.port
  {
    var m' := m[from := wan];
    if PortsDiffer(m) {
      var b, c :| b in m && c in m && m[b].port != m[c].port;
      assert m'[b].port != m'[c].port;
    } else if m[a].port != wan.port {
      assert m'[a].port != m'[from].port;
    } else {
      forall b | b in m' ensures m'[b].port == wan.port {
        assert b in m ==> m[b].port == m[a].port;
      }
    }
  }

  lemma DisagreesWith(m: map<Addr, Addr>, from: Addr, wan: Addr, port: nat)
    requires from !in m
    ensures Disagrees(m[from := wan], port) <==> Disagrees(m, port) || (port != 0 && wan.port != port)
  {
    var m' := m[from := wan];
    assert from in m' && m'[from] == wan;
    if Disagrees(m, port) {
      var b :| b in m && m[b].port != port;
      assert m'[b].port != port;
    }
  }

  lemma LargestWith(m: map<Addr, Addr>, held: Addr, from: Addr, wan: Addr, was: Addr)
    requires from !in m && IsLargest(was, held, m)
    ensures IsLargest(if wan.port > was.port then wan else was, held, m[from := wan])
  {
    var m' := m[from := wan];
    assert m'[from] == wan;
    if was != held {
      var a :| a in m && m[a] == was;
      assert a in m' && m'[a] == was;
    }
  }

  /** The branches for a node that holds an address: keep the larger port, and compare. */
  lemma ComparedTake(n: Node, r: Response)
    requires n.net.wan.port != 0 && r.from !in n.detected && FromServer(r)
    ensures var m := Take(n, r);
            && m.detected == n.detected[r.from := r.wan]
            && m.net.wan == (if r.wan.port > n.net.wan.port then r.wan else n.net.wan)
            && m.net.natType == if r.wan.port != n.net.wan.port then NAT_SYMMETRIC
                                else if n.net.natType == NAT_UNKNOWN then NAT_PORT_RESTRICTED_CONE else n.net.natType
  {
    hide Advance;
  }

  /** A further answer, compared with the largest port so far. */
  lemma FurtherAnswer(n: Node, held: Addr, m: map<Addr, Addr>, r: Response, relayPort: Option<nat>)
    requires m != map[] && PortsOk(m) && Found(n, held, m, relayPort) && r.from !in m && FromServer(r)
    ensures Found(Take(n, r), held, m[r.from := r.wan], relayPort)
  {
    var a :| a in m && (n.net.wan == held || m[a] == n.net.wan);
    PortsDifferWith(m, r.from, r.wan, a);
    DisagreesWith(m, r.from, r.wan, Expected(held.port, relayPort));
    LargestWith(m, held, r.from, r.wan, n.net.wan);
    assert m[a].port > 0 && n.net.wan.port >= m[a].port;
    assert |m[r.from := r.wan]| == |m| + 1 && |m| > 0;
    SameOrNot(m, Expected(held.port, relayPort), a);
    ComparedTake(n, r);
    hide PortsDiffer, IsLargest, Disagrees, Take;
  }

  /** Without a disagreement all ports are the same, and the expected one if there is one. */
  lemma SameOrNot(m: map<Addr, Addr>, port: nat, a: Addr)
    requires a in m
    ensures !Disagrees(m, port) && port != 0 ==> m[a].port == port
  {
  }

  /** A server that answers again is ignored. */
  lemma Repeated(n: Node, r: Response)
    requires r.from in n.detected
    ensures Take(n, r) == n
  {
  }

  /** The relay port that counts is the one known when the first answer came. */
  function KnownPort(rs: seq<Response>): Option<nat> { if rs == [] then None else rs[0].relayPort }

  lemma {:induction false} Recording(rs: seq<Response>)
    requires FromServers(rs)
    ensures PortsOk(Recorded(rs)) && (rs != [] ==> Recorded(rs) != map[])
  {
    if rs != [] {
      assert rs[|rs| - 1] in rs && FromServers(rs[..|rs| - 1]);
      Recording(rs[..|rs| - 1]);
    }
  }

  /** One more answer, whatever it is. */
  lemma AnswerFinds(n: Node, held: Addr, rs: seq<Response>, r: Response)
    requires FromServers(rs) && FromServer(r) && Found(n, held, Recorded(rs), KnownPort(rs))
    requires rs == [] ==> held == n.net.wan
    ensures Found(Take(n, r), held, Recorded(rs + [r]), KnownPort(rs + [r]))
  {
    hide Take, Found;
    assert (rs + [r])[..|rs|] == rs;
    Recording(rs);
    FoundMeans(n, held, Recorded(rs), KnownPort(rs));
    if r.from in Recorded(rs) {
      Repeated(n, r);
    } else if rs == [] {
      FirstAnswer(n, r);
      assert Recorded([r]) == map[r.from := r.wan] by { assert [r][..0] == []; }
    } else {
      FurtherAnswer(n, held, Recorded(rs), r, KnownPort(rs));
    }
  }

  lemma FoundMeans(n: Node, held: Addr, m: map<Addr, Addr>, relayPort: Option<nat>)
    requires Found(n, held, m, relayPort)
    ensures n.detected == m && (m == map[] ==> Unanswered(n))
  {
  }

  /** What an answer leaves alone, and that the state advances exactly with a classification. */
  ghost predicate Advanced(n0: Node, n: Node) {
    && n.state == (if n.net.natType == NAT_UNKNOWN then n0.state else Advance(n0.state, NET_DETECT_OK))
    && n.net.lan == n0.net.lan && n.peer == n0.peer && n.intranet == n0.intranet && n.internet == n0.internet
  }

  lemma AnswerAdvances(n0: Node, n: Node, r: Response)
    requires Advanced(n0, n)
    ensures Advanced(n0, Take(n, r))
  {
  }

  /**
   * For any node nobody has answered yet, timed out or not, and any answers of the servers, in any order and
   * with any repetitions: the stored WAN port is the largest of those seen and the one held before, the NAT
   * type is the classification of the answers themselves, and the state advances exactly when there is one.
   */
  lemma {:induction false} DetectClassifies(n0: Node, rs: seq<Response>)
    requires Unanswered(n0) && FromServers(rs)
    ensures Found(Detect(n0, rs), n0.net.wan, Recorded(rs), KnownPort(rs)) && Advanced(n0, Detect(n0, rs))
    decreases |rs|
  {
    hide Take, Found, Advanced, FromServer;
    if rs == [] {
      NothingFound(n0, None);
      NothingAdvanced(n0);
    } else {
      var front, r := rs[..|rs| - 1], rs[|rs| - 1];
      assert r in rs && FromServers(front) && rs == front + [r];
      DetectClassifies(n0, front);
      if front == [] { assert Detect(n0, front) == n0; }
      AnswerFinds(Detect(n0, front), n0.net.wan, front, r);
      AnswerAdvances(n0, Detect(n0, front), r);
    }
  }

  lemma NothingAdvanced(n0: Node)
    requires Unanswered(n0)
    ensures Advanced(n0, n0)
  {
  }

  /**
   * The two kinds of nodes. One that holds no address yet needs two agreeing answers for a cone; one whose
   * detection timed out, with a port from the relay, needs one, and any other port makes it symmetric.
   */
  lemma TwoKinds(m: map<Addr, Addr>, held: nat, relayPort: Option<nat>)
    requires m != map[]
    ensures held == 0 && relayPort == None ==>
              Classification(m, held, relayPort)
              == if PortsDiffer(m) then NAT_SYMMETRIC else if |m| >= 2 then NAT_PORT_RESTRICTED_CONE else NAT_UNKNOWN
    ensures held != 0 ==>
              Classification(m, held, relayPort)
              == if exists a | a in m :: m[a].port != held then NAT_SYMMETRIC else NAT_PORT_RESTRICTED_CONE
  {
    var a :| a in m;
    assert |m| >= 1;
  }

  // ---------------------------------------------------------------- order does not matter

  /** No server gives two different answers, and the relay's report does not change. */
  ghost predicate Consistent(rs: seq<Response>) {
    forall r, q | r in rs && q in rs :: r.relayPort == q.relayPort && (r.from == q.from ==> r.wan == q.wan)
  }

  lemma {:induction false} RecordedKnows(rs: seq<Response>, r: Response)
    requires Consistent(rs) && r in rs
    ensures r.from in Recorded(rs) && Recorded(rs)[r.from] == r.wan
  {
    var front, last := rs[..|rs| - 1], rs[|rs| - 1];
    if r in front {
      RecordedKnows(front, r);
    } else {
      assert r == last;
      if last.from in Recorded(front) {
        var q := RecordedFrom(front, last.from);
        assert false;
      }
    }
  }

  lemma {:induction false} RecordedFrom(rs: seq<Response>, a: Addr) returns (r: Response)
    requires a in Recorded(rs)
    ensures r in rs && r.from == a
  {
    var front, last := rs[..|rs| - 1], rs[|rs| - 1];
    if a in Recorded(front) {
      r := RecordedFrom(front, a);
    } else {
      r := last;
    }
  }

  lemma SameRecord(rs: seq<Response>, qs: seq<Response>)
    requires Consistent(rs) && forall r :: r in rs <==> r in qs
    ensures Recorded(rs) == Recorded(qs)
  {
    assert Consistent(qs);
    forall a ensures a in Recorded(rs) <==> a in Recorded(qs) {
      if a in Recorded(rs) { var r := RecordedFrom(rs, a); RecordedKnows(qs, r); }
      if a in Recorded(qs) { var r := RecordedFrom(qs, a); RecordedKnows(rs, r); }
    }
    forall a | a in Recorded(rs) ensures Recorded(rs)[a] == Recorded(qs)[a] {
      var r := RecordedFrom(rs, a);
      RecordedKnows(rs, r);
      RecordedKnows(qs, r);
    }
    assert Recorded(rs).Keys == Recorded(qs).Keys;
  }

  /** The same answers in another order and with other repetitions lead to the same type, port and state. */
  lemma OrderDoesNotMatter(n0: Node, rs: seq<Response>, qs: seq<Response>)
    requires Unanswered(n0) && FromServers(rs) && Consistent(rs) && forall r :: r in rs <==> r in qs
    ensures var n, m := Detect(n0, rs), Detect(n0, qs);
            n.net.natType == m.net.natType && n.net.wan.port == m.net.wan.port && n.state == m.state
            && n.detected == m.detected
  {
    hide Detect, Recorded;
    DetectClassifies(n0, rs);
    DetectClassifies(n0, qs);
    SameRecord(rs, qs);
    SameKnown(rs, qs);
  }

  lemma SameKnown(rs: seq<Response>, qs: seq<Response>)
    requires Consistent(rs) && forall r :: r in rs <==> r in qs
    ensures KnownPort(rs) == KnownPort(qs)
  {
    if rs != [] { assert rs[0] in rs; }
    if qs != [] { assert qs[0] in rs; }
  }

  /** A new answer from another port, for any node: it alone is the address and the type, and detection is over. */
  lemma OtherPort(n: Node, r: Response)
    requires r.from.port != 32037 && r.from !in n.detected
    ensures Take(n, r) == n.(detected := n.detected[r.from := r.wan], net := NetInfo(n.net.lan, r.wan, 3),
                             state := Advance(n.state, NET_DETECT_OK))
  {
  }

  /** The codes of the types: nothing known, two servers that see two ports or the same one, and another port. */
  lemma TypeCodes()
    ensures var a := Response(Addr(1, 32037), Addr(9, 1000), None);
            var b := Response(Addr(2, 32037), Addr(9, 2000), None);
            && Take(FRESH, a).net.natType == 0 && Detect(FRESH, [a, b]).net.natType == 1
            && Detect(FRESH, [a, b.(wan := Addr(9, 1000))]).net.natType == 2
            && Take(FRESH, a.(from := Addr(1, 4000))).net.natType == 3
  {
    var a, b := Response(Addr(1, 32037), Addr(9, 1000), None), Response(Addr(2, 32037), Addr(9, 2000), None);
    DetectTwo(a, b);
    DetectTwo(a, b.(wan := Addr(9, 1000)));
  }

  /** Not so with an answer from another port: it decides the type only if it comes last. */
  lemma OtherConeDependsOnOrder()
    ensures var s := Response(Addr(1, P2P_SERVER_PORT), Addr(9, 1000), None);
            var o := Response(Addr(1, 4000), Addr(9, 2000), None);
            && Detect(FRESH, [s, o]).net.natType == NAT_OTHER_CONE
            && Detect(FRESH, [o, s]).net.natType == NAT_SYMMETRIC
  {
    var s := Response(Addr(1, P2P_SERVER_PORT), Addr(9, 1000), None);
    var o := Response(Addr(1, 4000), Addr(9, 2000), None);
    DetectTwo(s, o);
    DetectTwo(o, s);
  }

  lemma DetectTwo(r: Response, q: Response)
    ensures Detect(FRESH, [r, q])
            == Take(Take(FRESH, r), q)
  {
    hide Take;
    assert [r, q][..1] == [r] && [r][..0] == [];
    assert Detect(FRESH, []) == FRESH;
    assert Detect(FRESH, [r]) == Take(FRESH, r);
  }

  // ---------------------------------------------------------------- between looks, passes and other handlers

  datatype Step = Look | Pass(env: Env) | Arrived(event: Event)

  function StepOf(e: End, call: Call, step: Step): End {
    match step
    case Look => e.(seen := e.node.state)
    case Pass(env) => var (n, l) := Act(e.node, e.loop, e.seen, env); e.(node := n, loop := l)
    case Arrived(event) => e.(node := Handle(e.node, call, event))
  }

  /** The looks and passes of the loop and the handlers of an end, in any order. */
  function Live(e: End, call: Call, steps: seq<Step>): End {
    if steps == [] then e else StepOf(Live(e, call, steps[..|steps| - 1]), call, steps[|steps| - 1])
  }

  function ToResponse(event: Event): Response
    requires event.DetectResponse?
  {
    Response(event.responder, event.wan, event.relayPort)
  }

  /** The answers of the servers among the steps. */
  function Answers(steps: seq<Step>): seq<Response> {
    if steps == [] then [] else
    var (front, last) := (Answers(steps[..|steps| - 1]), steps[|steps| - 1]);
    if last.Arrived? && last.event.DetectResponse? then front + [ToResponse(last.event)] else front
  }

  /** A pass that ends detection without any address; it takes the one the relay reported. */
  predicate TimesOut(e: End, step: Step) {
    && step.Pass? && PhaseOf(e.seen) == Detecting && e.loop.netDetect >= MAX_NET_DETECT_COUNT
    && e.node.net.wan.port == 0
  }

  ghost predicate SameDetection(n: Node, m: Node) {
    n.detected == m.detected && n.net.wan == m.net.wan && n.net.natType == m.net.natType
  }

  /** Of all steps but the answers, only a timeout touches what detection is about. */
  lemma OtherStep(e: End, call: Call, step: Step)
    requires !(step.Arrived? && step.event.DetectResponse?)
    ensures var n := StepOf(e, call, step).node;
            if TimesOut(e, step) then n.detected == e.node.detected && n.net.natType == e.node.net.natType
                                      && n.net.wan == step.env.relay
            else SameDetection(n, e.node)
  {
    hide ParseResource, Accepts, WithBit, PunchDue, InfoSendable;
  }

  lemma AnswerTaken(e: End, call: Call, step: Step)
    requires step.Arrived? && step.event.DetectResponse?
    ensures StepOf(e, call, step).node == Take(e.node, ToResponse(step.event))
  {
    hide Act, HandleNetDetectResp, HandleNetInfo, HandleBurrowPacket;
  }

  lemma AnswerDecides(n: Node, m: Node, r: Response)
    requires SameDetection(n, m)
    ensures SameDetection(Take(n, r), Take(m, r))
  {
    hide Advance;
    if r.from in n.detected {
    } else if r.from.port != P2P_SERVER_PORT {
    } else if n.net.wan.port == 0 {
    } else if n.net.wan.port == r.wan.port {
    } else {
    }
  }

  /** A timeout that changes the address. */
  predicate TakesRelay(e: End, step: Step) { TimesOut(e, step) && step.env.relay != e.node.net.wan }

  /** So far the record, the address and the type are what the answers alone would have made. */
  ghost predicate Decided(e: End, call: Call, steps: seq<Step>) {
    SameDetection(Live(e, call, steps).node, Detect(e.node, Answers(steps)))
  }

  lemma NextDecided(e: End, call: Call, steps: seq<Step>, step: Step)
    requires Decided(e, call, steps)
    ensures Decided(e, call, steps + [step]) <==> !TakesRelay(Live(e, call, steps), step)
  {
    hide StepOf, Take, PhaseOf;
    assert (steps + [step])[..|steps|] == steps;
    var was, m := Live(e, call, steps), Detect(e.node, Answers(steps));
    if step.Arrived? && step.event.DetectResponse? {
      var r := ToResponse(step.event);
      AnswerTaken(was, call, step);
      AnswerDecides(was.node, m, r);
      assert (Answers(steps) + [r])[..|Answers(steps)|] == Answers(steps);
    } else {
      OtherStep(was, call, step);
    }
  }

  /**
   * For any run of an end from any state: at every moment the answers alone have decided, if and only if no
   * pass has timed out to another address.
   */
  lemma AnswersDecide(e: End, call: Call, steps: seq<Step>)
    ensures (forall k | 0 <= k <= |steps| :: Decided(e, call, steps[..k]))
            <==> (forall k | 0 <= k < |steps| :: !TakesRelay(Live(e, call, steps[..k]), steps[k]))
  {
    hide TakesRelay, Live, Detect, Answers, SameDetection;
    if forall k | 0 <= k < |steps| :: !TakesRelay(Live(e, call, steps[..k]), steps[k]) {
      forall k | 0 <= k <= |steps| ensures Decided(e, call, steps[..k]) { DecidedUpTo(e, call, steps, k); }
    }
    if forall k | 0 <= k <= |steps| :: Decided(e, call, steps[..k]) {
      forall k | 0 <= k < |steps| ensures !TakesRelay(Live(e, call, steps[..k]), steps[k]) {
        assert Decided(e, call, steps[..k]) && Decided(e, call, steps[..k + 1]);
        assert steps[..k + 1] == steps[..k] + [steps[k]];
        NextDecided(e, call, steps[..k], steps[k]);
      }
    }
  }

  lemma NothingDecided(e: End, call: Call)
    ensures Decided(e, call, [])
  {
  }

  lemma {:induction false} DecidedUpTo(e: End, call: Call, steps: seq<Step>, k: nat)
    requires k <= |steps| && forall j | 0 <= j < |steps| :: !TakesRelay(Live(e, call, steps[..j]), steps[j])
    ensures Decided(e, call, steps[..k])
  {
    hide TakesRelay, Decided, Live;
    if k == 0 {
      NothingDecided(e, call);
      assert steps[..0] == [];
    } else {
      DecidedUpTo(e, call, steps, k - 1);
      assert steps[..k] == steps[..k - 1] + [steps[k - 1]];
      NextDecided(e, call, steps[..k - 1], steps[k - 1]);
    }
  }

  /** The address held when the first answer comes; the present one before that. */
  function HeldBefore(e: End, call: Call, steps: seq<Step>): Addr {
    if Answers(steps) == [] then Live(e, call, steps).node.net.wan else HeldBefore(e, call, steps[..|steps| - 1])
  }

  /** Which is the one the run began with, or the relay's, from the last pass that timed out until then. */
  lemma {:induction false} HeldIsRelays(e: End, call: Call, steps: seq<Step>) returns (k: nat)
    ensures k <= |steps|
    ensures if k == |steps| then HeldBefore(e, call, steps) == e.node.net.wan
            else Answers(steps[..k]) == [] && TimesOut(Live(e, call, steps[..k]), steps[k])
                 && HeldBefore(e, call, steps) == steps[k].env.relay
  {
    hide TimesOut, StepOf;
    k := 0;
    if steps != [] {
      var front, last := steps[..|steps| - 1], steps[|steps| - 1];
      k := HeldIsRelays(e, call, front);
      if k < |front| { assert front[..k] == steps[..k]; }
      if Answers(steps) == [] {
        OtherStep(Live(e, call, front), call, last);
        if TimesOut(Live(e, call, front), last) { k := |front|; }
      }
      if k == |front| && !(Answers(steps) == [] && TimesOut(Live(e, call, front), last)) { k := |steps|; }
    }
  }

  /**
   * Every run: whatever passes, looks and other handlers come between the answers, and whether or not the
   * detection times out, record, address and type are the classification of the answers and of the address
   * held before the first of them.
   */
  lemma {:induction false} RunClassifies(e: End, call: Call, steps: seq<Step>)
    requires Unanswered(e.node) && FromServers(Answers(steps))
    ensures var rs := Answers(steps);
            Found(Live(e, call, steps).node, HeldBefore(e, call, steps), Recorded(rs), KnownPort(rs))
    decreases |steps|
  {
    hide Found, StepOf, Take, FromServer, PhaseOf;
    if steps == [] {
      NothingFound(e.node, None);
    } else {
      var front, last := steps[..|steps| - 1], steps[|steps| - 1];
      var was, rs := Live(e, call, front), Answers(front);
      assert forall r | r in rs :: r in Answers(steps);
      RunClassifies(e, call, front);
      if last.Arrived? && last.event.DetectResponse? {
        var r := ToResponse(last.event);
        assert r in Answers(steps);
        AnswerFinds(was.node, HeldBefore(e, call, front), rs, r);
        AnswerTaken(was, call, last);
      } else {
        OtherStep(was, call, last);
        OtherFinds(was.node, StepOf(was, call, last).node, HeldBefore(e, call, front), rs);
      }
    }
  }

  /** Another step keeps what was found; before the first answer it may change the address. */
  lemma OtherFinds(n: Node, m: Node, held: Addr, rs: seq<Response>)
    requires FromServers(rs) && Found(n, held, Recorded(rs), KnownPort(rs))
    requires m.detected == n.detected && m.net.natType == n.net.natType
    requires n.net.wan.port != 0 ==> m.net.wan == n.net.wan
    requires rs == [] ==> held == n.net.wan
    ensures Found(m, if rs == [] then m.net.wan else held, Recorded(rs), KnownPort(rs))
  {
    hide Classification;
    Recording(rs);
    FoundMeans(n, held, Recorded(rs), KnownPort(rs));
    if rs == [] { NothingFound(m, None); }
  }

  // ---------------------------------------------------------------- the timed loop is such a run

  function Arrivals(es: seq<Event>): (r: seq<Step>)
    ensures |r| == |es| && forall k | 0 <= k < |es| :: r[k] == Arrived(es[k])
  {
    if es == [] then [] else Arrivals(es[..|es| - 1]) + [Arrived(es[|es| - 1])]
  }

  lemma {:induction false} LiveArrivals(e: End, call: Call, steps: seq<Step>, es: seq<Event>)
    ensures var (w, v) := (Live(e, call, steps), Live(e, call, steps + Arrivals(es)));
            v == w.(node := HandleAll(w.node, call, es))
    decreases |es|
  {
    hide Handle, Act;
    if es == [] {
      assert steps + Arrivals(es) == steps;
    } else {
      var front, last := es[..|es| - 1], es[|es| - 1];
      LiveArrivals(e, call, steps, front);
      LiveStep(e, call, steps + Arrivals(front), Arrived(last));
      assert steps + Arrivals(es) == steps + Arrivals(front) + [Arrived(last)];
    }
  }

  lemma LiveStep(e: End, call: Call, steps: seq<Step>, step: Step)
    ensures Live(e, call, steps + [step]) == StepOf(Live(e, call, steps), call, step)
  {
    assert (steps + [step])[..|steps|] == steps;
  }

  /** What the first k passes of `run` are made of. */
  function StepsOf(env: nat -> Env, events: nat -> seq<Event>, k: nat): seq<Step> {
    if k == 0 then [] else
      StepsOf(env, events, k - 1) + Arrivals(events(2 * (k - 1))) + [Look] + Arrivals(events(2 * (k - 1) + 1))
      + [Pass(env(k - 1))]
  }

  /** So what holds of every run of an end holds of the loop with its handlers after any number of passes. */
  lemma {:induction false} AfterIsLive(n: Node, call: Call, env: nat -> Env, events: nat -> seq<Event>, k: nat)
    ensures var e := Live(End(n, LOOP_START, START), call, StepsOf(env, events, k));
            (e.node, e.loop) == After(n, call, env, events, k)
  {
    hide Act, HandleAll, Live, After, Arrivals;
    StartRun(false, n, call, env, events);
    if k == 0 {
      NothingLived(End(n, LOOP_START, START), call);
    } else {
      AfterIsLive(n, call, env, events, k - 1);
      NextPass(n, call, env, events, k - 1);
      OneTurn(End(n, LOOP_START, START), call, StepsOf(env, events, k - 1), events(2 * (k - 1)),
              events(2 * (k - 1) + 1), env(k - 1));
    }
  }

  lemma NothingLived(e: End, call: Call)
    ensures Live(e, call, []) == e
  {
  }

  lemma OneTurn(e: End, call: Call, steps: seq<Step>, before: seq<Event>, within: seq<Event>, env: Env)
    ensures var w := Live(e, call, steps);
            var looked := HandleAll(w.node, call, before);
            var v := Live(e, call, steps + Arrivals(before) + [Look] + Arrivals(within) + [Pass(env)]);
            (v.node, v.loop) == Act(HandleAll(looked, call, within), w.loop, looked.state, env)
  {
    hide Act, HandleAll, Live, Handle;
    LiveArrivals(e, call, steps, before);
    LiveStep(e, call, steps + Arrivals(before), Look);
    LiveArrivals(e, call, steps + Arrivals(before) + [Look], within);
    LiveStep(e, call, steps + Arrivals(before) + [Look] + Arrivals(within), Pass(env));
  }

  // ---------------------------------------------------------------- a timeout before the first answer

  /** With no event at all, the 101st pass times out: the node holds the relay's address though no server answered. */
  lemma SilenceTimesOut(call: Call, env: nat -> Env)
    ensures var n := After(FRESH, call, env, Silence(), 101).0;
            Unanswered(n) && n.net.wan == env(100).relay && n.state == NET_DETECT_TIMEOUT
  {
    hide After;
    SilentExchanging(call, env, 0);
  }

  /**
   * Such a run, with port 1000 from the relay. One server that answers 1000 makes a cone, one that answers 500
   * leaves port 1000, which no server saw, and makes the type symmetric. The answers alone decide nothing yet.
   */
  lemma LateAnswers(call: Call, env: nat -> Env)
    requires env(100).relay == Addr(9, 1000)
    ensures var n := After(FRESH, call, env, Silence(), 101).0;
            var same := Response(Addr(1, P2P_SERVER_PORT), Addr(9, 1000), None);
            var other := same.(wan := Addr(9, 500));
            && Take(n, same).net == n.net.(natType := NAT_PORT_RESTRICTED_CONE) && n.net.wan == Addr(9, 1000)
            && Take(n, other).net == n.net.(natType := NAT_SYMMETRIC)
            && Take(FRESH, same).net.natType == Take(FRESH, other).net.natType == NAT_UNKNOWN
  {
    SilenceTimesOut(call, env);
  }
}
