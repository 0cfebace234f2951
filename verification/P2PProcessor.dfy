/** The processor as the object it is: handlers that update it, and the timed loop they interrupt. */
module P2PProcessor {
  import opened ProtoWire
  import opened P2PNode

  /** The burrow flags of the call session. */
  class P2PCallSession {
    var intranetBurrowState: bool
    var internetBurrowState: bool

    constructor ()
      ensures !intranetBurrowState && !internetBurrowState
    {
      intranetBurrowState, internetBurrowState := false, false;
    }

    method ResetP2PIntranetConn()
      modifies this`intranetBurrowState
      ensures !intranetBurrowState
    {
      intranetBurrowState := false;
    }

    method ResetP2PInternetConn()
      modifies this`internetBurrowState
      ensures !internetBurrowState
    {
      internetBurrowState := false;
    }
  }

  datatype Event =
    | DetectResponse(responder: Addr, wan: Addr, relayPort: Option<nat>)
    | InfoArrived(info: UserInfo)
    | BurrowArrived(packet: BurrowPacket, live: bool, sender: Addr, conn: nat)
    | ConnClosed(channel: Channel)
    | StopCalled

  function Handle(n: Node, call: Call, e: Event): Node {
    match e
    case DetectResponse(from, wan, relayPort) => HandleNetDetectResp(n, from, wan, relayPort)
    case InfoArrived(info) => HandleNetInfo(n, info)
    case BurrowArrived(p, live, from, conn) => HandleBurrowPacket(n, call, live, p, from, conn)
    case ConnClosed(channel) => LoseConn(n, channel)
    case StopCalled => n
  }

  /** No handler ever moves the state back. */
  lemma HandleAdvances(n: Node, call: Call, e: Event)
    ensures Rank(Handle(n, call, e).state) >= Rank(n.state)
  {
  }

  function HandleAll(n: Node, call: Call, es: seq<Event>): Node {
    if es == [] then n else Handle(HandleAll(n, call, es[..|es| - 1]), call, es[|es| - 1])
  }

  /** What one pass of the loop did to the outside. */
  datatype Did = Quiet | DetectRound | InfoCall | PunchCall(num: nat)

  function DoneBy(l: Loop, seen: P2PState): Did {
    match PhaseOf(seen)
    case Detecting => if l.netDetect < MAX_NET_DETECT_COUNT && l.netDetect % 10 == 0 then DetectRound else Quiet
    case Exchanging => if l.exchange < MAX_EXCHANGE_NET_INFO_COUNT && l.exchange % 40 == 0 then InfoCall else Quiet
    case Punching => if l.punch < MAX_P2P_PUNCH_COUNT && PunchDue(l.punch) then PunchCall(l.burrowNum) else Quiet
    case Done => Quiet
  }

  // ---------------------------------------------------------------- the switch, by its labels

  /** The states in the order of their ranks. */
  const STATES: seq<P2PState> := [
    START, NET_DETECT, NET_DETECT_TIMEOUT, NET_DETECT_OK, EXCHANGE_NET_INFO, EXCHANGE_NET_INFO_TIMEOUT,
    EXCHANGE_NET_INFO_OK, PUNCH, PUNCH_TIMEOUT, INTERNET_OK, INTRANET_OK]

  lemma StatesInOrder()
    ensures |STATES| == 11 && forall k | 0 <= k < 11 :: Rank(STATES[k]) == k
  {
  }

  /** The state after an advance is one of the two, and neither comes after it. */
  lemma AdvanceIsLater(from: P2PState, to: P2PState)
    ensures Advance(from, to) in {from, to}
    ensures forall i, j | 0 <= i < j < 11 && STATES[j] in {from, to} :: Advance(from, to) != STATES[i]
  {
    StatesInOrder();
  }

  /** A detect round: the local address is looked up once, and START is left; between rounds nothing happens. */
  lemma DetectPassDoes(n: Node, l: Loop, seen: P2PState, env: Env)
    requires seen in {START, NET_DETECT} && l.netDetect < 100
    ensures var (m, k) := Act(n, l, seen, env);
            && k == l.(netDetect := l.netDetect + 1)
            && if l.netDetect in {0, 10, 20, 30, 40, 50, 60, 70, 80, 90}
               then m == n.(state := if n.state == START then NET_DETECT else n.state, net := m.net)
                    && m.net == n.net.(lan := if n.net.lan.port == 0 then env.local else n.net.lan)
               else m == n
  {
    SwitchLabels(seen);
  }

  lemma SwitchLabels(s: P2PState)
    ensures PhaseOf(s) == Detecting <==> s in {START, NET_DETECT}
    ensures PhaseOf(s) == Exchanging <==> s in {NET_DETECT_TIMEOUT, NET_DETECT_OK, EXCHANGE_NET_INFO}
    ensures PhaseOf(s) == Punching <==> s in {EXCHANGE_NET_INFO_TIMEOUT, EXCHANGE_NET_INFO_OK, PUNCH}
  {
  }

  /** The passes that send something, by the counters of their phases. */
  lemma Schedule(l: Loop, seen: P2PState)
    ensures DoneBy(l, seen) == DetectRound
            <==> seen in {START, NET_DETECT} && l.netDetect in {0, 10, 20, 30, 40, 50, 60, 70, 80, 90}
    ensures DoneBy(l, seen) == InfoCall
            <==> seen in {NET_DETECT_TIMEOUT, NET_DETECT_OK, EXCHANGE_NET_INFO} && l.exchange in {0, 40, 80, 120, 160}
    ensures DoneBy(l, seen).PunchCall?
            <==> seen in {EXCHANGE_NET_INFO_TIMEOUT, EXCHANGE_NET_INFO_OK, PUNCH}
                 && l.punch in {0, 20, 40, 60, 80, 100, 150, 200, 250, 300, 350, 400, 450}
    ensures DoneBy(l, seen).PunchCall? ==> DoneBy(l, seen).num == l.burrowNum
  {
    SwitchLabels(seen);
  }

  // ---------------------------------------------------------------- budgets

  function PhaseIndex(s: P2PState): nat {
    match PhaseOf(s) case Detecting => 0 case Exchanging => 1 case Punching => 2 case Done => 3
  }

  /** How many multiples of `step` lie below n. */
  function Multiples(n: nat, step: nat): nat
    requires step > 0
  {
    (n + step - 1) / step
  }

  function PunchesDue(punch: nat): nat {
    if punch <= 101 then Multiples(punch, 20) else 6 + (punch - 1) / 50 - 2
  }

  predicate WithinBudgets(l: Loop) {
    && l.netDetect <= MAX_NET_DETECT_COUNT && l.exchange <= MAX_EXCHANGE_NET_INFO_COUNT
    && l.punch <= MAX_P2P_PUNCH_COUNT
  }

  function Spent(l: Loop): nat { l.netDetect + l.exchange + l.punch }

  /** A pass counts one of its counters up, or leaves its phase, or stops. */
  ghost predicate Spends(n: Node, l: Loop, seen: P2PState, m: Node, k: Loop) {
    && Rank(m.state) >= Rank(n.state) && (k.stop ==> l.stop || PhaseOf(seen) == Done) && WithinBudgets(k)
    && (Spent(k) == Spent(l) + 1
        || (Spent(k) == Spent(l) && PhaseIndex(m.state) + (if k.stop then 1 else 0) > PhaseIndex(seen)))
  }

  lemma DetectingSpends(n: Node, l: Loop, seen: P2PState, env: Env)
    requires Rank(n.state) >= Rank(seen) && WithinBudgets(l) && PhaseOf(seen) == Detecting
    ensures Spends(n, l, seen, Act(n, l, seen, env).0, Act(n, l, seen, env).1)
  {
    hide P2PNode.SendNetInfo, P2PNode.SendBurrowRequest, WithBit, PunchDue;
  }

  lemma ExchangingSpends(n: Node, l: Loop, seen: P2PState, env: Env)
    requires Rank(n.state) >= Rank(seen) && WithinBudgets(l) && PhaseOf(seen) == Exchanging
    ensures Spends(n, l, seen, Act(n, l, seen, env).0, Act(n, l, seen, env).1)
  {
    hide P2PNode.SendNetDetectRequest, P2PNode.SendBurrowRequest, WithBit, PunchDue, InfoSendable;
  }

  lemma PunchingSpends(n: Node, l: Loop, seen: P2PState, env: Env)
    requires Rank(n.state) >= Rank(seen) && WithinBudgets(l) && PhaseOf(seen) == Punching
    ensures Spends(n, l, seen, Act(n, l, seen, env).0, Act(n, l, seen, env).1)
  {
    hide P2PNode.SendNetDetectRequest, P2PNode.SendNetInfo, WithBit, PunchDue;
  }

  /** A pass spends a budget or is the last one of its phase. */
  lemma PassSpends(n: Node, l: Loop, seen: P2PState, env: Env)
    requires Rank(n.state) >= Rank(seen) && WithinBudgets(l)
    ensures Spends(n, l, seen, Act(n, l, seen, env).0, Act(n, l, seen, env).1)
  {
    hide P2PNode.SendNetDetectRequest, P2PNode.SendNetInfo, P2PNode.SendBurrowRequest, WithBit, PunchDue;
    match PhaseOf(seen)
    case Detecting => DetectingSpends(n, l, seen, env);
    case Exchanging => ExchangingSpends(n, l, seen, env);
    case Punching => PunchingSpends(n, l, seen, env);
    case Done =>
  }

  /** The largest error state reachable before the phase of a state is left. */
  function WorstError(s: P2PState): nat {
    match PhaseOf(s) case Detecting => 0 case Exchanging => 1 case Punching => 3 case Done => 4
  }

  lemma PassErrors(n: Node, l: Loop, seen: P2PState, env: Env)
    requires Rank(n.state) >= Rank(seen) && l.errorState <= WorstError(seen)
    ensures var (m, k) := Act(n, l, seen, env); k.errorState <= WorstError(m.state)
  {
  }

  lemma MultiplesStep(n: nat)
    ensures Multiples(n + 1, 10) == Multiples(n, 10) + if n % 10 == 0 then 1 else 0
    ensures Multiples(n + 1, 40) == Multiples(n, 40) + if n % 40 == 0 then 1 else 0
  {
    assert (n + 10) / 10 == n / 10 + 1 && (n + 40) / 40 == n / 40 + 1;
    assert (n + 9) / 10 == n / 10 + if n % 10 == 0 then 0 else 1;
    assert (n + 39) / 40 == n / 40 + if n % 40 == 0 then 0 else 1;
  }

  lemma PunchSchedule(punch: nat)
    requires punch < MAX_P2P_PUNCH_COUNT
    ensures PunchesDue(punch + 1) == PunchesDue(punch) + if PunchDue(punch) then 1 else 0
    ensures PunchesDue(punch) <= 13
  {
  }

  /** The counters kept by schedule: rounds, calls and requests are due exactly when one of them is made. */
  ghost predicate Counts(l: Loop, did: Did, k: Loop) {
    && Multiples(k.netDetect, 10) == Multiples(l.netDetect, 10) + (if did.DetectRound? then 1 else 0)
    && Multiples(k.exchange, 40) == Multiples(l.exchange, 40) + (if did.InfoCall? then 1 else 0)
    && PunchesDue(k.punch) == PunchesDue(l.punch) + (if did.PunchCall? then 1 else 0)
    && k.burrowNum == l.burrowNum + (if did.PunchCall? then 1 else 0)
    && (did.PunchCall? ==> did.num == l.burrowNum)
  }

  /** And what it does to the outside is what the schedule of its phase says. */
  lemma PassCounts(n: Node, l: Loop, seen: P2PState, env: Env)
    requires WithinBudgets(l)
    ensures Counts(l, DoneBy(l, seen), Act(n, l, seen, env).1)
  {
    hide Multiples, PunchesDue, PunchDue;
    MultiplesStep(l.netDetect);
    MultiplesStep(l.exchange);
    if l.punch < MAX_P2P_PUNCH_COUNT { PunchSchedule(l.punch); }
  }

  // ---------------------------------------------------------------- whole runs

  const P2P_INTRANET := 1
  const P2P_INTERNET := 2

  /**
   * The node and the loop's variables after k passes, when `events(2j)` are handled before pass j looks at
   * the state and `events(2j + 1)` between its look and its action.
   */
  function After(n: Node, call: Call, env: nat -> Env, events: nat -> seq<Event>, k: nat): (Node, Loop) {
    if k == 0 then (n, LOOP_START) else
    var (m, l) := After(n, call, env, events, k - 1);
    var looked := HandleAll(m, call, events(2 * (k - 1)));
    Act(HandleAll(looked, call, events(2 * (k - 1) + 1)), l, looked.state, env(k - 1))
  }

  /** After k passes the loop has been told to stop: before it began, by itself, or by stop(). */
  ghost predicate StoppedAfter(already: bool, n: Node, call: Call, env: nat -> Env, events: nat -> seq<Event>,
                               k: nat)
  {
    already || After(n, call, env, events, k).1.stop || exists j: nat | j < 2 * k :: StopCalled in events(j)
  }

  /** What one more pass adds to that. */
  lemma StopStep(already: bool, n: Node, call: Call, env: nat -> Env, events: nat -> seq<Event>, k: nat)
    requires !StoppedAfter(already, n, call, env, events, k)
    ensures StoppedAfter(already, n, call, env, events, k + 1)
            <==> StopCalled in events(2 * k) || StopCalled in events(2 * k + 1)
                 || After(n, call, env, events, k + 1).1.stop
  {
    hide After;
    forall j: nat | j < 2 * (k + 1) && StopCalled in events(j) ensures j == 2 * k || j == 2 * k + 1 {
      assert j >= 2 * k;
    }
  }

  lemma ActStops(n: Node, l: Loop, seen: P2PState, env: Env)
    ensures Act(n, l, seen, env).1.stop == (l.stop || PhaseOf(seen) == Done)
  {
  }

  lemma NextPass(n: Node, call: Call, env: nat -> Env, events: nat -> seq<Event>, k: nat)
    ensures var (m, l) := After(n, call, env, events, k);
            var looked := HandleAll(m, call, events(2 * k));
            After(n, call, env, events, k + 1)
            == Act(HandleAll(looked, call, events(2 * k + 1)), l, looked.state, env(k))
  {
  }

  lemma StartRun(already: bool, n: Node, call: Call, env: nat -> Env, events: nat -> seq<Event>)
    ensures After(n, call, env, events, 0) == (n, LOOP_START)
    ensures StoppedAfter(already, n, call, env, events, 0) == already
  {
  }

  /**
   * The result of run(), from what its two reads of the state see; the second read is made only if the first
   * did not see INTRANET_OK.
   */
  function ResultOf(errors: int, atExit: P2PState, later: P2PState): int {
    if atExit == INTRANET_OK then P2P_INTRANET else if later == INTERNET_OK then P2P_INTERNET else -errors
  }

  function Connected(s: P2PState): bool { s == INTERNET_OK || s == INTRANET_OK }

  /** A success code for a connected node and no other, unless INTRANET_OK was reached between the two reads. */
  lemma ResultIsRight(errors: nat, atExit: P2PState, later: P2PState)
    requires Rank(later) >= Rank(atExit)
    ensures (ResultOf(errors, atExit, later) > 0 <==> Connected(later))
            <==> !(atExit != INTRANET_OK && later == INTRANET_OK)
  {
  }

  // ---------------------------------------------------------------- what the error code means

  /** Pass j found the detection budget spent and no address. */
  ghost predicate DetectLate(n: Node, call: Call, env: nat -> Env, events: nat -> seq<Event>, j: nat) {
    var (m, l) := After(n, call, env, events, j);
    var looked := HandleAll(m, call, events(2 * j));
    && looked.state in {START, NET_DETECT} && l.netDetect >= 100
    && HandleAll(looked, call, events(2 * j + 1)).net.wan.port == 0
  }

  /** Pass j found the exchange budget spent. */
  ghost predicate ExchangeLate(n: Node, call: Call, env: nat -> Env, events: nat -> seq<Event>, j: nat) {
    var (m, l) := After(n, call, env, events, j);
    HandleAll(m, call, events(2 * j)).state in {NET_DETECT_TIMEOUT, NET_DETECT_OK, EXCHANGE_NET_INFO}
    && l.exchange >= 200
  }

  /** Pass j found the punch budget spent. */
  ghost predicate PunchLate(n: Node, call: Call, env: nat -> Env, events: nat -> seq<Event>, j: nat) {
    var (m, l) := After(n, call, env, events, j);
    HandleAll(m, call, events(2 * j)).state in {EXCHANGE_NET_INFO_TIMEOUT, EXCHANGE_NET_INFO_OK, PUNCH}
    && l.punch >= 500
  }

  lemma {:induction false} AllAdvance(n: Node, call: Call, es: seq<Event>)
    ensures Rank(HandleAll(n, call, es).state) >= Rank(n.state)
    decreases |es|
  {
    hide Handle;
    if es != [] {
      AllAdvance(n, call, es[..|es| - 1]);
      HandleAdvances(HandleAll(n, call, es[..|es| - 1]), call, es[|es| - 1]);
    }
  }

  /** One pass: which timeout it is, if it is one, and what that makes of the error bits and the state. */
  lemma PassError(n: Node, l: Loop, seen: P2PState, env: Env)
    ensures var (m, k) := Act(n, l, seen, env);
            && Rank(m.state) >= Rank(n.state)
            && (seen in {START, NET_DETECT} && l.netDetect >= 100 && n.net.wan.port == 0 ==>
                  k.errorState == (if l.errorState % 2 == 1 then l.errorState else l.errorState + 1)
                  && m.net == n.net.(wan := env.relay)
                  && m.state == Advance(n.state, if n.peer.wan.port != 0 then EXCHANGE_NET_INFO_OK
                                                 else NET_DETECT_TIMEOUT))
            && (seen in {START, NET_DETECT} && l.netDetect >= 100 && n.net.wan.port != 0 ==>
                  k == l && m == n.(state := Advance(n.state, NET_DETECT_OK)))
            && (seen in {NET_DETECT_TIMEOUT, NET_DETECT_OK, EXCHANGE_NET_INFO} && l.exchange >= 200 ==>
                  k.errorState == (if l.errorState / 2 % 2 == 1 then l.errorState else l.errorState + 2)
                  && m == n.(state := Advance(n.state, EXCHANGE_NET_INFO_TIMEOUT)))
            && (seen in {EXCHANGE_NET_INFO_TIMEOUT, EXCHANGE_NET_INFO_OK, PUNCH} && l.punch >= 500 ==>
                  k.errorState == 4 && m == n.(state := Advance(n.state, PUNCH_TIMEOUT)))
            && (k.errorState != l.errorState ==>
                  || (seen in {START, NET_DETECT} && l.netDetect >= 100 && n.net.wan.port == 0)
                  || (seen in {NET_DETECT_TIMEOUT, NET_DETECT_OK, EXCHANGE_NET_INFO} && l.exchange >= 200)
                  || (seen in {EXCHANGE_NET_INFO_TIMEOUT, EXCHANGE_NET_INFO_OK, PUNCH} && l.punch >= 500))
  {
    hide P2PNode.SendNetDetectRequest, PunchDue, InfoSendable;
    SwitchLabels(seen);
    SendsAdvance(n, env);
  }

  lemma SendsAdvance(n: Node, env: Env)
    ensures Rank(P2PNode.SendNetDetectRequest(n, env).state) >= Rank(n.state)
    ensures Rank(P2PNode.SendNetInfo(n, env).state) >= Rank(n.state)
    ensures Rank(P2PNode.SendBurrowRequest(n, env).state) >= Rank(n.state)
  {
  }

  /** 4 if punching timed out; else 1 for a detection without an address, and 2 for an exchange that timed out. */
  function ErrorCode(detect: bool, exchange: bool, punch: bool): nat {
    if punch then 4 else (if detect then 1 else 0) + (if exchange then 2 else 0)
  }

  lemma ErrorStep(n: Node, l: Loop, seen: P2PState, env: Env, detect: bool, exchange: bool, punch: bool)
    requires l.errorState == ErrorCode(detect, exchange, punch) && Rank(n.state) >= Rank(seen)
    requires punch ==> Rank(seen) >= Rank(PUNCH_TIMEOUT)
    ensures var (m, k) := Act(n, l, seen, env);
            var d := seen in {START, NET_DETECT} && l.netDetect >= 100 && n.net.wan.port == 0;
            var x := seen in {NET_DETECT_TIMEOUT, NET_DETECT_OK, EXCHANGE_NET_INFO} && l.exchange >= 200;
            var p := seen in {EXCHANGE_NET_INFO_TIMEOUT, EXCHANGE_NET_INFO_OK, PUNCH} && l.punch >= 500;
            && k.errorState == ErrorCode(detect || d, exchange || x, punch || p)
            && (punch || p ==> Rank(m.state) >= Rank(PUNCH_TIMEOUT))
  {
    PassError(n, l, seen, env);
    LaterStates(seen);
    LaterStates(n.state);
    hide Act, Rank;
  }

  /** The error code of a run says what its passes found, whatever the events. */
  lemma {:induction false} ErrorsMean(n: Node, call: Call, env: nat -> Env, events: nat -> seq<Event>, k: nat)
    ensures var punch := exists j: nat | j < k :: PunchLate(n, call, env, events, j);
            && After(n, call, env, events, k).1.errorState
               == ErrorCode(exists j: nat | j < k :: DetectLate(n, call, env, events, j),
                            exists j: nat | j < k :: ExchangeLate(n, call, env, events, j), punch)
            && (punch ==> Rank(After(n, call, env, events, k).0.state) >= Rank(PUNCH_TIMEOUT))
  {
    hide Act, HandleAll, After, Rank, ErrorCode;
    StartRun(false, n, call, env, events);
    if k == 0 {
      NoError();
    } else {
      var (m, l) := After(n, call, env, events, k - 1);
      var looked := HandleAll(m, call, events(2 * (k - 1)));
      var here := HandleAll(looked, call, events(2 * (k - 1) + 1));
      ErrorsMean(n, call, env, events, k - 1);
      NextPass(n, call, env, events, k - 1);
      AllAdvance(m, call, events(2 * (k - 1)));
      AllAdvance(looked, call, events(2 * (k - 1) + 1));
      LateSoFar(n, call, env, events, k - 1);
      ErrorStep(here, l, looked.state, env(k - 1), exists j: nat | j < k - 1 :: DetectLate(n, call, env, events, j),
                exists j: nat | j < k - 1 :: ExchangeLate(n, call, env, events, j),
                exists j: nat | j < k - 1 :: PunchLate(n, call, env, events, j));
    }
  }

  lemma NoError()
    ensures ErrorCode(false, false, false) == 0
  {
  }

  lemma LaterStates(s: P2PState)
    ensures Rank(s) >= Rank(PUNCH_TIMEOUT) <==> s in {PUNCH_TIMEOUT, INTERNET_OK, INTRANET_OK}
    ensures Rank(Advance(s, PUNCH_TIMEOUT)) >= Rank(PUNCH_TIMEOUT)
  {
  }

  lemma LateSoFar(n: Node, call: Call, env: nat -> Env, events: nat -> seq<Event>, k: nat)
    ensures (exists j: nat | j < k + 1 :: DetectLate(n, call, env, events, j))
            <==> (exists j: nat | j < k :: DetectLate(n, call, env, events, j)) || DetectLate(n, call, env, events, k)
    ensures (exists j: nat | j < k + 1 :: ExchangeLate(n, call, env, events, j))
            <==> (exists j: nat | j < k :: ExchangeLate(n, call, env, events, j))
                 || ExchangeLate(n, call, env, events, k)
    ensures (exists j: nat | j < k + 1 :: PunchLate(n, call, env, events, j))
            <==> (exists j: nat | j < k :: PunchLate(n, call, env, events, j)) || PunchLate(n, call, env, events, k)
  {
    hide DetectLate, ExchangeLate, PunchLate;
  }

  // ---------------------------------------------------------------- a run without any event

  function Silence(): nat -> seq<Event> { j => [] }

  lemma HandleNothing(call: Call, n: Node)
    ensures HandleAll(n, call, []) == n
  {
  }

  lemma SilentPass(call: Call, env: nat -> Env, k: nat)
    ensures var (n, l) := After(FRESH, call, env, Silence(), k);
            After(FRESH, call, env, Silence(), k + 1) == Act(n, l, n.state, env(k))
  {
    hide Act;
    NextPass(FRESH, call, env, Silence(), k);
    HandleNothing(call, After(FRESH, call, env, Silence(), k).0);
  }

  lemma {:induction false} SilentDetecting(call: Call, env: nat -> Env, k: nat)
    requires k <= 100
    ensures var (n, l) := After(FRESH, call, env, Silence(), k);
            && n == FRESH.(state := n.state, net := FRESH.net.(lan := n.net.lan)) && n.state in {START, NET_DETECT}
            && l == LOOP_START.(netDetect := k)
  {
    hide After;
    StartRun(false, FRESH, call, env, Silence());
    if k > 0 {
      SilentDetecting(call, env, k - 1);
      SilentPass(call, env, k - 1);
    }
  }

  lemma {:induction false} SilentExchanging(call: Call, env: nat -> Env, k: nat)
    requires k <= 200
    ensures var (n, l) := After(FRESH, call, env, Silence(), 101 + k);
            && n == FRESH.(state := NET_DETECT_TIMEOUT, net := FRESH.net.(lan := n.net.lan, wan := env(100).relay))
            && l == LOOP_START.(netDetect := 100, exchange := k, errorState := 1)
  {
    hide After;
    if k == 0 {
      SilentDetecting(call, env, 100);
      SilentPass(call, env, 100);
    } else {
      SilentExchanging(call, env, k - 1);
      SilentPass(call, env, 100 + k);
    }
  }

  lemma {:induction false} SilentPunching(call: Call, env: nat -> Env, k: nat)
    requires k <= 500
    ensures var (n, l) := After(FRESH, call, env, Silence(), 302 + k);
            && n == FRESH.(state := n.state, net := n.net) && n.state in {EXCHANGE_NET_INFO_TIMEOUT, PUNCH}
            && l == LOOP_START.(netDetect := 100, exchange := 200, punch := k, errorState := 3,
                                burrowNum := PunchesDue(k))
  {
    hide After;
    if k == 0 {
      SilentExchanging(call, env, 200);
      SilentPass(call, env, 301);
    } else {
      hide Act, PunchesDue;
      SilentPunching(call, env, k - 1);
      SilentPass(call, env, 301 + k);
      PunchSchedule(k - 1);
      var (n, l) := After(FRESH, call, env, Silence(), 301 + k);
      PunchPass(n, l, env(301 + k));
    }
  }

  lemma PunchPass(n: Node, l: Loop, env: Env)
    requires n.state in {EXCHANGE_NET_INFO_TIMEOUT, PUNCH} && l.punch < 500
    ensures var (m, k) := Act(n, l, n.state, env);
            && m == n.(state := m.state) && m.state in {EXCHANGE_NET_INFO_TIMEOUT, PUNCH}
            && k == l.(punch := l.punch + 1, burrowNum := l.burrowNum + if PunchDue(l.punch) then 1 else 0)
  {
    hide PunchDue;
  }

  /** Without any event a run uses up all its budgets: 804 passes, 13 requests, PUNCH_TIMEOUT and error code 4. */
  lemma SilentRun(call: Call, env: nat -> Env)
    ensures var (n, l) := After(FRESH, call, env, Silence(), 804);
            && n.state == PUNCH_TIMEOUT && !n.intranet && !n.internet
            && l == Loop(100, 200, 500, 13, 4, true)
    ensures !After(FRESH, call, env, Silence(), 803).1.stop
  {
    hide After;
    SilentPunching(call, env, 500);
    assert PunchesDue(500) == 13;
    SilentPass(call, env, 802);
    SilentPass(call, env, 803);
  }

  // ---------------------------------------------------------------- a run that misses its success

  /** The codes reported: 1 for the intranet, 2 for the internet, else minus the error code. */
  lemma ResultCodes(errors: int, atExit: P2PState, later: P2PState)
    requires errors >= 0
    ensures var r := ResultOf(errors, atExit, later);
            && (r == 1 <==> atExit == INTRANET_OK) && (r == 2 <==> atExit != INTRANET_OK && later == INTERNET_OK)
            && (r == -errors <==> atExit != INTRANET_OK && later != INTERNET_OK)
  {
  }

  /** The echo of one of this node's requests, from its peer. */
  function EchoArrived(call: Call, channel: Channel): Event {
    BurrowArrived(BurrowPacket(call.peerUuid, call.peerResource, call.callId, 0, false, channel), true, NO_ADDR, 1)
  }

  /** The internet echo before the first look, nothing else until the loop is over. */
  function EchoFirst(call: Call): nat -> seq<Event> { k => if k == 0 then [EchoArrived(call, INTERNET)] else [] }

  /**
   * A run that fails: the internet echo comes in before the first look, so the loop stops after one pass
   * in INTERNET_OK; the intranet echo comes in between the two reads. The node is connected, twice over,
   * and the result is the error code 0.
   */
  lemma MissedSuccess(call: Call, env: nat -> Env)
    ensures var (events, (n, l)) := (EchoFirst(call), After(FRESH, call, env, EchoFirst(call), 1));
            var m := HandleAll(n, call, [EchoArrived(call, INTRANET)]);
            && HandleAll(n, call, events(2)) == n
            && !StoppedAfter(false, FRESH, call, env, events, 0) && StoppedAfter(false, FRESH, call, env, events, 1)
            && n.state == INTERNET_OK && m.state == INTRANET_OK && m.intranet && m.internet
            && l.errorState == 0 && ResultOf(0, n.state, m.state) == 0
  {
    var events, e := EchoFirst(call), EchoArrived(call, INTERNET);
    StartRun(false, FRESH, call, env, events);
    HandleOne(FRESH, call, e);
    var n := Handle(FRESH, call, e);
    assert HandleAll(n, call, events(1)) == n;
    NextPass(FRESH, call, env, events, 0);
    assert After(FRESH, call, env, events, 1) == (n, LOOP_START.(stop := true));
    HandleOne(n, call, EchoArrived(call, INTRANET));
  }

  lemma HandleOne(n: Node, call: Call, e: Event)
    ensures HandleAll(n, call, [e]) == Handle(n, call, e)
  {
    assert [e][..0] == [];
    assert HandleAll(n, call, []) == n;
  }

  // ---------------------------------------------------------------- the class

  class P2PProcessor {
    const call: Call
    const session: P2PCallSession
    var mStop: bool
    var mP2PState: P2PState
    var mNetInfo: NetInfo
    var mPeerNetInfo: NetInfo
    var mNetDetectMap: map<Addr, Addr>

    constructor (call: Call, session: P2PCallSession)
      ensures this.call == call && this.session == session && !mStop
      ensures !session.intranetBurrowState && !session.internetBurrowState ==> AsNode() == FRESH
    {
      this.call, this.session := call, session;
      mStop, mP2PState := false, START;
      mNetInfo, mPeerNetInfo := NetInfo(NO_ADDR, NO_ADDR, NAT_UNKNOWN), NetInfo(NO_ADDR, NO_ADDR, NAT_UNKNOWN);
      mNetDetectMap := map[];
    }

    ghost function AsNode(): Node
      reads this, session
    {
      Node(mP2PState, mNetInfo, mPeerNetInfo, mNetDetectMap, session.intranetBurrowState, session.internetBurrowState)
    }

    method UpdateP2PState(to: P2PState)
      modifies this`mP2PState
      ensures AsNode() == old(AsNode()).Moved(to)
    {
      if Rank(to) > Rank(mP2PState) {
        mP2PState := to;
      }
    }

    method HandleNetDetectResp(from: Addr, wan: Addr, relayPort: Option<nat>)
      modifies this
      ensures AsNode() == P2PNode.HandleNetDetectResp(old(AsNode()), from, wan, relayPort) && mStop == old(mStop)
    {
      if from in mNetDetectMap {
        return;
      }
      mNetDetectMap := mNetDetectMap[from := wan];
      if from.port != P2P_SERVER_PORT {
        mNetInfo := mNetInfo.(wan := wan, natType := NAT_OTHER_CONE);
        UpdateP2PState(NET_DETECT_OK);
      } else if mNetInfo.wan.port == 0 {
        mNetInfo := mNetInfo.(wan := wan);
        if relayPort.Some? {
          var oldPort := relayPort.value % 0x1_0000;
          if oldPort != 0 && oldPort != wan.port {
            mNetInfo := mNetInfo.(natType := NAT_SYMMETRIC);
            UpdateP2PState(NET_DETECT_OK);
          }
        }
      } else if mNetInfo.wan.port != wan.port {
        if wan.port > mNetInfo.wan.port {
          mNetInfo := mNetInfo.(wan := wan);
        }
        mNetInfo := mNetInfo.(natType := NAT_SYMMETRIC);
        UpdateP2PState(NET_DETECT_OK);
      } else {
        if mNetInfo.natType == NAT_UNKNOWN {
          mNetInfo := mNetInfo.(natType := NAT_PORT_RESTRICTED_CONE);
        }
        UpdateP2PState(NET_DETECT_OK);
      }
    }

    method HandleNetInfo(info: UserInfo)
      modifies this
      ensures AsNode() == P2PNode.HandleNetInfo(old(AsNode()), info) && mStop == old(mStop)
    {
      var (natType, hasPeerNetInfo) := ParseResource(info.resource);
      mPeerNetInfo := mPeerNetInfo.(natType := natType);
      mPeerNetInfo := mPeerNetInfo.(wan := info.wan);
      mPeerNetInfo := mPeerNetInfo.(lan := info.lan);
      if hasPeerNetInfo {
        UpdateP2PState(EXCHANGE_NET_INFO_OK);
      }
    }

    /** handleBurrowPacket with the response it sends, if any. */
    method HandleBurrowPacket(p: BurrowPacket, live: bool, from: Addr, conn: nat)
      returns (response: Option<BurrowPacket>)
      modifies this, session
      ensures AsNode() == P2PNode.HandleBurrowPacket(old(AsNode()), call, live, p, from, conn) && mStop == old(mStop)
      ensures response == if Accepts(call, live, p) && p.request then Some(BurrowResponse(call, p)) else None
    {
      response := None;
      if p.callId != call.callId || !live {
        return;
      }
      if p.uuid != call.peerUuid || p.resource != call.peerResource {
        return;
      }
      UpdateP2PState(PUNCH);
      if p.channel == INTERNET {
        mPeerNetInfo := mPeerNetInfo.(wan := from);
      } else {
        mPeerNetInfo := mPeerNetInfo.(lan := from);
      }
      if p.request {
        return Some(BurrowPacket(call.uuid, call.resource, call.callId, p.id, false, p.channel));
      }
      if p.channel == INTRANET {
        if session.intranetBurrowState {
          return;
        }
        if !call.creator || conn > 0 {
          UpdateP2PState(INTRANET_OK);
          session.intranetBurrowState := true;
        }
      } else {
        if session.internetBurrowState {
          return;
        }
        if !call.creator || conn > 0 {
          UpdateP2PState(INTERNET_OK);
          session.internetBurrowState := true;
        }
      }
    }

    method Deliver(e: Event)
      modifies this, session
      ensures AsNode() == Handle(old(AsNode()), call, e) && mStop == (old(mStop) || e.StopCalled?)
    {
      hide P2PNode.HandleNetDetectResp, P2PNode.HandleNetInfo, P2PNode.HandleBurrowPacket;
      match e
      case DetectResponse(from, wan, relayPort) => HandleNetDetectResp(from, wan, relayPort);
      case InfoArrived(info) => HandleNetInfo(info);
      case BurrowArrived(p, live, from, conn) => var response := HandleBurrowPacket(p, live, from, conn);
      case ConnClosed(channel) =>
        if channel == INTRANET {
          session.ResetP2PIntranetConn();
        } else {
          session.ResetP2PInternetConn();
        }
      case StopCalled => mStop := true;
    }

    method DeliverAll(es: seq<Event>)
      modifies this, session
      ensures AsNode() == HandleAll(old(AsNode()), call, es) && Rank(mP2PState) >= old(Rank(mP2PState))
      ensures mStop == (old(mStop) || StopCalled in es)
    {
      hide Handle;
      for i := 0 to |es|
        invariant AsNode() == HandleAll(old(AsNode()), call, es[..i]) && Rank(mP2PState) >= old(Rank(mP2PState))
        invariant mStop == (old(mStop) || StopCalled in es[..i])
      {
        assert es[..i + 1][..i] == es[..i];
        HandleAdvances(AsNode(), call, es[i]);
        Deliver(es[i]);
      }
      assert es[..|es|] == es;
    }

    method SendNetDetectRequest(env: Env)
      modifies this
      ensures AsNode() == P2PNode.SendNetDetectRequest(old(AsNode()), env) && mStop == old(mStop)
    {
      if mNetInfo.lan.port == 0 {
        mNetInfo := mNetInfo.(lan := env.local);
      }
      UpdateP2PState(NET_DETECT);
    }

    /** sendNetInfo with the message it sends, if any. */
    method SendNetInfo(env: Env) returns (sent: Option<UserInfo>)
      modifies this
      ensures AsNode() == P2PNode.SendNetInfo(old(AsNode()), env) && mStop == old(mStop)
      ensures sent == if InfoSendable(old(AsNode()), env) then Some(InfoMessage(old(AsNode()), call.uuid, env))
                      else None
    {
      sent := None;
      if mP2PState == NET_DETECT_TIMEOUT || !env.present || !env.single {
        return;
      }
      if session.intranetBurrowState || session.internetBurrowState {
        return;
      }
      var netInfoReady, lan, wan := false, env.junk, env.junk;
      if Usable(mNetInfo.lan) {
        netInfoReady, lan := true, mNetInfo.lan;
      }
      if Usable(mNetInfo.wan) {
        netInfoReady, wan := true, mNetInfo.wan;
      }
      if !netInfoReady {
        return;
      }
      sent := Some(UserInfo(call.uuid, PrintResource(mNetInfo.natType, mPeerNetInfo.wan.port != 0), lan, wan));
      UpdateP2PState(EXCHANGE_NET_INFO);
    }

    /** sendBurrowRequest with the packets that left. */
    method SendBurrowRequest(num: nat, env: Env) returns (sent: set<BurrowPacket>)
      modifies this
      ensures AsNode() == P2PNode.SendBurrowRequest(old(AsNode()), env) && mStop == old(mStop)
      ensures sent == BurrowRequests(old(AsNode()), call, num, env)
    {
      sent := {};
      if !env.present || !env.single || session.intranetBurrowState {
        return;
      }
      if env.lanSent {
        sent := sent + {BurrowPacket(call.uuid, call.resource, call.callId, num, true, INTRANET)};
      }
      if session.internetBurrowState {
        return;
      }
      if env.wanSent {
        sent := sent + {BurrowPacket(call.uuid, call.resource, call.callId, num, true, INTERNET)};
      }
      if !env.lanSent && !env.wanSent {
        return;
      }
      UpdateP2PState(PUNCH);
    }

    /** The switch. */
    method Pass(l: Loop, seen: P2PState, env: Env) returns (l': Loop, did: Did)
      modifies this
      ensures (AsNode(), l') == Act(old(AsNode()), l, seen, env) && did == DoneBy(l, seen)
      ensures mStop == (old(mStop) || PhaseOf(seen) == Done)
    {
      hide P2PNode.SendNetDetectRequest, P2PNode.SendNetInfo, P2PNode.SendBurrowRequest, BurrowRequests, InfoMessage,
        InfoSendable, WithBit, PunchDue;
      l', did := l, Quiet;
      match PhaseOf(seen) {
        case Detecting =>
          if l.netDetect < MAX_NET_DETECT_COUNT {
            if l.netDetect % 10 == 0 {
              did := DetectRound;
              SendNetDetectRequest(env);
            }
            l' := l.(netDetect := l.netDetect + 1);
          } else if mNetInfo.wan.port == 0 {
            l' := l.(errorState := WithBit(l.errorState, 1));
            mNetInfo := mNetInfo.(wan := env.relay);
            if mPeerNetInfo.wan.port != 0 {
              UpdateP2PState(EXCHANGE_NET_INFO_OK);
            } else {
              UpdateP2PState(NET_DETECT_TIMEOUT);
            }
          } else {
            UpdateP2PState(NET_DETECT_OK);
          }
        case Exchanging =>
          if l.exchange < MAX_EXCHANGE_NET_INFO_COUNT {
            if l.exchange % 40 == 0 {
              did := InfoCall;
              var sent := SendNetInfo(env);
            }
            l' := l.(exchange := l.exchange + 1);
          } else {
            l' := l.(errorState := WithBit(l.errorState, 2));
            UpdateP2PState(EXCHANGE_NET_INFO_TIMEOUT);
          }
        case Punching =>
          if l.punch < MAX_P2P_PUNCH_COUNT {
            if PunchDue(l.punch) {
              did := PunchCall(l.burrowNum);
              var sent := SendBurrowRequest(l.burrowNum, env);
              l' := l'.(burrowNum := l.burrowNum + 1);
            }
            l' := l'.(punch := l.punch + 1);
          } else {
            l' := l.(errorState := 4);
            UpdateP2PState(PUNCH_TIMEOUT);
          }
        case Done =>
          mStop := true;
          l' := l.(stop := true);
      }
    }

    /** One turn of the loop: handlers, the look at the state, handlers again, the switch. */
    method Turn(l: Loop, before: seq<Event>, within: seq<Event>, env: Env) returns (l': Loop, did: Did)
      requires WithinBudgets(l) && l.errorState <= WorstError(mP2PState) && !l.stop
      modifies this, session
      ensures var looked := HandleAll(old(AsNode()), call, before);
              (AsNode(), l') == Act(HandleAll(looked, call, within), l, looked.state, env)
      ensures WithinBudgets(l') && l'.errorState <= WorstError(mP2PState) && Counts(l, did, l')
      ensures Rank(mP2PState) >= old(Rank(mP2PState))
      ensures Spent(l') == Spent(l) + 1
              || (Spent(l') == Spent(l)
                  && PhaseIndex(mP2PState) + (if l'.stop then 1 else 0) > old(PhaseIndex(mP2PState)))
      ensures mStop == (old(mStop) || StopCalled in before || StopCalled in within || l'.stop)
    {
      hide Act, DoneBy, HandleAll, Counts;
      DeliverAll(before);
      var seen := mP2PState;
      LaterPhase(old(mP2PState), seen);
      DeliverAll(within);
      LaterPhase(seen, mP2PState);
      PassSpends(AsNode(), l, seen, env);
      PassErrors(AsNode(), l, seen, env);
      PassCounts(AsNode(), l, seen, env);
      ActStops(AsNode(), l, seen, env);
      l', did := Pass(l, seen, env);
    }

    /**
     * run(). `events` are handled before and within the passes as `After` says, the next of them between the
     * last pass and the first read of the state, and `between` between the two reads; any of them may be
     * anything. The ghost results are the node and the error bits at the first read.
     */
    method Run(env: nat -> Env, events: nat -> seq<Event>, between: seq<Event>)
      returns (result: int, ticks: nat, rounds: nat, infos: nat, punches: seq<nat>, ghost atExit: Node,
               ghost errors: nat)
      modifies this, session
      ensures ticks <= 804 && rounds <= 10 && infos <= 5 && |punches| <= 13
      ensures forall k | 0 <= k < |punches| :: punches[k] == k
      ensures StoppedAfter(old(mStop), old(AsNode()), call, env, events, ticks)
      ensures forall k: nat | k < ticks :: !StoppedAfter(old(mStop), old(AsNode()), call, env, events, k)
      ensures var l := After(old(AsNode()), call, env, events, ticks).1;
              rounds == Multiples(l.netDetect, 10) && infos == Multiples(l.exchange, 40) && |punches| == l.burrowNum
      ensures atExit == HandleAll(After(old(AsNode()), call, env, events, ticks).0, call, events(2 * ticks))
      ensures errors == After(old(AsNode()), call, env, events, ticks).1.errorState <= 4
      ensures AsNode() == HandleAll(atExit, call, between) && Rank(mP2PState) >= Rank(atExit.state)
      ensures result == ResultOf(errors, atExit.state, mP2PState)
      ensures (result > 0 <==> Connected(mP2PState))
              <==> !(atExit.state != INTRANET_OK && mP2PState == INTRANET_OK)
      ensures Rank(mP2PState) >= old(Rank(mP2PState))
    {
      ghost var start := AsNode();
      StartRun(mStop, start, call, env, events);
      StartCounts();
      hide Act, Multiples, PunchesDue, HandleAll, After, StoppedAfter, WithinBudgets, WorstError, PhaseIndex, PhaseOf,
        Counts, Rank, Spent, ResultOf, Connected, DoneBy;
      var l := LOOP_START;
      ticks, rounds, infos, punches := 0, 0, 0, [];
      ghost var timeouts: nat := 0;
      while !mStop
        invariant WithinBudgets(l) && l.errorState <= WorstError(mP2PState)
        invariant ticks == Spent(l) + timeouts
        invariant timeouts <= PhaseIndex(mP2PState) + (if l.stop then 1 else 0) && (l.stop ==> mStop)
        invariant rounds == Multiples(l.netDetect, 10) && infos == Multiples(l.exchange, 40)
        invariant |punches| == l.burrowNum == PunchesDue(l.punch)
        invariant forall k | 0 <= k < |punches| :: punches[k] == k
        invariant Rank(mP2PState) >= old(Rank(mP2PState))
        invariant (AsNode(), l) == After(start, call, env, events, ticks)
        invariant mStop == StoppedAfter(old(mStop), start, call, env, events, ticks)
        invariant forall k: nat | k < ticks :: !StoppedAfter(old(mStop), start, call, env, events, k)
        decreases 804 - ticks
      {
        ghost var before := l;
        TicksLeft(l, timeouts, mP2PState);
        NextPass(start, call, env, events, ticks);
        StopStep(old(mStop), start, call, env, events, ticks);
        var did;
        ghost var state := mP2PState;
        l, did := Turn(l, events(2 * ticks), events(2 * ticks + 1), env(ticks));
        LaterPhase(state, mP2PState);
        ticks := ticks + 1;
        if Spent(l) == Spent(before) {
          timeouts := timeouts + 1;
        }
        CountsMean(before, did, l);
        match did {
          case DetectRound => rounds := rounds + 1;
          case InfoCall => infos := infos + 1;
          case PunchCall(num) => punches := punches + [num];
          case Quiet =>
        }
      }
      CountsBounded(l);
      TicksLeft(l, timeouts, mP2PState);
      DeliverAll(events(2 * ticks));
      atExit, errors := AsNode(), l.errorState;
      result := Conclude(l.errorState, between);
    }

    /** The end of run(): the two reads of the state, with `between` handled while the result is computed. */
    method Conclude(p2pErrorState: nat, between: seq<Event>) returns (result: int)
      modifies this, session
      ensures AsNode() == HandleAll(old(AsNode()), call, between) && Rank(mP2PState) >= old(Rank(mP2PState))
      ensures result == ResultOf(p2pErrorState, old(mP2PState), mP2PState)
      ensures (result > 0 <==> Connected(mP2PState))
              <==> !(old(mP2PState) != INTRANET_OK && mP2PState == INTRANET_OK)
    {
      hide HandleAll;
      var errors: int := p2pErrorState;
      result := -errors;
      if mP2PState == INTRANET_OK {
        result := P2P_INTRANET;
        DeliverAll(between);
      } else {
        DeliverAll(between);
        if mP2PState == INTERNET_OK {
          result := P2P_INTERNET;
        }
      }
      ResultIsRight(p2pErrorState, old(mP2PState), mP2PState);
    }
  }

  lemma LaterPhase(a: P2PState, b: P2PState)
    requires Rank(b) >= Rank(a)
    ensures PhaseIndex(b) >= PhaseIndex(a) && WorstError(b) >= WorstError(a)
  {
  }

  /** The failing run on the object itself. */
  method RunMissingSuccess(p: P2PProcessor, env: nat -> Env) returns (result: int)
    requires !p.mStop && p.AsNode() == FRESH
    modifies p, p.session
    ensures result == 0 && p.mP2PState == INTRANET_OK
    ensures p.session.intranetBurrowState && p.session.internetBurrowState
  {
    hide After, HandleAll, StoppedAfter;
    ghost var events := EchoFirst(p.call);
    MissedSuccess(p.call, env);
    var ticks, rounds, infos, punches;
    ghost var atExit, errors;
    result, ticks, rounds, infos, punches, atExit, errors :=
      p.Run(env, EchoFirst(p.call), [EchoArrived(p.call, INTRANET)]);
    assert !StoppedAfter(false, FRESH, p.call, env, events, 0);
    assert StoppedAfter(false, FRESH, p.call, env, events, 1);
    assert ticks == 1;
  }

  lemma SilentlyGoesOn(call: Call, env: nat -> Env, k: nat)
    requires k <= 803
    ensures !StoppedAfter(false, FRESH, call, env, Silence(), k)
    decreases 803 - k
  {
    hide After;
    if k == 803 {
      SilentRun(call, env);
    } else {
      SilentlyGoesOn(call, env, k + 1);
      SilentPass(call, env, k);
      var (n, l) := After(FRESH, call, env, Silence(), k);
      ActStops(n, l, n.state, env(k));
    }
  }

  /** A run without any event on the object itself: it takes all its passes and sends all it may, in vain. */
  method RunInSilence(p: P2PProcessor, env: nat -> Env)
    returns (result: int, ticks: nat, rounds: nat, infos: nat, punches: seq<nat>)
    requires !p.mStop && p.AsNode() == FRESH
    modifies p, p.session
    ensures (result, ticks, rounds, infos, |punches|) == (-4, 804, 10, 5, 13) && p.mP2PState == PUNCH_TIMEOUT
  {
    hide After, HandleAll, StoppedAfter;
    SilentRun(p.call, env);
    forall k: nat | k < 804 ensures !StoppedAfter(false, FRESH, p.call, env, Silence(), k) {
      SilentlyGoesOn(p.call, env, k);
    }
    StoppedLast(p.call, env);
    HandleNothing(p.call, After(FRESH, p.call, env, Silence(), 804).0);
    ghost var atExit, errors;
    result, ticks, rounds, infos, punches, atExit, errors := p.Run(env, Silence(), []);
    assert !StoppedAfter(false, FRESH, p.call, env, Silence(), 803);
    assert StoppedAfter(false, FRESH, p.call, env, Silence(), 804);
    assert ticks == 804;
    HandleNothing(p.call, atExit);
  }

  lemma StoppedLast(call: Call, env: nat -> Env)
    ensures StoppedAfter(false, FRESH, call, env, Silence(), 804)
  {
    hide After;
    SilentRun(call, env);
  }

  lemma StartCounts()
    ensures Multiples(0, 10) == Multiples(0, 40) == PunchesDue(0) == 0
    ensures WithinBudgets(LOOP_START) && Spent(LOOP_START) == 0
  {
    hide PunchesDue, Multiples;
    NothingDue();
  }

  lemma NothingDue()
    ensures Multiples(0, 10) == Multiples(0, 40) == PunchesDue(0) == 0
  {
  }

  /** 100 + 200 + 500 counted passes, and one per phase left or stopped in. */
  lemma TicksLeft(l: Loop, timeouts: nat, s: P2PState)
    requires WithinBudgets(l) && timeouts <= PhaseIndex(s) + if l.stop then 1 else 0
    ensures Spent(l) + timeouts <= if l.stop then 804 else 803
    ensures WorstError(s) <= 4
  {
  }

  lemma CountsMean(l: Loop, did: Did, k: Loop)
    requires Counts(l, did, k)
    ensures Multiples(k.netDetect, 10) == Multiples(l.netDetect, 10) + (if did.DetectRound? then 1 else 0)
    ensures Multiples(k.exchange, 40) == Multiples(l.exchange, 40) + (if did.InfoCall? then 1 else 0)
    ensures PunchesDue(k.punch) == PunchesDue(l.punch) + (if did.PunchCall? then 1 else 0)
    ensures k.burrowNum == l.burrowNum + (if did.PunchCall? then 1 else 0)
    ensures did.PunchCall? ==> did.num == l.burrowNum
  {
  }

  lemma CountsBounded(l: Loop)
    requires WithinBudgets(l)
    ensures Multiples(l.netDetect, 10) <= 10 && Multiples(l.exchange, 40) <= 5 && PunchesDue(l.punch) <= 13
  {
  }
}
