/**
 * One end of the hole-punching protocol: what a packet handler, a look of the timed loop and the
 * action that follows it do to the processor and its call session. Sockets, the call table and the
 * user enter as parameters.
 */
module P2PNode {
  import opened Bytes
  import opened ProtoWire

  datatype Addr = Addr(ip: nat, port: nat)

  const NO_ADDR := Addr(0, 0)

  const NAT_UNKNOWN: nat := 0
  const NAT_SYMMETRIC: nat := 1
  const NAT_PORT_RESTRICTED_CONE: nat := 2
  const NAT_OTHER_CONE: nat := 3

  datatype NetInfo = NetInfo(lan: Addr, wan: Addr, natType: nat)

  datatype P2PState =
    | START | NET_DETECT | NET_DETECT_TIMEOUT | NET_DETECT_OK
    | EXCHANGE_NET_INFO | EXCHANGE_NET_INFO_TIMEOUT | EXCHANGE_NET_INFO_OK
    | PUNCH | PUNCH_TIMEOUT | INTERNET_OK | INTRANET_OK

  function Rank(s: P2PState): (r: nat)
    ensures r <= 10
  {
    match s
    case START => 0 case NET_DETECT => 1 case NET_DETECT_TIMEOUT => 2 case NET_DETECT_OK => 3
    case EXCHANGE_NET_INFO => 4 case EXCHANGE_NET_INFO_TIMEOUT => 5 case EXCHANGE_NET_INFO_OK => 6
    case PUNCH => 7 case PUNCH_TIMEOUT => 8 case INTERNET_OK => 9 case INTRANET_OK => 10
  }

  /** updateP2PState: only forward. */
  function Advance(from: P2PState, to: P2PState): (r: P2PState)
    ensures Rank(r) == if Rank(to) > Rank(from) then Rank(to) else Rank(from)
  {
    if Rank(to) > Rank(from) then to else from
  }

  /** The processor's fields and the two burrow flags of its call session. */
  datatype Node = Node(state: P2PState, net: NetInfo, peer: NetInfo, detected: map<Addr, Addr>,
                       intranet: bool, internet: bool)
  {
    function Moved(to: P2PState): Node { this.(state := Advance(state, to)) }
  }

  const FRESH := Node(START, NetInfo(NO_ADDR, NO_ADDR, NAT_UNKNOWN), NetInfo(NO_ADDR, NO_ADDR, NAT_UNKNOWN), map[],
                      false, false)

  // ---------------------------------------------------------------- the "natType|hasPeerNetInfo" text

  function Digit(d: nat): (c: char)
    requires d < 10
  {
    "0123456789"[d]
  }

  /** The printf conversion %u. */
  function Decimal(n: nat): (s: string)
    ensures |s| > 0 && forall k | 0 <= k < |s| :: '0' <= s[k] <= '9'
  {
    if n < 10 then [Digit(n)] else Decimal(n / 10) + [Digit(n % 10)]
  }

  function LeadingNumber(s: string, acc: nat): (n: nat) {
    if s == [] || !('0' <= s[0] <= '9') then acc
    else LeadingNumber(s[1..], 10 * acc + (s[0] as nat - '0' as nat))
  }

  function SkipSpace(s: string): (r: string) {
    if s != [] && s[0] in {' ', '\t', '\n', 11 as char, 12 as char, '\r'} then SkipSpace(s[1..]) else s
  }

  /** strtol in base 10: white space, a sign, digits; saturating at the limits of a 64-bit long. */
  function StrToL(text: string): (n: int)
    ensures -TWO_63 <= n < TWO_63
  {
    var s := SkipSpace(text);
    var negative := s != [] && s[0] == '-';
    var size: int := LeadingNumber(if s != [] && s[0] in {'-', '+'} then s[1..] else s, 0);
    if negative then (if size > TWO_63 then -TWO_63 else -size) else if size >= TWO_63 then TWO_63 - 1 else size
  }

  function Find(s: string, c: char): (k: nat)
    ensures k <= |s| && (k < |s| ==> s[k] == c)
  {
    if s == [] || s[0] == c then 0 else 1 + Find(s[1..], c)
  }

  function PrintResource(natType: nat, hasPeerNetInfo: bool): string {
    Decimal(natType) + "|" + if hasPeerNetInfo then "1" else "0"
  }

  /** The type is stored in an unsigned char. */
  function ParseResource(resource: string): (nat, bool) {
    var delim := Find(resource, '|');
    if 0 < delim && delim + 1 < |resource|
    then (ToInt32(StrToL(resource[..delim])) % 0x100, resource[delim + 1..] == "1")
    else (ToInt32(StrToL(resource)) % 0x100, false)
  }

  lemma LeadingStep(d: nat, rest: string, acc: nat)
    requires d < 10
    ensures LeadingNumber([Digit(d)] + rest, acc) == LeadingNumber(rest, 10 * acc + d)
  {
    assert ([Digit(d)] + rest)[1..] == rest;
  }

  lemma {:induction false} LeadingDecimal(n: nat, rest: string)
    ensures LeadingNumber(Decimal(n) + rest, 0) == LeadingNumber(rest, n)
    decreases n
  {
    hide LeadingNumber, Digit;
    if n < 10 {
      LeadingStep(n, rest, 0);
    } else {
      var last := [Digit(n % 10)];
      LeadingDecimal(n / 10, last + rest);
      assert Decimal(n) + rest == Decimal(n / 10) + (last + rest);
      LeadingStep(n % 10, rest, n / 10);
    }
  }

  lemma {:induction false} FindFirst(s: string, c: char, rest: string)
    requires forall k | 0 <= k < |s| :: s[k] != c
    ensures Find(s + [c] + rest, c) == |s|
  {
    if s != [] {
      FindFirst(s[1..], c, rest);
      assert (s + [c] + rest)[1..] == s[1..] + [c] + rest;
    }
  }

  lemma NumberOfDecimal(n: nat)
    requires n < TWO_31
    ensures ToInt32(StrToL(Decimal(n))) == n
  {
    LeadingDecimal(n, "");
    var s := Decimal(n);
    assert s + "" == s && '0' <= s[0] <= '9';
    hide Decimal;
    assert SkipSpace(s) == s;
    hide SkipSpace, ToInt32;
    assert LeadingNumber("", n) == n;
  }

  /** The text parses back to what was printed. */
  lemma ResourceRoundTrip(natType: nat, hasPeerNetInfo: bool)
    requires natType < 0x100
    ensures ParseResource(PrintResource(natType, hasPeerNetInfo)) == (natType, hasPeerNetInfo)
  {
    hide StrToL, Decimal, Find, ToInt32;
    var text, digits := PrintResource(natType, hasPeerNetInfo), Decimal(natType);
    var flag := if hasPeerNetInfo then "1" else "0";
    assert text == digits + ['|'] + flag;
    FindFirst(digits, '|', flag);
    assert text[..|digits|] == digits && text[|digits| + 1..] == flag;
    NumberOfDecimal(natType);
  }

  /** Type 2 of a node that knows its peer's address is printed "2|1". */
  lemma PrintExample()
    ensures PrintResource(2, true) == "2|1" && PrintResource(12, false) == "12|0"
  {
    assert Decimal(12) == Decimal(1) + [Digit(2)];
    assert PrintResource(12, false) == "12" + "|" + "0";
  }

  /** The type of a number that is read: its lowest byte. */
  function TypeOf(digits: string): nat { ToInt32(StrToL(digits)) % 0x100 }

  /**
   * Any text. With something before and behind its first bar it is a type and a flag; without a bar, or with one
   * at its beginning or end only, all of it is read as the type.
   */
  lemma TextParses(front: string, rest: string)
    requires forall k | 0 <= k < |front| :: front[k] != '|'
    ensures ParseResource(front) == (TypeOf(front), false)
    ensures var text := front + "|" + rest;
            ParseResource(text) == if front == "" || rest == "" then (TypeOf(text), false)
                                   else (TypeOf(front), rest == "1")
  {
    hide StrToL, Find, ToInt32;
    FindFirst(front, '|', rest);
    NoBar(front);
    var text := front + "|" + rest;
    assert text == front + ['|'] + rest && text[..|front|] == front && text[|front| + 1..] == rest;
  }

  lemma {:induction false} NoBar(s: string)
    requires forall k | 0 <= k < |s| :: s[k] != '|'
    ensures Find(s, '|') == |s|
  {
    if s != [] { NoBar(s[1..]); }
  }

  /** No number is 0, a number ends at the first character that is no digit, and may have a sign and space before it. */
  lemma Numbers()
    ensures StrToL("2") == 2 && StrToL("|1") == 0 && StrToL("3|") == 3 && StrToL("x") == 0 && StrToL("-1") == -1
    ensures StrToL(" 7") == 7
  {
    assert "2"[1..] == "" && "3|"[1..] == "|" && "-1"[1..] == "1" && "1"[1..] == "";
    assert " 7"[1..] == "7" && "7"[1..] == "";
    assert LeadingNumber("2", 0) == LeadingNumber("", 2) == 2;
    assert LeadingNumber("3|", 0) == LeadingNumber("|", 3) == 3;
    assert LeadingNumber("1", 0) == LeadingNumber("", 1) == 1;
    assert LeadingNumber("7", 0) == LeadingNumber("", 7) == 7;
    assert SkipSpace(" 7") == SkipSpace("7") == "7";
  }

  // ---------------------------------------------------------------- NAT detection

  const P2P_SERVER_PORT: nat := 32037

  /** handleNetDetectResp; `relayPort` is the internet port the relay reported, if any. */
  function HandleNetDetectResp(n: Node, from: Addr, wan: Addr, relayPort: Option<nat>): Node {
    if from in n.detected then n else
    var n := n.(detected := n.detected[from := wan]);
    if from.port != P2P_SERVER_PORT then
      n.(net := n.net.(wan := wan, natType := NAT_OTHER_CONE)).Moved(NET_DETECT_OK)
    else if n.net.wan.port == 0 then
      var n := n.(net := n.net.(wan := wan));
      if relayPort.Some? && relayPort.value % 0x1_0000 != 0 && relayPort.value % 0x1_0000 != wan.port then
        n.(net := n.net.(natType := NAT_SYMMETRIC)).Moved(NET_DETECT_OK)
      else n
    else if n.net.wan.port != wan.port then
      n.(net := n.net.(wan := if wan.port > n.net.wan.port then wan else n.net.wan, natType := NAT_SYMMETRIC))
       .Moved(NET_DETECT_OK)
    else
      n.(net := n.net.(natType := if n.net.natType == NAT_UNKNOWN then NAT_PORT_RESTRICTED_CONE else n.net.natType))
       .Moved(NET_DETECT_OK)
  }

  // ---------------------------------------------------------------- net info

  /** The part of a UserInfo message the handler reads; `uuid` is its sender. */
  datatype UserInfo = UserInfo(uuid: nat, resource: string, lan: Addr, wan: Addr)

  function HandleNetInfo(n: Node, info: UserInfo): Node {
    var (natType, hasPeerNetInfo) := ParseResource(info.resource);
    var n := n.(peer := NetInfo(info.lan, info.wan, natType));
    if hasPeerNetInfo then n.Moved(EXCHANGE_NET_INFO_OK) else n
  }

  /** 127.0.0.1 in the byte order of the address. */
  const LOOPBACK: nat := 0x7f00_0001

  /** getAddrInfo succeeds. */
  predicate Usable(a: Addr) {
    a.ip != 0 && a.ip != LOOPBACK && a.port != 0
  }

  /**
   * What the world contributes to one action of the loop: is the call in the table and single, which
   * datagrams could be sent, the local address, the relay's view of the node, and what an address that
   * could not be read holds (an empty ip and an uninitialised port).
   */
  datatype Env = Env(present: bool, single: bool, lanSent: bool, wanSent: bool, local: Addr, relay: Addr, junk: Addr)

  predicate InfoSendable(n: Node, env: Env) {
    && n.state != NET_DETECT_TIMEOUT && env.present && env.single
    && !n.intranet && !n.internet
    && (Usable(n.net.lan) || Usable(n.net.wan))
  }

  function InfoMessage(n: Node, uuid: nat, env: Env): UserInfo {
    UserInfo(uuid, PrintResource(n.net.natType, n.peer.wan.port != 0),
             if Usable(n.net.lan) then n.net.lan else env.junk, if Usable(n.net.wan) then n.net.wan else env.junk)
  }

  function SendNetInfo(n: Node, env: Env): Node {
    if InfoSendable(n, env) then n.Moved(EXCHANGE_NET_INFO) else n
  }

  // ---------------------------------------------------------------- burrowing

  datatype Channel = INTRANET | INTERNET

  datatype BurrowPacket = BurrowPacket(uuid: nat, resource: string, callId: nat, id: nat, request: bool,
                                       channel: Channel)

  /** What a node knows of its call: itself, its peer, and who created it. */
  datatype Call = Call(uuid: nat, resource: string, callId: nat, peerUuid: nat, peerResource: string, creator: bool)

  /** The requests of sendBurrowRequest that leave the node. */
  function BurrowRequests(n: Node, call: Call, num: nat, env: Env): set<BurrowPacket> {
    if !env.present || !env.single || n.intranet then {} else
      (if env.lanSent then {BurrowPacket(call.uuid, call.resource, call.callId, num, true, INTRANET)} else {})
      + (if !n.internet && env.wanSent
         then {BurrowPacket(call.uuid, call.resource, call.callId, num, true, INTERNET)} else {})
  }

  function SendBurrowRequest(n: Node, env: Env): Node {
    if env.present && env.single && !n.intranet && !n.internet && (env.lanSent || env.wanSent)
    then n.Moved(PUNCH) else n
  }

  /** The packet is for this call, the session is running and single, and the sender is the peer. */
  predicate Accepts(call: Call, live: bool, p: BurrowPacket) {
    && live && p.callId == call.callId
    && p.uuid == call.peerUuid && p.resource == call.peerResource
  }

  /** handleBurrowPacket; `conn` is what createP2PConn returns if it is called. */
  function HandleBurrowPacket(n: Node, call: Call, live: bool, p: BurrowPacket, from: Addr, conn: nat): Node {
    if !Accepts(call, live, p) then n else
    var n := n.Moved(PUNCH);
    var n := n.(peer := if p.channel == INTERNET then n.peer.(wan := from) else n.peer.(lan := from));
    if p.request then n
    else if !Opens(n, p.channel) || (call.creator && conn == 0) then n
    else if p.channel == INTRANET then n.(intranet := true).Moved(INTRANET_OK)
    else n.(internet := true).Moved(INTERNET_OK)
  }

  /** The channel has not been burrowed yet. */
  predicate Opens(n: Node, channel: Channel) {
    if channel == INTRANET then !n.intranet else !n.internet
  }

  /** The connection of a channel is closed abnormally: the channel counts as not burrowed again. */
  function LoseConn(n: Node, channel: Channel): Node {
    if channel == INTRANET then n.(intranet := false) else n.(internet := false)
  }

  function BurrowResponse(call: Call, p: BurrowPacket): BurrowPacket {
    BurrowPacket(call.uuid, call.resource, call.callId, p.id, false, p.channel)
  }

  // ---------------------------------------------------------------- the loop

  const MAX_NET_DETECT_COUNT: nat := 1000 / 10
  const MAX_EXCHANGE_NET_INFO_COUNT: nat := 2000 / 10
  const MAX_P2P_PUNCH_COUNT: nat := 5000 / 10

  /** The loop's local variables. */
  datatype Loop = Loop(netDetect: nat, exchange: nat, punch: nat, burrowNum: nat, errorState: nat, stop: bool)

  const LOOP_START := Loop(0, 0, 0, 0, 0, false)

  /** One end of a call between two actions: its node, the loop's variables, and the state the loop saw last. */
  datatype End = End(node: Node, loop: Loop, seen: P2PState)

  const START_END := End(FRESH, LOOP_START, START)

  datatype Phase = Detecting | Exchanging | Punching | Done

  function PhaseOf(s: P2PState): Phase {
    if Rank(s) < 2 then Detecting else if Rank(s) < 5 then Exchanging else if Rank(s) < 8 then Punching else Done
  }

  /** a | bit */
  function WithBit(a: nat, bit: nat): nat
    requires bit > 0
  {
    if a / bit % 2 == 1 then a else a + bit
  }

  predicate PunchDue(punch: nat) {
    if punch <= 100 then punch % 20 == 0 else punch % 50 == 0
  }

  /** One pass through the switch, which saw the state `seen`. */
  function Act(n: Node, l: Loop, seen: P2PState, env: Env): (Node, Loop) {
    match PhaseOf(seen)
    case Detecting =>
      if l.netDetect < MAX_NET_DETECT_COUNT then
        (if l.netDetect % 10 == 0 then SendNetDetectRequest(n, env) else n, l.(netDetect := l.netDetect + 1))
      else if n.net.wan.port == 0 then
        var m := n.(net := n.net.(wan := env.relay));
        (m.Moved(if n.peer.wan.port != 0 then EXCHANGE_NET_INFO_OK else NET_DETECT_TIMEOUT),
         l.(errorState := WithBit(l.errorState, 1)))
      else (n.Moved(NET_DETECT_OK), l)
    case Exchanging =>
      if l.exchange < MAX_EXCHANGE_NET_INFO_COUNT then
        (if l.exchange % 40 == 0 then SendNetInfo(n, env) else n, l.(exchange := l.exchange + 1))
      else (n.Moved(EXCHANGE_NET_INFO_TIMEOUT), l.(errorState := WithBit(l.errorState, 2)))
    case Punching =>
      if l.punch < MAX_P2P_PUNCH_COUNT then
        if PunchDue(l.punch)
        then (SendBurrowRequest(n, env), l.(burrowNum := l.burrowNum + 1, punch := l.punch + 1))
        else (n, l.(punch := l.punch + 1))
      else (n.Moved(PUNCH_TIMEOUT), l.(errorState := 4))
    case Done => (n, l.(stop := true))
  }

  /** updateLocalAddr once, then the datagrams; the state advances whether they left or not. */
  function SendNetDetectRequest(n: Node, env: Env): Node {
    n.(net := n.net.(lan := if n.net.lan.port == 0 then env.local else n.net.lan)).Moved(NET_DETECT)
  }
}
