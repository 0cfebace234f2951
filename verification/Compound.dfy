/**
 * The COMPOUND branch of the dispatcher: pull notifications, and packet lists that are filtered, sorted,
 * handed to the application and then acknowledged or pulled again.
 */
module Compound {
  datatype Status = NORMAL | EXCEED_COUNT_LIMIT

  /** A packet of a list, as far as its type and payload parse; `content` is what the application gets. */
  datatype Packet =
    | P2P(sequence: int, parses: bool, toResource: string, netInfo: bool, infoParses: bool, content: string)
    | P2T(sequence: int, parses: bool, content: string)
    | OtherPacket(sequence: int)

  datatype PacketList = PacketList(status: Status, maxSequence: int, packets: seq<Packet>)

  /** The registered message handler, if any, and what its callbacks answer. */
  datatype Handler = Handler(registered: bool, pullNotification: bool, messages: seq<Packet> -> bool,
                             groupMessages: seq<Packet> -> bool)

  /** Callbacks made, and messages queued for sending. */
  datatype Output =
    | PullNotification(answer: bool)
    | NetInfoHandled(packet: Packet)
    | MessagesHandled(packets: seq<Packet>)
    | GroupMessagesHandled(packets: seq<Packet>)
    | SequenceAck(sequence: int)
    | PullRequest

  // ---------------------------------------------------------------- routing

  datatype Route = Ignored | ToPunching | ToMessages | ToGroups

  function RouteOf(p: Packet, received: map<int, int>, resource: string): Route {
    if p.sequence in received then Ignored else
    match p
    case P2P(_, parses, toResource, netInfo, infoParses, _) =>
      if !parses || (toResource != "" && toResource != resource) then Ignored
      else if !netInfo then ToMessages
      else if infoParses then ToPunching else Ignored
    case P2T(_, parses, _) => if parses then ToGroups else Ignored
    case OtherPacket(_) => Ignored
  }

  /** The packets of a list that take a route, in the order of the list. */
  function Routed(packets: seq<Packet>, route: Route, received: map<int, int>, resource: string): (r: seq<Packet>) {
    if packets == [] then [] else
    var front, last := Routed(packets[..|packets| - 1], route, received, resource), packets[|packets| - 1];
    if RouteOf(last, received, resource) == route then front + [last] else front
  }

  ghost predicate SortedBySequence(s: seq<Packet>) {
    forall i, j | 0 <= i < j < |s| :: s[i].sequence <= s[j].sequence
  }

  /** What std::sort guarantees: the same packets in order of their sequence numbers. */
  ghost predicate SortOf(r: seq<Packet>, s: seq<Packet>) {
    SortedBySequence(r) && multiset(r) == multiset(s)
  }

  function Infos(ps: seq<Packet>): seq<Output> {
    seq(|ps|, k requires 0 <= k < |ps| => NetInfoHandled(ps[k]))
  }

  /** The tail of a NORMAL list: one acknowledgement, or a pull (which an offline user does not send). */
  function Closing(acked: bool, maxSequence: int, online: bool): seq<Output> {
    if acked then [SequenceAck(maxSequence)] else if online then [PullRequest] else []
  }

  /**
   * What a NORMAL list leads to, given the sorted lists the application sees: each callback gets all its
   * packets if there are any, and the list is acknowledged iff no callback that was made said no.
   */
  ghost predicate NormalOutcome(out: seq<Output>, list: PacketList, h: Handler, received: map<int, int>,
                                resource: string, online: bool)
  {
    exists m, g ::
      && SortOf(m, Routed(list.packets, ToMessages, received, resource))
      && SortOf(g, Routed(list.packets, ToGroups, received, resource))
      && var toUser, toGroup := h.registered && m != [], h.registered && g != [];
         out == Infos(Routed(list.packets, ToPunching, received, resource))
                + (if toUser then [MessagesHandled(m)] else [])
                + (if toGroup then [GroupMessagesHandled(g)] else [])
                + Closing((toUser ==> h.messages(m)) && (toGroup ==> h.groupMessages(g)), list.maxSequence, online)
  }

  // ---------------------------------------------------------------- pull notifications

  /** An EXCEED_COUNT_LIMIT list, when the last notification was (`serial`) or was not taken up. */
  function PullStep(serial: bool, maxSequence: int, h: Handler): (bool, seq<Output>) {
    if serial then (true, [SequenceAck(maxSequence)])
    else if h.registered && !h.pullNotification then (false, [PullNotification(false)])
    else (true, (if h.registered then [PullNotification(true)] else []) + [SequenceAck(maxSequence)])
  }

  /**
   * An EXCEED_COUNT_LIMIT list, callback by callback: the application is asked if it listens and no notification
   * was taken up before; unless it then says no, the list is acknowledged and the notification counts as taken up.
   */
  lemma PullMeans(serial: bool, maxSequence: int, h: Handler)
    ensures var (taken, out) := PullStep(serial, maxSequence, h);
            && (forall answer :: PullNotification(answer) in out
                                 <==> !serial && h.registered && answer == h.pullNotification)
            && (forall k :: SequenceAck(k) in out <==> taken && k == maxSequence)
            && (taken <==> serial || !h.registered || h.pullNotification)
            && |out| == (if !serial && h.registered then 1 else 0) + (if taken then 1 else 0)
            && (out != [] && taken ==> out[|out| - 1] == SequenceAck(maxSequence))
  {
  }

  /** One list of a run and the handler it met. */
  datatype Arrival = Arrival(list: PacketList, handler: Handler)

  /** isSerialPullNotification before the k-th list of a run. */
  function SerialBefore(run: seq<Arrival>, k: nat): bool
    requires k <= |run|
  {
    if k == 0 then false else
    var last := run[k - 1];
    if last.list.status == NORMAL then false
    else PullStep(SerialBefore(run, k - 1), last.list.maxSequence, last.handler).0
  }

  /** What the k-th list leads to if it is an EXCEED_COUNT_LIMIT one. */
  function PullOutput(run: seq<Arrival>, k: nat): seq<Output>
    requires k < |run|
  {
    PullStep(SerialBefore(run, k), run[k].list.maxSequence, run[k].handler).1
  }

  /**
   * Once a notification was answered yes, every further EXCEED_COUNT_LIMIT list up to the next NORMAL one
   * is acknowledged without a callback; so at most one notification is answered yes in between.
   */
  lemma {:induction false} NotifiedOnce(run: seq<Arrival>, i: nat, j: nat)
    requires i < j < |run| && forall k | i <= k <= j :: run[k].list.status == EXCEED_COUNT_LIMIT
    requires PullNotification(true) in PullOutput(run, i)
    ensures SerialBefore(run, j) && PullOutput(run, j) == [SequenceAck(run[j].list.maxSequence)]
    decreases j
  {
    if j > i + 1 {
      NotifiedOnce(run, i, j - 1);
    }
  }

  /** Until it is answered yes, every EXCEED_COUNT_LIMIT list asks again, and a refused one is not acknowledged. */
  lemma AskedAgain(run: seq<Arrival>, j: nat)
    requires j < |run| && run[j].list.status == EXCEED_COUNT_LIMIT && run[j].handler.registered
    requires forall i | 0 <= i < j :: run[i].list.status == NORMAL || PullOutput(run, i) == [PullNotification(false)]
    ensures PullOutput(run, j)[0] == PullNotification(run[j].handler.pullNotification)
    ensures |PullOutput(run, j)| == if run[j].handler.pullNotification then 2 else 1
  {
    if j > 0 && run[j - 1].list.status != NORMAL {
      assert PullOutput(run, j - 1)[0] == PullNotification(false);
    }
  }

  // ---------------------------------------------------------------- the packet manager

  class PacketManager {
    var isSerialPullNotification: bool
    var sequencesReceived: map<int, int>
    var out: seq<Output>

    constructor ()
      ensures !isSerialPullNotification && sequencesReceived == map[] && out == []
    {
      isSerialPullNotification, sequencesReceived, out := false, map[], [];
    }

    /** Of the sequence numbers handed in, none is added: the parameter has the member's name and hides it. */
    method AddCompoundSequenceAndCleanOld(sequences: map<int, int>)
    {
      var sequencesReceived := sequences;
      sequencesReceived := sequencesReceived + sequencesReceived;
    }

    method SendCompoundSequenceAck(list: PacketList)
      modifies this`out
      ensures out == old(out) + [SequenceAck(list.maxSequence)]
    {
      out := out + [SequenceAck(list.maxSequence)];
    }

    static method InsertSorted(r: seq<Packet>, p: Packet) returns (r': seq<Packet>)
      requires SortedBySequence(r)
      ensures SortedBySequence(r') && multiset(r') == multiset(r) + multiset{p}
    {
      var k: nat := |r|;
      while k > 0 && r[k - 1].sequence > p.sequence
        invariant k <= |r| && (k < |r| ==> r[k].sequence > p.sequence)
      {
        k := k - 1;
      }
      SortedWith(r, k, p);
      hide SortedBySequence;
      assert r == r[..k] + r[k..];
      r' := r[..k] + [p] + r[k..];
    }

    static lemma SortedWith(r: seq<Packet>, k: nat, p: Packet)
      requires SortedBySequence(r) && k <= |r|
      requires (k > 0 ==> r[k - 1].sequence <= p.sequence) && (k < |r| ==> p.sequence <= r[k].sequence)
      ensures SortedBySequence(r[..k] + [p] + r[k..])
    {
      var q := r[..k] + [p] + r[k..];
      forall i, j | 0 <= i < j < |q| ensures q[i].sequence <= q[j].sequence {
        assert q[i] == if i < k then r[i] else if i == k then p else r[i - 1];
        assert q[j] == if j < k then r[j] else if j == k then p else r[j - 1];
      }
    }

    /** One acknowledgement, or pull(), which sends nothing while the user is offline. */
    method Close(isSendCompoundSequenceAck: bool, list: PacketList, online: bool)
      modifies this`out
      ensures out == old(out) + Closing(isSendCompoundSequenceAck, list.maxSequence, online)
    {
      if isSendCompoundSequenceAck {
        SendCompoundSequenceAck(list);
      } else if online {
        out := out + [PullRequest];
      }
    }

    /** std::sort with sortBySequence. */
    static method SortBySequence(s: seq<Packet>) returns (r: seq<Packet>)
      ensures SortOf(r, s)
    {
      hide SortedBySequence;
      r := [];
      assert SortedBySequence(r) by { NothingToSort(); }
      for i := 0 to |s|
        invariant SortedBySequence(r) && multiset(r) == multiset(s[..i])
      {
        assert s[..i + 1] == s[..i] + [s[i]];
        r := InsertSorted(r, s[i]);
      }
      assert s[..|s|] == s;
    }

    static lemma NothingToSort()
      ensures SortedBySequence([])
    {
    }

    method HandlePullNotification(list: PacketList, h: Handler)
      requires list.status == EXCEED_COUNT_LIMIT
      modifies this`isSerialPullNotification, this`out
      ensures (isSerialPullNotification, out)
              == (PullStep(old(isSerialPullNotification), list.maxSequence, h).0,
                  old(out) + PullStep(old(isSerialPullNotification), list.maxSequence, h).1)
    {
      if isSerialPullNotification {
        SendCompoundSequenceAck(list);
        return;
      }
      var isSendCompoundSequenceAck := true;
      if h.registered {
        out := out + [PullNotification(h.pullNotification)];
        if !h.pullNotification {
          isSendCompoundSequenceAck := false;
        }
      }
      if isSendCompoundSequenceAck {
        SendCompoundSequenceAck(list);
        isSerialPullNotification := true;
      }
      assert out == old(out) + PullStep(old(isSerialPullNotification), list.maxSequence, h).1;
    }

    /** The loop over the packets, sorting them by where they go. */
    method Collect(list: PacketList, resource: string, now: int)
      returns (p2pMessages: seq<Packet>, p2tMessages: seq<Packet>, p2pSequences: map<int, int>,
               p2tSequences: map<int, int>)
      modifies this`out
      ensures p2pMessages == Routed(list.packets, ToMessages, sequencesReceived, resource)
      ensures p2tMessages == Routed(list.packets, ToGroups, sequencesReceived, resource)
      ensures out == old(out) + Infos(Routed(list.packets, ToPunching, sequencesReceived, resource))
    {
      p2pMessages, p2tMessages, p2pSequences, p2tSequences := [], [], map[], map[];
      for i := 0 to |list.packets|
        invariant p2pMessages == Routed(list.packets[..i], ToMessages, sequencesReceived, resource)
        invariant p2tMessages == Routed(list.packets[..i], ToGroups, sequencesReceived, resource)
        invariant out == old(out) + Infos(Routed(list.packets[..i], ToPunching, sequencesReceived, resource))
      {
        var p := list.packets[i];
        assert list.packets[..i + 1][..i] == list.packets[..i];
        if p.sequence in sequencesReceived {
          continue;
        }
        if p.P2P? {
          if !p.parses {
            continue;
          }
          if p.toResource != "" && p.toResource != resource {
            continue;
          }
          if p.netInfo {
            if !p.infoParses {
              continue;
            }
            out := out + [NetInfoHandled(p)];
          } else {
            p2pMessages := p2pMessages + [p];
            p2pSequences := p2pSequences[p.sequence := now];
          }
        } else if p.P2T? {
          if !p.parses {
            continue;
          }
          p2tMessages := p2tMessages + [p];
          p2tSequences := p2tSequences[p.sequence := now];
        }
      }
      assert list.packets[..|list.packets|] == list.packets;
    }

    /** Sorted and handed to handleMessage, if there are any and someone listens; the answer decides. */
    method DeliverMessages(packets: seq<Packet>, h: Handler, sequences: map<int, int>)
      returns (sorted: seq<Packet>, ok: bool)
      modifies this`out
      ensures SortOf(sorted, packets) && ok == (h.registered && sorted != [] ==> h.messages(sorted))
      ensures out == old(out) + if h.registered && sorted != [] then [MessagesHandled(sorted)] else []
    {
      sorted, ok := [], true;
      if |packets| > 0 {
        sorted := SortBySequence(packets);
        SameSize(sorted, packets);
        if h.registered {
          out := out + [MessagesHandled(sorted)];
          if !h.messages(sorted) {
            ok := false;
          } else {
            AddCompoundSequenceAndCleanOld(sequences);
          }
        }
      }
    }

    method DeliverGroupMessages(packets: seq<Packet>, h: Handler, sequences: map<int, int>)
      returns (sorted: seq<Packet>, ok: bool)
      modifies this`out
      ensures SortOf(sorted, packets) && ok == (h.registered && sorted != [] ==> h.groupMessages(sorted))
      ensures out == old(out) + if h.registered && sorted != [] then [GroupMessagesHandled(sorted)] else []
    {
      sorted, ok := [], true;
      if |packets| > 0 {
        sorted := SortBySequence(packets);
        SameSize(sorted, packets);
        if h.registered {
          out := out + [GroupMessagesHandled(sorted)];
          if !h.groupMessages(sorted) {
            ok := false;
          } else {
            AddCompoundSequenceAndCleanOld(sequences);
          }
        }
      }
    }

    /** The COMPOUND branch for either kind of list. */
    method HandleCompound(list: PacketList, h: Handler, resource: string, online: bool, now: int)
      returns (ghost news: seq<Output>)
      modifies this`isSerialPullNotification, this`out
      ensures out == old(out) + news
      ensures list.status == EXCEED_COUNT_LIMIT ==>
                (isSerialPullNotification, news) == PullStep(old(isSerialPullNotification), list.maxSequence, h)
      ensures list.status == NORMAL ==>
                !isSerialPullNotification && NormalOutcome(news, list, h, sequencesReceived, resource, online)
    {
      hide Routed, Infos, Closing, SortOf;
      if list.status == EXCEED_COUNT_LIMIT {
        news := PullStep(isSerialPullNotification, list.maxSequence, h).1;
        HandlePullNotification(list, h);
      } else {
        isSerialPullNotification := false;
        var p2pMessages, p2tMessages, p2pSequences, p2tSequences := Collect(list, resource, now);
        var m, messagesOk := DeliverMessages(p2pMessages, h, p2pSequences);
        var g, groupsOk := DeliverGroupMessages(p2tMessages, h, p2tSequences);
        Close(messagesOk && groupsOk, list, online);
        news := Infos(Routed(list.packets, ToPunching, sequencesReceived, resource))
                + (if h.registered && m != [] then [MessagesHandled(m)] else [])
                + (if h.registered && g != [] then [GroupMessagesHandled(g)] else [])
                + Closing(messagesOk && groupsOk, list.maxSequence, online);
        assert out == old(out) + news;
      }
    }

    static lemma SameSize(r: seq<Packet>, s: seq<Packet>)
      requires SortOf(r, s)
      ensures |r| == |s|
    {
      assert |multiset(r)| == |multiset(s)|;
    }
  }

  // ---------------------------------------------------------------- nothing is remembered

  /** The callbacks that hand a packet to the application. */
  ghost predicate Delivered(out: seq<Output>, p: Packet) {
    exists o :: o in out && ((o.MessagesHandled? && p in o.packets) || (o.GroupMessagesHandled? && p in o.packets))
  }

  lemma {:induction false} RoutedKeeps(packets: seq<Packet>, p: Packet, route: Route, received: map<int, int>,
                                       resource: string)
    ensures p in Routed(packets, route, received, resource)
            <==> p in packets && RouteOf(p, received, resource) == route
  {
    if packets != [] {
      RoutedKeeps(packets[..|packets| - 1], p, route, received, resource);
    }
  }

  /** A packet of the list for this user that was not handled before and parses: a message, net info, or for a group. */
  ghost predicate IsMessage(p: Packet, received: map<int, int>, resource: string) {
    p.P2P? && p.sequence !in received && p.parses && !p.netInfo && (p.toResource == "" || p.toResource == resource)
  }

  ghost predicate IsNetInfo(p: Packet, received: map<int, int>, resource: string) {
    p.P2P? && p.sequence !in received && p.parses && p.netInfo && p.infoParses
    && (p.toResource == "" || p.toResource == resource)
  }

  ghost predicate IsGroupMessage(p: Packet, received: map<int, int>) {
    p.P2T? && p.sequence !in received && p.parses
  }

  /** Where every packet goes. */
  lemma RoutesMean(p: Packet, received: map<int, int>, resource: string)
    ensures RouteOf(p, received, resource) == ToMessages <==> IsMessage(p, received, resource)
    ensures RouteOf(p, received, resource) == ToPunching <==> IsNetInfo(p, received, resource)
    ensures RouteOf(p, received, resource) == ToGroups <==> IsGroupMessage(p, received)
  {
  }

  lemma {:induction false} RoutedCount(packets: seq<Packet>, p: Packet, route: Route, received: map<int, int>,
                                       resource: string)
    ensures multiset(Routed(packets, route, received, resource))[p]
            == if RouteOf(p, received, resource) == route then multiset(packets)[p] else 0
  {
    hide RouteOf;
    if packets != [] {
      assert packets == packets[..|packets| - 1] + [packets[|packets| - 1]];
      RoutedCount(packets[..|packets| - 1], p, route, received, resource);
    }
  }

  /** The callbacks and messages a NORMAL list leads to, one by one. */
  ghost predicate ListHandled(out: seq<Output>, list: PacketList, h: Handler, received: map<int, int>, resource: string,
                              online: bool, m: seq<Packet>, g: seq<Packet>)
  {
    && (forall p :: multiset(m)[p] == if IsMessage(p, received, resource) then multiset(list.packets)[p] else 0)
    && (forall p :: multiset(g)[p] == if IsGroupMessage(p, received) then multiset(list.packets)[p] else 0)
    && (forall i, j | 0 <= i < j < |m| :: m[i].sequence <= m[j].sequence)
    && (forall i, j | 0 <= i < j < |g| :: g[i].sequence <= g[j].sequence)
    && (forall p :: NetInfoHandled(p) in out <==> p in list.packets && IsNetInfo(p, received, resource))
    && (forall s :: MessagesHandled(s) in out <==> h.registered && s == m != [])
    && (forall s :: GroupMessagesHandled(s) in out <==> h.registered && s == g != [])
    && var no := h.registered && ((m != [] && !h.messages(m)) || (g != [] && !h.groupMessages(g)));
       && (forall k :: SequenceAck(k) in out <==> !no && k == list.maxSequence)
       && (PullRequest in out <==> no && online)
       && (!no || online ==> out != [] && out[|out| - 1] == if no then PullRequest else SequenceAck(list.maxSequence))
  }

  /**
   * What a NORMAL list leads to, in terms of its packets: the net-info messages for this user are handled; a
   * registered application gets, in order of their sequence numbers, all messages for this user in one callback
   * and all group messages in another, if there are any; then the list is acknowledged with its maxSequence,
   * unless a callback said no: then it is pulled again, while online.
   */
  lemma NormalMeans(out: seq<Output>, list: PacketList, h: Handler, received: map<int, int>, resource: string,
                    online: bool) returns (m: seq<Packet>, g: seq<Packet>)
    requires NormalOutcome(out, list, h, received, resource, online)
    ensures ListHandled(out, list, h, received, resource, online, m, g)
  {
    hide Routed, RouteOf, IsMessage, IsNetInfo, IsGroupMessage, SortOf, Infos, ListHandled;
    m, g :|
      && SortOf(m, Routed(list.packets, ToMessages, received, resource))
      && SortOf(g, Routed(list.packets, ToGroups, received, resource))
      && var toUser, toGroup := h.registered && m != [], h.registered && g != [];
         out == Infos(Routed(list.packets, ToPunching, received, resource))
                + (if toUser then [MessagesHandled(m)] else [])
                + (if toGroup then [GroupMessagesHandled(g)] else [])
                + Closing((toUser ==> h.messages(m)) && (toGroup ==> h.groupMessages(g)), list.maxSequence, online);
    var infos := Routed(list.packets, ToPunching, received, resource);
    Sorts(m, list.packets, ToMessages, received, resource);
    Sorts(g, list.packets, ToGroups, received, resource);
    forall p
      ensures multiset(m)[p] == if IsMessage(p, received, resource) then multiset(list.packets)[p] else 0
      ensures multiset(g)[p] == if IsGroupMessage(p, received) then multiset(list.packets)[p] else 0
      ensures p in infos <==> p in list.packets && IsNetInfo(p, received, resource)
    {
      RoutesMean(p, received, resource);
      RoutedKeeps(list.packets, p, ToPunching, received, resource);
    }
    OutParts(out, infos, m, g, h, list.maxSequence, online);
    Gather(out, list, h, received, resource, online, m, g, infos);
  }

  lemma Sorts(r: seq<Packet>, packets: seq<Packet>, route: Route, received: map<int, int>, resource: string)
    requires SortOf(r, Routed(packets, route, received, resource))
    ensures forall i, j | 0 <= i < j < |r| :: r[i].sequence <= r[j].sequence
    ensures forall p :: multiset(r)[p] == if RouteOf(p, received, resource) == route then multiset(packets)[p] else 0
  {
    forall p ensures multiset(r)[p] == if RouteOf(p, received, resource) == route then multiset(packets)[p] else 0 {
      RoutedCount(packets, p, route, received, resource);
    }
  }

  /** What is in the outputs of a NORMAL list. */
  ghost predicate Parts(out: seq<Output>, infos: seq<Packet>, m: seq<Packet>, g: seq<Packet>, h: Handler,
                        maxSequence: int, online: bool)
  {
    && (forall p :: NetInfoHandled(p) in out <==> p in infos)
    && (forall s :: MessagesHandled(s) in out <==> h.registered && s == m != [])
    && (forall s :: GroupMessagesHandled(s) in out <==> h.registered && s == g != [])
    && var no := h.registered && ((m != [] && !h.messages(m)) || (g != [] && !h.groupMessages(g)));
       && (forall k :: SequenceAck(k) in out <==> !no && k == maxSequence)
       && (PullRequest in out <==> no && online)
       && (!no || online ==> out != [] && out[|out| - 1] == if no then PullRequest else SequenceAck(maxSequence))
  }

  lemma OutParts(out: seq<Output>, infos: seq<Packet>, m: seq<Packet>, g: seq<Packet>, h: Handler, maxSequence: int,
                 online: bool)
    requires var toUser, toGroup := h.registered && m != [], h.registered && g != [];
             out == Infos(infos) + (if toUser then [MessagesHandled(m)] else [])
                    + (if toGroup then [GroupMessagesHandled(g)] else [])
                    + Closing((toUser ==> h.messages(m)) && (toGroup ==> h.groupMessages(g)), maxSequence, online)
    ensures Parts(out, infos, m, g, h, maxSequence, online)
  {
    var toUser, toGroup := h.registered && m != [], h.registered && g != [];
    var a, b := Infos(infos), if toUser then [MessagesHandled(m)] else [];
    var c := if toGroup then [GroupMessagesHandled(g)] else [];
    var acked := (toUser ==> h.messages(m)) && (toGroup ==> h.groupMessages(g));
    var d := Closing(acked, maxSequence, online);
    InfosMean(infos);
    forall o ensures o in out <==> o in a || o in b || o in c || o in d { InFour(a, b, c, d, o); }
    assert d != [] ==> out[|out| - 1] == d[|d| - 1];
    assert forall o :: o in b <==> toUser && o == MessagesHandled(m);
    assert forall o :: o in c <==> toGroup && o == GroupMessagesHandled(g);
    assert forall o :: o in d <==> (acked && o == SequenceAck(maxSequence)) || (!acked && online && o == PullRequest);
    hide Infos, Closing;
  }

  lemma InFour(a: seq<Output>, b: seq<Output>, c: seq<Output>, d: seq<Output>, o: Output)
    ensures o in a + b + c + d <==> o in a || o in b || o in c || o in d
  {
  }

  lemma InfosMean(infos: seq<Packet>)
    ensures forall o :: o in Infos(infos) <==> o.NetInfoHandled? && o.packet in infos
  {
    forall o ensures o in Infos(infos) <==> o.NetInfoHandled? && o.packet in infos {
      if o.NetInfoHandled? && o.packet in infos {
        var k :| 0 <= k < |infos| && infos[k] == o.packet;
        assert Infos(infos)[k] == o;
      }
    }
  }

  lemma Gather(out: seq<Output>, list: PacketList, h: Handler, received: map<int, int>, resource: string, online: bool,
               m: seq<Packet>, g: seq<Packet>, infos: seq<Packet>)
    requires forall p :: multiset(m)[p] == if IsMessage(p, received, resource) then multiset(list.packets)[p] else 0
    requires forall p :: multiset(g)[p] == if IsGroupMessage(p, received) then multiset(list.packets)[p] else 0
    requires forall p :: p in infos <==> p in list.packets && IsNetInfo(p, received, resource)
    requires forall i, j | 0 <= i < j < |m| :: m[i].sequence <= m[j].sequence
    requires forall i, j | 0 <= i < j < |g| :: g[i].sequence <= g[j].sequence
    requires Parts(out, infos, m, g, h, list.maxSequence, online)
    ensures ListHandled(out, list, h, received, resource, online, m, g)
  {
    hide IsMessage, IsNetInfo, IsGroupMessage;
  }

  /** A registered application is handed exactly the messages of the list for this user, and the group messages. */
  lemma DeliveredIffRouted(out: seq<Output>, list: PacketList, h: Handler, received: map<int, int>, resource: string,
                           online: bool, p: Packet)
    requires NormalOutcome(out, list, h, received, resource, online) && h.registered
    ensures Delivered(out, p)
            <==> p in list.packets && p.sequence !in received && !p.OtherPacket? && p.parses
                 && (p.P2P? ==> !p.netInfo && (p.toResource == "" || p.toResource == resource))
    ensures (exists s :: MessagesHandled(s) in out && p in s) ==> p.P2P?
    ensures (exists s :: GroupMessagesHandled(s) in out && p in s) ==> p.P2T?
  {
    hide NormalOutcome;
    var m, g := NormalMeans(out, list, h, received, resource, online);
    assert p in m <==> p in multiset(m) && IsMessage(p, received, resource) && p in multiset(list.packets);
    assert p in g <==> p in multiset(g) && IsGroupMessage(p, received) && p in multiset(list.packets);
    assert p in multiset(list.packets) <==> p in list.packets;
    if p in m { assert MessagesHandled(m) in out; }
    if p in g { assert GroupMessagesHandled(g) in out; }
  }

  /** A list whose callbacks all say yes is acknowledged. */
  lemma YesIsAcknowledged(out: seq<Output>, list: PacketList, h: Handler, received: map<int, int>, resource: string,
                          online: bool)
    requires NormalOutcome(out, list, h, received, resource, online)
    requires (forall s :: h.messages(s)) && forall s :: h.groupMessages(s)
    ensures SequenceAck(list.maxSequence) in out && PullRequest !in out
  {
    hide NormalOutcome;
    var m, g := NormalMeans(out, list, h, received, resource, online);
    assert h.messages(m) && h.groupMessages(g);
  }

  /**
   * At-most-once delivery fails: a manager that handled a list, with an application that says yes, and
   * acknowledged it hands the same packets to the application again when the list comes again.
   */
  method DeliverTwice(manager: PacketManager, list: PacketList, h: Handler, resource: string, online: bool, now: int,
                      p: Packet)
    returns (ghost first: seq<Output>, ghost second: seq<Output>)
    requires list.status == NORMAL && p in list.packets && h.registered
    requires (forall s :: h.messages(s)) && forall s :: h.groupMessages(s)
    requires p.sequence !in manager.sequencesReceived && !p.OtherPacket? && p.parses
    requires p.P2P? ==> !p.netInfo && (p.toResource == "" || p.toResource == resource)
    modifies manager
    ensures manager.out == old(manager.out) + first + second
    ensures Delivered(first, p) && SequenceAck(list.maxSequence) in first && PullRequest !in first
    ensures Delivered(second, p) && SequenceAck(list.maxSequence) in second
  {
    hide NormalOutcome, Delivered;
    first := manager.HandleCompound(list, h, resource, online, now);
    DeliveredIffRouted(first, list, h, manager.sequencesReceived, resource, online, p);
    YesIsAcknowledged(first, list, h, manager.sequencesReceived, resource, online);
    second := manager.HandleCompound(list, h, resource, online, now);
    DeliveredIffRouted(second, list, h, manager.sequencesReceived, resource, online, p);
    YesIsAcknowledged(second, list, h, manager.sequencesReceived, resource, online);
  }

  /** A whole run through the manager: the flag and what every EXCEED_COUNT_LIMIT list led to. */
  method HandleRun(manager: PacketManager, run: seq<Arrival>, resource: string, online: bool, now: int)
    returns (ghost outputs: seq<seq<Output>>)
    requires !manager.isSerialPullNotification
    modifies manager
    ensures manager.isSerialPullNotification == SerialBefore(run, |run|)
    ensures |outputs| == |run| && manager.sequencesReceived == old(manager.sequencesReceived)
    ensures forall k | 0 <= k < |run| ::
              if run[k].list.status == EXCEED_COUNT_LIMIT then outputs[k] == PullOutput(run, k)
              else NormalOutcome(outputs[k], run[k].list, run[k].handler, manager.sequencesReceived, resource, online)
  {
    hide NormalOutcome, PullStep;
    outputs := [];
    for i := 0 to |run|
      invariant |outputs| == i && manager.isSerialPullNotification == SerialBefore(run, i)
      invariant manager.sequencesReceived == old(manager.sequencesReceived)
      invariant forall k | 0 <= k < i ::
                  if run[k].list.status == EXCEED_COUNT_LIMIT then outputs[k] == PullOutput(run, k)
                  else NormalOutcome(outputs[k], run[k].list, run[k].handler, manager.sequencesReceived, resource,
                                     online)
    {
      ghost var news := manager.HandleCompound(run[i].list, run[i].handler, resource, online, now);
      outputs := outputs + [news];
    }
  }
}
