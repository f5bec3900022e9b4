/** The election of a master by broadcast heartbeats: what a node does, and what that makes of any run of a group of
    nodes in which heartbeats may be lost, repeated and arbitrarily late. */
module Pulsar {
  import opened Basics

  /** An address. */
  type Host = nat

  type Info = map<string, string>

  /** The first character of a status: "0", "1", "2" and "3". */
  datatype Kind = Inactive | Active | Activate | Silent

  /** A datagram and where it came from; for an activation, the host that it names and whether the sender is in a
      subnet of that host's interface. */
  datatype Datagram =
    | Malformed
    | Datagram(kind: Kind, time: int, info: Info, peer: Host, target: Host, inSubnet: bool)

  datatype Signal = Started | Stopped(peer: Host) | MasterChanged(peer: Host, last: Option<Host>) | InfoChanged

  /** A node: its addresses, start time and passive flag, and what changes while it runs. */
  datatype Node = Node(mine: set<Host>, start: int, passive: bool,
                       iam: bool, waiting: bool, master: Option<int>, lastpeer: Option<Host>, info: Info)

  /** becomeMaster, called when the waiting time is over. */
  function BecomeMaster(n: Node): Node { n.(iam := true, waiting := false) }

  /** What sendStatus says. */
  function Status(n: Node): Kind { if n.passive then Silent else if n.iam then Active else Inactive }

  /** One datagram of readyRead. */
  function Receive(n: Node, d: Datagram): Node {
    if d.Malformed? then n
    else if n.iam then
      if (d.kind == Active && d.peer !in n.mine && d.time <= n.start)
         || (d.kind == Activate && d.target !in n.mine)
      then n.(iam := false, waiting := true, info := d.info)
      else n
    else if d.kind == Active then
      if n.master != Some(d.time)
      then n.(info := d.info, master := Some(d.time), lastpeer := Some(d.peer), waiting := true)
      else n.(info := d.info, waiting := true)
    else if d.kind == Activate then
      if d.inSubnet && d.target in n.mine then n.(iam := true, waiting := false, info := map[])
      else n.(waiting := true)
    else n
  }

  function Signals(n: Node, d: Datagram): seq<Signal> {
    var n' := Receive(n, d);
    if d.Malformed? then []
    else if n.iam then (if n'.iam then [] else [Stopped(d.peer)])
    else if n'.iam then [Started]
    else if d.kind == Active && n.master != Some(d.time) then [MasterChanged(d.peer, n.lastpeer)]
    else if d.kind == Active && n.info != d.info then [InfoChanged]
    else []
  }

  /** The waiting time of a node is over, or it hears a datagram. */
  datatype Event = Over | Heard(d: Datagram)

  function Live(n: Node, e: Event): Node {
    match e
    case Over => if n.waiting then BecomeMaster(n) else n
    case Heard(d) => Receive(n, d)
  }

  function Tell(n: Node, e: Event): seq<Signal> {
    match e
    case Over => if n.waiting then [Started] else []
    case Heard(d) => Signals(n, d)
  }

  function LiveAll(n: Node, es: seq<Event>): Node {
    if es == [] then n else Live(LiveAll(n, es[..|es| - 1]), es[|es| - 1])
  }

  function TellAll(n: Node, es: seq<Event>): seq<Signal> {
    if es == [] then []
    else
      var most := es[..|es| - 1];
      TellAll(n, most) + Tell(LiveAll(n, most), es[|es| - 1])
  }

  function HeardAll(ds: seq<Datagram>): (es: seq<Event>)
    ensures |es| == |ds|
  {
    seq(|ds|, i requires 0 <= i < |ds| => Heard(ds[i]))
  }

  /** PulsarPrivate. */
  class PulsarNode {
    const mine: set<Host>
    const dateTime: int
    const passive: bool
    var iam: bool
    var waiting: bool
    var masterIdentificator: Option<int>
    var lastpeer: Option<Host>
    var otherAddInfo: Info
    var signals: seq<Signal>

    ghost function State(): Node
      reads this
    {
      Node(mine, dateTime, passive, iam, waiting, masterIdentificator, lastpeer, otherAddInfo)
    }

    constructor (mine: set<Host>, dateTime: int, passive: bool)
      ensures State() == Fresh(mine, dateTime, passive) && signals == []
    {
      this.mine, this.dateTime, this.passive := mine, dateTime, passive;
      iam, waiting, masterIdentificator, lastpeer, otherAddInfo, signals := false, true, None, None, map[], [];
    }

    method WaitIsOver()
      requires waiting
      modifies this
      ensures State() == BecomeMaster(old(State())) && signals == old(signals) + [Started]
    {
      iam, waiting := true, false;
      signals := signals + [Started];
    }

    /** sendStatus, as the datagram that one of the broadcasts carries. */
    method SendStatus(from: Host, info: Info) returns (d: Datagram)
      ensures d == Heartbeat(State(), from, info)
      ensures d.kind == (if passive then Silent else if iam then Active else Inactive)
      ensures d.time == dateTime && d.peer == from && d.info == info
    {
      var status := Inactive;
      if passive {
        status := Silent;
      } else {
        if iam {
          status := Active;
        }
      }
      return Datagram(status, dateTime, info, from, from, false);
    }

    /** sendActivate, as the datagram that one of the broadcasts carries. */
    method SendActivate(from: Host) returns (d: Datagram)
      ensures d == Activation(State(), from)
      ensures d.kind == Activate && d.target == d.peer == from && d.time == dateTime && d.inSubnet
    {
      return Datagram(Activate, dateTime, map[], from, from, true);
    }

    method StepDown(d: Datagram)
      requires d.Datagram?
      modifies this
      ensures State() == old(State()).(iam := false, waiting := true, info := d.info)
      ensures signals == old(signals) + [Stopped(d.peer)]
    {
      iam, waiting, otherAddInfo := false, true, d.info;
      signals := signals + [Stopped(d.peer)];
    }

    /** A master steps down exactly when it hears another one that did not start later, or an order that names
        another node; a slave becomes master exactly when an order from its subnet names it. */
    method Take(d: Datagram)
      modifies this
      ensures old(iam) ==>
        (!iam <==> d.Datagram? && match d.kind
                                  case Active => d.time <= dateTime && d.peer !in mine
                                  case Activate => d.target !in mine
                                  case _ => false)
      ensures !old(iam) ==> (iam <==> d.Datagram? && d.kind == Activate && d.target in mine && d.inSubnet)
      ensures old(iam) && !iam ==> otherAddInfo == d.info && signals == old(signals) + [Stopped(d.peer)]
      ensures !old(iam) && iam ==> otherAddInfo == map[] && signals == old(signals) + [Started]
      ensures old(iam) ==> masterIdentificator == old(masterIdentificator) && lastpeer == old(lastpeer)
      ensures State() == Receive(old(State()), d) && signals == old(signals) + Signals(old(State()), d)
    {
      if d.Malformed? {
        return;
      }
      if iam {
        if d.kind == Active {
          var itIsMe := d.peer in mine;
          var needBecomeSlave := d.time <= dateTime;
          if !itIsMe && needBecomeSlave {
            StepDown(d);
          }
        } else if d.kind == Activate {
          if d.target !in mine {
            StepDown(d);
          }
        }
      } else {
        if d.kind == Active {
          if masterIdentificator != Some(d.time) {
            otherAddInfo, masterIdentificator := d.info, Some(d.time);
            signals := signals + [MasterChanged(d.peer, lastpeer)];
            lastpeer := Some(d.peer);
          } else if otherAddInfo != d.info {
            otherAddInfo := d.info;
            signals := signals + [InfoChanged];
          }
          waiting := true;
        } else if d.kind == Activate {
          if d.inSubnet && d.target in mine {
            iam, waiting, otherAddInfo := true, false, map[];
            signals := signals + [Started];
          }
          if !iam {
            waiting := true;
          }
        }
      }
    }

    /** readyRead: all the datagrams that are pending. */
    method ReadyRead(pending: seq<Datagram>)
      modifies this
      ensures State() == LiveAll(old(State()), HeardAll(pending))
      ensures signals == old(signals) + TellAll(old(State()), HeardAll(pending))
    {
      ghost var es := HeardAll(pending);
      var i := 0;
      while i < |pending|
        invariant 0 <= i <= |pending| && State() == LiveAll(old(State()), es[..i])
        invariant signals == old(signals) + TellAll(old(State()), es[..i])
      {
        assert es[..i + 1][..i] == es[..i];
        Take(pending[i]);
        i := i + 1;
      }
      assert es[..i] == es;
    }
  }

  function Fresh(mine: set<Host>, start: int, passive: bool): Node {
    Node(mine, start, passive, false, true, None, None, map[])
  }

  // ---------------------------------------------------------------- what a node tells its owner

  /** Started and Stopped take turns, Started first; `on` says whether Started was the last of them. */
  predicate TakeTurns(ss: seq<Signal>, on: bool) {
    if ss == [] then !on
    else
      var most := ss[..|ss| - 1];
      match ss[|ss| - 1]
      case Started => on && TakeTurns(most, false)
      case Stopped(_) => !on && TakeTurns(most, true)
      case _ => TakeTurns(most, on)
  }

  /** The master that the owner was told of last. */
  function LastFound(ss: seq<Signal>): Option<Host> {
    if ss == [] then None
    else if ss[|ss| - 1].MasterChanged? then Some(ss[|ss| - 1].peer)
    else LastFound(ss[..|ss| - 1])
  }

  /** Each change of the master names the master before it. */
  predicate Chained(ss: seq<Signal>) {
    forall i :: 0 <= i < |ss| && ss[i].MasterChanged? ==> ss[i].last == LastFound(ss[..i])
  }

  predicate Announcement(e: Event) { e.Heard? && e.d.Datagram? && e.d.kind == Active }

  /** The start time in the last announcement that the node has heard as a slave. */
  function LastHeard(n: Node, es: seq<Event>): Option<int> {
    if es == [] then None
    else
      var most, e := es[..|es| - 1], es[|es| - 1];
      if Announcement(e) && !LiveAll(n, most).iam then Some(e.d.time) else LastHeard(n, most)
  }

  /** What is kept about a node and the signals that it has given. */
  predicate Told(m: Node, ss: seq<Signal>) {
    TakeTurns(ss, m.iam) && (m.waiting <==> !m.iam) && Chained(ss) && m.lastpeer == LastFound(ss)
  }

  /** An event gives at most one signal, which says what has changed. */
  lemma SignalSays(m: Node, e: Event)
    requires m.waiting <==> !m.iam
    ensures var m', more := Live(m, e), Tell(m, e);
      && (m'.waiting <==> !m'.iam)
      && (more == [] ==> m'.iam == m.iam && m'.lastpeer == m.lastpeer)
      && (more != [] ==> more == [more[0]] && match more[0]
                         case Started => !m.iam && m'.iam && m'.lastpeer == m.lastpeer
                         case Stopped(_) => m.iam && !m'.iam && m'.lastpeer == m.lastpeer
                         case MasterChanged(peer, last) =>
                           m'.iam == m.iam && last == m.lastpeer && m'.lastpeer == Some(peer)
                         case InfoChanged => m'.iam == m.iam && m'.lastpeer == m.lastpeer)
  {
  }

  lemma ToldNext(m: Node, ss: seq<Signal>, e: Event)
    requires Told(m, ss)
    ensures Told(Live(m, e), ss + Tell(m, e))
  {
    var more := Tell(m, e);
    SignalSays(m, e);
    if more == [] {
      assert ss + more == ss;
    } else {
      OneMore(ss, more[0]);
    }
  }

  lemma OneMore(ss: seq<Signal>, x: Signal)
    ensures (ss + [x])[..|ss|] == ss && (ss + [x])[|ss|] == x
    ensures Chained(ss) && (x.MasterChanged? ==> x.last == LastFound(ss)) ==> Chained(ss + [x])
  {
    forall i | 0 <= i <= |ss| ensures (ss + [x])[..i] == ss[..i] {
    }
  }

  /** Over every run of a node, its owner is told in turns that it has become master and that it is so no
      more, and of every change of the master together with the one before; and the node knows the start
      time in the last announcement that it has heard as a slave. */
  lemma {:induction false} OwnerIsTold(n: Node, es: seq<Event>)
    requires n == Fresh(n.mine, n.start, n.passive)
    ensures Told(LiveAll(n, es), TellAll(n, es)) && LiveAll(n, es).master == LastHeard(n, es)
  {
    if es != [] {
      var most, e := es[..|es| - 1], es[|es| - 1];
      OwnerIsTold(n, most);
      ToldNext(LiveAll(n, most), TellAll(n, most), e);
      MasterNext(LiveAll(n, most), e);
    }
  }

  lemma MasterNext(m: Node, e: Event)
    ensures Live(m, e).master == if Announcement(e) && !m.iam then Some(e.d.time) else m.master
  {
  }

  /** A slave that hears an announcement knows what that says, and tells of the master exactly when the start
      time is another one than in the last announcement. */
  lemma SlaveFollows(n: Node, es: seq<Event>, d: Datagram)
    requires n == Fresh(n.mine, n.start, n.passive)
    requires d.Datagram? && d.kind == Active && !LiveAll(n, es).iam
    ensures var m, m', more := LiveAll(n, es), LiveAll(n, es + [Heard(d)]), Tell(LiveAll(n, es), Heard(d));
      && m'.info == d.info && m'.master == Some(d.time) && m'.iam == m.iam && m'.waiting == m.waiting
      && TellAll(n, es + [Heard(d)]) == TellAll(n, es) + more
      && (LastHeard(n, es) != Some(d.time) ==> more == [MasterChanged(d.peer, LastFound(TellAll(n, es)))])
      && (LastHeard(n, es) == Some(d.time) ==> more == if m.info != d.info then [InfoChanged] else [])
  {
    OwnerIsTold(n, es);
    var es' := es + [Heard(d)];
    assert es'[..|es|] == es && es'[|es|] == Heard(d);
  }

  // ---------------------------------------------------------------- a group of nodes

  datatype Config = Config(mine: set<Host>, start: int, passive: bool)

  /** The nodes, every datagram ever sent, and the nodes that have ever been master. */
  datatype Group = Group(nodes: seq<Node>, sent: set<Datagram>, ever: set<nat>)

  datatype Step =
    | Timeout(i: nat)
    | Send(i: nat, from: Host, info: Info)
    | Order(i: nat, from: Host)
    | Deliver(i: nat, d: Datagram)

  /** A waiting node may time out, any node may send its status or its activation order from one of its addresses, and
      anything ever sent may arrive anywhere, now or later, once or often. */
  predicate Enabled(g: Group, s: Step) {
    s.i < |g.nodes| &&
    match s
    case Timeout(i) => g.nodes[i].waiting
    case Send(i, from, info) => from in g.nodes[i].mine
    case Order(i, from) => from in g.nodes[i].mine
    case Deliver(i, d) => d in g.sent
  }

  function Heartbeat(n: Node, from: Host, info: Info): Datagram {
    Datagram(Status(n), n.start, info, from, from, false)
  }

  /** sendActivate: the sender is to become master, and whoever is not the named host is to step down.  The sender is in
      the subnet of the interface that it names. */
  function Activation(n: Node, from: Host): Datagram { Datagram(Activate, n.start, map[], from, from, true) }

  /** A step; one that is not enabled does nothing. */
  function Do(g: Group, s: Step): Group {
    if !Enabled(g, s) then g
    else
      var n := g.nodes[s.i];
      match s
      case Timeout(i) => g.(nodes := g.nodes[i := BecomeMaster(n)], ever := g.ever + {i})
      case Send(i, from, info) => g.(sent := g.sent + {Heartbeat(n, from, info)})
      case Order(i, from) => g.(sent := g.sent + {Activation(n, from)})
      case Deliver(i, d) =>
        g.(nodes := g.nodes[i := Receive(n, d)], ever := if !n.iam && Receive(n, d).iam then g.ever + {i} else g.ever)
  }

  function Start(cs: seq<Config>): Group {
    Group(seq(|cs|, i requires 0 <= i < |cs| => Fresh(cs[i].mine, cs[i].start, cs[i].passive)), {}, {})
  }

  function RunFrom(g: Group, steps: seq<Step>): Group {
    if steps == [] then g else Do(RunFrom(g, steps[..|steps| - 1]), steps[|steps| - 1])
  }

  function After(cs: seq<Config>, steps: seq<Step>): Group { RunFrom(Start(cs), steps) }

  // ---------------------------------------------------------------- a group of objects

  /** The objects are in the states of the nodes of the group, and the datagrams sent are those of the group. */
  ghost predicate Shows(nodes: seq<PulsarNode>, sent: set<Datagram>, g: Group)
    reads nodes
  {
    |nodes| == |g.nodes| && sent == g.sent && forall i :: 0 <= i < |nodes| ==> nodes[i].State() == g.nodes[i]
  }

  predicate Separate(nodes: seq<PulsarNode>) { forall i, j :: 0 <= i < j < |nodes| ==> nodes[i] != nodes[j] }

  /** One step, done by the object concerned; one that is not enabled is not done. */
  method Perform(nodes: seq<PulsarNode>, sent0: set<Datagram>, s: Step, ghost g: Group) returns (sent: set<Datagram>)
    requires Separate(nodes) && Shows(nodes, sent0, g)
    modifies nodes
    ensures Shows(nodes, sent, Do(g, s))
  {
    sent := sent0;
    if s.i >= |nodes| {
      return;
    }
    var node := nodes[s.i];
    match s
    case Timeout(_) =>
      if node.waiting {
        node.WaitIsOver();
      }
    case Send(_, from, info) =>
      if from in node.mine {
        var d := node.SendStatus(from, info);
        sent := sent + {d};
      }
    case Order(_, from) =>
      if from in node.mine {
        var d := node.SendActivate(from);
        sent := sent + {d};
      }
    case Deliver(_, d) =>
      if d in sent {
        node.ReadyRead([d]);
        ReceiveOne(g.nodes[s.i], d);
      }
  }

  lemma ReceiveOne(n: Node, d: Datagram)
    ensures LiveAll(n, HeardAll([d])) == Receive(n, d)
  {
    assert HeardAll([d]) == [Heard(d)];
    assert LiveAll(n, [Heard(d)][..0]) == n;
  }

  /** Objects for the configurations, in their first state. */
  method StartAll(cs: seq<Config>) returns (nodes: seq<PulsarNode>)
    ensures Separate(nodes) && Shows(nodes, {}, Start(cs)) && forall i :: 0 <= i < |nodes| ==> fresh(nodes[i])
  {
    nodes := [];
    var i := 0;
    while i < |cs|
      invariant 0 <= i == |nodes| <= |cs| && Separate(nodes)
      invariant forall k :: 0 <= k < i ==> fresh(nodes[k])
      invariant forall k :: 0 <= k < i ==> nodes[k].State() == Fresh(cs[k].mine, cs[k].start, cs[k].passive)
    {
      var node := new PulsarNode(cs[i].mine, cs[i].start, cs[i].passive);
      nodes := nodes + [node];
      i := i + 1;
    }
  }

  /** A run of the objects is a run of the group: whatever is proved about runs holds of the objects. */
  method Play(cs: seq<Config>, steps: seq<Step>) returns (nodes: seq<PulsarNode>, sent: set<Datagram>)
    ensures Separate(nodes) && Shows(nodes, sent, After(cs, steps)) && |nodes| == |cs|
    ensures forall i :: 0 <= i < |nodes| ==> (nodes[i].waiting <==> !nodes[i].iam)
  {
    SlavesWait(cs, steps);
    nodes := StartAll(cs);
    sent := {};
    var i := 0;
    while i < |steps|
      invariant 0 <= i <= |steps| && Separate(nodes) && forall k :: 0 <= k < |nodes| ==> fresh(nodes[k])
      invariant Shows(nodes, sent, After(cs, steps[..i]))
    {
      RunFromAppend(Start(cs), steps[..i], steps[i]);
      assert steps[..i + 1] == steps[..i] + [steps[i]];
      sent := Perform(nodes, sent, steps[i], After(cs, steps[..i]));
      i := i + 1;
    }
    assert steps[..i] == steps;
  }

  // ---------------------------------------------------------------- a slave can always take over

  /** Over every run, late heartbeats and orders included, a node waits exactly when it is not master. */
  lemma {:induction false} SlavesWait(cs: seq<Config>, steps: seq<Step>)
    ensures |After(cs, steps).nodes| == |cs|
    ensures forall i :: 0 <= i < |cs| ==> (After(cs, steps).nodes[i].waiting <==> !After(cs, steps).nodes[i].iam)
  {
    if steps != [] {
      var most, s := steps[..|steps| - 1], steps[|steps| - 1];
      SlavesWait(cs, most);
      if Enabled(After(cs, most), s) {
        OthersUntouched(After(cs, most), s);
        WaitsOrLeads(After(cs, most), s);
      }
    }
  }

  lemma OthersUntouched(g: Group, s: Step)
    requires s.i < |g.nodes|
    ensures |Do(g, s).nodes| == |g.nodes|
    ensures forall i :: 0 <= i < |g.nodes| && i != s.i ==> Do(g, s).nodes[i] == g.nodes[i]
  {
  }

  lemma WaitsOrLeads(g: Group, s: Step)
    requires s.i < |g.nodes| && (g.nodes[s.i].waiting <==> !g.nodes[s.i].iam)
    ensures s.i < |Do(g, s).nodes| && (Do(g, s).nodes[s.i].waiting <==> !Do(g, s).nodes[s.i].iam)
  {
  }

  /** After any run, a time-out makes any node master, unless it is master already, and changes no other node. */
  lemma TakesOver(cs: seq<Config>, steps: seq<Step>, i: nat)
    requires i < |cs|
    ensures Enabled(After(cs, steps), Timeout(i)) <==> !IsMaster(After(cs, steps), i)
    ensures IsMaster(After(cs, steps + [Timeout(i)]), i)
    ensures forall k: nat :: k != i ==>
      (IsMaster(After(cs, steps + [Timeout(i)]), k) <==> IsMaster(After(cs, steps), k))
  {
    SlavesWait(cs, steps);
    RunFromAppend(Start(cs), steps, Timeout(i));
    OthersUntouched(After(cs, steps), Timeout(i));
  }

  // ---------------------------------------------------------------- the invariant of the election

  /** No address belongs to two nodes. */
  predicate Apart(cs: seq<Config>) {
    forall i, j :: 0 <= i < j < |cs| ==> cs[i].mine !! cs[j].mine
  }

  predicate IsMaster(g: Group, i: nat) { i < |g.nodes| && g.nodes[i].iam }

  /** The node has the addresses, the start time and the flag of the configuration. */
  predicate Configured(n: Node, c: Config) { n.mine == c.mine && n.start == c.start && n.passive == c.passive }

  /** A heartbeat that node i could have sent when it was master. */
  predicate From(c: Config, d: Datagram) { d.Datagram? && !c.passive && d.time == c.start && d.peer in c.mine }

  /** Node j has been master, announces it, and did not start after node i. */
  predicate Beats(cs: seq<Config>, ever: set<nat>, j: nat, i: nat) {
    i < |cs| && j < |cs| && j != i && j in ever && !cs[j].passive && cs[j].start <= cs[i].start
  }

  /** What every step keeps: heartbeats come from nodes that have been master, and a node that has been master and is
      not beaten by another is master now. */
  ghost predicate Holds(cs: seq<Config>, g: Group) {
    && |g.nodes| == |cs|
    && (forall i :: 0 <= i < |cs| ==> Configured(g.nodes[i], cs[i]))
    && (forall i :: i in g.ever ==> i < |cs|)
    && (forall i: nat :: IsMaster(g, i) ==> i in g.ever)
    && (forall d :: d in g.sent ==> d.Datagram? && d.kind != Activate)
    && (forall d :: d in g.sent && d.kind == Active ==> exists j :: j in g.ever && From(cs[j], d))
    && (forall i :: i in g.ever && (forall j :: !Beats(cs, g.ever, j, i)) ==> IsMaster(g, i))
  }

  lemma StartHolds(cs: seq<Config>)
    ensures Holds(cs, Start(cs))
  {
  }

  lemma TimeoutKeeps(cs: seq<Config>, g: Group, i: nat)
    requires Holds(cs, g) && Enabled(g, Timeout(i))
    ensures Holds(cs, Do(g, Timeout(i)))
  {
    var g' := Do(g, Timeout(i));
    forall k | k in g'.ever && (forall j :: !Beats(cs, g'.ever, j, k)) ensures IsMaster(g', k) {
      if k != i {
        forall j ensures !Beats(cs, g.ever, j, k) {
          assert !Beats(cs, g'.ever, j, k);
        }
      }
    }
  }

  lemma SendKeeps(cs: seq<Config>, g: Group, s: Step)
    requires Holds(cs, g) && s.Send? && Enabled(g, s)
    ensures Holds(cs, Do(g, s))
  {
    var n := g.nodes[s.i];
    if Status(n) == Active {
      assert IsMaster(g, s.i);
      assert From(cs[s.i], Heartbeat(n, s.from, s.info));
    }
  }

  lemma DeliverKeeps(cs: seq<Config>, g: Group, i: nat, d: Datagram)
    requires Apart(cs) && Holds(cs, g) && Enabled(g, Deliver(i, d))
    ensures Holds(cs, Do(g, Deliver(i, d)))
  {
    var g' := Do(g, Deliver(i, d));
    if g.nodes[i].iam && !g'.nodes[i].iam {
      var j :| j in g.ever && From(cs[j], d);
      assert j != i;
      assert Beats(cs, g.ever, j, i);
    }
    forall k: nat | IsMaster(g', k) ensures IsMaster(g, k) {
    }
    forall k | k in g'.ever && (forall j :: !Beats(cs, g'.ever, j, k)) ensures IsMaster(g', k) {
      assert IsMaster(g, k);
    }
  }

  lemma StepKeeps(cs: seq<Config>, g: Group, s: Step)
    requires Apart(cs) && Holds(cs, g) && !s.Order?
    ensures Holds(cs, Do(g, s))
  {
    if Enabled(g, s) {
      match s {
        case Timeout(i) => TimeoutKeeps(cs, g, i);
        case Send(_, _, _) => SendKeeps(cs, g, s);
        case Deliver(i, d) => DeliverKeeps(cs, g, i, d);
      }
    }
  }

  /** A run of the election alone, without activation orders. */
  predicate NoOrders(steps: seq<Step>) { forall k :: 0 <= k < |steps| ==> !steps[k].Order? }

  lemma {:induction false} RunKeeps(cs: seq<Config>, steps: seq<Step>)
    requires Apart(cs) && NoOrders(steps)
    ensures Holds(cs, After(cs, steps))
  {
    if steps == [] {
      StartHolds(cs);
    } else {
      RunKeeps(cs, steps[..|steps| - 1]);
      StepKeeps(cs, After(cs, steps[..|steps| - 1]), steps[|steps| - 1]);
    }
  }

  // ---------------------------------------------------------------- safety

  /** No two nodes that announce themselves started at the same time. */
  predicate DistinctStarts(cs: seq<Config>) {
    forall i, j :: 0 <= i < j < |cs| && !cs[i].passive && !cs[j].passive ==> cs[i].start != cs[j].start
  }

  /** i is no worse than j: it started earlier, or at the same time and announces itself or j does not. */
  predicate NoWorse(cs: seq<Config>, i: nat, j: nat) {
    && i < |cs| && j < |cs|
    && (cs[i].start < cs[j].start || (cs[i].start == cs[j].start && (cs[j].passive || !cs[i].passive)))
  }

  /** The best of a set of nodes. */
  lemma {:induction false} Best(cs: seq<Config>, ever: set<nat>) returns (b: nat)
    requires ever != {} && forall i :: i in ever ==> i < |cs|
    ensures b in ever && forall i :: i in ever ==> NoWorse(cs, b, i)
    decreases |ever|
  {
    var x :| x in ever;
    if ever == {x} {
      b := x;
    } else {
      assert ever - {x} != {};
      var best := Best(cs, ever - {x});
      b := if NoWorse(cs, best, x) then best else x;
      forall i | i in ever ensures NoWorse(cs, b, i) {
        assert i != x ==> i in ever - {x};
      }
    }
  }

  /** When the start times differ, there is a master from the first time-out on: the earliest started of the nodes
      that have ever been master. */
  lemma AlwaysAMaster(cs: seq<Config>, steps: seq<Step>) returns (b: nat)
    requires Apart(cs) && DistinctStarts(cs) && NoOrders(steps) && After(cs, steps).ever != {}
    ensures IsMaster(After(cs, steps), b)
    ensures b in After(cs, steps).ever && forall i :: i in After(cs, steps).ever ==> NoWorse(cs, b, i)
  {
    var g := After(cs, steps);
    RunKeeps(cs, steps);
    b := Best(cs, g.ever);
    forall j ensures !Beats(cs, g.ever, j, b) {
      assert j in g.ever ==> NoWorse(cs, b, j);
    }
  }

  /** A run of the objects without orders, with distinct start times: once one of them has been master, the earliest
      started of those that have been is master. */
  method PlayElection(cs: seq<Config>, steps: seq<Step>) returns (nodes: seq<PulsarNode>, ghost b: nat)
    requires Apart(cs) && DistinctStarts(cs) && NoOrders(steps)
    ensures |nodes| == |cs|
    ensures After(cs, steps).ever != {} ==>
      && b < |nodes| && nodes[b].iam && b in After(cs, steps).ever
      && forall i :: i in After(cs, steps).ever ==> NoWorse(cs, b, i)
  {
    RunKeeps(cs, steps);
    var sent;
    nodes, sent := Play(cs, steps);
    b := 0;
    if After(cs, steps).ever != {} {
      b := AlwaysAMaster(cs, steps);
    }
  }

  /** No run without orders leaves a group without a master once it has had one. */
  ghost predicate NeverLosesMaster(cs: seq<Config>) {
    forall steps :: NoOrders(steps) && After(cs, steps).ever != {} ==> exists b: nat :: IsMaster(After(cs, steps), b)
  }

  lemma RunFromAppend(g: Group, a: seq<Step>, s: Step)
    ensures RunFrom(g, a + [s]) == Do(RunFrom(g, a), s)
  {
    assert (a + [s])[..|a|] == a;
  }

  /** Two nodes time out, announce themselves from the addresses a and b, and hear each other. */
  function Clash(cs: seq<Config>, i: nat, j: nat, a: Host, b: Host): seq<Step>
    requires i < |cs| && j < |cs|
  {
    var fromI, fromJ := Announced(cs[i], a), Announced(cs[j], b);
    [Timeout(i)] + [Timeout(j)] + [Send(i, a, map[])] + [Send(j, b, map[])] + [Deliver(i, fromJ)] + [Deliver(j, fromI)]
  }

  function Announced(c: Config, from: Host): Datagram { Datagram(Active, c.start, map[], from, from, false) }

  /** Two nodes that have become master and announced it. */
  lemma BothAnnounced(cs: seq<Config>, i: nat, j: nat, a: Host, b: Host) returns (g: Group)
    requires i < j < |cs| && !cs[i].passive && !cs[j].passive && a in cs[i].mine && b in cs[j].mine
    ensures g == After(cs, [Timeout(i)] + [Timeout(j)] + [Send(i, a, map[])] + [Send(j, b, map[])])
    ensures |g.nodes| == |cs| && g.ever == {i, j} && g.sent == {Announced(cs[i], a), Announced(cs[j], b)}
    ensures forall k :: 0 <= k < |cs| ==> Configured(g.nodes[k], cs[k]) && (IsMaster(g, k) ==> k == i || k == j)
    ensures IsMaster(g, i) && IsMaster(g, j)
  {
    RunFromAppend(Start(cs), [], Timeout(i));
    assert [] + [Timeout(i)] == [Timeout(i)];
    RunFromAppend(Start(cs), [Timeout(i)], Timeout(j));
    RunFromAppend(Start(cs), [Timeout(i)] + [Timeout(j)], Send(i, a, map[]));
    RunFromAppend(Start(cs), [Timeout(i)] + [Timeout(j)] + [Send(i, a, map[])], Send(j, b, map[]));
    g := After(cs, [Timeout(i)] + [Timeout(j)] + [Send(i, a, map[])] + [Send(j, b, map[])]);
  }

  /** With equal start times both step down, and nobody is master. */
  lemma ClashLosesMaster(cs: seq<Config>, i: nat, j: nat, a: Host, b: Host)
    requires Apart(cs) && i < j < |cs| && !cs[i].passive && !cs[j].passive && cs[i].start == cs[j].start
    requires a in cs[i].mine && b in cs[j].mine
    ensures After(cs, Clash(cs, i, j, a, b)).ever == {i, j}
    ensures forall k: nat :: !IsMaster(After(cs, Clash(cs, i, j, a, b)), k)
  {
    var before := [Timeout(i)] + [Timeout(j)] + [Send(i, a, map[])] + [Send(j, b, map[])];
    var g := BothAnnounced(cs, i, j, a, b);
    var fromI, fromJ := Announced(cs[i], a), Announced(cs[j], b);
    RunFromAppend(Start(cs), before, Deliver(i, fromJ));
    RunFromAppend(Start(cs), before + [Deliver(i, fromJ)], Deliver(j, fromI));
    assert cs[i].mine !! cs[j].mine;
  }

  /** Safety holds exactly when the start times of the nodes that announce themselves are distinct. */
  lemma SafeExactlyWhenDistinct(cs: seq<Config>)
    requires Apart(cs) && forall i :: 0 <= i < |cs| ==> cs[i].mine != {}
    ensures NeverLosesMaster(cs) <==> DistinctStarts(cs)
  {
    if DistinctStarts(cs) {
      forall steps | NoOrders(steps) && After(cs, steps).ever != {}
        ensures exists b: nat :: IsMaster(After(cs, steps), b)
      {
        var b := AlwaysAMaster(cs, steps);
      }
    } else {
      var i, j :| 0 <= i < j < |cs| && !cs[i].passive && !cs[j].passive && cs[i].start == cs[j].start;
      var a :| a in cs[i].mine;
      var b :| b in cs[j].mine;
      ClashLosesMaster(cs, i, j, a, b);
      assert NoOrders(Clash(cs, i, j, a, b));
    }
  }

  // ---------------------------------------------------------------- convergence

  function Masters(g: Group): set<nat> { set i: nat | i < |g.nodes| && IsMaster(g, i) }

  /** A run in which nobody's waiting time is over and nobody orders an activation. */
  predicate Quiet(steps: seq<Step>) { forall k :: 0 <= k < |steps| ==> !steps[k].Timeout? && !steps[k].Order? }

  /** Without time-outs no node becomes master, and each step-down lowers the number of masters by one. */
  lemma QuietStep(cs: seq<Config>, g: Group, s: Step)
    requires Apart(cs) && Holds(cs, g) && !s.Timeout? && !s.Order?
    ensures Masters(Do(g, s)) <= Masters(g) && Do(g, s).ever == g.ever
    ensures Masters(Do(g, s)) != Masters(g) ==> |Masters(Do(g, s))| == |Masters(g)| - 1
  {
    var g' := Do(g, s);
    if Enabled(g, s) && s.Deliver? {
      assert forall k: nat :: k != s.i ==> (IsMaster(g', k) <==> IsMaster(g, k));
      if IsMaster(g, s.i) && !IsMaster(g', s.i) {
        assert Masters(g') == Masters(g) - {s.i};
      } else {
        assert Masters(g') == Masters(g);
      }
    } else {
      assert Masters(g') == Masters(g);
    }
  }

  predicate Hears(c: Config, d: Datagram) { From(c, d) && d.kind == Active }

  /** Step k delivers to node i an announcement of node c that has been sent by then. */
  predicate HeardAt(cs: seq<Config>, g: Group, steps: seq<Step>, c: nat, i: nat, k: nat) {
    c < |cs| && k < |steps| && steps[k].Deliver? && steps[k].i == i && Hears(cs[c], steps[k].d)
    && Enabled(RunFrom(g, steps[..k]), steps[k])
  }

  /** A node that started later steps down when it hears an announcement that has been sent. */
  lemma HearingStepsDown(cs: seq<Config>, g: Group, s: Step, c: nat)
    requires Apart(cs) && Holds(cs, g) && s.Deliver? && Enabled(g, s) && c < |cs| && c != s.i
    requires Hears(cs[c], s.d) && cs[c].start <= cs[s.i].start
    ensures !IsMaster(Do(g, s), s.i)
  {
    assert cs[c].mine !! cs[s.i].mine;
  }

  /** In a quiet run the masters only get fewer. */
  lemma {:induction false} QuietRun(cs: seq<Config>, g: Group, steps: seq<Step>)
    requires Apart(cs) && Holds(cs, g) && Quiet(steps)
    ensures Holds(cs, RunFrom(g, steps)) && RunFrom(g, steps).ever == g.ever
    ensures Masters(RunFrom(g, steps)) <= Masters(g)
  {
    if steps != [] {
      var before, s := steps[..|steps| - 1], steps[|steps| - 1];
      QuietRun(cs, g, before);
      QuietStep(cs, RunFrom(g, before), s);
      StepKeeps(cs, RunFrom(g, before), s);
    }
  }

  /** A node that has heard an earlier one in a quiet run is no master at the end of it. */
  lemma {:induction false} HeardMeansSlave(cs: seq<Config>, g: Group, steps: seq<Step>, c: nat, i: nat, k: nat)
    requires Apart(cs) && Holds(cs, g) && Quiet(steps)
    requires HeardAt(cs, g, steps, c, i, k) && i < |cs| && c != i && cs[c].start <= cs[i].start
    ensures i !in Masters(RunFrom(g, steps))
  {
    var before, s := steps[..|steps| - 1], steps[|steps| - 1];
    QuietRun(cs, g, before);
    if k == |before| {
      HearingStepsDown(cs, RunFrom(g, before), s, c);
    } else {
      assert before[..k] == steps[..k];
      HeardMeansSlave(cs, g, before, c, i, k);
      QuietStep(cs, RunFrom(g, before), s);
    }
  }

  /** Convergence: once every other master has heard the earliest started of the nodes that have been master, and
      nobody's waiting time is over meanwhile, that one is the only master. */
  lemma OneMasterRemains(cs: seq<Config>, g: Group, steps: seq<Step>, c: nat)
    requires Apart(cs) && Holds(cs, g) && Quiet(steps)
    requires c in g.ever && forall i :: i in g.ever && i != c ==> cs[c].start < cs[i].start
    requires forall i :: i in Masters(g) && i != c ==> exists k :: HeardAt(cs, g, steps, c, i, k)
    ensures Masters(RunFrom(g, steps)) == {c}
  {
    var g' := RunFrom(g, steps);
    QuietRun(cs, g, steps);
    forall i | i in Masters(g') ensures i == c {
      if i != c {
        var k :| HeardAt(cs, g, steps, c, i, k);
        HeardMeansSlave(cs, g, steps, c, i, k);
      }
    }
    assert forall j :: !Beats(cs, g'.ever, j, c);
  }

  // ---------------------------------------------------------------- handovers

  /** What makes a master with this configuration step down although no order does. */
  predicate Silences(c: Config, d: Datagram) {
    d.Datagram? && d.kind == Active && d.peer !in c.mine && d.time <= c.start
  }

  /** Node b is the only master, and no order names another node. */
  ghost predicate SoleMaster(cs: seq<Config>, g: Group, b: nat) {
    && |g.nodes| == |cs| && b < |cs|
    && (forall i :: 0 <= i < |cs| ==> Configured(g.nodes[i], cs[i]))
    && Masters(g) == {b}
    && (forall d :: d in g.sent ==> d.Datagram? && (d.kind == Activate ==> d.target in cs[b].mine))
  }

  ghost predicate Unthreatened(cs: seq<Config>, g: Group, b: nat)
    requires b < |cs|
  {
    forall d :: d in g.sent ==> !Silences(cs[b], d)
  }

  lemma SoleStep(cs: seq<Config>, g: Group, b: nat, s: Step)
    requires Apart(cs) && SoleMaster(cs, g, b) && Unthreatened(cs, g, b) && !s.Timeout? && !s.Order?
    ensures SoleMaster(cs, Do(g, s), b) && Unthreatened(cs, Do(g, s), b)
  {
    var g' := Do(g, s);
    assert b in Masters(g);
    if Enabled(g, s) {
      if s.i != b {
        assert cs[s.i].mine !! cs[b].mine;
        assert s.i !in Masters(g);
      }
      assert forall i: nat :: i < |cs| ==> (IsMaster(g', i) <==> IsMaster(g, i));
    }
    assert Masters(g') == Masters(g);
  }

  lemma {:induction false} SoleRun(cs: seq<Config>, g: Group, b: nat, steps: seq<Step>)
    requires Apart(cs) && SoleMaster(cs, g, b) && Unthreatened(cs, g, b) && Quiet(steps)
    ensures SoleMaster(cs, RunFrom(g, steps), b)
    ensures Unthreatened(cs, RunFrom(g, steps), b)
  {
    if steps != [] {
      var before, s := steps[..|steps| - 1], steps[|steps| - 1];
      SoleRun(cs, g, b, before);
      SoleStep(cs, RunFrom(g, before), b, s);
    }
  }

  /** In no quiet run from here on is there a moment without a master. */
  ghost predicate KeepsMaster(g: Group) {
    forall steps :: Quiet(steps) ==> Masters(RunFrom(g, steps)) != {}
  }

  /** The only master stays, as long as no waiting time is over, exactly when no announcement that is under way
      silences it. */
  lemma SoleMasterStays(cs: seq<Config>, g: Group, b: nat)
    requires Apart(cs) && SoleMaster(cs, g, b)
    ensures KeepsMaster(g) <==> Unthreatened(cs, g, b)
  {
    if Unthreatened(cs, g, b) {
      forall steps | Quiet(steps) ensures Masters(RunFrom(g, steps)) != {} {
        SoleRun(cs, g, b, steps);
        assert b in Masters(RunFrom(g, steps));
      }
    } else {
      var d :| d in g.sent && Silences(cs[b], d);
      MasterSilenced(cs, g, b, d);
      RunFromAppend(g, [], Deliver(b, d));
      assert [] + [Deliver(b, d)] == [Deliver(b, d)];
      assert Quiet([Deliver(b, d)]);
    }
  }

  lemma MasterSilenced(cs: seq<Config>, g: Group, b: nat, d: Datagram)
    requires SoleMaster(cs, g, b) && d in g.sent && Silences(cs[b], d)
    ensures Masters(Do(g, Deliver(b, d))) == {}
  {
    assert b in Masters(g);
    forall i: nat | i < |cs| ensures !IsMaster(Do(g, Deliver(b, d)), i) {
      assert i != b ==> i !in Masters(g);
    }
  }

  /** Node b orders its activation from the address x, and it and the old master a hear the order. */
  function Handover(cs: seq<Config>, a: nat, b: nat, x: Host): seq<Step>
    requires b < |cs|
  {
    var order := Ordered(cs[b], x);
    [Order(b, x)] + [Deliver(b, order)] + [Deliver(a, order)]
  }

  function Ordered(c: Config, x: Host): Datagram { Datagram(Activate, c.start, map[], x, x, true) }

  lemma HandoverDone(cs: seq<Config>, g: Group, a: nat, b: nat, x: Host)
    requires Apart(cs) && Holds(cs, g) && Masters(g) == {a} && a != b && b < |cs| && x in cs[b].mine
    ensures var g' := RunFrom(g, Handover(cs, a, b, x));
      SoleMaster(cs, g', b) && g'.sent == g.sent + {Ordered(cs[b], x)}
  {
    var order := Ordered(cs[b], x);
    RunFromAppend(g, [], Order(b, x));
    assert [] + [Order(b, x)] == [Order(b, x)];
    RunFromAppend(g, [Order(b, x)], Deliver(b, order));
    RunFromAppend(g, [Order(b, x)] + [Deliver(b, order)], Deliver(a, order));
    OrderHeard(cs, g, a, b, x);
  }

  lemma OrderHeard(cs: seq<Config>, g: Group, a: nat, b: nat, x: Host)
    requires Apart(cs) && Holds(cs, g) && Masters(g) == {a} && a != b && b < |cs| && x in cs[b].mine
    ensures var order := Ordered(cs[b], x);
      var g' := Do(Do(Do(g, Order(b, x)), Deliver(b, order)), Deliver(a, order));
      SoleMaster(cs, g', b) && g'.sent == g.sent + {order}
  {
    var order := Ordered(cs[b], x);
    assert a in Masters(g) && b !in Masters(g);
    assert if a < b then cs[a].mine !! cs[b].mine else cs[b].mine !! cs[a].mine;
    var g1 := Do(g, Order(b, x));
    assert g1.nodes == g.nodes && g1.sent == g.sent + {order};
    var g2 := Do(g1, Deliver(b, order));
    assert g2.nodes == g.nodes[b := Receive(g.nodes[b], order)] && g2.nodes[b].iam;
    var g' := Do(g2, Deliver(a, order));
    assert !g'.nodes[a].iam && g'.nodes[b].iam;
    forall i: nat | i < |cs| ensures IsMaster(g', i) <==> i == b {
      assert i != a ==> i !in Masters(g);
    }
    assert Masters(g') == {b};
  }

  /** After a handover there is a master at every moment of every quiet run exactly when no announcement of another node
      that did not start later was under way before. */
  lemma HandoverKeepsMaster(cs: seq<Config>, g: Group, a: nat, b: nat, x: Host)
    requires Apart(cs) && Holds(cs, g) && Masters(g) == {a} && a != b && b < |cs| && x in cs[b].mine
    ensures KeepsMaster(RunFrom(g, Handover(cs, a, b, x))) <==> forall d :: d in g.sent ==> !Silences(cs[b], d)
  {
    HandoverDone(cs, g, a, b, x);
    SoleMasterStays(cs, RunFrom(g, Handover(cs, a, b, x)), b);
  }

  /** Only node b orders activations. */
  predicate OrdersOf(steps: seq<Step>, b: nat) { forall k :: 0 <= k < |steps| && steps[k].Order? ==> steps[k].i == b }

  /** Whatever else happens, there is a master once b has been master: time-outs included, and old orders that arrive
      again. */
  ghost predicate SafeToActivate(cs: seq<Config>, b: nat) {
    forall steps :: OrdersOf(steps, b) && b in After(cs, steps).ever ==> Masters(After(cs, steps)) != {}
  }

  /** Every other node that announces itself started later. */
  predicate Earliest(cs: seq<Config>, b: nat)
    requires b < |cs|
  {
    forall j :: 0 <= j < |cs| && j != b && !cs[j].passive ==> cs[b].start < cs[j].start
  }

  /** What every step keeps when b started first: announcements come from other nodes than b only with later start
      times, orders name b, and b is master once it has been. */
  ghost predicate Favours(cs: seq<Config>, g: Group, b: nat) {
    && |g.nodes| == |cs| && b < |cs|
    && (forall i :: 0 <= i < |cs| ==> Configured(g.nodes[i], cs[i]))
    && (forall d :: d in g.sent ==>
          d.Datagram? && !Silences(cs[b], d) && (d.kind == Activate ==> d.target in cs[b].mine))
    && (b in g.ever ==> IsMaster(g, b))
  }

  lemma FavoursKept(cs: seq<Config>, g: Group, b: nat, s: Step)
    requires Apart(cs) && b < |cs| && Earliest(cs, b) && Favours(cs, g, b) && (s.Order? ==> s.i == b)
    ensures Favours(cs, Do(g, s), b)
  {
    if Enabled(g, s) && s.i != b {
      assert cs[s.i].mine !! cs[b].mine;
    }
  }

  lemma {:induction false} FavoursRun(cs: seq<Config>, b: nat, steps: seq<Step>)
    requires Apart(cs) && b < |cs| && Earliest(cs, b) && OrdersOf(steps, b)
    ensures Favours(cs, After(cs, steps), b)
  {
    if steps != [] {
      FavoursRun(cs, b, steps[..|steps| - 1]);
      FavoursKept(cs, After(cs, steps[..|steps| - 1]), b, steps[|steps| - 1]);
    }
  }

  /** The order makes b master; then c times out and announces itself, b hears that, and the old order reaches c. */
  function LateOrder(cs: seq<Config>, b: nat, c: nat, x: Host, y: Host): seq<Step>
    requires b < |cs| && c < |cs|
  {
    var order := Ordered(cs[b], x);
    [Order(b, x)] + [Deliver(b, order)] + [Timeout(c)] + [Send(c, y, map[])]
    + [Deliver(b, Announced(cs[c], y))] + [Deliver(c, order)]
  }

  /** The order has been heard by b, and c has become master and announced it. */
  lemma OrderedAndAnnounced(cs: seq<Config>, b: nat, c: nat, x: Host, y: Host) returns (g: Group)
    requires Apart(cs) && b < |cs| && c < |cs| && b != c && !cs[c].passive
    requires x in cs[b].mine && y in cs[c].mine
    ensures g == After(cs, [Order(b, x)] + [Deliver(b, Ordered(cs[b], x))] + [Timeout(c)] + [Send(c, y, map[])])
    ensures |g.nodes| == |cs| && b in g.ever && g.sent == {Ordered(cs[b], x), Announced(cs[c], y)}
    ensures forall k :: 0 <= k < |cs| ==> Configured(g.nodes[k], cs[k]) && (IsMaster(g, k) <==> k == b || k == c)
  {
    var order := Ordered(cs[b], x);
    RunFromAppend(Start(cs), [], Order(b, x));
    assert [] + [Order(b, x)] == [Order(b, x)];
    RunFromAppend(Start(cs), [Order(b, x)], Deliver(b, order));
    RunFromAppend(Start(cs), [Order(b, x)] + [Deliver(b, order)], Timeout(c));
    RunFromAppend(Start(cs), [Order(b, x)] + [Deliver(b, order)] + [Timeout(c)], Send(c, y, map[]));
    g := After(cs, [Order(b, x)] + [Deliver(b, order)] + [Timeout(c)] + [Send(c, y, map[])]);
  }

  lemma LateOrderLosesMaster(cs: seq<Config>, b: nat, c: nat, x: Host, y: Host)
    requires Apart(cs) && b < |cs| && c < |cs| && b != c && !cs[c].passive && cs[c].start <= cs[b].start
    requires x in cs[b].mine && y in cs[c].mine
    ensures var g := After(cs, LateOrder(cs, b, c, x, y)); b in g.ever && Masters(g) == {}
  {
    var order, hello := Ordered(cs[b], x), Announced(cs[c], y);
    assert if b < c then cs[b].mine !! cs[c].mine else cs[c].mine !! cs[b].mine;
    var before := [Order(b, x)] + [Deliver(b, order)] + [Timeout(c)] + [Send(c, y, map[])];
    var g := OrderedAndAnnounced(cs, b, c, x, y);
    RunFromAppend(Start(cs), before, Deliver(b, hello));
    RunFromAppend(Start(cs), before + [Deliver(b, hello)], Deliver(c, order));
  }

  /** Activating b is safe over all runs exactly when b started before every other node that announces itself. */
  lemma SafeToActivateExactly(cs: seq<Config>, b: nat)
    requires Apart(cs) && b < |cs| && forall i :: 0 <= i < |cs| ==> cs[i].mine != {}
    ensures SafeToActivate(cs, b) <==> Earliest(cs, b)
  {
    if Earliest(cs, b) {
      forall steps | OrdersOf(steps, b) && b in After(cs, steps).ever ensures Masters(After(cs, steps)) != {} {
        FavoursRun(cs, b, steps);
        assert b in Masters(After(cs, steps));
      }
    } else {
      var c :| 0 <= c < |cs| && c != b && !cs[c].passive && cs[c].start <= cs[b].start;
      var x :| x in cs[b].mine;
      var y :| y in cs[c].mine;
      LateOrderLosesMaster(cs, b, c, x, y);
      assert OrdersOf(LateOrder(cs, b, c, x, y), b);
    }
  }
}
