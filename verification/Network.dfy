/** The network of GeoNS nodes as a transition system. Every node runs this code; a step is one atomic action of
    one node: a table operation, the acceptance of a connection, or one message and its handling. Nodes boot, serve
    and stop at any time, and their exchanges overlap in any way. */
module Network {
  import opened Options
  import opened Unicode
  import opened NodeTables
  import opened Exchange
  import Wire
  import Serializer

  type HostId = nat

  /** The addresses of all interfaces of each node, those that other nodes reach it at and see it at, and those of
      machines that are no nodes. */
  datatype World = World(mine: map<HostId, set<string>>, public: map<HostId, set<string>>, strangers: set<string>)

  /** A public address is a text of at most 15 bytes, not empty, not the wildcard, and on no interface of another node.
      Others, such as the loopback address, may be on all nodes. */
  ghost predicate Proper(w: World) {
    w.public.Keys == w.mine.Keys &&
    (forall h, addr {:trigger addr in w.public[h]} :: h in w.public && addr in w.public[h] ==>
       addr in w.mine[h] && IsAddress(addr) && addr != ALL_INTERFACES && addr != "") &&
    (forall g, h, addr :: g in w.mine && h in w.public && addr in w.mine[g] && addr in w.public[h] ==> g == h)
  }

  /** The address of a node or of another machine. */
  ghost predicate IsClient(w: World, addr: string) {
    addr in w.strangers || exists g :: g in w.public && addr in w.public[g]
  }

  /** The stage of the exchange with one destination. A connection is to one session of the peer, the one from its
      last start on. `lost` has the positions whose insert failed. */
  datatype Talk =
    | Quiet
    | Connected(peer: HostId, session: nat, seenAs: string)
    | HasAnnounced(peer: HostId, session: nat)
    | Receiving(all: seq<Node>, k: nat, lost: set<nat>)

  /** A boot visits INIT_NODES first and then what the local database held at that point. */
  datatype Phase = Down | Booting(local: bool, dests: seq<Node>, i: nat, talk: Talk) | Serving

  /** `buffer` is the one text that inet_ntoa leaves for all connections of a session: the address of the client
      that was accepted last, whoever it was. */
  datatype Host = Host(port: nat, rows: seq<Row>, phase: Phase, session: nat, buffer: string)

  /** An ADD_NODE that was sent, as the node it is from: the address of its connection and the port it names. */
  datatype Announcement = Announcement(sender: HostId, node: Node)

  datatype State = State(hosts: map<HostId, Host>, announced: set<Announcement>)

  /** `Foreign` is a client that `h` accepts and that announces nothing: a greeting, a client that is no node, or one
      of the HTTP server where that one shares the buffer of inet_ntoa. It can be on the machine of `h` itself. */
  datatype Step =
    | Foreign(h: HostId, addr: string)
    | Start(h: HostId, port: nat)
    | Skip(h: HostId)
    | Unreachable(h: HostId, luck: Luck)
    | Connect(h: HostId, r: HostId, seenAs: string)
    | Announce(h: HostId, luck: Luck)
    | Fetch(h: HostId, luck: Luck)
    | Store(h: HostId, luck: Luck)
    | EndExchange(h: HostId)
    | EndSweep(h: HostId, luck: Luck)
    | Stop(h: HostId)

  /** No database error. */
  const WORKS: Luck := Luck(true, true, true, true, MAX_ACTIVE_NODES)

  predicate Visiting(host: Host) {
    host.phase.Booting? && host.phase.i < |host.phase.dests|
  }

  predicate AtDestination(host: Host) {
    Visiting(host) && host.phase.talk.Quiet?
  }

  function Destination(host: Host): Node
    requires Visiting(host)
  {
    host.phase.dests[host.phase.i]
  }

  ghost predicate Enabled(w: World, s: State, step: Step) {
    step.h in s.hosts && step.h in w.mine && step.h in w.public &&
    var host := s.hosts[step.h];
    match step
    case Foreign(h, addr) =>
      host.phase.Serving? && IsAddress(addr) && addr != ALL_INTERFACES && (IsClient(w, addr) || addr in w.mine[h])
    case Start(_, port) => host.phase.Down? && port < Wire.PORTS
    case Skip(h) => AtDestination(host) && IsMyIp(Destination(host).addr, w.mine[h])
    case Unreachable(h, _) =>
      Visiting(host) && (host.phase.talk.Quiet? || host.phase.talk.Connected?) &&
      !IsMyIp(Destination(host).addr, w.mine[h])
    case Connect(h, r, seenAs) =>
      AtDestination(host) && !IsMyIp(Destination(host).addr, w.mine[h]) && seenAs in w.public[h] &&
      r in s.hosts && r in w.public && s.hosts[r].phase.Serving? && Destination(host).addr in w.public[r] &&
      Destination(host).port == s.hosts[r].port
    case Announce(_, _) => Visiting(host) && host.phase.talk.Connected? && host.phase.talk.peer in s.hosts
    case Fetch(_, _) => Visiting(host) && host.phase.talk.HasAnnounced? && host.phase.talk.peer in s.hosts
    case Store(_, _) => Visiting(host) && host.phase.talk.Receiving? && host.phase.talk.k < |host.phase.talk.all|
    case EndExchange(_) =>
      Visiting(host) && host.phase.talk.Receiving? && host.phase.talk.k == |host.phase.talk.all|
    case EndSweep(_, _) => host.phase.Booting? && host.phase.talk.Quiet? && host.phase.i == |host.phase.dests|
    case Stop(_) => true
  }

  /** The connection to the peer is still there. */
  predicate Live(s: State, peer: HostId, session: nat) {
    peer in s.hosts && s.hosts[peer].phase.Serving? && s.hosts[peer].session == session
  }

  /** The initiator's own state after its step. */
  function Moved(w: World, s: State, step: Step): Host
    requires Enabled(w, s, step)
  {
    var host := s.hosts[step.h];
    match step
    case Foreign(_, addr) => host.(buffer := addr)
    case Start(_, port) =>
      host.(port := port, phase := Booting(false, INIT_NODES, 0, Quiet), session := host.session + 1, buffer := "")
    case Skip(_) => host.(phase := host.phase.(i := host.phase.i + 1))
    case Unreachable(_, luck) =>
      host.(rows := if host.phase.local && luck.execs then Without(host.rows, Destination(host)) else host.rows,
            phase := host.phase.(i := host.phase.i + 1, talk := Quiet))
    case Connect(_, r, seenAs) =>
      host.(phase := host.phase.(talk := Connected(r, s.hosts[r].session, seenAs)))
    case Announce(_, _) =>
      host.(phase := host.phase.(talk := HasAnnounced(host.phase.talk.peer, host.phase.talk.session)))
    case Fetch(_, luck) =>
      var sent := Sent(s, host.phase.talk.peer, host.phase.talk.session, luck);
      host.(phase := host.phase.(talk := Receiving(sent, 0, {})))
    case Store(h, luck) =>
      var talk := host.phase.talk;
      var n := talk.all[talk.k];
      host.(rows := StoredOne(host.rows, n, w.mine[h], luck),
            phase := host.phase.(talk := talk.(k := talk.k + 1,
                                               lost := if luck.prepares && luck.execs then talk.lost
                                                       else talk.lost + {talk.k})))
    case EndExchange(_) => host.(phase := host.phase.(i := host.phase.i + 1, talk := Quiet))
    case EndSweep(_, luck) =>
      host.(phase := if host.phase.local then Serving
                     else if luck.Reads() then Booting(true, luck.Given(host.rows), 0, Quiet)
                     else Down)
    case Stop(_) => host.(phase := Down)
  }

  /** The entries a request for nodes is answered with. */
  function Sent(s: State, peer: HostId, session: nat, luck: Luck): seq<Node> {
    if Live(s, peer, session) && luck.Reads() then luck.Given(s.hosts[peer].rows) else []
  }

  /** The node that a responder records for an announcement: the port is from the message, the address from the
      buffer. */
  function Recorded(s: State, step: Step): Node
    requires step.h in s.hosts && s.hosts[step.h].phase.Booting?
    requires s.hosts[step.h].phase.talk.Connected? && s.hosts[step.h].phase.talk.peer in s.hosts
  {
    Node(s.hosts[s.hosts[step.h].phase.talk.peer].buffer, s.hosts[step.h].port)
  }

  function After(w: World, s: State, step: Step): State
    requires Enabled(w, s, step)
  {
    var hosts := s.hosts[step.h := Moved(w, s, step)];
    match step
    case Connect(_, r, seenAs) => State(hosts[r := s.hosts[r].(buffer := seenAs)], s.announced)
    case Announce(h, luck) =>
      var talk := s.hosts[h].phase.talk;
      var peer := s.hosts[talk.peer];
      State(if Live(s, talk.peer, talk.session) && luck.opens
            then hosts[talk.peer := peer.(rows := Inserted(peer.rows, Recorded(s, step), luck))] else hosts,
            s.announced + {Announcement(h, Node(talk.seenAs, s.hosts[h].port))})
    case _ => State(hosts, s.announced)
  }

  ghost predicate Initial(w: World, s: State) {
    s.hosts.Keys == w.mine.Keys && s.announced == {} &&
    forall h :: h in s.hosts ==> s.hosts[h].rows == [] && s.hosts[h].phase.Down?
  }

  ghost predicate Runs(w: World, s: State, steps: seq<Step>)
    decreases |steps|
  {
    steps == [] || (Enabled(w, s, steps[0]) && Runs(w, After(w, s, steps[0]), steps[1..]))
  }

  ghost function End(w: World, s: State, steps: seq<Step>): State
    requires Runs(w, s, steps)
    decreases |steps|
  {
    if steps == [] then s else End(w, After(w, s, steps[0]), steps[1..])
  }

  // ---------------------------------------------------------------- the invariant

  // It is kept for any choice of what may be listed where, if what is recorded may be.

  type Listing = iset<(HostId, Node)>

  /** Only nodes are listed, and what one host may list, another one may list unless it is at its own address. */
  ghost predicate Consistent(w: World, good: Listing) {
    (forall h, n :: (h, n) in good ==> Wire.IsNode(n) && n.addr != ALL_INTERFACES) &&
    (forall g, h, n :: (g, n) in good && h in w.mine && !IsMyIp(n.addr, w.mine[h]) ==> (h, n) in good)
  }

  ghost predicate ListedSomewhere(good: Listing, n: Node) {
    exists g :: (g, n) in good
  }

  ghost predicate TableOk(good: Listing, h: HostId, rows: seq<Row>) {
    forall row :: row in rows ==> row.status == Active && (h, row.node) in good
  }

  /** Entries received so far are in the table unless they are own ones or their insert failed. */
  ghost predicate ReceivedOk(good: Listing, mine: set<string>, rows: seq<Row>, talk: Talk) {
    talk.Receiving? ==>
      talk.k <= |talk.all| <= MAX_ACTIVE_NODES &&
      (forall n :: n in talk.all ==> ListedSomewhere(good, n)) &&
      (forall j :: 0 <= j < talk.k && j !in talk.lost && !IsMyIp(talk.all[j].addr, mine) ==> Lists(rows, talk.all[j]))
  }

  ghost predicate DestsOk(good: Listing, h: HostId, phase: Phase) {
    phase.Booting? ==>
      phase.i <= |phase.dests| && (!phase.talk.Quiet? ==> phase.i < |phase.dests|) &&
      (phase.local ==> |phase.dests| <= MAX_ACTIVE_NODES && forall n :: n in phase.dests ==> (h, n) in good) &&
      (!phase.local ==> phase.dests == INIT_NODES)
  }

  ghost predicate HostOk(good: Listing, h: HostId, mine: set<string>, host: Host) {
    TableOk(good, h, host.rows) && DestsOk(good, h, host.phase) &&
    (host.phase.Booting? ==> ReceivedOk(good, mine, host.rows, host.phase.talk)) &&
    (!host.phase.Down? ==> host.port < Wire.PORTS && IsAddress(host.buffer) && host.buffer != ALL_INTERFACES)
  }

  /** A connected node is seen at an address of its own by another node. */
  ghost predicate ConnectionOk(w: World, s: State, h: HostId, talk: Talk) {
    talk.Connected? ==>
      h in w.public && talk.seenAs in w.public[h] && talk.peer != h && talk.peer in s.hosts &&
      talk.session <= s.hosts[talk.peer].session
  }

  ghost predicate LogOk(w: World, announced: set<Announcement>) {
    forall a :: a in announced ==> a.sender in w.public && a.node.addr in w.public[a.sender] && a.node.port < Wire.PORTS
  }

  ghost predicate Inv(w: World, s: State, good: Listing) {
    s.hosts.Keys == w.mine.Keys && LogOk(w, s.announced) &&
    (forall h :: h in s.hosts ==> HostOk(good, h, w.mine[h], s.hosts[h])) &&
    (forall h :: h in s.hosts && s.hosts[h].phase.Booting? ==> ConnectionOk(w, s, h, s.hosts[h].phase.talk))
  }

  lemma OwnAddress(w: World, h: HostId, addr: string)
    requires Proper(w) && h in w.public && addr in w.public[h]
    ensures h in w.mine && addr in w.mine[h] && IsAddress(addr) && addr != ALL_INTERFACES && addr != ""
    ensures forall g :: g in w.mine && addr in w.mine[g] ==> g == h
  {
    hide IsAddress;
    forall g | g in w.mine && addr in w.mine[g] ensures g == h {
      assert addr in w.public[h];
    }
  }

  lemma GivenAreGood(good: Listing, h: HostId, rows: seq<Row>, luck: Luck)
    requires TableOk(good, h, rows)
    ensures forall n :: n in luck.Given(rows) ==> (h, n) in good
  {
    forall n | n in luck.Given(rows) ensures (h, n) in good {
      assert Row(n, Active) in rows;
    }
  }

  lemma StoreKeepsHost(w: World, s: State, step: Step, good: Listing)
    requires Consistent(w, good) && Inv(w, s, good) && Enabled(w, s, step) && step.Store?
    ensures HostOk(good, step.h, w.mine[step.h], Moved(w, s, step))
  {
    hide IsValidUtf8, ConnectionOk, LogOk;
    var host, mine := s.hosts[step.h], w.mine[step.h];
    var talk := host.phase.talk;
    InsertLists(host.rows, talk.all[talk.k], step.luck);
    if !IsMyIp(talk.all[talk.k].addr, mine) {
      assert talk.all[talk.k] in talk.all;
      var g :| (g, talk.all[talk.k]) in good;
      InsertFits(host.rows, talk.all[talk.k], good, step.h);
    }
    forall j | 0 <= j < talk.k && j !in talk.lost && !IsMyIp(talk.all[j].addr, mine)
      ensures Lists(Moved(w, s, step).rows, talk.all[j])
    {
      if !IsMyIp(talk.all[talk.k].addr, mine) {
        ListsMore(host.rows, Moved(w, s, step).rows, talk.all[j]);
      }
    }
  }

  lemma EmptyIsAddress()
    ensures IsAddress("")
  {
  }

  lemma MovedIsOk(w: World, s: State, step: Step, good: Listing)
    requires Consistent(w, good) && Inv(w, s, good) && Enabled(w, s, step)
    ensures HostOk(good, step.h, w.mine[step.h], Moved(w, s, step))
  {
    hide IsValidUtf8, ConnectionOk, LogOk;
    var host := s.hosts[step.h];
    EmptyIsAddress();
    match step {
      case Fetch(_, luck) =>
        var peer := host.phase.talk.peer;
        GivenAreGood(good, peer, s.hosts[peer].rows, luck);
        assert forall n :: (peer, n) in good ==> ListedSomewhere(good, n);
      case Store(_, _) =>
        StoreKeepsHost(w, s, step, good);
      case EndSweep(_, luck) =>
        GivenAreGood(good, step.h, host.rows, luck);
      case _ =>
    }
  }

  /** The step is an announcement, and the peer is there to take it. */
  predicate Delivered(s: State, step: Step)
    requires step.h in s.hosts
  {
    step.Announce? && s.hosts[step.h].phase.Booting? && s.hosts[step.h].phase.talk.Connected? &&
    Live(s, s.hosts[step.h].phase.talk.peer, s.hosts[step.h].phase.talk.session)
  }

  /** What is recorded is a node, by another host than the one that announces. */
  lemma RecordedIsNode(w: World, s: State, step: Step, good: Listing)
    requires Inv(w, s, good) && Enabled(w, s, step) && Delivered(s, step)
    ensures var peer, n := s.hosts[step.h].phase.talk.peer, Recorded(s, step);
            peer != step.h && peer in w.mine && Wire.IsNode(n) && n.addr != ALL_INTERFACES
  {
    hide IsValidUtf8, LogOk, TableOk, DestsOk;
    assert ConnectionOk(w, s, step.h, s.hosts[step.h].phase.talk);
  }

  lemma ConnectionsAreKept(w: World, s: State, step: Step, good: Listing, h: HostId)
    requires Proper(w) && Inv(w, s, good) && Enabled(w, s, step)
    requires h in s.hosts && After(w, s, step).hosts[h].phase.Booting?
    ensures ConnectionOk(w, After(w, s, step), h, After(w, s, step).hosts[h].phase.talk)
  {
    hide IsAddress, HostOk, LogOk, IsClient;
    var talk := After(w, s, step).hosts[h].phase.talk;
    if talk.Connected? {
      if step.h == h {
        assert step.Connect? ==> step.r != h;
      } else {
        assert ConnectionOk(w, s, h, s.hosts[h].phase.talk);
      }
    }
  }

  /** The node that a step records, if it records one, may be listed. */
  ghost predicate RecordsGood(s: State, step: Step, good: Listing)
    requires step.h in s.hosts
  {
    Delivered(s, step) ==> (s.hosts[step.h].phase.talk.peer, Recorded(s, step)) in good
  }

  lemma StepKeepsInv(w: World, s: State, step: Step, good: Listing)
    requires Proper(w) && Consistent(w, good) && Inv(w, s, good) && Enabled(w, s, step) && RecordsGood(s, step, good)
    ensures Inv(w, After(w, s, step), good)
  {
    hide IsAddress, HostOk, ConnectionOk, Consistent, IsClient;
    var s' := After(w, s, step);
    MovedIsOk(w, s, step, good);
    forall h | h in s'.hosts && s'.hosts[h].phase.Booting? ensures ConnectionOk(w, s', h, s'.hosts[h].phase.talk) {
      ConnectionsAreKept(w, s, step, good, h);
    }
    if step.Connect? {
      OwnAddress(w, step.h, step.seenAs);
      BufferKeepsHost(good, step.r, w.mine[step.r], s.hosts[step.r], step.seenAs);
    }
    if step.Announce? {
      if Delivered(s, step) {
        AnnounceKeepsHosts(w, s, step, good);
      }
      AnnounceKeepsLog(w, s, step, good);
    }
  }

  lemma BufferKeepsHost(good: Listing, h: HostId, mine: set<string>, host: Host, buffer: string)
    requires HostOk(good, h, mine, host) && IsAddress(buffer) && buffer != ALL_INTERFACES
    ensures HostOk(good, h, mine, host.(buffer := buffer))
  {
    hide IsAddress;
  }

  lemma AnnounceKeepsHosts(w: World, s: State, step: Step, good: Listing)
    requires Inv(w, s, good) && Enabled(w, s, step) && Delivered(s, step) && RecordsGood(s, step, good)
    ensures var peer := s.hosts[step.h].phase.talk.peer;
            && peer != step.h && peer in w.mine
            && HostOk(good, peer, w.mine[peer],
                      s.hosts[peer].(rows := Inserted(s.hosts[peer].rows, Recorded(s, step), step.luck)))
  {
    hide IsAddress, LogOk, ConnectionOk, IsClient;
    RecordedIsNode(w, s, step, good);
    InsertFits(s.hosts[s.hosts[step.h].phase.talk.peer].rows, Recorded(s, step), good, s.hosts[step.h].phase.talk.peer);
  }

  lemma InsertFits(rows: seq<Row>, n: Node, good: Listing, h: HostId)
    requires TableOk(good, h, rows) && (h, n) in good
    ensures forall luck :: TableOk(good, h, Inserted(rows, n, luck))
  {
  }

  lemma AnnounceKeepsLog(w: World, s: State, step: Step, good: Listing)
    requires Inv(w, s, good) && Enabled(w, s, step) && step.Announce?
    ensures LogOk(w, After(w, s, step).announced)
  {
    hide IsAddress, TableOk, DestsOk, IsClient;
    assert ConnectionOk(w, s, step.h, s.hosts[step.h].phase.talk);
  }

  /** Every node that the run records may be listed where it is. */
  ghost predicate RunRecordsGood(w: World, s: State, steps: seq<Step>, good: Listing)
    requires Runs(w, s, steps)
    decreases |steps|
  {
    steps == [] || (RecordsGood(s, steps[0], good) && RunRecordsGood(w, After(w, s, steps[0]), steps[1..], good))
  }

  lemma {:induction false} RunKeepsInv(w: World, s: State, steps: seq<Step>, good: Listing)
    requires Proper(w) && Consistent(w, good) && Inv(w, s, good) && Runs(w, s, steps)
    requires RunRecordsGood(w, s, steps, good)
    ensures Inv(w, End(w, s, steps), good)
    decreases |steps|
  {
    hide IsAddress, Inv, Enabled, RecordsGood, Consistent;
    if steps != [] {
      StepKeepsInv(w, s, steps[0], good);
      RunKeepsInv(w, After(w, s, steps[0]), steps[1..], good);
    }
  }

  lemma InitialIsOk(w: World, s: State, good: Listing)
    requires Initial(w, s)
    ensures Inv(w, s, good)
  {
  }

  /** Any node, anywhere. */
  ghost function Anything(): Listing {
    iset h: HostId, n: Node | Wire.IsNode(n) && n.addr != ALL_INTERFACES :: (h, n)
  }

  lemma AnythingIsConsistent(w: World)
    ensures Consistent(w, Anything())
  {
  }

  lemma {:induction false} AnyRunRecordsNodes(w: World, s: State, steps: seq<Step>)
    requires Proper(w) && Inv(w, s, Anything()) && Runs(w, s, steps)
    ensures RunRecordsGood(w, s, steps, Anything())
    decreases |steps|
  {
    hide IsAddress, Inv, Wire.IsNode, Enabled, Anything, Consistent, IsClient;
    if steps != [] {
      StepRecordsNode(w, s, steps[0]);
      AnythingIsConsistent(w);
      StepKeepsInv(w, s, steps[0], Anything());
      AnyRunRecordsNodes(w, After(w, s, steps[0]), steps[1..]);
    }
  }

  lemma StepRecordsNode(w: World, s: State, step: Step)
    requires Inv(w, s, Anything()) && Enabled(w, s, step)
    ensures RecordsGood(s, step, Anything())
  {
    hide IsAddress, HostOk, LogOk, ConnectionOk, Wire.IsNode, IsClient;
    if Delivered(s, step) {
      RecordedIsNode(w, s, step, Anything());
    }
  }

  /** Every run keeps to nodes. */
  lemma AnyRunKeepsInv(w: World, s: State, steps: seq<Step>)
    requires Proper(w) && Inv(w, s, Anything()) && Runs(w, s, steps)
    ensures Inv(w, End(w, s, steps), Anything())
  {
    hide IsAddress, Inv, Anything, Consistent;
    AnythingIsConsistent(w);
    AnyRunRecordsNodes(w, s, steps);
    RunKeepsInv(w, s, steps, Anything());
  }

  // ---------------------------------------------------------------- who can be in a table

  /** The nodes at an address of some client, for every host but those that have the address. */
  ghost function Known(w: World): Listing {
    iset h: HostId, n: Node |
      h in w.mine && Wire.IsNode(n) && IsClient(w, n.addr) && !IsMyIp(n.addr, w.mine[h]) :: (h, n)
  }

  lemma KnownIsConsistent(w: World)
    ensures Consistent(w, Known(w))
  {
    hide Wire.IsNode, IsClient;
  }

  /** A foreign client is not on the machine that accepts it. */
  ghost predicate Elsewhere(w: World, step: Step) {
    step.Foreign? && step.h in w.mine ==> step.addr !in w.mine[step.h]
  }

  ghost predicate AllElsewhere(w: World, steps: seq<Step>) {
    forall i :: 0 <= i < |steps| ==> Elsewhere(w, steps[i])
  }

  /** Whoever is connected, the buffer of the peer has the address of a client on another machine than that of the
      peer. */
  ghost predicate BuffersOk(w: World, s: State) {
    forall h :: h in s.hosts && s.hosts[h].phase.Booting? ==> BufferOk(w, s, s.hosts[h].phase.talk)
  }

  ghost predicate BufferOk(w: World, s: State, talk: Talk) {
    talk.Connected? && talk.peer in s.hosts && talk.peer in w.mine && talk.session == s.hosts[talk.peer].session ==>
      IsClient(w, s.hosts[talk.peer].buffer) && s.hosts[talk.peer].buffer !in w.mine[talk.peer]
  }

  lemma StepKeepsBuffers(w: World, s: State, step: Step, good: Listing)
    requires Proper(w) && Inv(w, s, good) && Enabled(w, s, step) && BuffersOk(w, s) && Elsewhere(w, step)
    ensures BuffersOk(w, After(w, s, step))
  {
    hide IsAddress, HostOk, LogOk, BufferOk;
    var s' := After(w, s, step);
    forall h | h in s'.hosts && s'.hosts[h].phase.Booting? ensures BufferOk(w, s', s'.hosts[h].phase.talk) {
      BufferIsKept(w, s, step, good, h);
    }
  }

  lemma BufferIsKept(w: World, s: State, step: Step, good: Listing, h: HostId)
    requires Proper(w) && Inv(w, s, good) && Enabled(w, s, step) && BuffersOk(w, s) && Elsewhere(w, step)
    requires h in s.hosts && After(w, s, step).hosts[h].phase.Booting?
    ensures BufferOk(w, After(w, s, step), After(w, s, step).hosts[h].phase.talk)
  {
    hide IsAddress, HostOk, LogOk;
    var s' := After(w, s, step);
    var talk := s'.hosts[h].phase.talk;
    if step.Connect? {
      OwnAddress(w, step.h, step.seenAs);
    }
    if talk.Connected? && !(step.Connect? && step.h == h) {
      assert ConnectionOk(w, s, h, s.hosts[h].phase.talk) && BufferOk(w, s, s.hosts[h].phase.talk);
    }
  }

  lemma StepRecordsKnown(w: World, s: State, step: Step, good: Listing)
    requires Inv(w, s, good) && Enabled(w, s, step) && BuffersOk(w, s)
    ensures RecordsGood(s, step, Known(w))
  {
    hide IsAddress, HostOk, LogOk, ConnectionOk, Wire.IsNode, IsClient;
    if Delivered(s, step) {
      RecordedIsNode(w, s, step, good);
      assert BufferOk(w, s, s.hosts[step.h].phase.talk);
    }
  }

  lemma {:induction false} ElsewhereRecordsKnown(w: World, s: State, steps: seq<Step>)
    requires Proper(w) && Inv(w, s, Known(w)) && BuffersOk(w, s) && Runs(w, s, steps) && AllElsewhere(w, steps)
    ensures RunRecordsGood(w, s, steps, Known(w))
    decreases |steps|
  {
    hide IsAddress, Inv, Wire.IsNode, Enabled, BuffersOk, Elsewhere, Known, Consistent, IsClient;
    if steps != [] {
      assert Elsewhere(w, steps[0]);
      StepRecordsKnown(w, s, steps[0], Known(w));
      KnownIsConsistent(w);
      StepKeepsInv(w, s, steps[0], Known(w));
      StepKeepsBuffers(w, s, steps[0], Known(w));
      ElsewhereRecordsKnown(w, After(w, s, steps[0]), steps[1..]);
    }
  }

  /** In every state that a run reaches in which no host accepts a foreign client from its own machine, however
      exchanges overlap, each row of a table is active and at the address of another node, or of a machine that is no
      node. */
  lemma RowsAreOthers(w: World, s: State, steps: seq<Step>, h: HostId)
    requires Proper(w) && Initial(w, s) && Runs(w, s, steps) && AllElsewhere(w, steps) && h in w.mine
    ensures Inv(w, End(w, s, steps), Known(w))
    ensures h in End(w, s, steps).hosts
    ensures forall row :: row in End(w, s, steps).hosts[h].rows ==>
              row.status == Active && !IsMyIp(row.node.addr, w.mine[h]) &&
              (row.node.addr in w.strangers || exists g :: g in w.public && g != h && row.node.addr in w.public[g])
  {
    hide IsAddress, Wire.IsNode, IsMyIp, Enabled, LogOk, ConnectionOk, Consistent;
    InitialIsOk(w, s, Known(w));
    ElsewhereRecordsKnown(w, s, steps);
    KnownIsConsistent(w);
    RunKeepsInv(w, s, steps, Known(w));
    var rows := End(w, s, steps).hosts[h].rows;
    forall row | row in rows && row.node.addr !in w.strangers
      ensures exists g :: g in w.public && g != h && row.node.addr in w.public[g]
    {
      var g :| g in w.public && row.node.addr in w.public[g];
      OwnAddress(w, g, row.node.addr);
      NotOwn(row.node.addr, w.mine[h]);
    }
  }

  lemma NotOwn(addr: string, mine: set<string>)
    requires !IsMyIp(addr, mine)
    ensures addr !in mine
  {
  }

  // ---------------------------------------------------------------- when the attribution is right

  /** `h` takes the step itself; a foreign client comes from outside. */
  predicate Acts(step: Step, h: HostId) {
    step.h == h && !step.Foreign?
  }

  /** `h` takes no step of its own. */
  ghost predicate Idle(steps: seq<Step>, h: HostId) {
    forall i :: 0 <= i < |steps| ==> !Acts(steps[i], h)
  }

  predicate Accepts(step: Step, r: HostId) {
    (step.Connect? && step.r == r) || (step.Foreign? && step.h == r)
  }

  /** The address at which a client is seen that is accepted. */
  function ClientOf(step: Step): string
    requires step.Connect? || step.Foreign?
  {
    if step.Connect? then step.seenAs else step.addr
  }

  /** The address of the client that `r` accepts last, or `first` if it accepts none. */
  function LastAccepted(steps: seq<Step>, r: HostId, first: string): string
    decreases |steps|
  {
    if steps == [] then first
    else LastAccepted(steps[1..], r, if Accepts(steps[0], r) then ClientOf(steps[0]) else first)
  }

  lemma {:induction false} BufferIsLastAccepted(w: World, s: State, steps: seq<Step>, r: HostId)
    requires Runs(w, s, steps) && r in s.hosts && Idle(steps, r)
    ensures r in End(w, s, steps).hosts
    ensures End(w, s, steps).hosts[r].buffer == LastAccepted(steps, r, s.hosts[r].buffer)
    decreases |steps|
  {
    hide IsAddress, IsClient;
    if steps != [] {
      assert !Acts(steps[0], r);
      BufferIsLastAccepted(w, After(w, s, steps[0]), steps[1..], r);
    }
  }

  /** If `r` accepts anybody in these steps, the last one is seen at `addr`. */
  ghost predicate LastIsFrom(steps: seq<Step>, r: HostId, addr: string) {
    forall i :: 0 <= i < |steps| && Accepts(steps[i], r) && (forall k :: i < k < |steps| ==> !Accepts(steps[k], r)) ==>
      ClientOf(steps[i]) == addr
  }

  lemma {:induction false} LastAcceptedIs(steps: seq<Step>, r: HostId, addr: string)
    ensures LastAccepted(steps, r, addr) == addr <==> LastIsFrom(steps, r, addr)
    decreases |steps|
  {
    LastOfSome(steps, r, addr);
    if forall i :: 0 <= i < |steps| ==> !Accepts(steps[i], r) {
    } else {
      var i := LastAcceptance(steps, r);
    }
  }

  /** The last step with which `r` accepts anybody. */
  lemma {:induction false} LastAcceptance(steps: seq<Step>, r: HostId) returns (i: nat)
    requires exists k :: 0 <= k < |steps| && Accepts(steps[k], r)
    ensures i < |steps| && Accepts(steps[i], r) && forall k :: i < k < |steps| ==> !Accepts(steps[k], r)
    decreases |steps|
  {
    i := |steps| - 1;
    if !Accepts(steps[i], r) {
      var front := steps[..i];
      var k :| 0 <= k < |steps| && Accepts(steps[k], r);
      assert front[k] == steps[k];
      i := LastAcceptance(front, r);
    }
  }

  lemma {:induction false} LastOfSome(steps: seq<Step>, r: HostId, first: string)
    ensures (forall i :: 0 <= i < |steps| ==> !Accepts(steps[i], r)) ==> LastAccepted(steps, r, first) == first
    ensures forall i ::
              0 <= i < |steps| && Accepts(steps[i], r) && (forall k :: i < k < |steps| ==> !Accepts(steps[k], r)) ==>
                LastAccepted(steps, r, first) == ClientOf(steps[i])
    decreases |steps|
  {
    if steps != [] {
      var rest := steps[1..];
      LastOfSome(rest, r, if Accepts(steps[0], r) then ClientOf(steps[0]) else first);
      assert forall k :: 0 <= k < |rest| ==> rest[k] == steps[k + 1];
    }
  }

  /** An announcement is recorded under the address of its connection exactly when the last client that the responder
      accepts between the connection and the announcement, if it accepts any, is seen at that address too. */
  lemma {:induction false} AttributionIff(w: World, s: State, connect: Step, more: seq<Step>, announce: Step)
    requires Proper(w) && Enabled(w, s, connect) && connect.Connect? && connect.r != connect.h
    requires Runs(w, After(w, s, connect), more) && Idle(more, connect.h) && Idle(more, connect.r)
    requires announce.Announce? && announce.h == connect.h
    ensures Enabled(w, End(w, After(w, s, connect), more), announce)
    ensures Recorded(End(w, After(w, s, connect), more), announce) == Node(connect.seenAs, s.hosts[connect.h].port) <==>
            LastIsFrom(more, connect.r, connect.seenAs)
  {
    hide IsAddress, LastIsFrom, IsClient;
    var s1 := After(w, s, connect);
    IdleKeepsPhase(w, s1, more, connect.h);
    BufferIsLastAccepted(w, s1, more, connect.r);
    LastAcceptedIs(more, connect.r, connect.seenAs);
  }

  lemma {:induction false} IdleKeepsPhase(w: World, s: State, steps: seq<Step>, h: HostId)
    requires Runs(w, s, steps) && h in s.hosts && Idle(steps, h)
    ensures s.hosts.Keys == End(w, s, steps).hosts.Keys
    ensures End(w, s, steps).hosts[h].phase == s.hosts[h].phase && End(w, s, steps).hosts[h].port == s.hosts[h].port
    ensures End(w, s, steps).hosts[h].session == s.hosts[h].session
    decreases |steps|
  {
    hide IsAddress, IsClient;
    if steps != [] {
      var s1 := After(w, s, steps[0]);
      assert s1.hosts.Keys == s.hosts.Keys by { SameHosts(w, s, steps[0]); }
      assert !Acts(steps[0], h);
      IdleKeepsPhase(w, s1, steps[1..], h);
    }
  }

  lemma SameHosts(w: World, s: State, step: Step)
    requires Enabled(w, s, step)
    ensures After(w, s, step).hosts.Keys == s.hosts.Keys
  {
    hide Moved;
  }

  lemma RunsFrom(w: World, s: State, step: Step, rest: seq<Step>)
    ensures Runs(w, s, [step] + rest) <==> Enabled(w, s, step) && Runs(w, After(w, s, step), rest)
    ensures Runs(w, s, [step] + rest) ==> End(w, s, [step] + rest) == End(w, After(w, s, step), rest)
  {
    hide After, Enabled;
    assert ([step] + rest)[1..] == rest;
  }

  // ---------------------------------------------------------------- the same for a whole run

  /** The announcement that a step would make is recorded under the address of its own connection. */
  ghost predicate Attributed(s: State, step: Step)
    requires step.h in s.hosts
  {
    Delivered(s, step) ==> s.hosts[s.hosts[step.h].phase.talk.peer].buffer == s.hosts[step.h].phase.talk.seenAs
  }

  ghost predicate RunAttributed(w: World, s: State, steps: seq<Step>)
    requires Runs(w, s, steps)
    decreases |steps|
  {
    steps == [] || (Attributed(s, steps[0]) && RunAttributed(w, After(w, s, steps[0]), steps[1..]))
  }

  /** The state after the first `i` steps. */
  ghost function At(w: World, s: State, steps: seq<Step>, i: nat): State
    requires Runs(w, s, steps) && i <= |steps|
    decreases i
  {
    if i == 0 then s else At(w, After(w, s, steps[0]), steps[1..], i - 1)
  }

  lemma {:induction false} AtNext(w: World, s: State, steps: seq<Step>, i: nat)
    requires Runs(w, s, steps) && i < |steps|
    ensures Enabled(w, At(w, s, steps, i), steps[i])
    ensures At(w, s, steps, i + 1) == After(w, At(w, s, steps, i), steps[i])
    decreases i
  {
    hide Enabled, After;
    if i > 0 {
      AtNext(w, After(w, s, steps[0]), steps[1..], i - 1);
      assert steps[1..][i - 1] == steps[i];
    }
  }

  /** The steps from the `i`-th up to the `j`-th lead from one of those states to the other. */
  lemma {:induction false} Between(w: World, s: State, steps: seq<Step>, i: nat, j: nat)
    requires Runs(w, s, steps) && i <= j <= |steps|
    ensures Runs(w, At(w, s, steps, i), steps[i..j])
    ensures End(w, At(w, s, steps, i), steps[i..j]) == At(w, s, steps, j)
    decreases j - i
  {
    hide Enabled, After;
    if i < j {
      AtNext(w, s, steps, i);
      Between(w, s, steps, i + 1, j);
      assert steps[i..j] == [steps[i]] + steps[i + 1..j];
      RunsFrom(w, At(w, s, steps, i), steps[i], steps[i + 1..j]);
    } else {
      assert steps[i..j] == [];
    }
  }

  ghost predicate IsAttributedAt(w: World, s: State, steps: seq<Step>, i: nat)
    requires Runs(w, s, steps) && i < |steps|
  {
    steps[i].h in At(w, s, steps, i).hosts && Attributed(At(w, s, steps, i), steps[i])
  }

  lemma {:induction false} AttributedAt(w: World, s: State, steps: seq<Step>)
    requires Runs(w, s, steps)
    ensures RunAttributed(w, s, steps) <==> forall i :: 0 <= i < |steps| ==> IsAttributedAt(w, s, steps, i)
    decreases |steps|
  {
    hide Enabled, After, Attributed;
    if steps != [] {
      var s1, rest := After(w, s, steps[0]), steps[1..];
      AttributedAt(w, s1, rest);
      EnabledIsThere(w, s, steps[0]);
      assert At(w, s, steps, 0) == s;
      forall i | 0 < i < |steps| ensures At(w, s, steps, i) == At(w, s1, rest, i - 1) && steps[i] == rest[i - 1] {
      }
      if RunAttributed(w, s, steps) {
        forall i | 0 <= i < |steps| ensures IsAttributedAt(w, s, steps, i) {
          assert i > 0 ==> rest[i - 1] == steps[i] && IsAttributedAt(w, s1, rest, i - 1);
        }
      } else {
        assert !Attributed(s, steps[0]) || exists i :: 0 <= i < |rest| && !IsAttributedAt(w, s1, rest, i);
        if i :| 0 <= i < |rest| && !IsAttributedAt(w, s1, rest, i) {
          assert !IsAttributedAt(w, s, steps, i + 1);
        } else {
          assert !IsAttributedAt(w, s, steps, 0);
        }
      }
    }
  }

  /** Wherever an announcement follows its connection, and the responder did not stop in between, the last client that
      the responder accepted in between, if any, was seen at the address of the connection. */
  ghost predicate Undisturbed(steps: seq<Step>) {
    forall j, i :: 0 <= j < i < |steps| && IsExchange(steps, j, i) ==>
      LastIsFrom(steps[j + 1..i], steps[j].r, steps[j].seenAs)
  }

  /** The announcement at `i` is on the connection made at `j`. */
  ghost predicate IsExchange(steps: seq<Step>, j: nat, i: nat)
    requires j < i < |steps|
  {
    steps[j].Connect? && steps[i].Announce? && steps[i].h == steps[j].h &&
    Idle(steps[j + 1..i], steps[j].h) && Idle(steps[j + 1..i], steps[j].r)
  }

  lemma NobodyIsConnected(w: World, s: State, h: HostId)
    requires Initial(w, s) && h in s.hosts
    ensures !s.hosts[h].phase.Booting?
  {
  }

  /** Who is connected after a step has just connected, or was connected and did nothing. */
  lemma ConnectedBefore(w: World, s: State, step: Step, h: HostId)
    requires Enabled(w, s, step) && h in After(w, s, step).hosts && After(w, s, step).hosts[h].phase.Booting?
    requires After(w, s, step).hosts[h].phase.talk.Connected?
    ensures h in s.hosts
    ensures var talk := After(w, s, step).hosts[h].phase.talk;
            if Acts(step, h) then step == Connect(h, talk.peer, talk.seenAs) && talk.peer in s.hosts
                                  && talk.session == s.hosts[talk.peer].session
            else s.hosts[h].phase.Booting? && s.hosts[h].phase.talk == talk
  {
    hide IsAddress, IsClient;
  }

  /** Who is connected made the connection in this run, and has taken no step since. */
  lemma {:induction false} OwnConnect(w: World, s: State, steps: seq<Step>, i: nat, h: HostId) returns (j: nat)
    requires Initial(w, s) && Runs(w, s, steps) && i <= |steps|
    requires h in At(w, s, steps, i).hosts && At(w, s, steps, i).hosts[h].phase.Booting?
    requires At(w, s, steps, i).hosts[h].phase.talk.Connected?
    ensures j < i && Idle(steps[j + 1..i], h)
    ensures var talk := At(w, s, steps, i).hosts[h].phase.talk;
            && steps[j] == Connect(h, talk.peer, talk.seenAs) && talk.peer in At(w, s, steps, j).hosts
            && talk.session == At(w, s, steps, j).hosts[talk.peer].session
    decreases i
  {
    hide IsAddress, IsClient, Runs, After, Enabled, Initial;
    assert i > 0 by { if i == 0 { NobodyIsConnected(w, s, h); } }
    AtNext(w, s, steps, i - 1);
    ConnectedBefore(w, At(w, s, steps, i - 1), steps[i - 1], h);
    if Acts(steps[i - 1], h) {
      j := i - 1;
      assert steps[j + 1..i] == [];
    } else {
      j := OwnConnect(w, s, steps, i - 1, h);
      assert steps[j + 1..i] == steps[j + 1..i - 1] + [steps[i - 1]];
    }
  }

  /** A session that is over does not come back. */
  lemma {:induction false} OverStaysOver(w: World, s: State, steps: seq<Step>, r: HostId, session: nat)
    requires Runs(w, s, steps) && r in s.hosts
    requires s.hosts[r].session > session || (s.hosts[r].session == session && s.hosts[r].phase.Down?)
    ensures !Live(End(w, s, steps), r, session)
    decreases |steps|
  {
    hide IsAddress, IsClient;
    if steps != [] {
      OverStaysOver(w, After(w, s, steps[0]), steps[1..], r, session);
    }
  }

  /** A responder that is still in its session has not acted. */
  lemma {:induction false} LiveIsIdle(w: World, s: State, steps: seq<Step>, r: HostId)
    requires Runs(w, s, steps) && r in s.hosts && s.hosts[r].phase.Serving?
    requires Live(End(w, s, steps), r, s.hosts[r].session)
    ensures Idle(steps, r)
    decreases |steps|
  {
    hide IsAddress, IsClient;
    if steps != [] {
      var s1 := After(w, s, steps[0]);
      if Acts(steps[0], r) {
        OverStaysOver(w, s1, steps[1..], r, s.hosts[r].session);
        assert false;
      } else {
        LiveIsIdle(w, s1, steps[1..], r);
        assert steps == [steps[0]] + steps[1..];
      }
    }
  }

  lemma ConnectsToAnother(w: World, s: State, connect: Step)
    requires Proper(w) && Enabled(w, s, connect) && connect.Connect?
    ensures connect.r != connect.h && connect.r in s.hosts && s.hosts[connect.r].phase.Serving?
  {
    hide IsAddress, IsClient;
    OwnAddress(w, connect.r, Destination(s.hosts[connect.h]).addr);
  }

  /** One exchange of a run: it is delivered, and rightly attributed exactly when no client overtook it. */
  lemma ExchangeAttributedIff(w: World, s: State, steps: seq<Step>, j: nat, i: nat)
    requires Proper(w) && Runs(w, s, steps) && j < i < |steps| && IsExchange(steps, j, i)
    ensures steps[i].h in At(w, s, steps, i).hosts && Delivered(At(w, s, steps, i), steps[i])
    ensures Attributed(At(w, s, steps, i), steps[i]) <==> LastIsFrom(steps[j + 1..i], steps[j].r, steps[j].seenAs)
  {
    hide IsAddress, IsClient, LastIsFrom, Runs, End;
    var sj, more := At(w, s, steps, j), steps[j + 1..i];
    AtNext(w, s, steps, j);
    Between(w, s, steps, j + 1, i);
    ConnectsToAnother(w, sj, steps[j]);
    AttributionIff(w, sj, steps[j], more, steps[i]);
    IdleKeepsPhase(w, After(w, sj, steps[j]), more, steps[j].h);
    IdleKeepsPhase(w, After(w, sj, steps[j]), more, steps[j].r);
  }

  /** An announcement that is delivered is the end of such an exchange. */
  lemma DeliveredIsExchange(w: World, s: State, steps: seq<Step>, i: nat) returns (j: nat)
    requires Proper(w) && Initial(w, s) && Runs(w, s, steps) && i < |steps|
    requires steps[i].h in At(w, s, steps, i).hosts && Delivered(At(w, s, steps, i), steps[i])
    ensures j < i && IsExchange(steps, j, i)
  {
    hide IsAddress, IsClient, Runs, End;
    var h := steps[i].h;
    j := OwnConnect(w, s, steps, i, h);
    var sj := At(w, s, steps, j);
    AtNext(w, s, steps, j);
    Between(w, s, steps, j + 1, i);
    ConnectsToAnother(w, sj, steps[j]);
    LiveIsIdle(w, After(w, sj, steps[j]), steps[j + 1..i], steps[j].r);
  }

  /** Every announcement of a run is recorded under the address of its sender exactly when none is overtaken. */
  lemma AttributedIffUndisturbed(w: World, s: State, steps: seq<Step>)
    requires Proper(w) && Initial(w, s) && Runs(w, s, steps)
    ensures RunAttributed(w, s, steps) <==> Undisturbed(steps)
  {
    hide IsAddress, IsClient, Runs, Attributed, LastIsFrom, IsExchange, Delivered, Enabled;
    AttributedAt(w, s, steps);
    if RunAttributed(w, s, steps) {
      forall j, i | 0 <= j < i < |steps| && IsExchange(steps, j, i)
        ensures steps[j].Connect? && LastIsFrom(steps[j + 1..i], steps[j].r, steps[j].seenAs)
      {
        ExchangeConnects(steps, j, i);
        ExchangeAttributedIff(w, s, steps, j, i);
        assert IsAttributedAt(w, s, steps, i);
      }
    } else {
      var i :| 0 <= i < |steps| && !IsAttributedAt(w, s, steps, i);
      AtNext(w, s, steps, i);
      EnabledIsThere(w, At(w, s, steps, i), steps[i]);
      NotAttributedIsDelivered(At(w, s, steps, i), steps[i]);
      var j := DeliveredIsExchange(w, s, steps, i);
      ExchangeConnects(steps, j, i);
      ExchangeAttributedIff(w, s, steps, j, i);
    }
  }

  lemma ExchangeConnects(steps: seq<Step>, j: nat, i: nat)
    requires j < i < |steps| && IsExchange(steps, j, i)
    ensures steps[j].Connect?
  {
  }

  lemma EnabledIsThere(w: World, s: State, step: Step)
    requires Enabled(w, s, step)
    ensures step.h in s.hosts
  {
  }

  lemma NotAttributedIsDelivered(s: State, step: Step)
    requires step.h in s.hosts && !Attributed(s, step)
    ensures Delivered(s, step)
  {
  }

  // ---------------------------------------------------------------- who announced them

  /** The nodes that announced themselves, with the address of the connection and the port they named. */
  ghost function Genuine(announced: set<Announcement>): iset<Node> {
    iset a | a in announced :: a.node
  }

  /** Those, for every host but the ones that have the address. */
  ghost function GenuineOthers(w: World, announced: set<Announcement>): Listing {
    iset h: HostId, n: Node | h in w.mine && n in Genuine(announced) && !IsMyIp(n.addr, w.mine[h]) :: (h, n)
  }

  lemma {:induction false} LogGrows(w: World, s: State, steps: seq<Step>)
    requires Runs(w, s, steps)
    ensures s.announced <= End(w, s, steps).announced
    decreases |steps|
  {
    if steps != [] {
      LogGrows(w, After(w, s, steps[0]), steps[1..]);
    }
  }

  lemma {:induction false} AttributedRunRecordsGenuine(w: World, s: State, steps: seq<Step>,
                                                       announced: set<Announcement>)
    requires Proper(w) && Inv(w, s, Anything()) && Runs(w, s, steps) && RunAttributed(w, s, steps)
    requires End(w, s, steps).announced <= announced
    ensures RunRecordsGood(w, s, steps, GenuineOthers(w, announced))
    decreases |steps|
  {
    hide IsAddress, Inv, Enabled, Anything, Consistent, IsClient, RecordsGood, Attributed, Genuine, GenuineOthers;
    if steps != [] {
      var s1 := After(w, s, steps[0]);
      LogGrows(w, s1, steps[1..]);
      AttributedRecordsGenuine(w, s, steps[0], announced);
      StepRecordsNode(w, s, steps[0]);
      AnythingIsConsistent(w);
      StepKeepsInv(w, s, steps[0], Anything());
      AttributedRunRecordsGenuine(w, s1, steps[1..], announced);
    }
  }

  lemma AttributedRecordsGenuine(w: World, s: State, step: Step, announced: set<Announcement>)
    requires Proper(w) && Inv(w, s, Anything()) && Enabled(w, s, step) && Attributed(s, step)
    requires After(w, s, step).announced <= announced
    ensures RecordsGood(s, step, GenuineOthers(w, announced))
  {
    hide IsAddress, HostOk, LogOk, IsClient;
    if Delivered(s, step) {
      var talk := s.hosts[step.h].phase.talk;
      assert ConnectionOk(w, s, step.h, talk);
      OwnAddress(w, step.h, talk.seenAs);
      var a := Announcement(step.h, Node(talk.seenAs, s.hosts[step.h].port));
      assert a in announced && a.node == Recorded(s, step);
    }
  }

  /** Some step of the run is an ADD_NODE from `owner` that names the port of `n` on a connection from its address. */
  ghost predicate Announces(w: World, s: State, steps: seq<Step>, owner: HostId, n: Node)
    requires Runs(w, s, steps)
    decreases |steps|
  {
    steps != [] &&
    ((steps[0].Announce? && steps[0].h == owner &&
      Node(s.hosts[owner].phase.talk.seenAs, s.hosts[owner].port) == n) ||
     Announces(w, After(w, s, steps[0]), steps[1..], owner, n))
  }

  /** The log holds exactly the announcements that the run made. */
  lemma {:induction false} LogIsHistory(w: World, s: State, steps: seq<Step>, a: Announcement)
    requires Runs(w, s, steps)
    ensures a in End(w, s, steps).announced <==> a in s.announced || Announces(w, s, steps, a.sender, a.node)
    decreases |steps|
  {
    if steps != [] {
      LogIsHistory(w, After(w, s, steps[0]), steps[1..], a);
    }
  }

  lemma {:induction false} LogStaysOk(w: World, s: State, steps: seq<Step>)
    requires Proper(w) && Inv(w, s, Anything()) && Runs(w, s, steps)
    ensures LogOk(w, End(w, s, steps).announced)
  {
    AnyRunKeepsInv(w, s, steps);
  }

  lemma GenuineIsConsistent(w: World, announced: set<Announcement>)
    requires Proper(w) && LogOk(w, announced)
    ensures Consistent(w, GenuineOthers(w, announced))
  {
    hide IsValidUtf8;
    forall h, n | (h, n) in GenuineOthers(w, announced) ensures Wire.IsNode(n) && n.addr != ALL_INTERFACES {
      var a :| a in announced && a.node == n;
      OwnAddress(w, a.sender, n.addr);
    }
  }

  /** Who announced a row: in every state that a run reaches in which no announcement is overtaken by another client,
      each row of a table names an address and port that another node, which has the address, announced in that run. */
  lemma Provenance(w: World, s: State, steps: seq<Step>, h: HostId)
    requires Proper(w) && Initial(w, s) && Runs(w, s, steps) && Undisturbed(steps) && h in w.mine
    ensures h in End(w, s, steps).hosts
    ensures forall row :: row in End(w, s, steps).hosts[h].rows ==> Originates(w, s, steps, h, row.node)
  {
    hide IsAddress, Wire.IsNode, Announces, Enabled, Genuine, ConnectionOk, Undisturbed, Consistent, IsClient;
    AttributedIffUndisturbed(w, s, steps);
    InitialIsOk(w, s, Anything());
    LogStaysOk(w, s, steps);
    var announced := End(w, s, steps).announced;
    GenuineIsConsistent(w, announced);
    InitialIsOk(w, s, GenuineOthers(w, announced));
    AttributedRunRecordsGenuine(w, s, steps, announced);
    RunKeepsInv(w, s, steps, GenuineOthers(w, announced));
    forall row | row in End(w, s, steps).hosts[h].rows ensures Originates(w, s, steps, h, row.node) {
      GenuineOriginates(w, s, steps, h, row.node);
    }
  }

  /** In this run another node, which has the address of `n`, announced `n`. */
  ghost predicate Originates(w: World, s: State, steps: seq<Step>, h: HostId, n: Node)
    requires Runs(w, s, steps)
  {
    exists owner :: owner in w.public && n.addr in w.public[owner] && owner != h && Announces(w, s, steps, owner, n)
  }

  lemma GenuineOriginates(w: World, s: State, steps: seq<Step>, h: HostId, n: Node)
    requires Proper(w) && Runs(w, s, steps) && s.announced == {} && h in w.mine
    requires LogOk(w, End(w, s, steps).announced)
    requires n in Genuine(End(w, s, steps).announced) && !IsMyIp(n.addr, w.mine[h])
    ensures Originates(w, s, steps, h, n)
  {
    hide Announces, IsAddress;
    var a :| a in End(w, s, steps).announced && a.node == n;
    LogIsHistory(w, s, steps, a);
    OwnAddress(w, a.sender, n.addr);
  }

  // ---------------------------------------------------------------- distinct nodes

  ghost predicate AllDistinct(s: State) {
    forall h :: h in s.hosts ==> NoDuplicates(s.hosts[h].rows)
  }

  /** The step makes an insert whose SELECT fails on a listed node. */
  predicate InsertsBlindly(w: World, s: State, step: Step)
    requires step.h in s.hosts && step.h in w.mine
  {
    match step
    case Announce(h, luck) =>
      Delivered(s, step) && luck.opens && Blind(s.hosts[s.hosts[h].phase.talk.peer].rows, Recorded(s, step), luck)
    case Store(h, luck) =>
      var phase := s.hosts[h].phase;
      phase.Booting? && phase.talk.Receiving? && phase.talk.k < |phase.talk.all| &&
      var n := phase.talk.all[phase.talk.k];
      !IsMyIp(n.addr, w.mine[h]) && Blind(s.hosts[h].rows, n, luck)
    case _ => false
  }

  /** A step leaves the nodes of every table distinct exactly when it is not one of those. */
  lemma StepDistinctIff(w: World, s: State, step: Step, good: Listing)
    requires Inv(w, s, good) && Enabled(w, s, step) && AllDistinct(s)
    ensures AllDistinct(After(w, s, step)) <==> !InsertsBlindly(w, s, step)
  {
    hide IsAddress, HostOk, NoDuplicates, Blind, LogOk;
    var s' := After(w, s, step);
    assert forall h :: h in s.hosts ==> NoDuplicates(s.hosts[h].rows);
    match step {
      case Unreachable(h, _) =>
        WithoutKeepsDistinct(s.hosts[h].rows, Destination(s.hosts[h]));
      case Store(h, luck) =>
        var talk := s.hosts[h].phase.talk;
        InsertDistinctIff(s.hosts[h].rows, talk.all[talk.k], luck);
        assert s'.hosts[h].rows == StoredOne(s.hosts[h].rows, talk.all[talk.k], w.mine[h], luck);
      case Announce(h, luck) =>
        if Delivered(s, step) && luck.opens {
          var peer := s.hosts[h].phase.talk.peer;
          assert peer != h && s'.hosts[peer].rows == Inserted(s.hosts[peer].rows, Recorded(s, step), luck);
          InsertDistinctIff(s.hosts[peer].rows, Recorded(s, step), luck);
        }
      case _ =>
    }
  }

  ghost predicate NeverInsertsBlindly(w: World, s: State, steps: seq<Step>)
    requires Runs(w, s, steps)
    decreases |steps|
  {
    steps == [] || (!InsertsBlindly(w, s, steps[0]) && NeverInsertsBlindly(w, After(w, s, steps[0]), steps[1..]))
  }

  /** No node has two rows as long as no SELECT fails on a listed node. */
  lemma {:induction false} RunStaysDistinct(w: World, s: State, steps: seq<Step>)
    requires Proper(w) && Inv(w, s, Anything()) && Runs(w, s, steps) && AllDistinct(s)
    requires NeverInsertsBlindly(w, s, steps)
    ensures AllDistinct(End(w, s, steps))
    decreases |steps|
  {
    hide IsAddress, Inv, Wire.IsNode, Enabled, AllDistinct, InsertsBlindly, Anything, Consistent;
    if steps != [] {
      StepDistinctIff(w, s, steps[0], Anything());
      StepRecordsNode(w, s, steps[0]);
      AnythingIsConsistent(w);
      StepKeepsInv(w, s, steps[0], Anything());
      RunStaysDistinct(w, After(w, s, steps[0]), steps[1..]);
    }
  }

  // ---------------------------------------------------------------- what tables keep

  /** A table loses rows in one kind of step only: the sweep over the local database removes the node it could not
      reach, and all rows of it. */
  lemma TableShrinksOnlyInLocalSweep(w: World, s: State, step: Step, h: HostId)
    requires Enabled(w, s, step) && h in s.hosts
    ensures h in After(w, s, step).hosts
    ensures var rows, rows' := s.hosts[h].rows, After(w, s, step).hosts[h].rows;
            if step.Unreachable? && step.h == h && s.hosts[h].phase.local && step.luck.execs
            then rows' == Without(rows, Destination(s.hosts[h])) && !Lists(rows', Destination(s.hosts[h]))
            else rows <= rows'
  {
    var rows := s.hosts[h].rows;
    match step {
      case Unreachable(g, luck) =>
        if g == h && s.hosts[h].phase.local && luck.execs {
          WithoutForgets(rows, Destination(s.hosts[h]));
        }
      case Store(g, luck) =>
        InsertLists(s.hosts[g].rows, s.hosts[g].phase.talk.all[s.hosts[g].phase.talk.k], luck);
      case Announce(g, luck) =>
        if Delivered(s, step) {
          InsertLists(rows, Recorded(s, step), luck);
        }
      case _ =>
    }
  }

  lemma WithoutForgets(rows: seq<Row>, n: Node)
    ensures !Lists(Without(rows, n), n)
    ensures forall m :: m != n ==> (Lists(Without(rows, n), m) <==> Lists(rows, m))
  {
    var rows' := Without(rows, n);
    assert forall i :: 0 <= i < |rows'| ==> rows'[i] in rows' && rows'[i].node != n;
    forall m | m != n ensures Lists(rows', m) <==> Lists(rows, m) {
      if i :| 0 <= i < |rows| && rows[i].node == m {
        assert rows[i] in rows';
      }
      if i :| 0 <= i < |rows'| && rows'[i].node == m {
        assert rows'[i] in rows;
      }
    }
  }

  /** A node that keeps serving forgets nobody. */
  lemma {:induction false} ServingForgetsNobody(w: World, s: State, steps: seq<Step>, h: HostId)
    requires Runs(w, s, steps) && h in s.hosts && Idle(steps, h)
    ensures h in End(w, s, steps).hosts && s.hosts[h].rows <= End(w, s, steps).hosts[h].rows
    decreases |steps|
  {
    hide Enabled, After;
    if steps != [] {
      TableShrinksOnlyInLocalSweep(w, s, steps[0], h);
      ServingForgetsNobody(w, After(w, s, steps[0]), steps[1..], h);
    }
  }

  /** After an announcement with a working insert the responder lists what it recorded, for as long as it serves. */
  lemma AnnouncedIsListed(w: World, s: State, step: Step, more: seq<Step>, good: Listing)
    requires Inv(w, s, good) && Enabled(w, s, step) && Delivered(s, step) && step.luck.Adds()
    requires Runs(w, After(w, s, step), more) && Idle(more, s.hosts[step.h].phase.talk.peer)
    ensures var r, s' := s.hosts[step.h].phase.talk.peer, End(w, After(w, s, step), more);
            r in s'.hosts && Lists(s'.hosts[r].rows, Recorded(s, step))
  {
    hide IsValidUtf8, HostOk, LogOk, ConnectionOk;
    var s1, r, n := After(w, s, step), s.hosts[step.h].phase.talk.peer, Recorded(s, step);
    RecordedIsNode(w, s, step, good);
    InsertLists(s.hosts[r].rows, n, step.luck);
    ServingForgetsNobody(w, s1, more, r);
    ListsMore(s1.hosts[r].rows, End(w, s1, more).hosts[r].rows, n);
  }

  // ---------------------------------------------------------------- the effect of an exchange

  /** Steps of `h` only store entries, with inserts that work. */
  ghost predicate OnlyStores(steps: seq<Step>, h: HostId) {
    forall i :: 0 <= i < |steps| && steps[i].h == h ==> steps[i].Store? && steps[i].luck.Adds()
  }

  lemma {:induction false} StoringKeepsTalk(w: World, s: State, steps: seq<Step>, h: HostId)
    requires Runs(w, s, steps) && h in s.hosts && OnlyStores(steps, h)
    requires s.hosts[h].phase.Booting? && s.hosts[h].phase.talk.Receiving?
    ensures var s' := End(w, s, steps);
            h in s'.hosts && s'.hosts[h].phase.Booting? && s'.hosts[h].phase.talk.Receiving? &&
            s'.hosts[h].phase.talk.all == s.hosts[h].phase.talk.all &&
            s'.hosts[h].phase.talk.lost == s.hosts[h].phase.talk.lost &&
            s.hosts[h].rows <= s'.hosts[h].rows
    decreases |steps|
  {
    hide IsAddress;
    if steps != [] {
      TableShrinksOnlyInLocalSweep(w, s, steps[0], h);
      StoringKeepsTalk(w, After(w, s, steps[0]), steps[1..], h);
    }
  }

  /** The effect of an exchange, whatever the other nodes do meanwhile: from a fetch up to the end of its exchange,
      without a database error here, a node keeps what it had and stores every entry it was sent, except its own; and
      it was sent at most sixteen. */
  lemma FetchedIsStored(w: World, s: State, fetch: Step, stores: seq<Step>)
    requires Proper(w) && Inv(w, s, Anything()) && Enabled(w, s, fetch) && fetch.Fetch?
    requires Runs(w, After(w, s, fetch), stores) && OnlyStores(stores, fetch.h)
    requires Enabled(w, End(w, After(w, s, fetch), stores), EndExchange(fetch.h))
    ensures var h, talk := fetch.h, s.hosts[fetch.h].phase.talk;
            var sent := Sent(s, talk.peer, talk.session, fetch.luck);
            var rows' := End(w, After(w, s, fetch), stores).hosts[h].rows;
            && |sent| <= MAX_ACTIVE_NODES
            && s.hosts[h].rows <= rows'
            && forall n :: n in sent && !IsMyIp(n.addr, w.mine[h]) ==> Lists(rows', n)
  {
    hide IsAddress, TableOk, Anything, LogOk, ConnectionOk, Consistent, IsClient;
    var s1 := After(w, s, fetch);
    AnythingIsConsistent(w);
    StepKeepsInv(w, s, fetch, Anything());
    AnyRunKeepsInv(w, s1, stores);
    StoringKeepsTalk(w, s1, stores, fetch.h);
    var s2 := End(w, s1, stores);
    var talk := s2.hosts[fetch.h].phase.talk;
    assert ReceivedOk(Anything(), w.mine[fetch.h], s2.hosts[fetch.h].rows, talk);
    forall n | n in talk.all && !IsMyIp(n.addr, w.mine[fetch.h]) ensures Lists(s2.hosts[fetch.h].rows, n) {
      var j :| 0 <= j < |talk.all| && talk.all[j] == n;
    }
  }

  /** The steps above are what the messages do: in every such state each request is understood as it was meant, whatever
      an earlier one left behind it in the buffer, and the reply with a node's entries fits the buffer of the
      initiator and is read back entry by entry. */
  lemma MessagesArrive(w: World, s: State, h: HostId, r: HostId, luck: Luck, buffer: string)
    requires Inv(w, s, Anything()) && h in s.hosts && r in s.hosts && !s.hosts[h].phase.Down?
    ensures var announcement := Wire.AddNodeRequest(s.hosts[h].port);
            && Serializer.Printable(announcement)
            && Wire.Understand(Received(buffer, Serializer.Text(announcement, 0, Wire.WIRE))) ==
               Wire.AddNode(s.hosts[h].port)
    ensures Serializer.Printable(Wire.GetNodesRequest())
    ensures Wire.Understand(Received(buffer, Serializer.Text(Wire.GetNodesRequest(), 0, Wire.WIRE))) == Wire.GetNodes
    ensures var sent := luck.Given(s.hosts[r].rows);
            && Serializer.Printable(Wire.NodesReply(sent))
            && |Serializer.Text(Wire.NodesReply(sent), 0, Wire.WIRE)| < Wire.BUFFER_SIZE
            && Wire.ReadNodes(Serializer.Text(Wire.NodesReply(sent), 0, Wire.WIRE)) == Some(sent)
  {
    hide Serializer.Text, Wire.Understand, Wire.ReadNodes, Wire.NodesReply, Wire.AddNodeRequest, Serializer.Printable,
         IsAddress, Wire.IsNode, Received, Wire.GetNodesRequest, ConnectionOk, LogOk;
    RequestsArrive(buffer, s.hosts[h].port);
    var sent := luck.Given(s.hosts[r].rows);
    GivenAreGood(Anything(), r, s.hosts[r].rows, luck);
    forall i | 0 <= i < |sent| ensures Wire.IsNode(sent[i]) {
      assert sent[i] in sent;
    }
    Wire.NodesArrive(sent, "");
    assert Serializer.Text(Wire.NodesReply(sent), 0, Wire.WIRE) + "" ==
           Serializer.Text(Wire.NodesReply(sent), 0, Wire.WIRE);
    Wire.NodesReplyFits(sent);
  }

  /** Where no row is at an own address, the sweep over the local database never meets one, so it contacts every node it
      starts with. */
  lemma LocalSweepSkipsNobody(w: World, s: State, h: HostId)
    requires Inv(w, s, Known(w)) && h in s.hosts && s.hosts[h].phase.Booting? && s.hosts[h].phase.local
    ensures !Enabled(w, s, Skip(h))
  {
    hide IsAddress;
    if AtDestination(s.hosts[h]) {
      assert Destination(s.hosts[h]) in s.hosts[h].phase.dests;
    }
  }

  /** The storing of a reply as steps, one for each insert. */
  function StoreSteps(h: HostId, lucks: seq<Luck>): seq<Step> {
    if lucks == [] then [] else [Store(h, lucks[0])] + StoreSteps(h, lucks[1..])
  }

  /** Done without a break, the steps leave the table that the loop of the exchange leaves. */
  lemma {:induction false} StepsAreTheLoop(w: World, s: State, h: HostId, lucks: seq<Luck>)
    requires h in s.hosts && h in w.mine && h in w.public && Visiting(s.hosts[h]) && s.hosts[h].phase.talk.Receiving?
    requires s.hosts[h].phase.talk.k + |lucks| == |s.hosts[h].phase.talk.all|
    ensures Runs(w, s, StoreSteps(h, lucks))
    ensures var talk, s' := s.hosts[h].phase.talk, End(w, s, StoreSteps(h, lucks));
            h in s'.hosts && Enabled(w, s', EndExchange(h)) &&
            s'.hosts[h].rows == Stored(s.hosts[h].rows, talk.all[talk.k..], w.mine[h], lucks)
    decreases |lucks|
  {
    var talk := s.hosts[h].phase.talk;
    if lucks != [] {
      var s1 := After(w, s, Store(h, lucks[0]));
      StepsAreTheLoop(w, s1, h, lucks[1..]);
      RunsFrom(w, s, Store(h, lucks[0]), StoreSteps(h, lucks[1..]));
      assert talk.all[talk.k..][1..] == talk.all[talk.k + 1..];
    }
  }

  // ---------------------------------------------------------------- a removed node can come back

  /** `h` stays in the sweep it is in. */
  ghost predicate Sweeping(steps: seq<Step>, h: HostId) {
    forall i :: 0 <= i < |steps| && steps[i].h == h ==> !steps[i].Start? && !steps[i].Stop? && !steps[i].EndSweep?
  }

  /** Some step of `h` stores `n`, with an insert that works. */
  ghost predicate StoresAnew(w: World, s: State, steps: seq<Step>, h: HostId, n: Node)
    requires Runs(w, s, steps)
    decreases |steps|
  {
    steps != [] &&
    ((steps[0].Store? && steps[0].h == h && steps[0].luck.prepares && steps[0].luck.execs &&
      s.hosts[h].phase.talk.all[s.hosts[h].phase.talk.k] == n) ||
     StoresAnew(w, After(w, s, steps[0]), steps[1..], h, n))
  }

  lemma {:induction false} ListedIffStored(w: World, s: State, steps: seq<Step>, h: HostId, n: Node)
    requires Runs(w, s, steps) && Sweeping(steps, h) && h in s.hosts && h in w.mine
    requires s.hosts[h].phase.Booting? && s.hosts[h].phase.local && s.hosts[h].phase.i <= |s.hosts[h].phase.dests|
    requires n !in s.hosts[h].phase.dests[s.hosts[h].phase.i..]
    requires |n.addr| <= MAX_ADDR_LENGTH && !IsMyIp(n.addr, w.mine[h])
    ensures h in End(w, s, steps).hosts
    ensures Lists(End(w, s, steps).hosts[h].rows, n) <==> Lists(s.hosts[h].rows, n) || StoresAnew(w, s, steps, h, n)
    decreases |steps|
  {
    hide Lists;
    if steps != [] {
      var s1 := After(w, s, steps[0]);
      SweepStep(w, s, steps[0], h, n);
      ListedIffStored(w, s1, steps[1..], h, n);
    }
  }

  /** One step of the sweep, seen from a node that it does not visit any more. */
  lemma SweepStep(w: World, s: State, step: Step, h: HostId, n: Node)
    requires Enabled(w, s, step) && h in s.hosts && h in w.mine
    requires step.h == h ==> !step.Start? && !step.Stop? && !step.EndSweep?
    requires s.hosts[h].phase.Booting? && s.hosts[h].phase.local && s.hosts[h].phase.i <= |s.hosts[h].phase.dests|
    requires n !in s.hosts[h].phase.dests[s.hosts[h].phase.i..]
    requires |n.addr| <= MAX_ADDR_LENGTH && !IsMyIp(n.addr, w.mine[h])
    ensures var s' := After(w, s, step);
            && h in s'.hosts && s'.hosts[h].phase.Booting? && s'.hosts[h].phase.local
            && s'.hosts[h].phase.i <= |s'.hosts[h].phase.dests|
            && n !in s'.hosts[h].phase.dests[s'.hosts[h].phase.i..]
            && (Lists(s'.hosts[h].rows, n) <==>
                Lists(s.hosts[h].rows, n) ||
                (step.Store? && step.h == h && step.luck.prepares && step.luck.execs &&
                 s.hosts[h].phase.talk.all[s.hosts[h].phase.talk.k] == n))
  {
    var host := s.hosts[h];
    if step.h == h {
      match step {
        case Unreachable(_, _) =>
          assert Destination(host) == host.phase.dests[host.phase.i..][0];
          WithoutForgets(host.rows, Destination(host));
        case Store(_, luck) =>
          InsertLists(host.rows, host.phase.talk.all[host.phase.talk.k], luck);
        case _ =>
      }
      if After(w, s, step).hosts[h].phase.i > host.phase.i {
        assert host.phase.dests[host.phase.i + 1..] == host.phase.dests[host.phase.i..][1..];
      }
    }
  }

  /** In the rest of a sweep over the local database, a node it has removed is in the table again exactly when a later
      exchange of that sweep stores it with an insert that works. */
  lemma RemovedReturnsIff(w: World, s: State, remove: Step, more: seq<Step>, good: Listing)
    requires Consistent(w, good) && Inv(w, s, good) && Enabled(w, s, remove) && remove.Unreachable? && remove.luck.execs
    requires s.hosts[remove.h].phase.local && Runs(w, After(w, s, remove), more) && Sweeping(more, remove.h)
    requires Destination(s.hosts[remove.h]) !in s.hosts[remove.h].phase.dests[s.hosts[remove.h].phase.i + 1..]
    ensures var h, n, s1 := remove.h, Destination(s.hosts[remove.h]), After(w, s, remove);
            && h in s1.hosts && !Lists(s1.hosts[h].rows, n)
            && h in End(w, s1, more).hosts
            && (Lists(End(w, s1, more).hosts[h].rows, n) <==> StoresAnew(w, s1, more, h, n))
  {
    hide IsValidUtf8, Lists, ConnectionOk, LogOk;
    var h, n := remove.h, Destination(s.hosts[remove.h]);
    assert n in s.hosts[h].phase.dests;
    WithoutForgets(s.hosts[h].rows, n);
    ListedIffStored(w, After(w, s, remove), more, h, n);
  }
}
