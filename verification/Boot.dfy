/** The boot of a node before it serves: the loops of server.c over INIT_NODES and over the local database. */
module Boot {
  import opened Unicode
  import opened NodeTables
  import opened Exchange
  import Wire

  /** What a visit to one destination meets: the table of the node that answers there, if one does, the address it
      has on record for this host, the database calls on both sides, and the announcements of others meanwhile. */
  datatype Visit = Visit(peer: NodeTable?, recordedAs: string, addLuck: Luck, getLuck: Luck, lucks: seq<Luck>,
                         before: seq<Arrival>, after: seq<Arrival>)

  ghost predicate VisitOk(v: Visit, peers: set<NodeTable>) {
    && |v.lucks| == MAX_ACTIVE_NODES + 1
    && (v.peer != null ==> v.peer in peers && IsAddress(v.recordedAs))
    && (forall i :: 0 <= i < |v.before| ==> Wire.IsNode(v.before[i].node))
    && (forall i :: 0 <= i < |v.after| ==> Wire.IsNode(v.after[i].node))
  }

  /** No SELECT of the visit fails on this side. */
  predicate Sees(v: Visit) {
    forall i :: 0 <= i < |v.lucks| ==> v.lucks[i].selects
  }

  predicate AllSee(visits: seq<Visit>) {
    forall i :: 0 <= i < |visits| ==> Sees(visits[i])
  }

  /** A table that holds nodes only, and no own address. */
  ghost predicate OthersOnly(rows: seq<Row>, mine: set<string>) {
    Sound(rows) && forall row :: row in rows ==> !IsMyIp(row.node.addr, mine)
  }

  lemma StoredIsOk(rows: seq<Row>, nodes: seq<Node>, mine: set<string>, lucks: seq<Luck>)
    requires OthersOnly(rows, mine) && |nodes| <= |lucks| && forall i :: 0 <= i < |nodes| ==> Wire.IsNode(nodes[i])
    ensures OthersOnly(Stored(rows, nodes, mine, lucks), mine)
  {
    hide Wire.IsNode;
    StoredRows(rows, nodes, mine, lucks);
    var rows' := Stored(rows, nodes, mine, lucks);
    forall i | 0 <= i < |rows'| ensures Wire.IsNode(rows'[i].node) {
      assert rows'[i] in rows';
    }
  }

  lemma {:induction false} NeverBlindWhenSeeing(rows: seq<Row>, nodes: seq<Node>, mine: set<string>, lucks: seq<Luck>)
    requires |nodes| <= |lucks| && forall i :: 0 <= i < |lucks| ==> lucks[i].selects
    ensures NeverBlind(rows, nodes, mine, lucks)
    decreases |nodes|
  {
    if nodes != [] {
      NeverBlindWhenSeeing(StoredOne(rows, nodes[0], mine, lucks[0]), nodes[1..], mine, lucks[1..]);
    }
  }

  lemma WithoutIsOk(rows: seq<Row>, n: Node, mine: set<string>)
    requires OthersOnly(rows, mine)
    ensures OthersOnly(Without(rows, n), mine)
  {
    hide Wire.IsNode;
    var rows' := Without(rows, n);
    forall i | 0 <= i < |rows'| ensures Wire.IsNode(rows'[i].node) {
      assert rows'[i] in rows';
    }
  }

  /** The peer of a visit lists this host, if it took the announcement. */
  ghost predicate Registered(v: Visit, dest: Node, mine: set<string>, port: nat)
    reads if v.peer == null then {} else {v.peer}
  {
    v.peer != null && !IsMyIp(dest.addr, mine) && v.addLuck.Adds() ==> Lists(v.peer.rows, Node(v.recordedAs, port))
  }

  /** One exchange, as the loops see it. */
  method VisitOne(db: NodeTable, mine: set<string>, port: nat, dest: Node, v: Visit, removeInactive: bool,
                  version: string, ghost peers: set<NodeTable>)
    requires !db.isLedger && OthersOnly(db.rows, mine) && port < Wire.PORTS && IsValidUtf8(version, 0)
    requires db !in peers && VisitOk(v, peers) && forall p :: p in peers ==> !p.isLedger && Sound(p.rows)
    modifies db, v.peer
    ensures OthersOnly(db.rows, mine)
    ensures NoDuplicates(old(db.rows)) && Sees(v) ==> NoDuplicates(db.rows)
    ensures !removeInactive ==> old(db.rows) <= db.rows
    ensures forall p :: p in peers ==> Sound(p.rows) && old(p.rows) <= p.rows
    ensures Registered(v, dest, mine, port)
  {
    hide IsValidUtf8, Wire.IsNode, Announced;
    var code := HandleNodeInfoExchange(db, mine, port, dest, removeInactive, v.peer, v.recordedAs, version,
                                       v.addLuck, v.getLuck, v.lucks, v.before, v.after);
    if code == 0 {
      WithoutIsOk(old(db.rows), dest, mine);
      if NoDuplicates(old(db.rows)) {
        WithoutKeepsDistinct(old(db.rows), dest);
      }
    }
    if code == 1 {
      var sent := v.getLuck.Given(v.peer.rows);
      GivenAreNodes(v.peer.rows, v.getLuck);
      StoredIsOk(old(db.rows), sent, mine, v.lucks);
      StoredKeepsRows(old(db.rows), sent, mine, v.lucks);
      StoredDistinctIff(old(db.rows), sent, mine, v.lucks);
      if Sees(v) {
        NeverBlindWhenSeeing(old(db.rows), sent, mine, v.lucks);
      }
      AnnouncedKeepsRows(old(v.peer.rows), Node(v.recordedAs, port), v.addLuck, v.before, v.after);
    }
  }

  /** The loop over destinations that both sweeps share. Afterwards every node that was reached and met no database
      error lists this host under the address it has on record, and no table of another node has lost a row. */
  method VisitAll(db: NodeTable, mine: set<string>, port: nat, dests: seq<Node>, visits: seq<Visit>,
                  removeInactive: bool, version: string, ghost peers: set<NodeTable>)
    requires !db.isLedger && OthersOnly(db.rows, mine) && port < Wire.PORTS && IsValidUtf8(version, 0)
    requires |dests| <= |visits| && forall i :: 0 <= i < |visits| ==> VisitOk(visits[i], peers)
    requires db !in peers && forall p :: p in peers ==> !p.isLedger && Sound(p.rows)
    modifies db, peers
    ensures OthersOnly(db.rows, mine)
    ensures NoDuplicates(old(db.rows)) && AllSee(visits) ==> NoDuplicates(db.rows)
    ensures !removeInactive ==> old(db.rows) <= db.rows
    ensures forall p :: p in peers ==> Sound(p.rows) && old(p.rows) <= p.rows
    ensures forall i :: 0 <= i < |dests| ==> Registered(visits[i], dests[i], mine, port)
  {
    hide IsValidUtf8, OthersOnly, NoDuplicates, Sees;
    for i := 0 to |dests|
      invariant OthersOnly(db.rows, mine)
      invariant NoDuplicates(old(db.rows)) && AllSee(visits) ==> NoDuplicates(db.rows)
      invariant !removeInactive ==> old(db.rows) <= db.rows
      invariant forall p :: p in peers ==> Sound(p.rows) && old(p.rows) <= p.rows
      invariant forall j :: 0 <= j < i ==> Registered(visits[j], dests[j], mine, port)
    {
      label Before:
      VisitOne(db, mine, port, dests[i], visits[i], removeInactive, version, peers);
      forall j | 0 <= j < i && visits[j].peer != null && !IsMyIp(dests[j].addr, mine) && visits[j].addLuck.Adds()
        ensures Lists(visits[j].peer.rows, Node(visits[j].recordedAs, port))
      {
        assert VisitOk(visits[j], peers) && old@Before(Registered(visits[j], dests[j], mine, port));
        ListsMore(old@Before(visits[j].peer.rows), visits[j].peer.rows, Node(visits[j].recordedAs, port));
      }
    }
  }

  /** connect_localdb_node_servers: the nodes are read once, before the first of them is contacted. */
  method ConnectLocaldbNodeServers(db: NodeTable, mine: set<string>, port: nat, visits: seq<Visit>, version: string,
                                   luck: Luck, ghost peers: set<NodeTable>) returns (ok: bool)
    requires !db.isLedger && OthersOnly(db.rows, mine) && port < Wire.PORTS && IsValidUtf8(version, 0)
    requires |visits| == MAX_ACTIVE_NODES && forall i :: 0 <= i < |visits| ==> VisitOk(visits[i], peers)
    requires db !in peers && forall p :: p in peers ==> !p.isLedger && Sound(p.rows)
    modifies db, peers
    ensures ok == luck.Reads() && OthersOnly(db.rows, mine)
    ensures NoDuplicates(old(db.rows)) && AllSee(visits) ==> NoDuplicates(db.rows)
    ensures !ok ==> db.rows == old(db.rows)
    ensures forall p :: p in peers ==> Sound(p.rows) && old(p.rows) <= p.rows
    ensures ok ==> forall i :: 0 <= i < |luck.Given(old(db.rows))| ==>
                     Registered(visits[i], luck.Given(old(db.rows))[i], mine, port)
  {
    hide IsValidUtf8, OthersOnly, Sound, NoDuplicates, Sees;
    if !luck.opens { return false; }
    var active := new Node[MAX_ACTIVE_NODES](_ => Node("", 0));
    var count := db.GetAllActiveNodes(active, MAX_ACTIVE_NODES, luck);
    if count == -1 { return false; }
    var dests := active[..count];
    VisitAll(db, mine, port, dests, visits, true, version, peers);
    ok := true;
  }

  /** connect_init_node_servers: first INIT_NODES, removing nobody, and then the nodes the database has by then. */
  method ConnectInitNodeServers(db: NodeTable, mine: set<string>, port: nat, first: seq<Visit>, second: seq<Visit>,
                                version: string, opens: bool, luck: Luck, ghost peers: set<NodeTable>)
    returns (ok: bool)
    requires !db.isLedger && OthersOnly(db.rows, mine) && port < Wire.PORTS && IsValidUtf8(version, 0)
    requires |first| == |INIT_NODES| && |second| == MAX_ACTIVE_NODES
    requires forall i :: 0 <= i < |first| ==> VisitOk(first[i], peers)
    requires forall i :: 0 <= i < |second| ==> VisitOk(second[i], peers)
    requires db !in peers && forall p :: p in peers ==> !p.isLedger && Sound(p.rows)
    modifies db, peers
    ensures ok == (opens && luck.Reads()) && OthersOnly(db.rows, mine)
    ensures NoDuplicates(old(db.rows)) && AllSee(first) && AllSee(second) ==> NoDuplicates(db.rows)
    ensures !opens ==> db.rows == old(db.rows)
    ensures opens && !luck.Reads() ==> old(db.rows) <= db.rows
    ensures forall p :: p in peers ==> Sound(p.rows) && old(p.rows) <= p.rows
    ensures opens ==> forall i :: 0 <= i < |INIT_NODES| ==> Registered(first[i], INIT_NODES[i], mine, port)
  {
    hide IsValidUtf8, OthersOnly, Sound, NoDuplicates, Sees;
    if !opens { return false; }
    VisitAll(db, mine, port, INIT_NODES, first, false, version, peers);
    label Between:
    ok := ConnectLocaldbNodeServers(db, mine, port, second, version, luck, peers);
    forall i | 0 <= i < |INIT_NODES| && first[i].peer != null && !IsMyIp(INIT_NODES[i].addr, mine) &&
               first[i].addLuck.Adds()
      ensures Lists(first[i].peer.rows, Node(first[i].recordedAs, port))
    {
      assert VisitOk(first[i], peers) && old@Between(Registered(first[i], INIT_NODES[i], mine, port));
      ListsMore(old@Between(first[i].peer.rows), first[i].peer.rows, Node(first[i].recordedAs, port));
    }
  }
}
