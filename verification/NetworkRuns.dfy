/** Runs of the network that end badly: overlapping exchanges that record a node which nobody announced, and a boot
    that brings back a node it has just removed. */
module NetworkRuns {
  import opened Unicode
  import opened NodeTables
  import opened Exchange
  import opened Network
  import Wire

  lemma {:induction false} RunsOn(w: World, s: State, first: seq<Step>, second: seq<Step>)
    requires Runs(w, s, first) && Runs(w, End(w, s, first), second)
    ensures Runs(w, s, first + second) && End(w, s, first + second) == End(w, End(w, s, first), second)
    decreases |first|
  {
    hide After, Enabled;
    if first == [] {
      assert first + second == second;
    } else {
      assert first + second == [first[0]] + (first[1..] + second);
      RunsOn(w, After(w, s, first[0]), first[1..], second);
      RunsFrom(w, s, first[0], first[1..] + second);
    }
  }

  /** A booting node passes by destinations up to the `k`-th one. */
  lemma {:induction false} PassBy(w: World, s: State, h: HostId, k: nat) returns (steps: seq<Step>)
    requires h in s.hosts && h in w.mine && h in w.public && s.hosts[h].phase.Booting? && !s.hosts[h].phase.local
    requires s.hosts[h].phase.talk.Quiet? && s.hosts[h].phase.i <= k <= |s.hosts[h].phase.dests|
    ensures Runs(w, s, steps)
    ensures End(w, s, steps) == s.(hosts := s.hosts[h := s.hosts[h].(phase := s.hosts[h].phase.(i := k))])
    decreases k - s.hosts[h].phase.i
  {
    var host := s.hosts[h];
    if host.phase.i == k {
      assert s.hosts[h := host] == s.hosts;
      return [];
    }
    var step := if IsMyIp(Destination(host).addr, w.mine[h]) then Skip(h)
                else Unreachable(h, WORKS);
    var s1 := After(w, s, step);
    var rest := PassBy(w, s1, h, k);
    steps := [step] + rest;
    RunsFrom(w, s, step, rest);
  }

  /** A node that starts comes to the `k`-th of INIT_NODES without having met anybody. */
  lemma Approach(w: World, s: State, h: HostId, port: nat, k: nat) returns (steps: seq<Step>)
    requires h in s.hosts && h in w.mine && h in w.public && s.hosts[h].phase.Down? && port < Wire.PORTS
    requires k <= |INIT_NODES|
    ensures Runs(w, s, steps)
    ensures End(w, s, steps) ==
            s.(hosts := s.hosts[h := Host(port, s.hosts[h].rows, Booting(false, INIT_NODES, k, Quiet),
                                          s.hosts[h].session + 1, "")])
  {
    var s1 := After(w, s, Start(h, port));
    var rest := PassBy(w, s1, h, k);
    steps := [Start(h, port)] + rest;
    RunsFrom(w, s, Start(h, port), rest);
  }

  /** A node with an empty table can boot and serve without meeting anybody. */
  lemma Serve(w: World, s: State, h: HostId, port: nat) returns (steps: seq<Step>)
    requires h in s.hosts && h in w.mine && h in w.public && s.hosts[h].phase.Down? && port < Wire.PORTS
    requires s.hosts[h].rows == []
    ensures Runs(w, s, steps)
    ensures End(w, s, steps) == s.(hosts := s.hosts[h := Host(port, [], Serving, s.hosts[h].session + 1, "")])
  {
    var luck := WORKS;
    var first := Approach(w, s, h, port, |INIT_NODES|);
    var s1 := End(w, s, first);
    var s2 := After(w, s1, EndSweep(h, luck));
    assert luck.Given([]) == [];
    var s3 := After(w, s2, EndSweep(h, luck));
    RunsFrom(w, s2, EndSweep(h, luck), []);
    RunsFrom(w, s1, EndSweep(h, luck), [EndSweep(h, luck)] + []);
    RunsOn(w, s, first, [EndSweep(h, luck)] + ([EndSweep(h, luck)] + []));
    steps := first + ([EndSweep(h, luck)] + ([EndSweep(h, luck)] + []));
  }

  // ---------------------------------------------------------------- overlapping exchanges

  /** Wherever two nodes are about to contact the same serving node, the exchanges can overlap so that the responder
      lists the port of one with the address of the other, which nobody announced, and not the one that announced. */
  lemma OverlapMisattributes(w: World, s: State, h: HostId, g: HostId, r: HostId, addrH: string, addrG: string,
                             luck: Luck)
    requires Proper(w) && h != g && Enabled(w, s, Connect(h, r, addrH)) && Enabled(w, s, Connect(g, r, addrG))
    requires luck.Adds() && Live(s, r, s.hosts[r].session)
    ensures var steps := [Connect(h, r, addrH), Connect(g, r, addrG), Announce(h, luck)];
            var wrong, right := Node(addrG, s.hosts[h].port), Node(addrH, s.hosts[h].port);
            && Runs(w, s, steps) && r in End(w, s, steps).hosts
            && Lists(End(w, s, steps).hosts[r].rows, wrong)
            && (Lists(End(w, s, steps).hosts[r].rows, right) <==> Lists(s.hosts[r].rows, right))
            && (wrong in Genuine(End(w, s, steps).announced) <==> wrong in Genuine(s.announced))
  {
    hide IsValidUtf8;
    OwnAddress(w, h, addrH);
    OwnAddress(w, g, addrG);
    var wrong, right := Node(addrG, s.hosts[h].port), Node(addrH, s.hosts[h].port);
    var s1 := After(w, s, Connect(h, r, addrH));
    var s2 := After(w, s1, Connect(g, r, addrG));
    assert [Connect(h, r, addrH)] + ([Connect(g, r, addrG)] + ([Announce(h, luck)] + [])) ==
           [Connect(h, r, addrH), Connect(g, r, addrG), Announce(h, luck)];
    RunsFrom(w, s, Connect(h, r, addrH), [Connect(g, r, addrG)] + ([Announce(h, luck)] + []));
    RunsFrom(w, s1, Connect(g, r, addrG), [Announce(h, luck)] + []);
    RunsFrom(w, s2, Announce(h, luck), []);
    InsertLists(s.hosts[r].rows, wrong, luck);
    assert After(w, s2, Announce(h, luck)).announced == s.announced + {Announcement(h, right)};
  }

  /** A client that announces nothing does as much: when `r` accepts one in between, it lists the port of `h` with the
      address of that client, be it its own. */
  lemma ForeignMisattributes(w: World, s: State, h: HostId, r: HostId, addrH: string, addr: string, luck: Luck)
    requires Proper(w) && Enabled(w, s, Connect(h, r, addrH)) && Enabled(w, s, Foreign(r, addr)) && luck.Adds()
    ensures var steps := [Connect(h, r, addrH), Foreign(r, addr), Announce(h, luck)];
            Runs(w, s, steps) && r in End(w, s, steps).hosts &&
            Lists(End(w, s, steps).hosts[r].rows, Node(addr, s.hosts[h].port))
  {
    hide IsValidUtf8, IsClient;
    ConnectsToAnother(w, s, Connect(h, r, addrH));
    var s1 := After(w, s, Connect(h, r, addrH));
    var s2 := After(w, s1, Foreign(r, addr));
    var steps := [Connect(h, r, addrH), Foreign(r, addr), Announce(h, luck)];
    assert [Connect(h, r, addrH)] + ([Foreign(r, addr)] + ([Announce(h, luck)] + [])) == steps;
    RunsFrom(w, s, Connect(h, r, addrH), [Foreign(r, addr)] + ([Announce(h, luck)] + []));
    RunsFrom(w, s1, Foreign(r, addr), [Announce(h, luck)] + []);
    RunsFrom(w, s2, Announce(h, luck), []);
    InsertLists(s2.hosts[r].rows, Node(addr, s.hosts[h].port), luck);
  }

  /** From the very start: wherever one node has the address of the first peer in INIT_NODES, and two others exist, some
      run ends with a row that nobody announced. */
  lemma UnannouncedRowIsReachable(w: World, s: State, r: HostId, h: HostId, g: HostId, addrH: string, addrG: string,
                                  portH: nat, portG: nat) returns (steps: seq<Step>)
    requires Proper(w) && Initial(w, s) && r in w.public && h in w.public && g in w.public && |{r, h, g}| == 3
    requires INIT_NODES[1].addr in w.public[r] && addrH in w.public[h] && addrG in w.public[g]
    requires portH < Wire.PORTS && portG < Wire.PORTS
    ensures Runs(w, s, steps) && r in End(w, s, steps).hosts
    ensures Lists(End(w, s, steps).hosts[r].rows, Node(addrG, portH))
    ensures Node(addrG, portH) !in Genuine(End(w, s, steps).announced)
  {
    hide IsAddress, Runs, End, Enabled;
    assert r != h && r != g && h != g;
    var first := Serve(w, s, r, DEFAULT_PORT);
    var s1 := End(w, s, first);
    var second := Approach(w, s1, h, portH, 1);
    var s2 := End(w, s1, second);
    var third := Approach(w, s2, g, portG, 1);
    var s3 := End(w, s2, third);
    var luck := WORKS;
    var last := [Connect(h, r, addrH), Connect(g, r, addrG), Announce(h, luck)];
    CanConnect(w, s3, h, r, addrH);
    CanConnect(w, s3, g, r, addrG);
    OverlapMisattributes(w, s3, h, g, r, addrH, addrG, luck);
    RunsOn(w, s2, third, last);
    RunsOn(w, s1, second, third + last);
    RunsOn(w, s, first, second + (third + last));
    steps := first + (second + (third + last));
  }

  /** From the very start too: a client on its own machine can leave a node with a row at its own address. */
  lemma OwnRowIsReachable(w: World, s: State, r: HostId, h: HostId, addrH: string, portH: nat)
    returns (steps: seq<Step>)
    requires Proper(w) && Initial(w, s) && r in w.public && h in w.public && h != r
    requires INIT_NODES[1].addr in w.public[r] && addrH in w.public[h] && portH < Wire.PORTS
    ensures Runs(w, s, steps) && r in End(w, s, steps).hosts && r in w.mine
    ensures Lists(End(w, s, steps).hosts[r].rows, Node(INIT_NODES[1].addr, portH))
    ensures IsMyIp(INIT_NODES[1].addr, w.mine[r])
  {
    hide IsAddress, Runs, End;
    var own := INIT_NODES[1].addr;
    OwnAddress(w, r, own);
    var first := Serve(w, s, r, DEFAULT_PORT);
    var s1 := End(w, s, first);
    var second := Approach(w, s1, h, portH, 1);
    var s2 := End(w, s1, second);
    var last := [Connect(h, r, addrH), Foreign(r, own), Announce(h, WORKS)];
    CanConnect(w, s2, h, r, addrH);
    ForeignMisattributes(w, s2, h, r, addrH, own, WORKS);
    RunsOn(w, s1, second, last);
    RunsOn(w, s, first, second + last);
    steps := first + (second + last);
  }

  lemma CanConnect(w: World, s: State, h: HostId, r: HostId, addr: string)
    requires Proper(w) && h != r && h in s.hosts && r in s.hosts && h in w.public && r in w.public
    requires s.hosts[h].phase == Booting(false, INIT_NODES, 1, Quiet) && addr in w.public[h]
    requires s.hosts[r].phase.Serving? && s.hosts[r].port == DEFAULT_PORT && INIT_NODES[1].addr in w.public[r]
    ensures Enabled(w, s, Connect(h, r, addr))
  {
    hide IsAddress;
    OwnAddress(w, r, INIT_NODES[1].addr);
  }

  // ---------------------------------------------------------------- a removed node comes back

  /** And that happens: when the next destination of the sweep serves and lists the removed node first, a fault-free
      exchange with it brings the node back, dead or not. */
  lemma PeerBringsNodeBack(w: World, s: State, h: HostId, r: HostId, addr: string, n: Node)
    requires Proper(w) && Inv(w, s, Anything()) && Enabled(w, s, Connect(h, r, addr)) && s.hosts[h].phase.local
    requires s.hosts[r].rows != [] && s.hosts[r].rows[0] == Row(n, Active) && !IsMyIp(n.addr, w.mine[h])
    requires !Lists(s.hosts[h].rows, n)
    ensures var luck := WORKS;
            var steps := [Connect(h, r, addr), Announce(h, luck), Fetch(h, luck), Store(h, luck)];
            Runs(w, s, steps) && h in End(w, s, steps).hosts && Lists(End(w, s, steps).hosts[h].rows, n)
  {
    hide IsValidUtf8, ConnectionOk, LogOk, Inserted, Runs, End, ActiveNodes;
    var luck := WORKS;
    var s1 := After(w, s, Connect(h, r, addr));
    var s2 := After(w, s1, Announce(h, luck));
    var s3 := After(w, s2, Fetch(h, luck));
    assert HostOk(Anything(), r, w.mine[r], s.hosts[r]);
    assert s.hosts[r].rows[0] in s.hosts[r].rows;
    InsertLists(s1.hosts[r].rows, Recorded(s1, Announce(h, luck)), luck);
    assert s2.hosts[r].rows[0] == Row(n, Active);
    FirstIsGiven(s2.hosts[r].rows, n);
    InsertLists(s3.hosts[h].rows, n, luck);
    FourSteps(w, s, Connect(h, r, addr), Announce(h, luck), Fetch(h, luck), Store(h, luck));
  }

  lemma FirstIsGiven(rows: seq<Row>, n: Node)
    requires rows != [] && rows[0] == Row(n, Active)
    ensures WORKS.Given(rows) != [] && WORKS.Given(rows)[0] == n
  {
  }

  lemma FourSteps(w: World, s: State, a: Step, b: Step, c: Step, d: Step)
    requires Enabled(w, s, a)
    requires var s1 := After(w, s, a); Enabled(w, s1, b)
    requires var s2 := After(w, After(w, s, a), b); Enabled(w, s2, c)
    requires var s3 := After(w, After(w, After(w, s, a), b), c); Enabled(w, s3, d)
    ensures Runs(w, s, [a, b, c, d])
    ensures End(w, s, [a, b, c, d]) == After(w, After(w, After(w, After(w, s, a), b), c), d)
  {
    hide After, Enabled, Runs, End;
    var s1 := After(w, s, a);
    var s2 := After(w, s1, b);
    var s3 := After(w, s2, c);
    assert [a] + ([b] + ([c] + ([d] + []))) == [a, b, c, d];
    NoStep(w, After(w, s3, d));
    RunsFrom(w, s3, d, []);
    RunsFrom(w, s2, c, [d] + []);
    RunsFrom(w, s1, b, [c] + ([d] + []));
    RunsFrom(w, s, a, [b] + ([c] + ([d] + [])));
  }

  lemma NoStep(w: World, s: State)
    ensures Runs(w, s, []) && End(w, s, []) == s
  {
  }

  /** A node announces itself to a serving one and stops. */
  lemma Register(w: World, s: State, h: HostId, r: HostId, addr: string) returns (steps: seq<Step>)
    requires h != r && Enabled(w, s, Connect(h, r, addr))
    ensures Runs(w, s, steps)
    ensures var n := Node(addr, s.hosts[h].port);
            var taken := s.hosts[r].(buffer := addr, rows := Inserted(s.hosts[r].rows, n, WORKS));
            End(w, s, steps) == State(s.hosts[h := s.hosts[h].(phase := Down)][r := taken],
                                      s.announced + {Announcement(h, n)})
  {
    var s1 := After(w, s, Connect(h, r, addr));
    var s2 := After(w, s1, Announce(h, WORKS));
    var s3 := After(w, s2, Stop(h));
    var n := Node(addr, s.hosts[h].port);
    var taken := s.hosts[r].(buffer := addr, rows := Inserted(s.hosts[r].rows, n, WORKS));
    assert s3.hosts == s.hosts[h := s.hosts[h].(phase := Down)][r := taken];
    steps := [Connect(h, r, addr)] + ([Announce(h, WORKS)] + ([Stop(h)] + []));
    RunsFrom(w, s2, Stop(h), []);
    RunsFrom(w, s1, Announce(h, WORKS), [Stop(h)] + []);
    RunsFrom(w, s, Connect(h, r, addr), [Announce(h, WORKS)] + ([Stop(h)] + []));
  }

  /** A node starts, announces itself to the `k`-th of INIT_NODES, which serves, and stops. */
  lemma Introduce(w: World, s: State, h: HostId, port: nat, r: HostId, k: nat, addr: string) returns (steps: seq<Step>)
    requires Proper(w) && h != r && h in s.hosts && r in s.hosts && h in w.public && r in w.public && h in w.mine
    requires s.hosts[h].phase.Down? && port < Wire.PORTS && k < |INIT_NODES| && addr in w.public[h]
    requires s.hosts[r].phase.Serving? && s.hosts[r].port == INIT_NODES[k].port && INIT_NODES[k].addr in w.public[r]
    ensures Runs(w, s, steps)
    ensures var s' := End(w, s, steps);
            && s'.hosts.Keys == s.hosts.Keys
            && (forall x :: x in s.hosts && x != h && x != r ==> s'.hosts[x] == s.hosts[x])
            && s'.hosts[h] == Host(port, s.hosts[h].rows, Down, s.hosts[h].session + 1, "")
            && s'.hosts[r] == s.hosts[r].(buffer := addr, rows := Inserted(s.hosts[r].rows, Node(addr, port), WORKS))
  {
    hide IsAddress, Inserted;
    OwnAddress(w, r, INIT_NODES[k].addr);
    var first := Approach(w, s, h, port, k);
    var s1 := End(w, s, first);
    var second := Register(w, s1, h, r, addr);
    RunsOn(w, s, first, second);
    steps := first + second;
  }

  /** A node that serves stops, starts again, and comes to the sweep over its local database. */
  lemma Reboot(w: World, s: State, h: HostId) returns (steps: seq<Step>)
    requires h in s.hosts && h in w.mine && h in w.public && s.hosts[h].phase.Serving? && s.hosts[h].port < Wire.PORTS
    ensures Runs(w, s, steps)
    ensures End(w, s, steps) ==
            s.(hosts := s.hosts[h := Host(s.hosts[h].port, s.hosts[h].rows,
                                          Booting(true, WORKS.Given(s.hosts[h].rows), 0, Quiet),
                                          s.hosts[h].session + 1, "")])
  {
    var s1 := After(w, s, Stop(h));
    var first := Approach(w, s1, h, s.hosts[h].port, |INIT_NODES|);
    var s2 := End(w, s1, first);
    RunsFrom(w, s2, EndSweep(h, WORKS), []);
    RunsOn(w, s1, first, [EndSweep(h, WORKS)] + []);
    RunsFrom(w, s, Stop(h), first + ([EndSweep(h, WORKS)] + []));
    steps := [Stop(h)] + (first + ([EndSweep(h, WORKS)] + []));
  }

  /** From the very start: where two nodes have the addresses of the first two peers in INIT_NODES and a third one
      exists, some run comes to a sweep that removes a node which is down, and `more` of the same sweep brings it
      back. */
  lemma RemovedNodeReturns(w: World, s: State, h: HostId, r: HostId, d: HostId, addrD: string, portD: nat)
    returns (steps: seq<Step>, remove: Step, more: seq<Step>)
    requires Proper(w) && Initial(w, s) && h in w.public && r in w.public && d in w.public && |{h, r, d}| == 3
    requires INIT_NODES[1].addr in w.public[h] && INIT_NODES[2].addr in w.public[r] && addrD in w.public[d]
    requires portD < Wire.PORTS
    ensures Runs(w, s, steps) && Enabled(w, End(w, s, steps), remove)
    ensures Runs(w, After(w, End(w, s, steps), remove), more)
    ensures remove == Unreachable(h, WORKS) && (forall i :: 0 <= i < |more| ==> more[i].h == h)
    ensures var n, s1 := Node(addrD, portD), End(w, s, steps);
            var s2 := After(w, s1, remove);
            var s3 := End(w, s2, more);
            && h in s1.hosts && h in s2.hosts && h in s3.hosts && d in s1.hosts && s1.hosts[d].phase.Down?
            && Lists(s1.hosts[h].rows, n) && !Lists(s2.hosts[h].rows, n) && Lists(s3.hosts[h].rows, n)
  {
    hide IsAddress, Runs, End, Enabled, Inserted;
    assert h != r && h != d && r != d;
    OwnAddress(w, h, INIT_NODES[1].addr);
    OwnAddress(w, r, INIT_NODES[2].addr);
    OwnAddress(w, d, addrD);
    var n, peer := Node(addrD, portD), Node(INIT_NODES[2].addr, DEFAULT_PORT);
    var a := Serve(w, s, h, DEFAULT_PORT);
    var s1 := End(w, s, a);
    var b := Introduce(w, s1, d, portD, h, 1, addrD);
    var s2 := End(w, s1, b);
    var c := Introduce(w, s2, r, DEFAULT_PORT, h, 1, INIT_NODES[2].addr);
    var s3 := End(w, s2, c);
    PublicIsShort(w, d, addrD);
    PublicIsShort(w, r, INIT_NODES[2].addr);
    InsertsNew([], n);
    assert s2.hosts[h].rows == [] + [Row(n, Active)] == [Row(n, Active)];
    InsertsNew([Row(n, Active)], peer);
    assert s3.hosts[h].rows == [Row(n, Active)] + [Row(peer, Active)] == [Row(n, Active), Row(peer, Active)];
    var e := Serve(w, s3, r, DEFAULT_PORT);
    var s4 := End(w, s3, e);
    var f := Introduce(w, s4, d, portD, r, 2, addrD);
    var s5 := End(w, s4, f);
    assert s5.hosts[r].rows == [Row(n, Active)];
    var g := Reboot(w, s5, h);
    var s6 := End(w, s5, g);
    RunsOn(w, s4, f, g);
    RunsOn(w, s3, e, f + g);
    RunsOn(w, s2, c, e + (f + g));
    RunsOn(w, s1, b, c + (e + (f + g)));
    RunsOn(w, s, a, b + (c + (e + (f + g))));
    steps, remove := a + (b + (c + (e + (f + g)))), Unreachable(h, WORKS);
    TwoGiven(n, peer);
    more := ComesBack(w, s, steps, s6, h, r, d, n, peer);
  }

  lemma PublicIsShort(w: World, h: HostId, addr: string)
    requires Proper(w) && h in w.public && addr in w.public[h]
    ensures |addr| <= MAX_ADDR_LENGTH
  {
    hide IsValidUtf8;
    OwnAddress(w, h, addr);
  }

  lemma InsertsNew(rows: seq<Row>, n: Node)
    requires !Lists(rows, n) && |n.addr| <= MAX_ADDR_LENGTH
    ensures Inserted(rows, n, WORKS) == rows + [Row(n, Active)]
  {
  }

  lemma TwoGiven(n: Node, m: Node)
    ensures WORKS.Given([Row(n, Active), Row(m, Active)]) == [n, m]
  {
    var rows := [Row(n, Active), Row(m, Active)];
    assert rows[1..] == [Row(m, Active)] && rows[1..][1..] == [];
    assert ActiveNodes(rows[1..], 15) == [m] + ActiveNodes([], 14);
    assert ActiveNodes(rows, 16) == [n] + ActiveNodes(rows[1..], 15);
  }

  /** The last part: the sweep over `n`, which is down, and `peer`, which lists `n`. */
  lemma ComesBack(w: World, s: State, steps: seq<Step>, s1: State, h: HostId, r: HostId, d: HostId, n: Node, peer: Node)
    returns (more: seq<Step>)
    requires Proper(w) && Initial(w, s) && Runs(w, s, steps) && s1 == End(w, s, steps) && h != r
    requires h in s1.hosts && r in s1.hosts && h in w.public && r in w.public && d in w.public && h in w.mine
    requires INIT_NODES[1].addr in w.public[h] && peer.addr in w.public[r] && n.addr in w.public[d] && d != h && d != r
    requires s1.hosts[h].rows == [Row(n, Active), Row(peer, Active)]
    requires s1.hosts[h].phase == Booting(true, [n, peer], 0, Quiet)
    requires s1.hosts[r].phase.Serving? && s1.hosts[r].port == peer.port && s1.hosts[r].rows == [Row(n, Active)]
    ensures Enabled(w, s1, Unreachable(h, WORKS))
    ensures var s2 := After(w, s1, Unreachable(h, WORKS));
            && Runs(w, s2, more) && (forall i :: 0 <= i < |more| ==> more[i].h == h)
            && h in s2.hosts && h in End(w, s2, more).hosts
            && Lists(s1.hosts[h].rows, n) && !Lists(s2.hosts[h].rows, n) && Lists(End(w, s2, more).hosts[h].rows, n)
  {
    hide IsAddress, Runs, End, Inv, Inserted, Lists, Without, HostOk, Initial, After, Enabled, Proper, Anything;
    DeadDestination(w, s1, h, r, d, n, peer);
    InvAfterStep(w, s, steps, Unreachable(h, WORKS));
    var s2 := After(w, s1, Unreachable(h, WORKS));
    var addr := INIT_NODES[1].addr;
    more := [Connect(h, r, addr), Announce(h, WORKS), Fetch(h, WORKS), Store(h, WORKS)];
    PeerBringsNodeBack(w, s2, h, r, addr, n);
  }

  /** The invariant after a run from the start and one more step. */
  lemma InvAfterStep(w: World, s: State, steps: seq<Step>, step: Step)
    requires Proper(w) && Initial(w, s) && Runs(w, s, steps) && Enabled(w, End(w, s, steps), step)
    ensures Inv(w, After(w, End(w, s, steps), step), Anything())
  {
    hide IsAddress, Runs, End, Inv, HostOk, Initial, After, Enabled, Anything, Consistent;
    InitialIsOk(w, s, Anything());
    AnyRunKeepsInv(w, s, steps);
    AnythingIsConsistent(w);
    StepRecordsNode(w, End(w, s, steps), step);
    StepKeepsInv(w, End(w, s, steps), step, Anything());
  }

  lemma DeadDestination(w: World, s: State, h: HostId, r: HostId, d: HostId, n: Node, peer: Node)
    requires Proper(w) && h != r && d != h && d != r
    requires h in s.hosts && r in s.hosts && h in w.public && r in w.public && d in w.public && h in w.mine
    requires INIT_NODES[1].addr in w.public[h] && peer.addr in w.public[r] && n.addr in w.public[d]
    requires s.hosts[h].rows == [Row(n, Active), Row(peer, Active)]
    requires s.hosts[h].phase == Booting(true, [n, peer], 0, Quiet)
    requires s.hosts[r].phase.Serving? && s.hosts[r].port == peer.port && s.hosts[r].rows == [Row(n, Active)]
    ensures Enabled(w, s, Unreachable(h, WORKS)) && !IsMyIp(n.addr, w.mine[h])
    ensures var s2 := After(w, s, Unreachable(h, WORKS));
            && h in s2.hosts && r in s2.hosts && s2.hosts[r] == s.hosts[r] && s2.hosts[h].phase.local
            && Enabled(w, s2, Connect(h, r, INIT_NODES[1].addr))
            && Lists(s.hosts[h].rows, n) && !Lists(s2.hosts[h].rows, n)
  {
    hide IsAddress, Without;
    OwnAddress(w, h, INIT_NODES[1].addr);
    OwnAddress(w, r, peer.addr);
    OwnAddress(w, d, n.addr);
    assert s.hosts[h].rows[0].node == n;
    WithoutForgets(s.hosts[h].rows, n);
  }
}
