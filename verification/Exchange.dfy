/** One exchange between a booting node and a serving one: handle_node_info_exchange and node_server_callback. */
module Exchange {
  import opened Options
  import opened Json
  import opened Unicode
  import opened Serializer
  import opened DotPath
  import opened NodeTables
  import opened Wire
  import L = Layout
  import P = Parser
  import SerializerLayout

  const ALL_INTERFACES: string := "0.0.0.0"

  const DEFAULT_PORT: nat := 9060
  const INIT_NODES: seq<Node> :=
    [Node(ALL_INTERFACES, DEFAULT_PORT), Node("172.17.0.1", DEFAULT_PORT), Node("172.20.0.10", DEFAULT_PORT),
     Node("172.20.0.11", DEFAULT_PORT), Node("172.20.0.12", DEFAULT_PORT)]

  /** is_my_ip, where `mine` holds the addresses of the interfaces. */
  predicate IsMyIp(addr: string, mine: set<string>) {
    addr == ALL_INTERFACES || addr in mine
  }

  /** The address of a peer as the socket shows it. */
  ghost predicate IsAddress(addr: string) {
    |addr| <= MAX_ADDR_LENGTH && IsValidUtf8(addr, 0)
  }

  /** A table that holds nodes only. */
  ghost predicate Sound(rows: seq<Row>) {
    forall i :: 0 <= i < |rows| ==> IsNode(rows[i].node)
  }

  // ---------------------------------------------------------------- replies without data

  lemma ReplyIsSendable(success: bool, message: string)
    ensures SendableMembers(Reply(success, message), 1)
    ensures Get(Reply(success, message), Spell(DataKey)) == None
    ensures Get(Reply(success, message), Spell(StatusKey)) ==
            Some(Str(Spell(if success then SuccessWord else FailedWord)))
    ensures Get(Reply(success, message), Spell(MessageKey)) ==
            if IsValidUtf8(message, 0) then Some(Str(message)) else None
  {
    var status := Spell(if success then SuccessWord else FailedWord);
    WordIsPlain(if success then SuccessWord else FailedWord);
    WordIsPlain(StatusKey);
    WordIsPlain(MessageKey);
    KeysDiffer(StatusKey, MessageKey);
    KeysDiffer(StatusKey, DataKey);
    KeysDiffer(MessageKey, DataKey);
    hide Spell, Assigned, IsValidUtf8, Get;
    var ms := Assigned([], Spell(StatusKey), Str(status));
    AssignedSendable([], Spell(StatusKey), Str(status), 1);
    GetAssigned([], Spell(StatusKey), Str(status), Spell(StatusKey));
    GetAssigned([], Spell(StatusKey), Str(status), Spell(MessageKey));
    GetAssigned([], Spell(StatusKey), Str(status), Spell(DataKey));
    EmptyHasNothing(Spell(MessageKey));
    EmptyHasNothing(Spell(DataKey));
    if IsValidUtf8(message, 0) {
      AssignedSendable(ms, Spell(MessageKey), Str(message), 1);
      GetAssigned(ms, Spell(MessageKey), Str(message), Spell(StatusKey));
      GetAssigned(ms, Spell(MessageKey), Str(message), Spell(MessageKey));
      GetAssigned(ms, Spell(MessageKey), Str(message), Spell(DataKey));
    }
  }

  lemma EmptyHasNothing(key: string)
    ensures Get([], key) == None
  {
  }

  /** The outcomes a reply without data reports. */
  datatype Notice =
    | FetchFailed | InsertFailed | AlreadyAdded | NodeAdded | InvalidMethod | InvalidMessage | EmptyMessage

  function Phrase(n: Notice): string {
    match n
    case FetchFailed => "Failed fetching nodes from database"
    case InsertFailed => "There was a db error inserting new node."
    case AlreadyAdded => "This node has already been added."
    case NodeAdded => "New node added into database."
    case InvalidMethod => "GEONSP: Invalid protocol method."
    case InvalidMessage => "GEONSP: Invalid protocol message."
    case EmptyMessage => "GEONSP: Empty protocol message."
  }

  function NoticeText(n: Notice): string {
    ReplyText(n.NodeAdded?, Phrase(n))
  }

  /** The text of a reply without data. */
  function ReplyText(success: bool, message: string): string {
    ReplyIsSendable(success, message);
    SendableObject(Reply(success, message), 1);
    Text(Obj(Reply(success, message)), 0, WIRE)
  }

  /** A reply without data, as the JSON it is: a status and a message. It has no white space outside of literals. */
  ghost predicate Says(response: string, status: string, message: string) {
    var ms := MembersOf(P.ParseString(response));
    && L.Tight(response, L.START, true)
    && Get(ms, "status") == Some(Str(status)) && Get(ms, "message") == Some(Str(message)) && Get(ms, "data") == None
  }

  lemma ReplySays(success: bool, message: string)
    requires IsValidUtf8(message, 0)
    ensures Says(ReplyText(success, message), if success then "success" else "failed", message)
  {
    hide Text, P.ParseString, Get, Reply, IsValidUtf8, Printable, WellFormed, Level, L.Tight;
    ReplyIsSendable(success, message);
    SendableObject(Reply(success, message), 1);
    SerializerLayout.CompactIsTight(Obj(Reply(success, message)), true);
    Arrives(Obj(Reply(success, message)), "");
    assert ReplyText(success, message) + "" == ReplyText(success, message);
  }

  ghost predicate Ascii(s: string) {
    forall k :: 0 <= k < |s| ==> s[k] as int < 0x80
  }

  lemma PhraseIsAscii(n: Notice)
    ensures Ascii(Phrase(n))
  {
    hide Phrase, Ascii;
    match n
    case FetchFailed => FetchPhraseIsAscii();
    case InsertFailed => FailurePhraseIsAscii();
    case AlreadyAdded => InsertPhraseIsAscii(n);
    case NodeAdded => InsertPhraseIsAscii(n);
    case _ => ProtocolPhraseIsAscii(n);
  }

  lemma FetchPhraseIsAscii()
    ensures Ascii(Phrase(FetchFailed))
  {
  }

  lemma FailurePhraseIsAscii()
    ensures Ascii(Phrase(InsertFailed))
  {
  }

  lemma InsertPhraseIsAscii(n: Notice)
    requires n.AlreadyAdded? || n.NodeAdded?
    ensures Ascii(Phrase(n))
  {
  }

  lemma ProtocolPhraseIsAscii(n: Notice)
    requires n.InvalidMethod? || n.InvalidMessage? || n.EmptyMessage?
    ensures Ascii(Phrase(n))
  {
  }

  lemma NoticeSays(n: Notice)
    ensures Says(NoticeText(n), if n.NodeAdded? then "success" else "failed", Phrase(n))
  {
    hide Phrase, ReplyText, Says, IsValidUtf8;
    PhraseIsAscii(n);
    AsciiIsUtf8(Phrase(n), 0);
    ReplySays(n.NodeAdded?, Phrase(n));
  }

  lemma PhrasesDiffer(m: Notice, n: Notice)
    requires m != n
    ensures Phrase(m) != Phrase(n)
  {
    hide Phrase;
    PhraseShape(m);
    PhraseShape(n);
  }

  lemma PhraseShape(n: Notice)
    ensures |Phrase(n)| == match n
                           case FetchFailed => 35
                           case InsertFailed => 40
                           case AlreadyAdded => 33
                           case NodeAdded => 29
                           case InvalidMethod => 32
                           case InvalidMessage => 33
                           case EmptyMessage => 31
    ensures Phrase(n)[0] == 'G' <==> n.InvalidMethod? || n.InvalidMessage? || n.EmptyMessage?
  {
  }

  /** Such a reply lists no nodes, whatever its message. */
  lemma ReplyHasNoNodes(success: bool, message: string, tail: string)
    ensures ReadNodes(ReplyText(success, message) + tail) == Some([])
  {
    hide Spell, Text, P.ParseString, Get, Reply;
    ReplyIsSendable(success, message);
    SendableObject(Reply(success, message), 1);
    Arrives(Obj(Reply(success, message)), tail);
  }

  /** is_geons_host_available on the answer to its greeting: a status and a message, and the status a success. */
  predicate Greets(text: string) {
    var ms := MembersOf(P.ParseString(text));
    Has(ms, Spell(MessageKey)) &&
    match Get(ms, Spell(StatusKey))
    case Some(Str(status)) => StartsWith(status, Spell(SuccessWord))
    case _ => false
  }

  /** Any answer with a status counts by the first characters of that, if it has a message at all. */
  lemma GreetsByStatus(text: string, status: string)
    requires Get(MembersOf(P.ParseString(text)), "status") == Some(Str(status))
    ensures Greets(text) <==> Has(MembersOf(P.ParseString(text)), "message") && "success" <= status
  {
    hide P.ParseString, Get, Has;
    SpelledAnswer();
  }

  lemma SpelledAnswer()
    ensures Spell(StatusKey) == "status" && Spell(MessageKey) == "message" && Spell(SuccessWord) == "success"
  {
  }

  lemma GreetsExactlyOnSuccess(success: bool, message: string, tail: string)
    ensures Greets(ReplyText(success, message) + tail) <==> success && IsValidUtf8(message, 0)
  {
    ReplyIsSendable(success, message);
    hide Spell, Text, P.ParseString, Reply, IndexOf, IsValidUtf8, Printable, WellFormed, Level;
    StatusPrefixes();
    SendableObject(Reply(success, message), 1);
    Arrives(Obj(Reply(success, message)), tail);
  }

  lemma StatusPrefixes()
    ensures !StartsWith(Spell(FailedWord), Spell(SuccessWord)) && StartsWith(Spell(SuccessWord), Spell(SuccessWord))
  {
    assert Spell(FailedWord)[0] == 'f' && Spell(SuccessWord)[0] == 's';
  }

  function HelloRequest(): Value {
    Obj(BaseMessage(GetVersionWord))
  }

  lemma HelloArrives(tail: string)
    ensures Sendable(HelloRequest(), P.MAX_NESTING)
    ensures Understand(Text(HelloRequest(), 0, WIRE) + tail) == GetVersion
    ensures Asks(Text(HelloRequest(), 0, WIRE) + tail, "GET_VERSION")
  {
    SpelledMethods();
    hide Spell, Text, P.ParseString, Get;
    BaseMessageShape(GetVersionWord);
    SendableObject(BaseMessage(GetVersionWord), 1);
    Arrives(HelloRequest(), tail);
  }

  /** A reply with nodes, as the JSON it is. */
  ghost predicate Hands(response: string, nodes: seq<Node>) {
    var ms := MembersOf(P.ParseString(response));
    && L.Tight(response, L.START, true)
    && Get(ms, "status") == Some(Str("success"))
    && Get(ms, "message") == Some(Str("Successfully fetched list of nodes."))
    && var data := Get(ms, "data");
       && data.Some? && data.value.Arr? && |data.value.items| == |nodes|
       && forall i :: 0 <= i < |nodes| ==> IsEntry(data.value.items[i], nodes[i])
  }

  ghost predicate IsEntry(item: Value, n: Node) {
    item.Obj? && Get(item.members, "server") == Some(Str(n.addr)) &&
    Get(item.members, "node") == Some(Num(n.port as real)) && Get(item.members, "status") == Some(Str("active"))
  }

  lemma DescriptionIsEntry(n: Node)
    requires IsNode(n)
    ensures IsEntry(Describe(n), n)
  {
    DescribeShape(n);
    KeysDiffer(ServerKey, NodeKey);
    KeysDiffer(ServerKey, StatusKey);
    KeysDiffer(NodeKey, StatusKey);
    SpelledEntry();
    hide Spell, Describe, Assigned, Get, IsValidUtf8, WellFormed, Printable, Level;
    ThreeMembers(Spell(ServerKey), Str(n.addr), Spell(NodeKey), Num(n.port as real),
                 Spell(StatusKey), Str(Spell(ActiveWord)));
  }

  lemma SpelledEntry()
    ensures Spell(ServerKey) == "server" && Spell(NodeKey) == "node" && Spell(StatusKey) == "status"
    ensures Spell(ActiveWord) == "active"
  {
  }

  lemma NodesReplyHands(nodes: seq<Node>)
    requires forall i :: 0 <= i < |nodes| ==> IsNode(nodes[i])
    ensures Printable(NodesReply(nodes)) && Hands(Text(NodesReply(nodes), 0, WIRE), nodes)
  {
    hide Text, P.ParseString, Describe, Get, IsNode, WellFormed, Printable, Level, NodesReply, IsEntry, L.Tight;
    NodesReplyShape(nodes);
    SerializerLayout.CompactIsTight(NodesReply(nodes), true);
    NodesReplyMembers(nodes);
    Arrives(NodesReply(nodes), "");
    assert Text(NodesReply(nodes), 0, WIRE) + "" == Text(NodesReply(nodes), 0, WIRE);
    forall i | 0 <= i < |nodes| ensures IsEntry(DescribeAll(nodes)[i], nodes[i]) {
      DescriptionIsEntry(nodes[i]);
    }
    GetOfThree(Member("status", Str("success")), Member("message", Str("Successfully fetched list of nodes.")),
               Member("data", Arr(DescribeAll(nodes))));
  }

  lemma GetOfThree(m1: Member, m2: Member, m3: Member)
    requires m1.key != m2.key && m1.key != m3.key && m2.key != m3.key
    ensures var ms := [m1, m2, m3];
            Get(ms, m1.key) == Some(m1.val) && Get(ms, m2.key) == Some(m2.val) && Get(ms, m3.key) == Some(m3.val)
  {
    FirstIndex([m1, m2, m3], m1.key, 0);
    FirstIndex([m1, m2, m3], m2.key, 1);
    FirstIndex([m1, m2, m3], m3.key, 2);
  }

  // ---------------------------------------------------------------- the responder

  /** What an announcement is answered with, by what became of the table. */
  ghost predicate TellsOutcome(response: string, before: seq<Row>, after: seq<Row>, n: Node, luck: Luck) {
    var found := luck.opens && luck.prepares && luck.selects && Lists(before, n);
    && (Says(response, "success", "New node added into database.") <==> after == before + [Row(n, Active)])
    && (Says(response, "failed", "This node has already been added.") <==> found)
    && (Says(response, "failed", "Failed fetching nodes from database") <==> !luck.opens)
    && (Says(response, "failed", "There was a db error inserting new node.") <==>
        luck.opens && !found && after == before)
  }

  lemma OutcomeIsTold(before: seq<Row>, after: seq<Row>, n: Node, luck: Luck)
    requires |n.addr| <= MAX_ADDR_LENGTH
    requires after == if luck.opens then Inserted(before, n, luck) else before
    ensures TellsOutcome(NoticeText(AddOutcome(before, n, luck)), before, after, n, luck)
  {
    hide Phrase, NoticeText, Says, Lists;
    var notice := AddOutcome(before, n, luck);
    ToldExactly(notice, FetchFailed);
    ToldExactly(notice, InsertFailed);
    ToldExactly(notice, AlreadyAdded);
    ToldExactly(notice, NodeAdded);
    DatabasePhrases();
    assert |before + [Row(n, Active)]| != |before|;
  }

  /** The reply for one notice says what another one would exactly when they are the same. */
  lemma ToldExactly(notice: Notice, other: Notice)
    ensures Says(NoticeText(notice), if other.NodeAdded? then "success" else "failed", Phrase(other)) <==>
            notice == other
  {
    hide Phrase, NoticeText, Says;
    NoticeSays(notice);
    if notice != other {
      OnlySays(notice, other);
    }
  }

  lemma ProtocolPhrases()
    ensures Phrase(InvalidMethod) == "GEONSP: Invalid protocol method."
    ensures Phrase(InvalidMessage) == "GEONSP: Invalid protocol message."
    ensures Phrase(EmptyMessage) == "GEONSP: Empty protocol message."
  {
  }

  lemma DatabasePhrases()
    ensures Phrase(FetchFailed) == "Failed fetching nodes from database"
    ensures Phrase(InsertFailed) == "There was a db error inserting new node."
    ensures Phrase(AlreadyAdded) == "This node has already been added."
    ensures Phrase(NodeAdded) == "New node added into database."
  {
  }

  /** A notice says nothing that another one says. */
  lemma OnlySays(m: Notice, n: Notice)
    requires m != n
    ensures forall status :: !Says(NoticeText(m), status, Phrase(n))
  {
    hide Phrase, ReplyText, P.ParseString, Get, MembersOf, L.Tight;
    NoticeSays(m);
    PhrasesDiffer(m, n);
  }

  /** node_server_callback. A request outside C's defined behaviour gets no answer here. */
  method NodeServerCallback(db: NodeTable, client: string, request: string, version: string, luck: Luck)
    returns (response: string, code: int)
    requires !db.isLedger && Sound(db.rows) && IsAddress(client)
    modifies db
    ensures Sound(db.rows)
    ensures db.rows == match Understand(request)
                       case AddNode(port) =>
                         if luck.opens then Inserted(old(db.rows), Node(client, port), luck) else old(db.rows)
                       case _ => old(db.rows)
    ensures code == match Understand(request)
                    case GetVersion => 0
                    case GetNodes => 0
                    case AddNode(_) => 0
                    case _ => -1
    ensures Understand(request) == GetVersion ==> response == ReplyText(true, version)
    ensures Understand(request) == GetNodes && luck.Reads() ==>
              Printable(NodesReply(luck.Given(db.rows))) && response == Text(NodesReply(luck.Given(db.rows)), 0, WIRE)
    ensures Understand(request) == GetNodes && !luck.Reads() ==> response == NoticeText(FetchFailed)
    ensures Understand(request).AddNode? ==>
              response == NoticeText(AddOutcome(old(db.rows), Node(client, Understand(request).port), luck))
    ensures Understand(request).AddNode? ==>
              TellsOutcome(response, old(db.rows), db.rows, Node(client, Understand(request).port), luck)
    ensures Understand(request) == UnknownMethod ==> response == NoticeText(InvalidMethod)
    ensures Understand(request) == NoMethod ==> response == NoticeText(InvalidMessage)
    ensures Understand(request) == Empty ==> response == NoticeText(EmptyMessage)
    ensures Understand(request) == GetVersion && IsValidUtf8(version, 0) ==> Says(response, "success", version)
    ensures Understand(request) == GetNodes && luck.Reads() ==> Hands(response, luck.Given(db.rows))
    ensures Understand(request) == GetNodes && !luck.Reads() ==>
              Says(response, "failed", "Failed fetching nodes from database")
    ensures Understand(request) == UnknownMethod ==> Says(response, "failed", "GEONSP: Invalid protocol method.")
    ensures Understand(request) == NoMethod ==> Says(response, "failed", "GEONSP: Invalid protocol message.")
    ensures Understand(request) == Empty ==> Says(response, "failed", "GEONSP: Empty protocol message.")
  {
    hide Understand, Text, ReplyText, NodesReply, IsValidUtf8, Phrase, Printable, TellsOutcome, Says, Hands;
    code := 0;
    response := "";
    ProtocolPhrases();
    match Understand(request) {
      case GetVersion =>
        if IsValidUtf8(version, 0) {
          ReplySays(true, version);
        }
        response := ReplyText(true, version);
      case GetNodes =>
        response := GiveNodes(db, luck);
      case AddNode(port) =>
        response := Register(db, Node(client, port), luck);
      case UnknownMethod =>
        NoticeSays(InvalidMethod);
        response := NoticeText(InvalidMethod);
        code := -1;
      case NoMethod =>
        NoticeSays(InvalidMessage);
        response := NoticeText(InvalidMessage);
        code := -1;
      case Empty =>
        NoticeSays(EmptyMessage);
        response := NoticeText(EmptyMessage);
        code := -1;
      case Undefined =>
        code := -1;
    }
  }

  function AddOutcome(rows: seq<Row>, n: Node, luck: Luck): Notice {
    if !luck.opens then FetchFailed
    else if !luck.prepares then InsertFailed
    else if luck.selects && Lists(rows, n) then AlreadyAdded
    else if luck.execs then NodeAdded
    else InsertFailed
  }

  /** The ADD_NODE branch. */
  method Register(db: NodeTable, n: Node, luck: Luck) returns (response: string)
    requires !db.isLedger && |n.addr| <= MAX_ADDR_LENGTH
    modifies db
    ensures db.rows == if luck.opens then Inserted(old(db.rows), n, luck) else old(db.rows)
    ensures response == NoticeText(AddOutcome(old(db.rows), n, luck))
    ensures TellsOutcome(response, old(db.rows), db.rows, n, luck)
  {
    hide ReplyText, Phrase, TellsOutcome;
    OutcomeIsTold(db.rows, if luck.opens then Inserted(db.rows, n, luck) else db.rows, n, luck);
    if !luck.opens {
      return NoticeText(FetchFailed);
    }
    var added := db.InsertNewNode(n, luck);
    response := NoticeText(if added == 0 then InsertFailed else if added == 2 then AlreadyAdded else NodeAdded);
  }

  lemma GivenAreNodes(rows: seq<Row>, luck: Luck)
    requires Sound(rows)
    ensures forall i :: 0 <= i < |luck.Given(rows)| ==> IsNode(luck.Given(rows)[i])
  {
    var nodes := luck.Given(rows);
    forall i | 0 <= i < |nodes| ensures IsNode(nodes[i]) {
      assert nodes[i] in nodes;
      assert Row(nodes[i], Active) in rows;
    }
  }

  /** The GET_NODES branch. */
  method GiveNodes(db: NodeTable, luck: Luck) returns (response: string)
    requires !db.isLedger && Sound(db.rows)
    ensures luck.Reads() ==> Printable(NodesReply(luck.Given(db.rows))) &&
                             response == Text(NodesReply(luck.Given(db.rows)), 0, WIRE)
    ensures !luck.Reads() ==> response == NoticeText(FetchFailed)
    ensures luck.Reads() ==> Hands(response, luck.Given(db.rows))
    ensures !luck.Reads() ==> Says(response, "failed", "Failed fetching nodes from database")
  {
    hide Text, Reply, IsValidUtf8, Spell, Describe, Printable, WellFormed, Level, ReplyText, Phrase, Says, Hands;
    NoticeSays(FetchFailed);
    DatabasePhrases();
    if !luck.opens {
      return NoticeText(FetchFailed);
    }
    var active := new Node[MAX_ACTIVE_NODES](_ => Node("", 0));
    var count := db.GetAllActiveNodes(active, MAX_ACTIVE_NODES, luck);
    if count == -1 {
      return NoticeText(FetchFailed);
    }
    ghost var nodes := luck.Given(db.rows);
    var items: seq<Value> := [];
    for i := 0 to count
      invariant active[..count] == nodes
      invariant items == DescribeAll(active[..i])
    {
      DescribeAllSplits(active[..i], [active[i]]);
      assert active[..i + 1] == active[..i] + [active[i]];
      items := items + [Describe(active[i])];
    }
    GivenAreNodes(db.rows, luck);
    NodesReplyShape(nodes);
    NodesReplyHands(nodes);
    response := Text(DataReply(true, Spell(FetchedWord), Arr(items)), 0, WIRE);
  }

  lemma {:induction false} DescribeAllSplits(a: seq<Node>, b: seq<Node>)
    ensures DescribeAll(a + b) == DescribeAll(a) + DescribeAll(b)
  {
    if a == [] {
      assert a + b == b;
    } else {
      assert (a + b)[1..] == a[1..] + b;
      DescribeAllSplits(a[1..], b);
    }
  }

  // ---------------------------------------------------------------- the initiator

  /** One entry of a reply, as the initiator stores it. */
  function StoredOne(rows: seq<Row>, n: Node, mine: set<string>, luck: Luck): seq<Row> {
    if IsMyIp(n.addr, mine) then rows else Inserted(rows, n, luck)
  }

  /** What a table becomes when the entries of a reply are stored in order; `lucks` has that of each insert. */
  function Stored(rows: seq<Row>, nodes: seq<Node>, mine: set<string>, lucks: seq<Luck>): seq<Row>
    requires |nodes| <= |lucks|
    decreases |nodes|
  {
    if nodes == [] then rows else Stored(StoredOne(rows, nodes[0], mine, lucks[0]), nodes[1..], mine, lucks[1..])
  }

  /** No insert gives a listed node another row. */
  predicate NeverBlind(rows: seq<Row>, nodes: seq<Node>, mine: set<string>, lucks: seq<Luck>)
    requires |nodes| <= |lucks|
    decreases |nodes|
  {
    nodes == [] ||
    ((IsMyIp(nodes[0].addr, mine) || !Blind(rows, nodes[0], lucks[0])) &&
     NeverBlind(StoredOne(rows, nodes[0], mine, lucks[0]), nodes[1..], mine, lucks[1..]))
  }

  lemma {:induction false} StoredKeepsRows(rows: seq<Row>, nodes: seq<Node>, mine: set<string>, lucks: seq<Luck>)
    requires |nodes| <= |lucks|
    ensures rows <= Stored(rows, nodes, mine, lucks)
    decreases |nodes|
  {
    if nodes != [] {
      StoredKeepsRows(StoredOne(rows, nodes[0], mine, lucks[0]), nodes[1..], mine, lucks[1..]);
    }
  }

  /** Every row is an old one or an entry of the reply with a foreign address. */
  lemma {:induction false} StoredRows(rows: seq<Row>, nodes: seq<Node>, mine: set<string>, lucks: seq<Luck>)
    requires |nodes| <= |lucks|
    ensures forall row :: row in Stored(rows, nodes, mine, lucks) ==>
              row in rows || (row.node in nodes && row.status == Active && !IsMyIp(row.node.addr, mine))
    decreases |nodes|
  {
    if nodes != [] {
      StoredRows(StoredOne(rows, nodes[0], mine, lucks[0]), nodes[1..], mine, lucks[1..]);
    }
  }

  /** Storing leaves the nodes of the table distinct exactly when they were, and no insert meets a listed node with a
      failing SELECT. */
  lemma {:induction false} StoredDistinctIff(rows: seq<Row>, nodes: seq<Node>, mine: set<string>, lucks: seq<Luck>)
    requires |nodes| <= |lucks|
    ensures NoDuplicates(Stored(rows, nodes, mine, lucks)) <==>
            NoDuplicates(rows) && NeverBlind(rows, nodes, mine, lucks)
    decreases |nodes|
  {
    hide NoDuplicates, Blind;
    if nodes != [] {
      InsertDistinctIff(rows, nodes[0], lucks[0]);
      StoredDistinctIff(StoredOne(rows, nodes[0], mine, lucks[0]), nodes[1..], mine, lucks[1..]);
    }
  }

  lemma ListsMore(rows: seq<Row>, more: seq<Row>, n: Node)
    requires Lists(rows, n) && rows <= more
    ensures Lists(more, n)
  {
    var i :| 0 <= i < |rows| && rows[i].node == n;
    assert more[i].node == n;
  }

  /** Every entry with a foreign address that fits the table is there afterwards unless its insert failed. */
  lemma {:induction false} StoredHasEntries(rows: seq<Row>, nodes: seq<Node>, mine: set<string>, lucks: seq<Luck>,
                                            i: nat)
    requires |nodes| <= |lucks| && i < |nodes|
    requires !IsMyIp(nodes[i].addr, mine) && |nodes[i].addr| <= MAX_ADDR_LENGTH && lucks[i].prepares && lucks[i].execs
    ensures Lists(Stored(rows, nodes, mine, lucks), nodes[i])
    decreases |nodes|
  {
    var rows' := StoredOne(rows, nodes[0], mine, lucks[0]);
    if i == 0 {
      InsertLists(rows, nodes[0], lucks[0]);
      StoredKeepsRows(rows', nodes[1..], mine, lucks[1..]);
      ListsMore(rows', Stored(rows, nodes, mine, lucks), nodes[0]);
    } else {
      StoredHasEntries(rows', nodes[1..], mine, lucks[1..], i - 1);
    }
  }

  /** Stores the entries of a reply. */
  method StoreNodes(db: NodeTable, nodes: seq<Node>, mine: set<string>, lucks: seq<Luck>)
    requires |nodes| <= |lucks| && !db.isLedger
    modifies db
    ensures db.rows == Stored(old(db.rows), nodes, mine, lucks)
  {
    assert nodes[0..] == nodes && lucks[0..] == lucks;
    for i := 0 to |nodes|
      invariant Stored(old(db.rows), nodes, mine, lucks) == Stored(db.rows, nodes[i..], mine, lucks[i..])
    {
      assert nodes[i..][1..] == nodes[i + 1..] && lucks[i..][1..] == lucks[i + 1..];
      if !IsMyIp(nodes[i].addr, mine) {
        var code := db.InsertNewNode(nodes[i], lucks[i]);
      }
    }
  }

  /** What a buffer holds once a message was received over the one before. */
  function Received(buffer: string, message: string): (r: string)
    ensures message <= r && |r| == if |message| < |buffer| then |buffer| else |message|
    ensures forall k :: |message| <= k < |r| ==> r[k] == buffer[k]
  {
    message + Leftover(buffer, message)
  }

  function Leftover(buffer: string, message: string): string {
    if |message| < |buffer| then buffer[|message|..] else ""
  }

  /** Whatever the buffer held before, each request of the initiator is understood. */
  lemma RequestsArrive(buffer: string, port: nat)
    requires port < PORTS
    ensures Sendable(HelloRequest(), P.MAX_NESTING)
    ensures Understand(Received(buffer, Text(HelloRequest(), 0, WIRE))) == GetVersion
    ensures Sendable(AddNodeRequest(port), P.MAX_NESTING)
    ensures Understand(Received(buffer, Text(AddNodeRequest(port), 0, WIRE))) == AddNode(port)
    ensures Sendable(GetNodesRequest(), P.MAX_NESTING)
    ensures Understand(Received(buffer, Text(GetNodesRequest(), 0, WIRE))) == GetNodes
  {
    hide Understand, Text, AddNodeRequest, GetNodesRequest, HelloRequest, WellFormed, Level, Printable;
    HelloArrives("");
    HelloArrives(Leftover(buffer, Text(HelloRequest(), 0, WIRE)));
    AnnouncementArrives(port, "");
    AnnouncementArrives(port, Leftover(buffer, Text(AddNodeRequest(port), 0, WIRE)));
    NodesRequestArrives("");
    NodesRequestArrives(Leftover(buffer, Text(GetNodesRequest(), 0, WIRE)));
  }

  /** An announcement by another client of the responder. */
  datatype Arrival = Arrival(node: Node, luck: Luck)

  function AllInserted(rows: seq<Row>, arrivals: seq<Arrival>): seq<Row>
    decreases |arrivals|
  {
    if arrivals == [] then rows
    else AllInserted(Inserted(rows, arrivals[0].node, arrivals[0].luck), arrivals[1..])
  }

  lemma {:induction false} AllInsertedKeepsRows(rows: seq<Row>, arrivals: seq<Arrival>)
    ensures rows <= AllInserted(rows, arrivals)
    decreases |arrivals|
  {
    if arrivals != [] {
      AllInsertedKeepsRows(Inserted(rows, arrivals[0].node, arrivals[0].luck), arrivals[1..]);
    }
  }

  /** The table of the responder after an announcement and those just before and after it. */
  function Announced(rows: seq<Row>, me: Node, luck: Luck, before: seq<Arrival>, after: seq<Arrival>): seq<Row> {
    var now := AllInserted(rows, before);
    AllInserted(if luck.opens then Inserted(now, me, luck) else now, after)
  }

  lemma AnnouncedKeepsRows(rows: seq<Row>, me: Node, luck: Luck, before: seq<Arrival>, after: seq<Arrival>)
    ensures rows <= Announced(rows, me, luck, before, after)
    ensures luck.Adds() && |me.addr| <= MAX_ADDR_LENGTH ==> Lists(Announced(rows, me, luck, before, after), me)
  {
    var now := AllInserted(rows, before);
    var next := if luck.opens then Inserted(now, me, luck) else now;
    AllInsertedKeepsRows(rows, before);
    AllInsertedKeepsRows(next, after);
    InsertLists(now, me, luck);
    if luck.Adds() && |me.addr| <= MAX_ADDR_LENGTH {
      ListsMore(next, AllInserted(next, after), me);
    }
  }

  /** What other clients announce to the responder between two requests of an exchange. */
  method Meanwhile(peer: NodeTable, arrivals: seq<Arrival>)
    requires !peer.isLedger && Sound(peer.rows) && forall i :: 0 <= i < |arrivals| ==> IsNode(arrivals[i].node)
    modifies peer
    ensures Sound(peer.rows) && peer.rows == AllInserted(old(peer.rows), arrivals)
  {
    hide IsNode;
    assert arrivals[0..] == arrivals;
    for i := 0 to |arrivals|
      invariant Sound(peer.rows)
      invariant AllInserted(old(peer.rows), arrivals) == AllInserted(peer.rows, arrivals[i..])
    {
      assert arrivals[i..][1..] == arrivals[i + 1..];
      var code := peer.InsertNewNode(arrivals[i].node, arrivals[i].luck);
    }
  }

  /** handle_node_info_exchange: 2 when the destination is this host, 1 after an exchange, 0 when there was none.
      `peer` is the table of the node that serves at the destination, if one does; `recordedAs` is the address it has on
      record for this host. `lucks` are those of the inserts here, and the last one that of a removal; `before` and
      `after` are the announcements of others just before and just after that of this host. */
  method HandleNodeInfoExchange(db: NodeTable, mine: set<string>, sourcePort: nat, destination: Node,
                                removeInactive: bool, peer: NodeTable?, recordedAs: string, version: string,
                                addLuck: Luck, getLuck: Luck, lucks: seq<Luck>,
                                before: seq<Arrival>, after: seq<Arrival>)
    returns (code: nat)
    requires !db.isLedger && Sound(db.rows) && sourcePort < PORTS && |lucks| == MAX_ACTIVE_NODES + 1
    requires peer != null ==> peer != db && !peer.isLedger && Sound(peer.rows) && IsAddress(recordedAs)
    requires forall i :: 0 <= i < |before| ==> IsNode(before[i].node)
    requires forall i :: 0 <= i < |after| ==> IsNode(after[i].node)
    modifies db, peer
    ensures code == if IsMyIp(destination.addr, mine) then 2
                    else if peer != null && IsValidUtf8(version, 0) then 1 else 0
    ensures code == 2 <==> destination.addr == "0.0.0.0" || destination.addr in mine
    ensures code == 2 ==> db.rows == old(db.rows)
    ensures code == 0 ==> db.rows == if removeInactive && lucks[MAX_ACTIVE_NODES].execs
                                     then Without(old(db.rows), destination) else old(db.rows)
    ensures peer != null ==> Sound(peer.rows)
    ensures peer != null ==>
              peer.rows == if code == 1
                           then Announced(old(peer.rows), Node(recordedAs, sourcePort), addLuck, before, after)
                           else old(peer.rows)
    ensures code == 1 ==> db.rows == if getLuck.Reads()
                                     then Stored(old(db.rows), getLuck.Given(peer.rows), mine, lucks)
                                     else old(db.rows)
  {
    hide Understand, Text, ReadNodes, Greets, IsValidUtf8, Spell, ReplyText, Phrase, NodesReply, AddNodeRequest,
         WellFormed, Printable, Level, BaseMessage, Received, Says, Hands, TellsOutcome;
    if IsMyIp(destination.addr, mine) {
      return 2;
    }
    var available := false;
    var buffer := "";
    if peer != null {
      RequestsArrive(buffer, sourcePort);
      buffer := Received(buffer, Text(HelloRequest(), 0, WIRE));
      var greeting, _ := NodeServerCallback(peer, recordedAs, buffer, version, addLuck);
      GreetsExactlyOnSuccess(true, version, "");
      assert greeting + "" == greeting;
      available := Greets(greeting);
    }
    if available {
      Meanwhile(peer, before);
      RequestsArrive(buffer, sourcePort);
      buffer := Received(buffer, Text(AddNodeRequest(sourcePort), 0, WIRE));
      var _, _ := NodeServerCallback(peer, recordedAs, buffer, version, addLuck);
      Meanwhile(peer, after);
      RequestsArrive(buffer, sourcePort);
      buffer := Received(buffer, Text(GetNodesRequest(), 0, WIRE));
      var reply, _ := NodeServerCallback(peer, recordedAs, buffer, version, getLuck);
      assert reply + "" == reply;
      if getLuck.Reads() {
        GivenAreNodes(peer.rows, getLuck);
        NodesArrive(getLuck.Given(peer.rows), "");
      } else {
        ReplyHasNoNodes(false, Phrase(FetchFailed), "");
      }
      var nodes := ReadNodes(reply).value;
      StoreNodes(db, nodes, mine, lucks);
      code := 1;
    } else {
      if removeInactive {
        var ok := db.RemoveNode(destination, lucks[MAX_ACTIVE_NODES]);
      }
      code := 0;
    }
  }

  /** What a successful exchange leaves behind when no database fails, whatever other clients announce meanwhile: the
      responder lists the initiator, and the initiator every entry the responder then hands out except those at its own
      addresses, and all it had. */
  lemma ExchangeEffect(mineRows: seq<Row>, peerRows: seq<Row>, mine: set<string>, me: Node, addLuck: Luck,
                       getLuck: Luck, lucks: seq<Luck>, before: seq<Arrival>, after: seq<Arrival>)
    requires |me.addr| <= MAX_ADDR_LENGTH && addLuck.Adds()
    requires Sound(Announced(peerRows, me, addLuck, before, after))
    requires |lucks| == MAX_ACTIVE_NODES + 1 && forall i :: 0 <= i < |lucks| ==> lucks[i].Adds()
    ensures var peerRows' := Announced(peerRows, me, addLuck, before, after);
            var returned := getLuck.Given(peerRows');
            var rows' := Stored(mineRows, returned, mine, lucks);
            && Lists(peerRows', me)
            && mineRows <= rows'
            && forall i :: 0 <= i < |returned| && !IsMyIp(returned[i].addr, mine) ==> Lists(rows', returned[i])
  {
    hide IsValidUtf8, Announced;
    var peerRows' := Announced(peerRows, me, addLuck, before, after);
    AnnouncedKeepsRows(peerRows, me, addLuck, before, after);
    var returned := getLuck.Given(peerRows');
    StoredKeepsRows(mineRows, returned, mine, lucks);
    GivenAreNodes(peerRows', getLuck);
    forall i | 0 <= i < |returned| && !IsMyIp(returned[i].addr, mine)
      ensures Lists(Stored(mineRows, returned, mine, lucks), returned[i])
    {
      StoredHasEntries(mineRows, returned, mine, lucks, i);
    }
  }
}
