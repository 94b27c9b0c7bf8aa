/** The node table of the local database, as the statements of table.c use it. */
module NodeTables {
  /** What identifies a node: the address peers see it at and the port of its node server. */
  datatype Node = Node(addr: string, port: nat)
  datatype Status = Active | Inactive
  datatype Row = Row(node: Node, status: Status)

  const MAX_ACTIVE_NODES: nat := 16
  /** CHECK (LENGTH(server) <= 15). */
  const MAX_ADDR_LENGTH: nat := 15

  predicate Lists(rows: seq<Row>, n: Node) {
    exists i :: 0 <= i < |rows| && rows[i].node == n
  }

  /** What the database does during one call: whether the database opens, the statement is prepared, the row that a
      SELECT finds is delivered, and an INSERT or DELETE is executed; and how many rows a listing delivers. */
  datatype Luck = Luck(opens: bool, prepares: bool, selects: bool, execs: bool, until: nat) {
    /** An insert that cannot fail. */
    predicate Adds() { opens && prepares && execs }

    predicate Reads() { opens && prepares }

    /** The nodes a listing delivers: it ends early, without a report, at an error between two rows. */
    function Given(rows: seq<Row>): (nodes: seq<Node>)
      ensures |nodes| <= MAX_ACTIVE_NODES
      ensures forall n :: n in nodes ==> Row(n, Active) in rows
    {
      ActiveNodes(rows, if until < MAX_ACTIVE_NODES then until else MAX_ACTIVE_NODES)
    }
  }

  /** insert_new_node. Only a delivered row counts as found: after any other outcome of the SELECT the INSERT runs. */
  function Inserted(rows: seq<Row>, n: Node, luck: Luck): seq<Row> {
    if !luck.prepares || (luck.selects && Lists(rows, n)) || !luck.execs || |n.addr| > MAX_ADDR_LENGTH then rows
    else rows + [Row(n, Active)]
  }

  /** An insert that gives a listed node another row: the SELECT fails, and the INSERT works. */
  predicate Blind(rows: seq<Row>, n: Node, luck: Luck) {
    Lists(rows, n) && luck.prepares && !luck.selects && luck.execs && |n.addr| <= MAX_ADDR_LENGTH
  }

  function Without(rows: seq<Row>, n: Node): (r: seq<Row>)
    ensures forall row :: row in r <==> row in rows && row.node != n
  {
    if rows == [] then []
    else if rows[0].node == n then Without(rows[1..], n)
    else [rows[0]] + Without(rows[1..], n)
  }

  /** The first `limit` active nodes. */
  function ActiveNodes(rows: seq<Row>, limit: nat): (nodes: seq<Node>)
    ensures |nodes| <= limit
    ensures forall n :: n in nodes ==> Row(n, Active) in rows
  {
    if rows == [] || limit == 0 then []
    else if rows[0].status == Active then [rows[0].node] + ActiveNodes(rows[1..], limit - 1)
    else ActiveNodes(rows[1..], limit)
  }

  lemma ActiveNodesFrom(rows: seq<Row>, i: nat, limit: nat)
    requires i <= |rows|
    ensures i == |rows| || limit == 0 ==> ActiveNodes(rows[i..], limit) == []
    ensures i < |rows| && limit > 0 ==>
              ActiveNodes(rows[i..], limit) ==
              if rows[i].status == Active then [rows[i].node] + ActiveNodes(rows[i + 1..], limit - 1)
              else ActiveNodes(rows[i + 1..], limit)
  {
    assert i < |rows| ==> rows[i..][1..] == rows[i + 1..];
  }

  ghost predicate NoDuplicates(rows: seq<Row>) {
    forall i, j :: 0 <= i < j < |rows| ==> rows[i].node != rows[j].node
  }

  /** An insert leaves the nodes distinct exactly when they were, and it is not one of those. */
  lemma InsertDistinctIff(rows: seq<Row>, n: Node, luck: Luck)
    ensures NoDuplicates(Inserted(rows, n, luck)) <==> NoDuplicates(rows) && !Blind(rows, n, luck)
  {
    var rows' := Inserted(rows, n, luck);
    if Blind(rows, n, luck) {
      var i :| 0 <= i < |rows| && rows[i].node == n;
      assert rows'[i].node == rows'[|rows|].node;
    }
    if !NoDuplicates(rows) {
      var i, j :| 0 <= i < j < |rows| && rows[i].node == rows[j].node;
      assert rows'[i].node == rows'[j].node;
    }
  }

  /** After an insert that is prepared and executed the node is listed, and so is every other one as before. */
  lemma InsertLists(rows: seq<Row>, n: Node, luck: Luck)
    ensures luck.prepares && luck.execs && |n.addr| <= MAX_ADDR_LENGTH ==> Lists(Inserted(rows, n, luck), n)
    ensures forall m :: m != n || !luck.prepares || !luck.execs || |n.addr| > MAX_ADDR_LENGTH ==>
              (Lists(Inserted(rows, n, luck), m) <==> Lists(rows, m))
    ensures rows <= Inserted(rows, n, luck)
  {
    var rows' := Inserted(rows, n, luck);
    if rows' != rows {
      assert rows'[|rows|].node == n;
    }
    forall m | Lists(rows, m) ensures Lists(rows', m) {
      var i :| 0 <= i < |rows| && rows[i].node == m;
      assert rows'[i] == rows[i];
    }
  }

  lemma {:induction false} WithoutKeepsDistinct(rows: seq<Row>, n: Node)
    requires NoDuplicates(rows)
    ensures NoDuplicates(Without(rows, n))
  {
    if rows != [] {
      WithoutKeepsDistinct(rows[1..], n);
      if rows[0].node != n {
        var rest := Without(rows[1..], n);
        forall j | 0 <= j < |rest| ensures rest[j].node != rows[0].node {
          assert rest[j] in rows[1..];
        }
      }
    }
  }

  /** All active nodes are among the first `limit` when there are no more than that. */
  lemma {:induction false} FewActiveNodesAreAll(rows: seq<Row>, limit: nat, n: Node)
    requires |rows| <= limit && Row(n, Active) in rows
    ensures n in ActiveNodes(rows, limit)
  {
    if rows[0] != Row(n, Active) {
      FewActiveNodesAreAll(rows[1..], if rows[0].status == Active then limit - 1 else limit, n);
    }
  }

  /** A listing of two tables, one behind the other, is that of the first and then that of the second, up to the
      limit: rows are taken in order, and none is passed over. */
  lemma {:induction false} ListingJoins(a: seq<Row>, b: seq<Row>, limit: nat)
    ensures var first := ActiveNodes(a, limit);
            ActiveNodes(a + b, limit) == first + ActiveNodes(b, limit - |first|)
  {
    if a == [] {
      assert a + b == b;
    } else if limit > 0 {
      var taken := if a[0].status == Active then 1 else 0;
      assert (a + b)[1..] == a[1..] + b;
      ListingJoins(a[1..], b, limit - taken);
      NextListed(a, limit);
      NextListed(a + b, limit);
    }
  }

  lemma NextListed(rows: seq<Row>, limit: nat)
    requires rows != [] && limit > 0
    ensures ActiveNodes(rows, limit) ==
            if rows[0].status == Active then [rows[0].node] + ActiveNodes(rows[1..], limit - 1)
            else ActiveNodes(rows[1..], limit)
  {
  }

  /** Of one row the node is listed exactly when it is active. */
  lemma ListingOfOne(row: Row, limit: nat)
    ensures ActiveNodes([row], limit) == if row.status == Active && limit > 0 then [row.node] else []
  {
    assert [row][1..] == [];
  }

  /** So is a removal: the other rows stay in order. */
  lemma {:induction false} RemovalJoins(a: seq<Row>, b: seq<Row>, n: Node)
    ensures Without(a + b, n) == Without(a, n) + Without(b, n)
    ensures forall row: Row :: Without([row], n) == if row.node == n then [] else [row]
  {
    if a == [] {
      assert a + b == b;
    } else {
      assert (a + b)[1..] == a[1..] + b;
      RemovalJoins(a[1..], b, n);
    }
  }

  class NodeTable {
    const isLedger: bool
    var rows: seq<Row>

    constructor (isLedger: bool)
      ensures this.isLedger == isLedger && rows == []
    {
      this.isLedger := isLedger;
      rows := [];
    }

    /** 0: error, 1: added, 2: already there. */
    method InsertNewNode(n: Node, luck: Luck) returns (code: nat)
      modifies this
      ensures rows == if isLedger then old(rows) else Inserted(old(rows), n, luck)
      ensures code == if isLedger || !luck.prepares then 0
                      else if luck.selects && Lists(old(rows), n) then 2
                      else if luck.execs && |n.addr| <= MAX_ADDR_LENGTH then 1 else 0
      ensures code == 1 || code == 2 ==> Lists(rows, n)
    {
      if isLedger || !luck.prepares { return 0; }
      if luck.selects {
        for i := 0 to |rows|
          invariant rows == old(rows)
          invariant forall j :: 0 <= j < i ==> rows[j].node != n
        {
          if rows[i].node == n { return 2; }
        }
      }
      if !luck.execs || |n.addr| > MAX_ADDR_LENGTH { return 0; }
      rows := rows + [Row(n, Active)];
      assert rows[|rows| - 1].node == n;
      code := 1;
    }

    method RemoveNode(n: Node, luck: Luck) returns (ok: bool)
      modifies this
      ensures rows == if luck.execs then Without(old(rows), n) else old(rows)
      ensures ok == luck.execs
    {
      if !luck.execs { return false; }
      var kept: seq<Row> := [];
      assert rows[0..] == rows;
      for i := 0 to |rows|
        invariant rows == old(rows) && kept + Without(rows[i..], n) == Without(rows, n)
      {
        assert rows[i..][1..] == rows[i + 1..];
        if rows[i].node != n {
          kept := kept + [rows[i]];
        }
      }
      rows := kept;
      ok := true;
    }

    /** Fills the array of the caller; -1 on an error before the first row. */
    method GetAllActiveNodes(nodes: array<Node>, size: nat, luck: Luck) returns (count: int)
      requires size <= nodes.Length
      modifies nodes
      ensures count == -1 <==> isLedger || !luck.prepares
      ensures count != -1 ==> 0 <= count <= size &&
                              nodes[..count] == ActiveNodes(rows, if luck.until < size then luck.until else size)
    {
      hide ActiveNodes;
      if isLedger || !luck.prepares { return -1; }
      count := 0;
      var i := 0;
      ghost var limit := if luck.until < size then luck.until else size;
      ghost var found: seq<Node> := [];
      assert rows[0..] == rows;
      while i < |rows| && count < size && count < luck.until
        invariant 0 <= i <= |rows| && |found| == count <= limit
        invariant forall k :: 0 <= k < count ==> nodes[k] == found[k]
        invariant ActiveNodes(rows, limit) == found + ActiveNodes(rows[i..], limit - count)
      {
        ActiveNodesFrom(rows, i, limit - count);
        if rows[i].status == Active {
          nodes[count] := rows[i].node;
          count := count + 1;
          found := found + [rows[i].node];
        }
        i := i + 1;
      }
      assert nodes[..count] == found;
      ActiveNodesFrom(rows, i, limit - count);
    }
  }
}

/** The messages of the protocol as JSON text. Each send is taken to arrive whole in one receive. */
module Wire {
  import opened Options
  import opened Json
  import opened CString
  import opened Unicode
  import opened StringLiteral
  import opened Decimals
  import opened Doubles
  import opened Serializer
  import opened DotPath
  import opened NodeTables
  import P = Parser
  import RoundTrip

  /** json_serialize_to_string with the default slash setting. */
  const WIRE: Style := Style(false, true)
  const BUFFER_SIZE: nat := 4096
  const PORTS: nat := 0x10000

  /** The words of the protocol: keys first. */
  datatype Word =
    | MethodKey | DataKey | PortKey | StatusKey | MessageKey | ServerKey | NodeKey
    | GetVersionWord | GetNodesWord | AddNodeWord | SuccessWord | FailedWord | ActiveWord | FetchedWord

  function Spell(w: Word): string {
    match w
    case MethodKey => "method"
    case DataKey => "data"
    case PortKey => "node_gateway_port"
    case StatusKey => "status"
    case MessageKey => "message"
    case ServerKey => "server"
    case NodeKey => "node"
    case GetVersionWord => "GET_VERSION"
    case GetNodesWord => "GET_NODES"
    case AddNodeWord => "ADD_NODE"
    case SuccessWord => "success"
    case FailedWord => "failed"
    case ActiveWord => "active"
    case FetchedWord => "Successfully fetched list of nodes."
  }

  predicate IsKey(w: Word) {
    w.MethodKey? || w.DataKey? || w.PortKey? || w.StatusKey? || w.MessageKey? || w.ServerKey? || w.NodeKey?
  }

  lemma KeysDiffer(u: Word, v: Word)
    requires IsKey(u) && IsKey(v) && u != v
    ensures Spell(u) != Spell(v)
  {
    assert |Spell(u)| != |Spell(v)| || Spell(u)[0] != Spell(v)[0] || Spell(u)[1] != Spell(v)[1];
  }

  /** A byte that JSON text holds as it is. */
  predicate IsPlain(c: char) {
    ' ' <= c && (c as int) < 0x80 && c != '"' && c != '\\' && c != '/'
  }

  lemma KeyIsPlain(w: Word)
    requires IsKey(w)
    ensures forall k :: 0 <= k < |Spell(w)| ==> IsPlain(Spell(w)[k])
  {
  }

  lemma TextIsPlain(w: Word)
    requires !IsKey(w)
    ensures forall k :: 0 <= k < |Spell(w)| ==> IsPlain(Spell(w)[k])
  {
    if w.FetchedWord? {
      FetchedIsPlain();
    }
  }

  lemma FetchedIsPlain()
    ensures forall k :: 0 <= k < |Spell(FetchedWord)| ==> IsPlain(Spell(FetchedWord)[k])
  {
  }

  lemma KeyHasNoDot(w: Word)
    ensures IsKey(w) ==> '.' !in Spell(w)
  {
  }

  lemma WordIsPlain(w: Word)
    ensures '\0' !in Spell(w) && (IsKey(w) ==> '.' !in Spell(w))
    ensures IsValidUtf8(Spell(w), 0)
  {
    hide Spell, IsValidUtf8;
    if IsKey(w) {
      KeyIsPlain(w);
      KeyHasNoDot(w);
    } else {
      TextIsPlain(w);
    }
    AsciiIsUtf8(Spell(w), 0);
  }

  /** The path of the port in an announcement. */
  function PortPath(): string {
    Spell(DataKey) + "." + Spell(PortKey)
  }

  /** json_object_set_string: text that is not UTF-8 is not stored. */
  function SetString(ms: seq<Member>, key: string, s: string): seq<Member> {
    if IsValidUtf8(s, 0) then Assigned(ms, key, Str(s)) else ms
  }

  // ---------------------------------------------------------------- requests

  function BaseMessage(message: Word): seq<Member> {
    SetString([], Spell(MethodKey), Spell(message))
  }

  /** construct_add_node_request. */
  function AddNodeRequest(port: nat): Value {
    var base := BaseMessage(AddNodeWord);
    match DotSet(base, PortPath(), Num(port as real))
    case None => Obj(base)
    case Some(ms) => Obj(ms)
  }

  /** construct_get_nodes_request. */
  function GetNodesRequest(): Value {
    Obj(BaseMessage(GetNodesWord))
  }

  /** What node_server_callback makes of a request. `Undefined` is where the code leaves C's defined behaviour:
      a method that is not a string, or a port that does not fit a 16-bit number. */
  datatype Request = GetVersion | GetNodes | AddNode(port: nat) | UnknownMethod | NoMethod | Empty | Undefined

  predicate StartsWith(s: string, prefix: string) {
    prefix <= s
  }

  function Understand(text: string): (r: Request)
    ensures r.AddNode? ==> r.port < PORTS
  {
    if At(text, 0) == '\0' then Empty
    else
      var ms := MembersOf(P.ParseString(text));
      match Get(ms, Spell(MethodKey))
      case None => NoMethod
      case Some(Str(m)) =>
        if StartsWith(m, Spell(GetVersionWord)) then GetVersion
        else if StartsWith(m, Spell(GetNodesWord)) then GetNodes
        else if StartsWith(m, Spell(AddNodeWord)) then
          match PortOf(DotGet(ms, PortPath()))
          case None => Undefined
          case Some(port) => AddNode(port)
        else UnknownMethod
      case Some(_) => Undefined
  }

  /** json_value_get_object, with the items of a missing object. */
  function MembersOf(v: Option<Value>): seq<Member> {
    match v
    case Some(Obj(ms)) => ms
    case _ => []
  }

  /** json_value_get_number converted to an unsigned short. */
  function PortOf(v: Option<Value>): (r: Option<nat>)
    ensures r.Some? ==> r.value < PORTS
  {
    match v
    case Some(Num(x)) =>
      if -1.0 < x < 0.0 then Some(0) else if 0.0 <= x && x.Floor < PORTS then Some(x.Floor) else None
    case _ => Some(0)
  }

  // ---------------------------------------------------------------- replies

  /** server_proto_response. */
  function Reply(success: bool, message: string): seq<Member> {
    SetString(SetString([], Spell(StatusKey), Spell(if success then SuccessWord else FailedWord)),
              Spell(MessageKey), message)
  }

  /** server_proto_data_response. */
  function DataReply(success: bool, message: string, data: Value): Value {
    Obj(Assigned(Reply(success, message), Spell(DataKey), data))
  }

  function Describe(n: Node): Value {
    Obj(SetString(Assigned(SetString([], Spell(ServerKey), n.addr), Spell(NodeKey), Num(n.port as real)),
                  Spell(StatusKey), Spell(ActiveWord)))
  }

  function DescribeAll(nodes: seq<Node>): (items: seq<Value>)
    ensures |items| == |nodes| && forall i :: 0 <= i < |items| ==> items[i] == Describe(nodes[i])
  {
    if nodes == [] then [] else [Describe(nodes[0])] + DescribeAll(nodes[1..])
  }

  function NodesReply(nodes: seq<Node>): Value {
    DataReply(true, Spell(FetchedWord), Arr(DescribeAll(nodes)))
  }

  /** The entries the initiator reads from a reply: at most 255, as they are counted in a byte. Without a data
      array there are none. `None` is where the code would compare a missing address. */
  function ReadNodes(text: string): Option<seq<Node>> {
    match Get(MembersOf(P.ParseString(text)), Spell(DataKey))
    case Some(Arr(items)) => ReadItems(items[..|items| % 0x100])
    case _ => Some([])
  }

  function ReadItems(items: seq<Value>): Option<seq<Node>> {
    if items == [] then Some([])
    else match ReadItem(items[0])
      case None => None
      case Some(n) =>
        match ReadItems(items[1..])
        case None => None
        case Some(rest) => Some([n] + rest)
  }

  function ReadItem(item: Value): Option<Node> {
    var ms := MembersOf(Some(item));
    match Get(ms, Spell(ServerKey))
    case Some(Str(addr)) =>
      (match PortOf(Get(ms, Spell(NodeKey)))
       case None => None
       case Some(port) => Some(Node(addr, port)))
    case _ => None
  }

  // ---------------------------------------------------------------- texts that arrive as they were meant

  lemma {:induction false} AsciiIsUtf8(s: string, p: nat)
    requires forall k :: 0 <= k < |s| ==> s[k] as int < 0x80
    ensures IsValidUtf8(s, p)
    decreases |s| - p
  {
    if p < |s| {
      assert VerifySequence(s, p) == Some(Decoded(s[p] as int, 1));
      AsciiIsUtf8(s, p + 1);
    }
  }

  /** A value that survives the wire. */
  ghost predicate Sendable(v: Value, level: nat) {
    Printable(v) && WellFormed(v) && Level(v) <= level
  }

  ghost predicate SendableMembers(ms: seq<Member>, level: nat) {
    UniqueKeys(ms) && forall i :: 0 <= i < |ms| ==> '\0' !in ms[i].key && Sendable(ms[i].val, level)
  }

  lemma SendableObject(ms: seq<Member>, level: nat)
    requires SendableMembers(ms, level)
    ensures Sendable(Obj(ms), level + 1)
  {
    PrintableMembersAll(ms);
    MembersLevelAtMost(ms, level + 1);
  }

  lemma SendableArray(items: seq<Value>, level: nat)
    requires forall i :: 0 <= i < |items| ==> Sendable(items[i], level)
    ensures Sendable(Arr(items), level + 1)
  {
    PrintableItemsAll(items);
    ItemsLevelAtMost(items, level + 1);
  }

  lemma AssignedSendable(ms: seq<Member>, key: string, v: Value, level: nat)
    requires SendableMembers(ms, level) && '\0' !in key && Sendable(v, level)
    ensures SendableMembers(Assigned(ms, key, v), level)
  {
  }

  lemma PortIsSendable(port: nat)
    requires port < PORTS
    ensures Sendable(Num(port as real), 0)
  {
    hide IsDouble;
    WholeIsDouble(port);
  }

  /** The buffer of a connection is not cleared between messages, so a message can be followed by the end of an earlier
      one. */
  lemma Arrives(v: Value, tail: string)
    requires Sendable(v, P.MAX_NESTING) && !v.Num?
    ensures P.ParseString(Text(v, 0, WIRE) + tail) == Some(v)
    ensures At(Text(v, 0, WIRE) + tail, 0) != '\0'
  {
    hide Text, P.ParseString;
    RoundTrip.SerializeThenParseWithTail(v, WIRE, tail);
    RoundTrip.FirstChar(v, 0, WIRE);
  }

  lemma PortPathKeys()
    ensures Path(PortPath()) == [Spell(DataKey), Spell(PortKey)]
  {
    WordIsPlain(DataKey);
    WordIsPlain(PortKey);
    hide Spell, Path;
    PathOfDotted(Spell(DataKey), Spell(PortKey));
    PathOfKey(Spell(PortKey));
  }

  lemma BaseMessageShape(message: Word)
    ensures BaseMessage(message) == Assigned([], Spell(MethodKey), Str(Spell(message)))
    ensures SendableMembers(BaseMessage(message), 1)
    ensures Get(BaseMessage(message), Spell(DataKey)) == None
    ensures Get(BaseMessage(message), Spell(MethodKey)) == Some(Str(Spell(message)))
  {
    WordIsPlain(MethodKey);
    WordIsPlain(message);
    KeysDiffer(MethodKey, DataKey);
    hide Spell, IsValidUtf8;
    AssignedSendable([], Spell(MethodKey), Str(Spell(message)), 1);
    GetAssigned([], Spell(MethodKey), Str(Spell(message)), Spell(DataKey));
    GetAssigned([], Spell(MethodKey), Str(Spell(message)), Spell(MethodKey));
  }

  /** The object that carries a port. */
  function PortObject(port: nat): seq<Member> {
    Assigned([], Spell(PortKey), Num(port as real))
  }

  lemma AddNodeRequestShape(port: nat)
    requires port < PORTS
    ensures AddNodeRequest(port) == Obj(Assigned(BaseMessage(AddNodeWord), Spell(DataKey), Obj(PortObject(port))))
    ensures Sendable(AddNodeRequest(port), 2)
  {
    hide Spell, DotSet, Assigned, Sendable;
    var base, v, inner := BaseMessage(AddNodeWord), Num(port as real), PortObject(port);
    BaseMessageShape(AddNodeWord);
    PortPathKeys();
    DotSetIsSetPath(base, PortPath(), v);
    TwoLevelSet(base, Spell(DataKey), Spell(PortKey), v);
    WordIsPlain(PortKey);
    WordIsPlain(DataKey);
    PortIsSendable(port);
    AssignedSendable([], Spell(PortKey), v, 0);
    SendableObject(inner, 0);
    AssignedSendable(base, Spell(DataKey), Obj(inner), 1);
    SendableObject(Assigned(base, Spell(DataKey), Obj(inner)), 1);
  }

  lemma TwoLevelSet(ms: seq<Member>, outer: string, inner: string, v: Value)
    requires Get(ms, outer) == None
    ensures SetPath(ms, [outer, inner], v) == Some(Assigned(ms, outer, Obj(Assigned([], inner, v))))
  {
    assert [outer, inner][1..] == [inner];
  }

  /** The text is JSON with this method. */
  ghost predicate Asks(text: string, verb: string) {
    Get(MembersOf(P.ParseString(text)), "method") == Some(Str(verb))
  }

  /** The method decides by its first characters. */
  lemma UnderstoodByMethod(text: string, verb: string)
    requires At(text, 0) != '\0' && Asks(text, verb)
    ensures Understand(text) == GetVersion <==> "GET_VERSION" <= verb
    ensures Understand(text) == GetNodes <==> "GET_NODES" <= verb
    ensures "ADD_NODE" <= verb <==> Understand(text).AddNode? || Understand(text) == Undefined
    ensures Understand(text).AddNode? ==>
              PortOf(Walk(MembersOf(P.ParseString(text)), ["data", "node_gateway_port"])) ==
              Some(Understand(text).port)
  {
    hide Spell, P.ParseString, Understand, Walk, PortOf, Get;
    SpelledMethods();
    UnderstoodBySpelling(text, verb);
  }

  lemma UnderstoodBySpelling(text: string, verb: string)
    requires At(text, 0) != '\0' && Get(MembersOf(P.ParseString(text)), Spell(MethodKey)) == Some(Str(verb))
    ensures Understand(text) == GetVersion <==> Spell(GetVersionWord) <= verb
    ensures Understand(text) == GetNodes <==> Spell(GetNodesWord) <= verb
    ensures Spell(AddNodeWord) <= verb <==> Understand(text).AddNode? || Understand(text) == Undefined
    ensures Understand(text).AddNode? ==>
              PortOf(Walk(MembersOf(P.ParseString(text)), [Spell(DataKey), Spell(PortKey)])) ==
              Some(Understand(text).port)
  {
    hide Spell, P.ParseString, DotGet, Walk, PortOf, Get;
    PortPathKeys();
    VerbsDiffer(verb);
    DotGetWalks(MembersOf(P.ParseString(text)), PortPath());
  }

  lemma VerbsDiffer(verb: string)
    ensures !(Spell(GetVersionWord) <= verb && Spell(GetNodesWord) <= verb)
    ensures Spell(AddNodeWord) <= verb ==> !(Spell(GetVersionWord) <= verb) && !(Spell(GetNodesWord) <= verb)
  {
    if Spell(GetVersionWord) <= verb { assert verb[0] == 'G' && verb[4] == 'V'; }
    if Spell(GetNodesWord) <= verb { assert verb[0] == 'G' && verb[4] == 'N'; }
    if Spell(AddNodeWord) <= verb { assert verb[0] == 'A'; }
  }

  lemma SpelledMethods()
    ensures Spell(MethodKey) == "method" && Spell(DataKey) == "data" && Spell(PortKey) == "node_gateway_port"
    ensures Spell(GetVersionWord) == "GET_VERSION" && Spell(GetNodesWord) == "GET_NODES"
    ensures Spell(AddNodeWord) == "ADD_NODE"
  {
  }

  /** The responder understands an announcement as what the initiator meant. */
  lemma AnnouncementArrives(port: nat, tail: string)
    requires port < PORTS
    ensures Sendable(AddNodeRequest(port), P.MAX_NESTING)
    ensures Understand(Text(AddNodeRequest(port), 0, WIRE) + tail) == AddNode(port)
  {
    hide Spell, Text, P.ParseString, DotGet, Walk, Assigned, Get, WellFormed, Printable, Level, AddNodeRequest;
    AddNodeRequestShape(port);
    Arrives(AddNodeRequest(port), tail);
    BaseMessageShape(AddNodeWord);
    KeysDiffer(MethodKey, DataKey);
    var base, v, inner := BaseMessage(AddNodeWord), Num(port as real), PortObject(port);
    var ms := Assigned(base, Spell(DataKey), Obj(inner));
    GetAssigned(base, Spell(DataKey), Obj(inner), Spell(MethodKey));
    DotGetWalks(ms, PortPath());
    PortPathKeys();
    PortIsFound(base, port);
    MethodPrefixes();
  }

  /** The text of an announcement has the method and the port where they belong. */
  lemma AnnouncementText(port: nat, tail: string)
    requires port < PORTS
    ensures Printable(AddNodeRequest(port))
    ensures var text := Text(AddNodeRequest(port), 0, WIRE) + tail;
            && Asks(text, "ADD_NODE")
            && Walk(MembersOf(P.ParseString(text)), ["data", "node_gateway_port"]) == Some(Num(port as real))
  {
    hide Spell, Text, P.ParseString, Walk, Assigned, Get, WellFormed, Printable, Level, AddNodeRequest;
    SpelledMethods();
    AddNodeRequestShape(port);
    Arrives(AddNodeRequest(port), tail);
    BaseMessageShape(AddNodeWord);
    KeysDiffer(MethodKey, DataKey);
    var base := BaseMessage(AddNodeWord);
    GetAssigned(base, Spell(DataKey), Obj(PortObject(port)), Spell(MethodKey));
    PortIsFound(base, port);
  }

  lemma PortIsFound(base: seq<Member>, port: nat)
    ensures Walk(Assigned(base, Spell(DataKey), Obj(PortObject(port))), [Spell(DataKey), Spell(PortKey)]) ==
            Some(Num(port as real))
  {
    hide Spell, Assigned;
    GetAssigned(base, Spell(DataKey), Obj(PortObject(port)), Spell(DataKey));
    GetAssigned([], Spell(PortKey), Num(port as real), Spell(PortKey));
    assert [Spell(DataKey), Spell(PortKey)][1..] == [Spell(PortKey)];
  }

  lemma MethodPrefixes()
    ensures !StartsWith(Spell(AddNodeWord), Spell(GetVersionWord))
    ensures !StartsWith(Spell(AddNodeWord), Spell(GetNodesWord))
    ensures StartsWith(Spell(AddNodeWord), Spell(AddNodeWord))
    ensures !StartsWith(Spell(GetNodesWord), Spell(GetVersionWord))
    ensures StartsWith(Spell(GetNodesWord), Spell(GetNodesWord))
  {
    assert Spell(AddNodeWord)[0] == 'A' && Spell(GetNodesWord)[0] == 'G' && Spell(GetVersionWord)[0] == 'G';
    assert |Spell(GetNodesWord)| < |Spell(GetVersionWord)|;
  }

  lemma NodesRequestArrives(tail: string)
    ensures Sendable(GetNodesRequest(), P.MAX_NESTING)
    ensures Understand(Text(GetNodesRequest(), 0, WIRE) + tail) == GetNodes
    ensures Asks(Text(GetNodesRequest(), 0, WIRE) + tail, "GET_NODES")
  {
    SpelledMethods();
    hide Spell, Text, P.ParseString, Get;
    BaseMessageShape(GetNodesWord);
    SendableObject(BaseMessage(GetNodesWord), 1);
    Arrives(GetNodesRequest(), tail);
    MethodPrefixes();
  }

  /** A node as the tables hold it: the address is the text of an address, the port has 16 bits. */
  ghost predicate IsNode(n: Node) {
    n.port < PORTS && |n.addr| <= MAX_ADDR_LENGTH && IsValidUtf8(n.addr, 0)
  }

  lemma DescribeShape(n: Node)
    requires IsNode(n)
    ensures var ms1 := Assigned([], Spell(ServerKey), Str(n.addr));
            var ms2 := Assigned(ms1, Spell(NodeKey), Num(n.port as real));
            Describe(n) == Obj(Assigned(ms2, Spell(StatusKey), Str(Spell(ActiveWord))))
    ensures Sendable(Describe(n), 1)
  {
    WordIsPlain(ActiveWord);
    WordIsPlain(ServerKey);
    WordIsPlain(NodeKey);
    WordIsPlain(StatusKey);
    hide Spell, Assigned, IsValidUtf8;
    var ms1 := Assigned([], Spell(ServerKey), Str(n.addr));
    var ms2 := Assigned(ms1, Spell(NodeKey), Num(n.port as real));
    AssignedSendable([], Spell(ServerKey), Str(n.addr), 0);
    PortIsSendable(n.port);
    AssignedSendable(ms1, Spell(NodeKey), Num(n.port as real), 0);
    AssignedSendable(ms2, Spell(StatusKey), Str(Spell(ActiveWord)), 0);
    SendableObject(Assigned(ms2, Spell(StatusKey), Str(Spell(ActiveWord))), 0);
  }

  lemma DescriptionReads(n: Node)
    requires IsNode(n)
    ensures ReadItem(Describe(n)) == Some(n)
  {
    DescribeShape(n);
    KeysDiffer(ServerKey, NodeKey);
    KeysDiffer(ServerKey, StatusKey);
    KeysDiffer(NodeKey, StatusKey);
    hide Spell, Describe, Assigned, Get, IsValidUtf8, PortOf;
    PortReads(n.port);
    ThreeMembers(Spell(ServerKey), Str(n.addr), Spell(NodeKey), Num(n.port as real),
                 Spell(StatusKey), Str(Spell(ActiveWord)));
  }

  lemma PortReads(port: nat)
    requires port < PORTS
    ensures PortOf(Some(Num(port as real))) == Some(port)
  {
  }

  /** A number is cut to the whole number towards zero; what is no number counts as 0. */
  lemma PortTruncates(v: Option<Value>, port: nat)
    ensures PortOf(v) == Some(port) <==>
            if v.Some? && v.value.Num? then
              port < PORTS && ((port == 0 && -1.0 < v.value.x < 0.0) || port as real <= v.value.x < (port + 1) as real)
            else port == 0
  {
  }

  lemma ThreeMembers(k1: string, v1: Value, k2: string, v2: Value, k3: string, v3: Value)
    requires k1 != k2 && k1 != k3 && k2 != k3
    ensures var ms := Assigned(Assigned(Assigned([], k1, v1), k2, v2), k3, v3);
            Get(ms, k1) == Some(v1) && Get(ms, k2) == Some(v2) && Get(ms, k3) == Some(v3)
  {
    hide Assigned, Get;
    var ms1 := Assigned([], k1, v1);
    var ms2 := Assigned(ms1, k2, v2);
    GetAssigned([], k1, v1, k1);
    GetAssigned(ms1, k2, v2, k1);
    GetAssigned(ms1, k2, v2, k2);
    GetAssigned(ms2, k3, v3, k1);
    GetAssigned(ms2, k3, v3, k2);
    GetAssigned(ms2, k3, v3, k3);
  }

  lemma {:induction false} DescriptionsRead(nodes: seq<Node>)
    requires forall i :: 0 <= i < |nodes| ==> IsNode(nodes[i])
    ensures ReadItems(DescribeAll(nodes)) == Some(nodes)
  {
    hide ReadItem, Describe;
    if nodes != [] {
      DescriptionReads(nodes[0]);
      DescriptionsRead(nodes[1..]);
      assert DescribeAll(nodes)[1..] == DescribeAll(nodes[1..]);
      assert [nodes[0]] + nodes[1..] == nodes;
    }
  }

  lemma ReplyShape(success: bool, message: string)
    requires IsValidUtf8(message, 0)
    ensures var status := Spell(if success then SuccessWord else FailedWord);
            Reply(success, message) ==
            Assigned(Assigned([], Spell(StatusKey), Str(status)), Spell(MessageKey), Str(message))
    ensures SendableMembers(Reply(success, message), 1)
  {
    var status := Spell(if success then SuccessWord else FailedWord);
    WordIsPlain(if success then SuccessWord else FailedWord);
    WordIsPlain(StatusKey);
    WordIsPlain(MessageKey);
    hide Spell, Assigned, IsValidUtf8;
    AssignedSendable([], Spell(StatusKey), Str(status), 1);
    AssignedSendable(Assigned([], Spell(StatusKey), Str(status)), Spell(MessageKey), Str(message), 1);
  }

  lemma NodesReplyShape(nodes: seq<Node>)
    requires forall i :: 0 <= i < |nodes| ==> IsNode(nodes[i])
    ensures Sendable(NodesReply(nodes), 3)
  {
    WordIsPlain(FetchedWord);
    WordIsPlain(DataKey);
    hide Spell, Assigned, IsValidUtf8, Describe;
    var reply, data := Reply(true, Spell(FetchedWord)), Arr(DescribeAll(nodes));
    ReplyShape(true, Spell(FetchedWord));
    forall i | 0 <= i < |nodes| ensures Sendable(DescribeAll(nodes)[i], 1) {
      DescribeShape(nodes[i]);
    }
    SendableArray(DescribeAll(nodes), 1);
    assert SendableMembers(reply, 2);
    AssignedSendable(reply, Spell(DataKey), data, 2);
    SendableObject(Assigned(reply, Spell(DataKey), data), 2);
  }

  /** Of the nodes sent, the initiator reads as many from the start as a byte counts. */
  lemma FirstNodesArrive(nodes: seq<Node>, count: nat, tail: string)
    requires count <= |nodes| && count == |nodes| % 0x100 && forall i :: 0 <= i < |nodes| ==> IsNode(nodes[i])
    ensures Sendable(NodesReply(nodes), P.MAX_NESTING)
    ensures ReadNodes(Text(NodesReply(nodes), 0, WIRE) + tail) == Some(nodes[..count])
  {
    hide Spell, Text, P.ParseString, Describe, Assigned, Get, ReadItems, IsNode, WellFormed, Printable, Level, Reply;
    NodesReplyShape(nodes);
    Arrives(NodesReply(nodes), tail);
    var items, read := DescribeAll(nodes), nodes[..count];
    GetAssigned(Reply(true, Spell(FetchedWord)), Spell(DataKey), Arr(items), Spell(DataKey));
    assert items[..count] == DescribeAll(read);
    DescriptionsRead(read);
  }

  /** The initiator reads exactly the nodes that the responder sent. */
  lemma NodesArrive(nodes: seq<Node>, tail: string)
    requires |nodes| <= MAX_ACTIVE_NODES && forall i :: 0 <= i < |nodes| ==> IsNode(nodes[i])
    ensures Sendable(NodesReply(nodes), P.MAX_NESTING)
    ensures ReadNodes(Text(NodesReply(nodes), 0, WIRE) + tail) == Some(nodes)
  {
    hide Text, ReadNodes, IsNode, Sendable, NodesReply;
    FirstNodesArrive(nodes, |nodes|, tail);
    assert nodes[..|nodes|] == nodes;
  }

  // ---------------------------------------------------------------- replies fit the buffer of the initiator

  lemma {:induction false} EscapedLength(s: string, escapeSlashes: bool)
    ensures |s| <= |EscapeAll(s, escapeSlashes)| <= 6 * |s|
    ensures (forall k :: 0 <= k < |s| ==> IsPlain(s[k])) ==> |EscapeAll(s, escapeSlashes)| == |s|
  {
    if s != "" {
      EscapedLength(s[1..], escapeSlashes);
    }
  }

  lemma WordLength(w: Word)
    ensures |Quote(Spell(w), true)| == |Spell(w)| + 2
  {
    hide Spell;
    EscapedLength(Spell(w), true);
    if IsKey(w) { KeyIsPlain(w); } else { TextIsPlain(w); }
  }

  lemma PortLength(port: nat)
    requires port < PORTS
    ensures IsDouble(port as real) && |NumberText(port as real)| <= 5
  {
    hide IsDouble, NumberText;
    WholeIsDouble(port);
    WholeIsShort(port);
  }

  lemma MembersLengthStep(ms: seq<Member>, level: nat)
    requires ms != [] && PrintableMembers(ms)
    ensures |MembersText(ms, level, WIRE)| ==
            |Quote(ms[0].key, true)| + 1 + |Text(ms[0].val, level + 1, WIRE)| + (if |ms| == 1 then 0 else 1)
            + |MembersText(ms[1..], level, WIRE)|
  {
    hide Quote, Text, Indent, Printable;
  }

  lemma ThreeMembersLength(m1: Member, m2: Member, m3: Member, level: nat)
    requires Printable(Obj([m1, m2, m3]))
    ensures Printable(m1.val) && Printable(m2.val) && Printable(m3.val)
    ensures |Text(Obj([m1, m2, m3]), level, WIRE)| == 7
            + |Quote(m1.key, true)| + |Text(m1.val, level + 1, WIRE)|
            + |Quote(m2.key, true)| + |Text(m2.val, level + 1, WIRE)|
            + |Quote(m3.key, true)| + |Text(m3.val, level + 1, WIRE)|
  {
    hide Quote, Indent;
    var ms := [m1, m2, m3];
    PrintableMembersAll(ms);
    PrintableMembersAll([m2, m3]);
    assert ms[0] == m1 && ms[1] == m2 && ms[2] == m3;
    assert ms[1..] == [m2, m3] && [m2, m3][1..] == [m3] && [m3][1..] == [];
    ThreeLength(ms, m1, m2, m3, level);
  }

  lemma ThreeLength(ms: seq<Member>, m1: Member, m2: Member, m3: Member, level: nat)
    requires ms == [m1, m2, m3]
    requires Printable(m1.val) && Printable(m2.val) && Printable(m3.val) && PrintableMembers(ms)
    ensures |MembersText(ms, level, WIRE)| == 5
            + |Quote(m1.key, true)| + |Text(m1.val, level + 1, WIRE)|
            + |Quote(m2.key, true)| + |Text(m2.val, level + 1, WIRE)|
            + |Quote(m3.key, true)| + |Text(m3.val, level + 1, WIRE)|
  {
    hide Quote, Text, Printable;
    assert ms[1..] == [m2, m3] && [m2, m3][1..] == [m3] && [m3][1..] == [];
    MembersLengthStep(ms, level);
    MembersLengthStep([m2, m3], level);
    MembersLengthStep([m3], level);
  }

  const ENTRY_LENGTH: nat := 135

  lemma {:induction false} EntriesLength(items: seq<Value>, level: nat)
    requires PrintableItems(items)
    requires forall i :: 0 <= i < |items| ==> Printable(items[i]) && |Text(items[i], level + 1, WIRE)| < ENTRY_LENGTH
    ensures |ItemsText(items, level, WIRE)| <= ENTRY_LENGTH * |items|
  {
    hide Text;
    if items != [] {
      EntriesLength(items[1..], level);
    }
  }

  lemma SpelledLengths()
    ensures |Spell(ServerKey)| == 6 && |Spell(NodeKey)| == 4 && |Spell(StatusKey)| == 6 && |Spell(ActiveWord)| == 6
    ensures |Spell(SuccessWord)| == 7 && |Spell(MessageKey)| == 7 && |Spell(DataKey)| == 4
    ensures |Spell(FetchedWord)| == 35
  {
  }

  lemma TextOfString(s: string, level: nat)
    ensures Text(Str(s), level, WIRE) == Quote(s, true)
    ensures |Quote(s, true)| <= 6 * |s| + 2
  {
    EscapedLength(s, true);
  }

  lemma TextOfPort(port: nat, level: nat)
    requires port < PORTS
    ensures Printable(Num(port as real)) && |Text(Num(port as real), level, WIRE)| <= 5
  {
    hide NumberText, IsDouble;
    PortLength(port);
  }

  lemma TextOfArray(items: seq<Value>, level: nat)
    requires PrintableItems(items)
    ensures |Text(Arr(items), level, WIRE)| == 2 + |ItemsText(items, level, WIRE)|
  {
  }

  lemma EntryLength(n: Node, level: nat)
    requires IsNode(n)
    ensures Printable(Describe(n)) && |Text(Describe(n), level, WIRE)| < ENTRY_LENGTH
  {
    DescribeShape(n);
    KeysDiffer(ServerKey, NodeKey);
    KeysDiffer(ServerKey, StatusKey);
    KeysDiffer(NodeKey, StatusKey);
    WordLength(ServerKey);
    WordLength(NodeKey);
    WordLength(StatusKey);
    WordLength(ActiveWord);
    hide Spell, Describe, IsValidUtf8, Text, Quote, Assigned, WellFormed, Level;
    SpelledLengths();
    TextOfString(n.addr, level + 1);
    TextOfString(Spell(ActiveWord), level + 1);
    TextOfPort(n.port, level + 1);
    var m1, m2 := Member(Spell(ServerKey), Str(n.addr)), Member(Spell(NodeKey), Num(n.port as real));
    var m3 := Member(Spell(StatusKey), Str(Spell(ActiveWord)));
    AssignedThree(m1, m2, m3);
    ThreeMembersLength(m1, m2, m3, level);
  }

  lemma AssignedThree(m1: Member, m2: Member, m3: Member)
    requires m1.key != m2.key && m1.key != m3.key && m2.key != m3.key
    ensures Assigned(Assigned(Assigned([], m1.key, m1.val), m2.key, m2.val), m3.key, m3.val) == [m1, m2, m3]
  {
    assert Assigned([], m1.key, m1.val) == [m1];
    assert IndexOf([m1], m2.key) == 1;
    assert Assigned([m1], m2.key, m2.val) == [m1, m2];
    assert IndexOf([m1, m2], m3.key) == 2;
  }

  lemma EntriesFit(nodes: seq<Node>, level: nat)
    requires forall i :: 0 <= i < |nodes| ==> IsNode(nodes[i])
    ensures Printable(Arr(DescribeAll(nodes)))
    ensures |Text(Arr(DescribeAll(nodes)), level, WIRE)| <= 2 + ENTRY_LENGTH * |nodes|
  {
    hide Text, IsNode, Describe;
    var items := DescribeAll(nodes);
    forall i | 0 <= i < |items| ensures Printable(items[i]) && |Text(items[i], level + 1, WIRE)| < ENTRY_LENGTH {
      EntryLength(nodes[i], level + 1);
    }
    PrintableItemsAll(items);
    EntriesLength(items, level);
    TextOfArray(items, level);
  }

  lemma NodesReplyMembers(nodes: seq<Node>)
    ensures NodesReply(nodes) == Obj([Member(Spell(StatusKey), Str(Spell(SuccessWord))),
                                      Member(Spell(MessageKey), Str(Spell(FetchedWord))),
                                      Member(Spell(DataKey), Arr(DescribeAll(nodes)))])
  {
    WordIsPlain(FetchedWord);
    ReplyShape(true, Spell(FetchedWord));
    KeysDiffer(StatusKey, MessageKey);
    KeysDiffer(StatusKey, DataKey);
    KeysDiffer(MessageKey, DataKey);
    hide Spell, IsValidUtf8, Reply, Assigned, DescribeAll;
    AssignedThree(Member(Spell(StatusKey), Str(Spell(SuccessWord))), Member(Spell(MessageKey), Str(Spell(FetchedWord))),
                  Member(Spell(DataKey), Arr(DescribeAll(nodes))));
  }

  /** A reply with the nodes of a table leaves room for the terminator in the buffer that receives it. */
  lemma NodesReplyFits(nodes: seq<Node>)
    requires |nodes| <= MAX_ACTIVE_NODES && forall i :: 0 <= i < |nodes| ==> IsNode(nodes[i])
    ensures Printable(NodesReply(nodes)) && |Text(NodesReply(nodes), 0, WIRE)| < BUFFER_SIZE
  {
    hide Spell, DescribeAll, IsNode, NodesReply, Text, Quote, WellFormed, Level;
    NodesReplyShape(nodes);
    NodesReplyMembers(nodes);
    WordLength(StatusKey);
    WordLength(SuccessWord);
    WordLength(MessageKey);
    WordLength(FetchedWord);
    WordLength(DataKey);
    SpelledLengths();
    TextOfString(Spell(SuccessWord), 1);
    TextOfString(Spell(FetchedWord), 1);
    EntriesFit(nodes, 1);
    ThreeMembersLength(Member(Spell(StatusKey), Str(Spell(SuccessWord))),
                       Member(Spell(MessageKey), Str(Spell(FetchedWord))),
                       Member(Spell(DataKey), Arr(DescribeAll(nodes))), 0);
  }
}
