/** What a set does to the conformance of an object, for any schema. */
module SchemaPaths {
  import opened Options
  import opened Json
  import opened DotPath
  import opened Validation

  /** A schema node below which no further fields are asked for. */
  predicate IsLeaf(x: Value) {
    !x.Obj? || x.members == []
  }

  ghost predicate LeafAt(fields: seq<Member>, path: seq<string>) {
    path != [] && Walk(fields, path).Some? && IsLeaf(Walk(fields, path).value)
  }

  /** What a walk found conforms to a schema. */
  ghost predicate Meets(schema: Value, found: Option<Value>) {
    found.Some? && Conforms(schema, found.value)
  }

  /** Every leaf of the schema is met at its path. */
  ghost predicate MeetsAll(fields: seq<Member>, ms: seq<Member>) {
    forall path :: LeafAt(fields, path) ==> Meets(Walk(fields, path).value, Walk(ms, path))
  }

  lemma FieldByKey(fields: seq<Member>, i: nat)
    requires UniqueKeys(fields) && i < |fields|
    ensures IndexOf(fields, fields[i].key) == i && Get(fields, fields[i].key) == Some(fields[i].val)
  {
  }

  /** A schema object with fields has a leaf. */
  lemma {:induction false} SomeLeaf(fields: seq<Member>) returns (path: seq<string>)
    requires WellFormedMembers(fields) && fields != []
    ensures LeafAt(fields, path)
    decreases fields
  {
    FieldByKey(fields, 0);
    path := [fields[0].key];
    if !IsLeaf(fields[0].val) {
      var rest := SomeLeaf(fields[0].val.members);
      path := path + rest;
      assert path[1..] == rest;
    }
  }

  lemma {:induction false} ConformingMeets(fields: seq<Member>, ms: seq<Member>, path: seq<string>)
    requires WellFormedMembers(fields) && Conforms(Obj(fields), Obj(ms)) && LeafAt(fields, path)
    ensures Meets(Walk(fields, path).value, Walk(ms, path))
    decreases path
  {
    var i := IndexOf(fields, path[0]);
    assert Covers(fields[i], ms);
    if |path| > 1 {
      assert fields[i].val.Obj? && Conforms(fields[i].val, Get(ms, path[0]).value);
      ConformingMeets(fields[i].val.members, Get(ms, path[0]).value.members, path[1..]);
    }
  }

  lemma {:induction false} MeetingConforms(fields: seq<Member>, ms: seq<Member>)
    requires WellFormedMembers(fields) && MeetsAll(fields, ms)
    ensures Conforms(Obj(fields), Obj(ms))
    decreases fields
  {
    forall i | 0 <= i < |fields| ensures Covers(fields[i], ms) {
      FieldIsCovered(fields, ms, i);
    }
  }

  lemma {:induction false} FieldIsCovered(fields: seq<Member>, ms: seq<Member>, i: nat)
    requires WellFormedMembers(fields) && MeetsAll(fields, ms) && i < |fields|
    ensures Covers(fields[i], ms)
    decreases fields, 0
  {
    FieldByKey(fields, i);
    var key, x := fields[i].key, fields[i].val;
    if IsLeaf(x) {
      assert LeafAt(fields, [key]);
    } else {
      var some := SomeLeaf(x.members);
      assert ([key] + some)[1..] == some;
      assert LeafAt(fields, [key] + some);
      var sub := Get(ms, key).value.members;
      forall path | LeafAt(x.members, path) ensures Meets(Walk(x.members, path).value, Walk(sub, path)) {
        assert ([key] + path)[1..] == path;
        assert LeafAt(fields, [key] + path);
      }
      MeetingConforms(x.members, sub);
    }
  }

  /** An object conforms exactly when every leaf of the schema is met at its path. */
  lemma ConformsIffMeetsAll(fields: seq<Member>, ms: seq<Member>)
    requires WellFormedMembers(fields)
    ensures Conforms(Obj(fields), Obj(ms)) <==> MeetsAll(fields, ms)
  {
    if Conforms(Obj(fields), Obj(ms)) {
      forall path | LeafAt(fields, path) ensures Meets(Walk(fields, path).value, Walk(ms, path)) {
        ConformingMeets(fields, ms, path);
      }
    } else if MeetsAll(fields, ms) {
      MeetingConforms(fields, ms);
    }
  }

  /** What is found below `value` along `more`. */
  function Inside(value: Value, more: seq<string>): Option<Value> {
    if more == [] then Some(value) else if value.Obj? then Walk(value.members, more) else None
  }

  /** What a schema asks of a value that is set at `path`: of the leaves at that path or beyond it, nothing else. */
  ghost predicate Fits(fields: seq<Member>, path: seq<string>, value: Value) {
    forall leaf :: LeafAt(fields, leaf) && path <= leaf ==>
      Meets(Walk(fields, leaf).value, Inside(value, leaf[|path|..]))
  }

  /** A leaf that is not at the path of a set or beyond it is met after the set as it was before. */
  lemma OtherLeafStaysMet(fields: seq<Member>, ms: seq<Member>, path: seq<string>, value: Value, leaf: seq<string>)
    requires path != [] && SetPath(ms, path, value).Some? && LeafAt(fields, leaf) && !(path <= leaf)
    requires Meets(Walk(fields, leaf).value, Walk(ms, leaf))
    ensures Meets(Walk(fields, leaf).value, Walk(SetPath(ms, path, value).value, leaf))
  {
    if leaf <= path {
      assert leaf == path[..|leaf|];
      WalkBefore(ms, path, value, |leaf|);
    } else {
      WalkElsewhere(ms, path, value, leaf);
    }
  }

  /** A set on a conforming object leaves it conforming exactly when the value fits the schema at the path. */
  lemma SetConformsIffFits(fields: seq<Member>, ms: seq<Member>, path: seq<string>, value: Value)
    requires WellFormedMembers(fields) && Conforms(Obj(fields), Obj(ms))
    requires path != [] && SetPath(ms, path, value).Some?
    ensures Conforms(Obj(fields), Obj(SetPath(ms, path, value).value)) <==> Fits(fields, path, value)
  {
    var ms' := SetPath(ms, path, value).value;
    ConformsIffMeetsAll(fields, ms);
    ConformsIffMeetsAll(fields, ms');
    forall leaf | LeafAt(fields, leaf)
      ensures path <= leaf ==> Walk(ms', leaf) == Inside(value, leaf[|path|..])
      ensures !(path <= leaf) ==> Meets(Walk(fields, leaf).value, Walk(ms', leaf))
    {
      if path <= leaf {
        WalkAtOrBeyond(ms, path, value, leaf[|path|..]);
        assert path + leaf[|path|..] == leaf;
      } else {
        OtherLeafStaysMet(fields, ms, path, value, leaf);
      }
    }
  }

  /** Every value fits at a path, and null does, exactly when the schema has no leaf there or beyond, other than a
      null at the path itself. */
  lemma AnythingFitsIff(fields: seq<Member>, path: seq<string>)
    ensures (forall value :: Fits(fields, path, value)) <==> Fits(fields, path, Null)
    ensures Fits(fields, path, Null) <==>
            forall leaf :: LeafAt(fields, leaf) && path <= leaf ==> leaf == path && Walk(fields, leaf) == Some(Null)
  {
    if Fits(fields, path, Null) {
      forall leaf | LeafAt(fields, leaf) && path <= leaf
        ensures leaf == path && Walk(fields, leaf) == Some(Null)
      {
        assert path + leaf[|path|..] == leaf;
      }
    }
    assert path[|path|..] == [];
  }

  /** At a leaf exactly the values that conform to it fit. */
  lemma {:induction false} LeafFits(fields: seq<Member>, path: seq<string>, value: Value)
    requires LeafAt(fields, path)
    ensures Fits(fields, path, value) <==> Conforms(Walk(fields, path).value, value)
  {
    forall leaf | LeafAt(fields, leaf) && path <= leaf ensures leaf == path {
      assert path + leaf[|path|..] == leaf;
      if leaf != path {
        NothingBeyondLeaf(fields, path, leaf[|path|..]);
      }
    }
    assert path[|path|..] == [];
    if Fits(fields, path, value) {
      assert path <= path;
    }
  }

  lemma {:induction false} NothingBeyondLeaf(fields: seq<Member>, path: seq<string>, more: seq<string>)
    requires LeafAt(fields, path) && more != []
    ensures Walk(fields, path + more) == None
    decreases path
  {
    assert (path + more)[1..] == path[1..] + more;
    if |path| > 1 {
      NothingBeyondLeaf(Get(fields, path[0]).value.members, path[1..], more);
    } else if Get(fields, path[0]).value.Obj? {
      assert Walk([], more) == None;
    }
  }
}

/** The configuration file: config.c on top of dotted sets, the serializer, the parser and the validator. */
module Configuration {
  import opened Options
  import opened Json
  import opened Unicode
  import opened DotPath
  import opened Validation
  import opened Serializer
  import opened SchemaPaths
  import L = Layout
  import Locality
  import P = Parser
  import RoundTrip
  import S = StringLiteral
  import SerializerLayout
  import Wire

  const MAX_CONFIG_FILE_CONTENT: nat := 4096
  const MAX_IPV6_LENGTH: nat := 39
  const PRETTY: Style := Style(true, true)

  datatype Key =
    | ServerKey | AddrKey | NodeKey | HttpKey | PortKey | AnyMethodKey | IndexingKey | TrimHeadersKey | TrimBodyKey

  function Name(k: Key): string {
    match k
    case ServerKey => "server"
    case AddrKey => "server_addr"
    case NodeKey => "node"
    case HttpKey => "http"
    case PortKey => "server_port"
    case AnyMethodKey => "accept_any_method"
    case IndexingKey => "directory_indexing"
    case TrimHeadersKey => "trim_large_headers"
    case TrimBodyKey => "trim_large_body"
  }

  predicate IsFlag(k: Key) {
    k.AnyMethodKey? || k.IndexingKey? || k.TrimHeadersKey? || k.TrimBodyKey?
  }

  lemma NamesDiffer()
    ensures forall j, k :: j != k ==> Name(j) != Name(k)
  {
    forall j, k | j != k ensures Name(j) != Name(k) {
      assert |Name(j)| != |Name(k)| || Name(j)[0] != Name(k)[0] || Name(j)[7] != Name(k)[7];
    }
  }

  lemma NameIsPlain(k: Key)
    ensures '.' !in Name(k) && '\0' !in Name(k)
  {
    NameHasNo(k, '.');
    NameHasNo(k, '\0');
  }

  lemma NameHasNo(k: Key, c: char)
    requires c == '.' || c == '\0'
    ensures c !in Name(k)
  {
    if IsFlag(k) {
      FlagHasNo(k, c);
    }
  }

  lemma FlagHasNo(k: Key, c: char)
    requires IsFlag(k) && (c == '.' || c == '\0')
    ensures c !in Name(k)
  {
  }

  // ---------------------------------------------------------------- the default configuration

  function Dotted(path: seq<Key>): string
    requires path != []
  {
    if |path| == 1 then Name(path[0]) else Name(path[0]) + "." + Dotted(path[1..])
  }

  function Names(path: seq<Key>): (names: seq<string>)
    ensures |names| == |path| && forall i :: 0 <= i < |path| ==> names[i] == Name(path[i])
  {
    if path == [] then [] else [Name(path[0])] + Names(path[1..])
  }

  lemma {:induction false} DottedPath(path: seq<Key>)
    requires path != []
    ensures Path(Dotted(path)) == Names(path)
  {
    hide Name;
    NameIsPlain(path[0]);
    if |path| == 1 {
      PathOfKey(Name(path[0]));
      assert Names(path) == [Name(path[0])];
    } else {
      PathOfDotted(Name(path[0]), Dotted(path[1..]));
      DottedPath(path[1..]);
    }
  }

  ghost predicate Lacks(ms: seq<Member>, key: string) {
    forall i :: 0 <= i < |ms| ==> ms[i].key != key
  }

  lemma SetFresh(ms: seq<Member>, key: string, value: Value)
    requires Lacks(ms, key)
    ensures SetPath(ms, [key], value) == Some(ms + [Member(key, value)])
  {
  }

  lemma SetNewSection(ms: seq<Member>, key: string, leaf: string, value: Value)
    requires Lacks(ms, key)
    ensures SetPath(ms, [key, leaf], value) == Some(ms + [Member(key, Obj([Member(leaf, value)]))])
  {
    assert [key, leaf][1..] == [leaf];
    SetFresh([], leaf, value);
    assert IndexOf(ms, key) == |ms|;
    assert [] + [Member(leaf, value)] == [Member(leaf, value)];
  }

  /** A set that descends into the last member. */
  lemma SetInLast(front: seq<Member>, key: string, sub: seq<Member>, rest: seq<string>, value: Value)
    requires Lacks(front, key) && rest != [] && SetPath(sub, rest, value).Some?
    ensures SetPath(front + [Member(key, Obj(sub))], [key] + rest, value) ==
            Some(front + [Member(key, Obj(SetPath(sub, rest, value).value))])
  {
    var ms, path := front + [Member(key, Obj(sub))], [key] + rest;
    assert path[1..] == rest && path[0] == key;
    FirstIndex(ms, key, |front|);
    assert Below(ms, key) == Some(sub);
    var sub' := SetPath(sub, rest, value).value;
    assert ms[|front| := Member(key, Obj(sub'))] == front + [Member(key, Obj(sub'))];
  }

  /** A default setting: nothing is in its way, so the set succeeds. */
  function Put(ms: seq<Member>, path: seq<Key>, value: Value): seq<Member>
    requires path != []
  {
    match DotSet(ms, Dotted(path), value)
    case None => ms
    case Some(ms') => ms'
  }

  /** The part of the configuration before the HTTP settings. */
  function NodeSettings(isTemplate: bool): seq<Member> {
    [Member(Name(AddrKey), Str(if isTemplate then "" else "0.0.0.0")),
     Member(Name(NodeKey), Obj([Member(Name(PortKey), Num(if isTemplate then 0.0 else 9060.0))]))]
  }

  function HttpSettings(): seq<Member> {
    [Member(Name(PortKey), Num(8000.0)), Member(Name(AnyMethodKey), Bool(false)),
     Member(Name(IndexingKey), Bool(false)),
     Member(Name(TrimHeadersKey), Bool(false)), Member(Name(TrimBodyKey), Bool(false))]
  }

  /** The object that default settings with these HTTP settings make. */
  function Assembled(isTemplate: bool, http: seq<Member>): seq<Member> {
    [Member(Name(ServerKey), Obj(NodeSettings(isTemplate) + [Member(Name(HttpKey), Obj(http))]))]
  }

  function DefaultConfig(isTemplate: bool): Value {
    Obj(Assembled(isTemplate, HttpSettings()))
  }

  lemma PutSection(front: seq<Member>, section: Key, key: Key, value: Value)
    requires Lacks(front, Name(section))
    ensures Put([Member(Name(ServerKey), Obj(front))], [ServerKey, section, key], value) ==
            [Member(Name(ServerKey), Obj(front + [Member(Name(section), Obj([Member(Name(key), value)]))]))]
  {
    hide Name, DotSet, SetPath;
    var path, server := [ServerKey, section, key], Name(ServerKey);
    DottedPath(path);
    assert Names(path) == [server] + [Name(section), Name(key)];
    DotSetIsSetPath([Member(server, Obj(front))], Dotted(path), value);
    SetNewSection(front, Name(section), Name(key), value);
    SetInLast([], server, front, [Name(section), Name(key)], value);
    assert [] + [Member(server, Obj(front))] == [Member(server, Obj(front))];
  }

  lemma PutInSection(front: seq<Member>, section: Key, sub: seq<Member>, key: Key, value: Value)
    requires Lacks(front, Name(section)) && Lacks(sub, Name(key))
    ensures Put([Member(Name(ServerKey), Obj(front + [Member(Name(section), Obj(sub))]))],
                [ServerKey, section, key], value) ==
            [Member(Name(ServerKey), Obj(front + [Member(Name(section), Obj(sub + [Member(Name(key), value)]))]))]
  {
    hide Name, DotSet, SetPath;
    var path, server := [ServerKey, section, key], Name(ServerKey);
    var inner := front + [Member(Name(section), Obj(sub))];
    DottedPath(path);
    assert Names(path) == [server] + ([Name(section)] + [Name(key)]);
    DotSetIsSetPath([Member(server, Obj(inner))], Dotted(path), value);
    SetFresh(sub, Name(key), value);
    SetInLast(front, Name(section), sub, [Name(key)], value);
    SetInLast([], server, inner, [Name(section)] + [Name(key)], value);
    assert [] + [Member(server, Obj(inner))] == [Member(server, Obj(inner))];
  }

  lemma PutAddr(value: Value)
    ensures Put([], [ServerKey, AddrKey], value) == [Member(Name(ServerKey), Obj([Member(Name(AddrKey), value)]))]
  {
    hide Name, DotSet, SetPath;
    DottedPath([ServerKey, AddrKey]);
    assert Names([ServerKey, AddrKey]) == [Name(ServerKey), Name(AddrKey)];
    DotSetIsSetPath([], Dotted([ServerKey, AddrKey]), value);
    SetNewSection([], Name(ServerKey), Name(AddrKey), value);
  }

  /** get_default_config, as one dotted set after the other. */
  method GetDefaultConfig(isTemplate: bool) returns (config: Value)
    ensures config == DefaultConfig(isTemplate)
  {
    hide Name, Put, HttpSettings, WithHttp;
    NamesDiffer();
    var addr, port := Str(if !isTemplate then "0.0.0.0" else ""), Num(if !isTemplate then 9060.0 else 0.0);
    ghost var front := NodeSettings(isTemplate);
    var ms: seq<Member> := [];
    PutAddr(addr);
    ms := Put(ms, [ServerKey, AddrKey], addr);
    PutSection([Member(Name(AddrKey), addr)], NodeKey, PortKey, port);
    ms := Put(ms, [ServerKey, NodeKey, PortKey], port);
    assert front == [Member(Name(AddrKey), addr)] + [Member(Name(NodeKey), Obj([Member(Name(PortKey), port)]))];
    FirstHttp(front);
    ms := Put(ms, [ServerKey, HttpKey, PortKey], Num(8000.0));
    PutHttp(front, 1, AnyMethodKey);
    ms := Put(ms, [ServerKey, HttpKey, AnyMethodKey], Bool(false));
    PutHttp(front, 2, IndexingKey);
    ms := Put(ms, [ServerKey, HttpKey, IndexingKey], Bool(false));
    PutHttp(front, 3, TrimHeadersKey);
    ms := Put(ms, [ServerKey, HttpKey, TrimHeadersKey], Bool(false));
    PutHttp(front, 4, TrimBodyKey);
    ms := Put(ms, [ServerKey, HttpKey, TrimBodyKey], Bool(false));
    config := Obj(ms);
    AllHttp(isTemplate);
  }

  /** The configuration with the first `n` settings of the section "http". */
  function WithHttp(front: seq<Member>, n: nat): seq<Member>
    requires n <= |HttpSettings()|
  {
    [Member(Name(ServerKey), Obj(front + [Member(Name(HttpKey), Obj(HttpSettings()[..n]))]))]
  }

  lemma FirstHttp(front: seq<Member>)
    requires Lacks(front, Name(HttpKey))
    ensures |HttpSettings()| == 5
    ensures Put([Member(Name(ServerKey), Obj(front))], [ServerKey, HttpKey, PortKey], Num(8000.0)) == WithHttp(front, 1)
  {
    hide Name, Put;
    PutSection(front, HttpKey, PortKey, Num(8000.0));
    assert HttpSettings()[..1] == [Member(Name(PortKey), Num(8000.0))];
  }

  lemma PutHttp(front: seq<Member>, n: nat, key: Key)
    requires Lacks(front, Name(HttpKey))
    requires 0 < n < 5 && key == if n == 1 then AnyMethodKey else if n == 2 then IndexingKey
                                 else if n == 3 then TrimHeadersKey else TrimBodyKey
    ensures |HttpSettings()| == 5
    ensures Put(WithHttp(front, n), [ServerKey, HttpKey, key], Bool(false)) == WithHttp(front, n + 1)
  {
    hide Name, Put;
    NamesDiffer();
    var http := HttpSettings();
    PutInSection(front, HttpKey, http[..n], key, Bool(false));
    assert http[..n + 1] == http[..n] + [Member(Name(key), Bool(false))];
  }

  lemma AllHttp(isTemplate: bool)
    ensures |HttpSettings()| == 5 && Obj(WithHttp(NodeSettings(isTemplate), 5)) == DefaultConfig(isTemplate)
  {
    hide Name;
    assert HttpSettings()[..5] == HttpSettings();
  }

  function Template(): seq<Member> {
    DefaultConfig(true).members
  }

  lemma HttpIsSendable()
    ensures UniqueKeys(HttpSettings()) && Wire.Sendable(Obj(HttpSettings()), 1)
  {
    hide Name;
    NamesDiffer();
    forall k ensures '\0' !in Name(k) { NameIsPlain(k); }
    Wire.PortIsSendable(8000);
    Wire.SendableObject(HttpSettings(), 0);
  }

  lemma NodeIsSendable(isTemplate: bool)
    ensures Wire.Sendable(NodeSettings(isTemplate)[1].val, 1)
  {
    NameIsPlain(PortKey);
    hide Name;
    Wire.PortIsSendable(if isTemplate then 0 else 9060);
    Wire.SendableObject(NodeSettings(isTemplate)[1].val.members, 0);
  }

  /** The object of the section "server". */
  function ServerSettings(isTemplate: bool): seq<Member> {
    NodeSettings(isTemplate) + [Member(Name(HttpKey), Obj(HttpSettings()))]
  }

  lemma DefaultIsSendable(isTemplate: bool)
    ensures Wire.Sendable(DefaultConfig(isTemplate), 3)
    ensures DefaultConfig(isTemplate) == Obj([Member(Name(ServerKey), Obj(ServerSettings(isTemplate)))])
  {
    hide Name, HttpSettings, Wire.Sendable;
    NamesDiffer();
    NameIsPlain(ServerKey);
    NameIsPlain(AddrKey);
    NameIsPlain(NodeKey);
    NameIsPlain(HttpKey);
    HttpIsSendable();
    NodeIsSendable(isTemplate);
    TextIsSendable(NodeSettings(isTemplate)[0].val.s);
    var ms := ServerSettings(isTemplate);
    assert ms[2] == Member(Name(HttpKey), Obj(HttpSettings()));
    assert Wire.SendableMembers(ms, 1);
    Wire.SendableObject(ms, 1);
    Wire.SendableObject([Member(Name(ServerKey), Obj(ms))], 2);
  }

  lemma TextIsSendable(s: string)
    ensures Wire.Sendable(Str(s), 1)
  {
  }

  lemma ConformingMember(fields: seq<Member>, ms: seq<Member>, i: nat)
    requires UniqueKeys(ms) && i < |fields| && i < |ms|
    requires fields[i].key == ms[i].key && Conforms(fields[i].val, ms[i].val)
    ensures Covers(fields[i], ms)
  {
    FieldByKey(ms, i);
  }

  /** Member by member. */
  lemma ConformingObject(fields: seq<Member>, ms: seq<Member>)
    requires UniqueKeys(ms) && |fields| <= |ms|
    requires forall i :: 0 <= i < |fields| ==> fields[i].key == ms[i].key && Conforms(fields[i].val, ms[i].val)
    ensures Conforms(Obj(fields), Obj(ms))
  {
    forall i | 0 <= i < |fields| ensures Covers(fields[i], ms) {
      ConformingMember(fields, ms, i);
    }
  }

  /** The default configuration conforms to the template. */
  lemma DefaultConforms()
    ensures Conforms(DefaultConfig(true), DefaultConfig(false))
  {
    hide Name, ServerSettings, Conforms, Wire.Sendable, DefaultConfig;
    DefaultIsSendable(true);
    DefaultIsSendable(false);
    ServerConforms();
    ConformingObject([Member(Name(ServerKey), Obj(ServerSettings(true)))],
                     [Member(Name(ServerKey), Obj(ServerSettings(false)))]);
  }

  lemma ServerConforms()
    ensures Conforms(Obj(ServerSettings(true)), Obj(ServerSettings(false)))
  {
    hide Name, HttpSettings, Conforms;
    NamesDiffer();
    HttpConforms();
    NodeConforms();
    AddrConforms(ServerSettings(true)[0].val.s, ServerSettings(false)[0].val.s);
    ConformingObject(ServerSettings(true), ServerSettings(false));
  }

  lemma AddrConforms(a: string, b: string)
    ensures Conforms(Str(a), Str(b))
  {
  }

  lemma HttpConforms()
    ensures Conforms(Obj(HttpSettings()), Obj(HttpSettings()))
  {
    hide Name;
    HttpIsSendable();
    ConformingObject(HttpSettings(), HttpSettings());
  }

  lemma NodeConforms()
    ensures Conforms(NodeSettings(true)[1].val, NodeSettings(false)[1].val)
  {
    hide Name;
    ConformingObject(NodeSettings(true)[1].val.members, NodeSettings(false)[1].val.members);
  }

  // ---------------------------------------------------------------- the file

  /** What is read back: at most the first 4095 bytes of the file. */
  function OnDisk(text: string): Option<Value> {
    P.ParseString(if |text| < MAX_CONFIG_FILE_CONTENT then text else text[..MAX_CONFIG_FILE_CONTENT - 1])
  }

  /** The text reads back as a configuration that conforms to the template. */
  ghost predicate ConformsOnDisk(text: string) {
    OnDisk(text).Some? && Conforms(DefaultConfig(true), OnDisk(text).value)
  }

  lemma OnDiskIsWellFormed(text: string)
    requires OnDisk(text).Some?
    ensures WellFormed(OnDisk(text).value) && Printable(OnDisk(text).value)
  {
    hide P.ParseString, Printable, WellFormed;
    var read := if |text| < MAX_CONFIG_FILE_CONTENT then text else text[..MAX_CONFIG_FILE_CONTENT - 1];
    P.ParsedStringIsWellFormed(read);
    RoundTrip.ParsedStringIsPrintable(read);
  }

  /** What is written reads back as the same value when it fits the buffer, however deep it is. */
  lemma WrittenIsRead(v: Value)
    requires Printable(v) && WellFormed(v) && |Text(v, 0, PRETTY)| < MAX_CONFIG_FILE_CONTENT
    ensures OnDisk(Text(v, 0, PRETTY)) == Some(v)
  {
    hide Text, P.ParseString;
    TextIsCString(v, 0, PRETTY);
    RoundTrip.SerializeThenParse(v, PRETTY);
  }

  /** The text is in lines, as pretty printing lays it out: laying out what is left without white space gives it. */
  ghost predicate IsLaidOut(text: string) {
    L.Formatted(L.Minified(text, L.START), L.START) == text
  }

  lemma FileIsLaidOut(v: Value)
    requires Printable(v)
    ensures IsLaidOut(Text(v, 0, PRETTY))
  {
    hide Text, L.Formatted, L.Minified;
    SerializerLayout.PrettyIsFormatted(v, true);
    SerializerLayout.CompactIsTight(v, true);
  }

  /** A setting as the caller of set_config passes it. */
  datatype Setting =
    | NumberSetting(x: real) | StringSetting(s: string) | BoolSetting(b: bool) | NullSetting | ValueSetting(v: Value)
    | OtherSetting

  /** The value a setting stores: none for a string that is not UTF-8. */
  function Stored(setting: Setting): Option<Value> {
    match setting
    case NumberSetting(x) => Some(Num(x))
    case StringSetting(s) => if IsValidUtf8(s, 0) then Some(Str(s)) else None
    case BoolSetting(b) => Some(Bool(b))
    case NullSetting => Some(Null)
    case ValueSetting(v) => Some(v)
    case OtherSetting => None
  }

  /** The configuration after a set; one that cannot be made changes nothing. */
  function Updated(config: Value, key: string, setting: Setting): Value {
    if !config.Obj? || Stored(setting).None? then config
    else match DotSet(config.members, key, Stored(setting).value)
      case None => config
      case Some(ms) => Obj(ms)
  }

  /** A call of set_config. */
  datatype Call = Call(key: string, setting: Setting)

  /** The numbers of a setting are doubles. */
  ghost predicate PrintableCall(call: Call) {
    Stored(call.setting).Some? ==> Printable(Stored(call.setting).value)
  }

  lemma {:induction false} SetKeepsPrintable(ms: seq<Member>, path: seq<string>, value: Value)
    requires path != [] && SetPath(ms, path, value).Some? && PrintableMembers(ms) && Printable(value)
    ensures PrintableMembers(SetPath(ms, path, value).value)
    decreases path
  {
    var v := value;
    if |path| > 1 {
      var sub := Below(ms, path[0]).value;
      PrintableMembersAll(ms);
      SetKeepsPrintable(sub, path[1..], value);
      v := Obj(SetPath(sub, path[1..], value).value);
    }
    PrintableMembersAll(ms);
    PrintableMembersAll(Assigned(ms, path[0], v));
  }

  lemma UpdatedIsPrintable(config: Value, call: Call)
    requires Printable(config) && PrintableCall(call)
    ensures Printable(Updated(config, call.key, call.setting))
  {
    if Updated(config, call.key, call.setting) != config {
      DotSetIsSetPath(config.members, call.key, Stored(call.setting).value);
      SetKeepsPrintable(config.members, Path(call.key), Stored(call.setting).value);
    }
  }

  /** What the file holds after a call of set_config. */
  function AfterCall(text: string, call: Call): string
    requires PrintableCall(call)
  {
    if OnDisk(text).None? || call.setting.OtherSetting? then text
    else
      OnDiskIsWellFormed(text);
      UpdatedIsPrintable(OnDisk(text).value, call);
      Text(Updated(OnDisk(text).value, call.key, call.setting), 0, PRETTY)
  }

  /** A call with a C string for its key and a tree that parson can build, whose value the template allows there. */
  ghost predicate Acceptable(call: Call) {
    '\0' !in call.key && PrintableCall(call) &&
    (Stored(call.setting).Some? ==>
       WellFormed(Stored(call.setting).value) && Fits(Template(), Path(call.key), Stored(call.setting).value))
  }

  lemma {:induction false} PathHasNoNul(name: string)
    requires '\0' !in name
    ensures forall i :: 0 <= i < |Path(name)| ==> '\0' !in Path(name)[i]
    decreases |name|
  {
    var d := DotPos(name);
    if d < |name| {
      PathHasNoNul(name[d + 1..]);
    }
  }

  lemma UpdatedConforms(config: Value, call: Call)
    requires WellFormed(config) && Conforms(DefaultConfig(true), config) && Acceptable(call)
    ensures WellFormed(Updated(config, call.key, call.setting))
    ensures Conforms(DefaultConfig(true), Updated(config, call.key, call.setting))
  {
    hide Template, DefaultConfig, Path, Fits, SetPath, DotSet, Conforms;
    if Updated(config, call.key, call.setting) != config {
      var value := Stored(call.setting).value;
      DefaultIsSendable(true);
      DotSetIsSetPath(config.members, call.key, value);
      PathHasNoNul(call.key);
      SetKeepsWellFormed(config.members, Path(call.key), value);
      assert DefaultConfig(true) == Obj(Template()) by { TemplateIsDefault(); }
      SetConformsIffFits(Template(), config.members, Path(call.key), value);
    }
  }

  lemma TemplateIsDefault()
    ensures DefaultConfig(true) == Obj(Template()) && WellFormedMembers(Template())
  {
    DefaultIsSendable(true);
  }

  /** A configuration whose text does not fit the buffer cannot be read back at all. */
  lemma CutIsLost(v: Value)
    requires Printable(v) && WellFormed(v) && v.Obj? && |Text(v, 0, PRETTY)| >= MAX_CONFIG_FILE_CONTENT
    ensures OnDisk(Text(v, 0, PRETTY)) == None
  {
    hide Text, P.ParseString;
    Locality.ProperPrefixNeverParses(v, PRETTY, Text(v, 0, PRETTY)[..MAX_CONFIG_FILE_CONTENT - 1]);
  }

  /** An acceptable call leaves a valid file exactly when what it writes can be read back whole. Otherwise the
      file cannot be read any more. */
  lemma CallKeepsFileValidIff(text: string, call: Call)
    requires ConformsOnDisk(text) && Acceptable(call)
    ensures call.setting.OtherSetting? ==> AfterCall(text, call) == text
    ensures !call.setting.OtherSetting? ==>
              OnDisk(AfterCall(text, call)) == if |AfterCall(text, call)| < MAX_CONFIG_FILE_CONTENT
                                               then Some(Updated(OnDisk(text).value, call.key, call.setting)) else None
    ensures ConformsOnDisk(AfterCall(text, call)) <==>
            call.setting.OtherSetting? || |AfterCall(text, call)| < MAX_CONFIG_FILE_CONTENT
  {
    hide OnDisk, Text, Conforms, DefaultConfig, Updated, PrintableCall, Fits, WellFormed;
    if !call.setting.OtherSetting? {
      var config := Updated(OnDisk(text).value, call.key, call.setting);
      OnDiskIsWellFormed(text);
      UpdatedIsPrintable(OnDisk(text).value, call);
      UpdatedConforms(OnDisk(text).value, call);
      if |AfterCall(text, call)| < MAX_CONFIG_FILE_CONTENT {
        WrittenIsRead(config);
      } else {
        assert config.Obj? by { ConfigurationIsObject(config); }
        CutIsLost(config);
      }
    }
  }

  lemma OtherChangesNothing(config: Value, call: Call)
    ensures call.setting.OtherSetting? ==> Updated(config, call.key, call.setting) == config
  {
  }

  lemma ConfigurationIsObject(config: Value)
    requires Conforms(DefaultConfig(true), config)
    ensures config.Obj?
  {
  }

  // ---------------------------------------------------------------- a set is seen by a get

  /** A call with a C string for its key, and a tree that parson can build. */
  ghost predicate Buildable(call: Call) {
    '\0' !in call.key && (call.setting.ValueSetting? ==> WellFormed(call.setting.v))
  }

  /** Whatever a key before the last part of a dotted one leads to is an object. */
  ghost predicate FreeWay(ms: seq<Member>, key: string) {
    forall k :: 0 < k < |Path(key)| ==>
      Walk(ms, Path(key)[..k]).Some? ==> Walk(ms, Path(key)[..k]).value.Obj?
  }

  /** What a lookup finds that finds a setting. A string that is not UTF-8 is never found. */
  ghost predicate Shows(found: Option<Value>, setting: Setting) {
    match setting
    case NumberSetting(x) => found == Some(Num(x))
    case StringSetting(s) => IsValidUtf8(s, 0) && found == Some(Str(s))
    case BoolSetting(b) => found == Some(Bool(b))
    case NullSetting => found == Some(Null)
    case ValueSetting(v) => found == Some(v)
    case OtherSetting => false
  }

  /** The members of the configuration in a file. */
  function InFile(text: string): seq<Member> {
    Wire.MembersOf(OnDisk(text))
  }

  /** From the file before to the file after, the setting is found at its key and everything else is as it was; or it
      could not be made, and all is as it was. */
  ghost predicate SetSeen(before: string, after: string, call: Call)
    requires OnDisk(before).Some?
  {
    if && OnDisk(before).value.Obj? && FreeWay(InFile(before), call.key)
       && (call.setting.StringSetting? ==> IsValidUtf8(call.setting.s, 0)) then
      && Shows(DotGet(InFile(after), call.key), call.setting)
      && forall other :: Unrelated(Path(call.key), Path(other)) ==>
           DotGet(InFile(after), other) == DotGet(InFile(before), other)
    else
      OnDisk(after) == OnDisk(before)
  }

  lemma FreeWayIff(ms: seq<Member>, key: string, value: Value)
    ensures FreeWay(ms, key) <==> DotSet(ms, key, value).Some?
  {
    hide Path, DotSet, SetPath, Walk;
    DotSetIsSetPath(ms, key, value);
    SetSucceedsIff(ms, Path(key), value);
    forall k | 0 < k < |Path(key)|
      ensures BelowPath(ms, Path(key)[..k]).Some? <==>
              (Walk(ms, Path(key)[..k]).Some? ==> Walk(ms, Path(key)[..k]).value.Obj?)
    {
    }
  }

  /** In a configuration that is an object, a set that is made is seen by every get, and nothing else changes. */
  lemma UpdateIsSeen(ms: seq<Member>, call: Call)
    requires !call.setting.OtherSetting?
    ensures var config' := Updated(Obj(ms), call.key, call.setting);
            if FreeWay(ms, call.key) && (call.setting.StringSetting? ==> IsValidUtf8(call.setting.s, 0)) then
              && config'.Obj? && Shows(DotGet(config'.members, call.key), call.setting)
              && forall other :: Unrelated(Path(call.key), Path(other)) ==>
                   DotGet(config'.members, other) == DotGet(ms, other)
            else config' == Obj(ms)
  {
    hide Path, DotSet, DotGet, SetPath, Walk, FreeWay, Unrelated, IsValidUtf8;
    if Stored(call.setting).Some? {
      var value := Stored(call.setting).value;
      FreeWayIff(ms, call.key, value);
      if DotSet(ms, call.key, value).Some? {
        var ms' := DotSet(ms, call.key, value).value;
        GetAfterSet(ms, call.key, value);
        DotSetIsSetPath(ms, call.key, value);
        forall other | Unrelated(Path(call.key), Path(other)) ensures DotGet(ms', other) == DotGet(ms, other) {
          WalkElsewhere(ms, Path(call.key), value, Path(other));
          DotGetWalks(ms', other);
          DotGetWalks(ms, other);
        }
      }
    }
  }

  /** A set is seen in the file by every get, as long as what it writes can be read back whole. */
  lemma SetIsSeen(text: string, call: Call)
    requires PrintableCall(call) && Buildable(call) && !call.setting.OtherSetting?
    requires OnDisk(text).Some? && |AfterCall(text, call)| < MAX_CONFIG_FILE_CONTENT
    ensures SetSeen(text, AfterCall(text, call), call)
  {
    hide OnDisk, Text, Updated, FreeWay, Shows, Unrelated, Path, DotGet, WellFormed;
    var config := OnDisk(text).value;
    OnDiskIsWellFormed(text);
    UpdatedIsPrintable(config, call);
    UpdatedIsWellFormed(config, call);
    WrittenIsRead(Updated(config, call.key, call.setting));
    if config.Obj? {
      UpdateIsSeen(config.members, call);
    } else {
      NoObjectNoUpdate(config, call);
    }
  }

  lemma NoObjectNoUpdate(config: Value, call: Call)
    requires !config.Obj?
    ensures Updated(config, call.key, call.setting) == config
  {
  }

  lemma UpdatedIsWellFormed(config: Value, call: Call)
    requires WellFormed(config) && Buildable(call)
    ensures WellFormed(Updated(config, call.key, call.setting))
  {
    hide Path, SetPath, DotSet, IsValidUtf8;
    if Updated(config, call.key, call.setting) != config {
      var value := Stored(call.setting).value;
      DotSetIsSetPath(config.members, call.key, value);
      PathHasNoNul(call.key);
      SetKeepsWellFormed(config.members, Path(call.key), value);
    }
  }

  // ---------------------------------------------------------------- runs of sets

  ghost predicate AllAcceptable(calls: seq<Call>) {
    forall i :: 0 <= i < |calls| ==> Acceptable(calls[i])
  }

  /** What the file holds after a run of calls. */
  ghost function AfterCalls(text: string, calls: seq<Call>): string
    requires AllAcceptable(calls)
    decreases |calls|
  {
    if calls == [] then text else AfterCalls(AfterCall(text, calls[0]), calls[1..])
  }

  /** The configuration itself through a run of sets. */
  function UpdatedAll(config: Value, calls: seq<Call>): Value
    decreases |calls|
  {
    if calls == [] then config else UpdatedAll(Updated(config, calls[0].key, calls[0].setting), calls[1..])
  }

  /** Each configuration that the sets make on the way fits the buffer. A call with an unknown type writes none. */
  ghost predicate WritesFit(config: Value, calls: seq<Call>)
    requires Printable(config) && AllAcceptable(calls)
    decreases |calls|
  {
    calls == [] ||
    (var next := Updated(config, calls[0].key, calls[0].setting);
     UpdatedIsPrintable(config, calls[0]);
     (calls[0].setting.OtherSetting? || |Text(next, 0, PRETTY)| < MAX_CONFIG_FILE_CONTENT) &&
     WritesFit(next, calls[1..]))
  }

  /** A file that cannot be read is left alone by every set. */
  lemma {:induction false} LostStaysLost(text: string, calls: seq<Call>)
    requires OnDisk(text).None? && AllAcceptable(calls)
    ensures AfterCalls(text, calls) == text
    decreases |calls|
  {
    hide OnDisk;
    if calls != [] {
      LostStaysLost(text, calls[1..]);
    }
  }

  /** A run of acceptable calls leaves a valid file exactly when every configuration on the way fits the buffer, and
      then the file holds the configuration that the sets alone make: nothing is lost by writing it and reading it
      back in between. Otherwise no set works any more. */
  lemma {:induction false} RunKeepsFileValidIff(text: string, calls: seq<Call>)
    requires ConformsOnDisk(text) && AllAcceptable(calls)
    ensures OnDisk(AfterCalls(text, calls)) ==
            (OnDiskIsWellFormed(text);
             if WritesFit(OnDisk(text).value, calls) then Some(UpdatedAll(OnDisk(text).value, calls)) else None)
    ensures ConformsOnDisk(AfterCalls(text, calls)) <==> OnDisk(AfterCalls(text, calls)).Some?
    decreases |calls|
  {
    hide OnDisk, Text, Conforms, Updated, PrintableCall, Fits, WellFormed;
    if calls != [] {
      var call := calls[0];
      CallKeepsFileValidIff(text, call);
      OtherChangesNothing(OnDisk(text).value, call);
      if ConformsOnDisk(AfterCall(text, call)) {
        assert OnDisk(AfterCall(text, call)) == Some(Updated(OnDisk(text).value, call.key, call.setting));
        RunKeepsFileValidIff(AfterCall(text, call), calls[1..]);
      } else {
        LostStaysLost(AfterCall(text, call), calls[1..]);
      }
    }
  }

  // ---------------------------------------------------------------- the operations on the file

  /** The part of CONFIG that load_config fills. A port outside an unsigned short is left open. */
  datatype Loaded = Loaded(serverAddr: string, nodePort: Option<nat>, anyMethod: bool, indexing: bool,
                           trimHeaders: bool, trimBody: bool, httpPort: Option<nat>)

  /** strncpy into a zeroed buffer: the longest start of `s` without a NUL byte, of at most `max` bytes. */
  function Copied(s: string, max: nat): (c: string)
    ensures c <= s && |c| <= max && '\0' !in c
    ensures |c| < max && |c| < |s| ==> s[|c|] == '\0'
  {
    if s == "" || s[0] == '\0' || max == 0 then "" else [s[0]] + Copied(s[1..], max - 1)
  }

  /** json_value_get_boolean stored in one bit: what is no boolean gives -1, which is kept as 1. */
  function FlagOf(v: Option<Value>): bool {
    v != Some(Bool(false))
  }

  /** The address can be copied: without it the code would copy from a null pointer. */
  predicate HasAddress(config: Option<Value>) {
    var addr := DotGet(Wire.MembersOf(config), "server.server_addr");
    addr.Some? && addr.value.Str?
  }

  /** What load_config makes of any configuration with an address: a port that is no number is 0, and a flag that is
      no boolean is set. */
  ghost predicate LoadedFrom(ms: seq<Member>, c: Loaded) {
    var addr := DotGet(ms, "server.server_addr");
    && addr.Some? && addr.value.Str? && c.serverAddr == Copied(addr.value.s, MAX_IPV6_LENGTH)
    && c.nodePort == Wire.PortOf(DotGet(ms, "server.node.server_port"))
    && c.httpPort == Wire.PortOf(DotGet(ms, "server.http.server_port"))
    && c.anyMethod == (DotGet(ms, "server.http.accept_any_method") != Some(Bool(false)))
    && c.indexing == (DotGet(ms, "server.http.directory_indexing") != Some(Bool(false)))
    && c.trimHeaders == (DotGet(ms, "server.http.trim_large_headers") != Some(Bool(false)))
    && c.trimBody == (DotGet(ms, "server.http.trim_large_body") != Some(Bool(false)))
  }

  /** Each of the values load_config reads is there and has the type it reads. */
  ghost predicate Loadable(ms: seq<Member>, c: Loaded) {
    var addr := DotGet(ms, "server.server_addr");
    && addr.Some? && addr.value.Str? && c.serverAddr == Copied(addr.value.s, MAX_IPV6_LENGTH)
    && IsPort(DotGet(ms, "server.node.server_port"), c.nodePort)
    && IsPort(DotGet(ms, "server.http.server_port"), c.httpPort)
    && DotGet(ms, "server.http.accept_any_method") == Some(Bool(c.anyMethod))
    && DotGet(ms, "server.http.directory_indexing") == Some(Bool(c.indexing))
    && DotGet(ms, "server.http.trim_large_headers") == Some(Bool(c.trimHeaders))
    && DotGet(ms, "server.http.trim_large_body") == Some(Bool(c.trimBody))
  }

  ghost predicate IsPort(v: Option<Value>, port: Option<nat>) {
    v.Some? && v.value.Num? && port == Wire.PortOf(v)
  }

  lemma DefaultMembers(isTemplate: bool)
    ensures DefaultConfig(isTemplate).members == [Member(Name(ServerKey), Obj(ServerSettings(isTemplate)))]
    ensures UniqueKeys(ServerSettings(isTemplate))
  {
    hide Name, HttpSettings;
    NamesDiffer();
    DefaultIsSendable(isTemplate);
  }

  lemma SectionLeaf(isTemplate: bool, i: nat, section: Key, k: Key)
    requires (i == 1 && section == NodeKey) || (i == 2 && section == HttpKey)
    ensures var ms := ServerSettings(isTemplate);
            ms[i].val.Obj? && Walk(DefaultConfig(isTemplate).members, Names([ServerKey, section, k])) ==
                              Get(ms[i].val.members, Name(k))
  {
    hide Name, HttpSettings, Walk;
    DefaultMembers(isTemplate);
    SectionWalk(ServerSettings(isTemplate), i, k);
    assert Names([ServerKey, section, k]) == [Name(ServerKey), Name(section), Name(k)];
  }

  /** The values of the default configuration. */
  lemma DefaultLeaves(isTemplate: bool)
    ensures var ms := DefaultConfig(isTemplate).members;
            && Walk(ms, Names([ServerKey, AddrKey])) == Some(Str(if isTemplate then "" else "0.0.0.0"))
            && Walk(ms, Names([ServerKey, NodeKey, PortKey])) == Some(Num(if isTemplate then 0.0 else 9060.0))
            && Walk(ms, Names([ServerKey, HttpKey, PortKey])) == Some(Num(8000.0))
            && forall k: Key :: IsFlag(k) ==> Walk(ms, Names([ServerKey, HttpKey, k])) == Some(Bool(false))
  {
    hide Name, Walk, HttpSettings;
    DefaultMembers(isTemplate);
    AddrWalk(ServerSettings(isTemplate));
    assert Names([ServerKey, AddrKey]) == [Name(ServerKey), Name(AddrKey)];
    SectionLeaf(isTemplate, 1, NodeKey, PortKey);
    FieldByKey(NodeSettings(isTemplate)[1].val.members, 0);
    SectionLeaf(isTemplate, 2, HttpKey, PortKey);
    HttpLeaves();
    forall k: Key | IsFlag(k)
      ensures Walk(DefaultConfig(isTemplate).members, Names([ServerKey, HttpKey, k])) == Some(Bool(false))
    {
      SectionLeaf(isTemplate, 2, HttpKey, k);
    }
  }

  lemma TemplateLeaves()
    ensures Walk(Template(), Names([ServerKey, AddrKey])) == Some(Str(""))
    ensures Walk(Template(), Names([ServerKey, NodeKey, PortKey])) == Some(Num(0.0))
    ensures Walk(Template(), Names([ServerKey, HttpKey, PortKey])) == Some(Num(8000.0))
    ensures forall k: Key :: IsFlag(k) ==> Walk(Template(), Names([ServerKey, HttpKey, k])) == Some(Bool(false))
  {
    hide Name, Walk, DefaultConfig;
    DefaultLeaves(true);
  }

  lemma TemplateMembers()
    ensures Template() == [Member(Name(ServerKey), Obj(ServerSettings(true)))] && UniqueKeys(ServerSettings(true))
  {
    hide Name, HttpSettings;
    DefaultMembers(true);
  }

  lemma InServer(k: Key)
    ensures Dotted([ServerKey, k]) == "server." + Name(k)
  {
    assert [ServerKey, k][1..] == [k];
    assert Name(ServerKey) + "." == "server.";
  }

  lemma InSection(section: Key, k: Key)
    ensures Dotted([ServerKey, section, k]) == "server." + Name(section) + "." + Name(k)
  {
    assert [ServerKey, section, k][1..] == [section, k] && [section, k][1..] == [k];
    assert Name(ServerKey) + "." == "server.";
    hide Name;
    assert Dotted([section, k]) == Name(section) + "." + Name(k);
  }

  lemma PortNames()
    ensures Dotted([ServerKey, AddrKey]) == "server.server_addr"
    ensures Dotted([ServerKey, NodeKey, PortKey]) == "server.node.server_port"
    ensures Dotted([ServerKey, HttpKey, PortKey]) == "server.http.server_port"
  {
    hide Dotted;
    InServer(AddrKey);
    InSection(NodeKey, PortKey);
    InSection(HttpKey, PortKey);
  }

  lemma HttpPrefix(k: Key)
    ensures Dotted([ServerKey, HttpKey, k]) == "server.http." + Name(k)
  {
    hide Dotted;
    InSection(HttpKey, k);
    assert "server." + Name(HttpKey) + "." == "server.http.";
  }

  lemma FlagNames()
    ensures Dotted([ServerKey, HttpKey, AnyMethodKey]) == "server.http.accept_any_method"
    ensures Dotted([ServerKey, HttpKey, IndexingKey]) == "server.http.directory_indexing"
    ensures Dotted([ServerKey, HttpKey, TrimHeadersKey]) == "server.http.trim_large_headers"
    ensures Dotted([ServerKey, HttpKey, TrimBodyKey]) == "server.http.trim_large_body"
  {
    hide Dotted;
    HttpPrefix(AnyMethodKey);
    HttpPrefix(IndexingKey);
    HttpPrefix(TrimHeadersKey);
    HttpPrefix(TrimBodyKey);
  }

  /** What a get finds in the default configuration at the keys that load_config reads. */
  lemma DefaultValues(isTemplate: bool)
    ensures var ms := DefaultConfig(isTemplate).members;
            && DotGet(ms, "server.server_addr") == Some(Str(if isTemplate then "" else "0.0.0.0"))
            && DotGet(ms, "server.node.server_port") == Some(Num(if isTemplate then 0.0 else 9060.0))
            && DotGet(ms, "server.http.server_port") == Some(Num(8000.0))
            && DotGet(ms, "server.http.accept_any_method") == Some(Bool(false))
            && DotGet(ms, "server.http.directory_indexing") == Some(Bool(false))
            && DotGet(ms, "server.http.trim_large_headers") == Some(Bool(false))
            && DotGet(ms, "server.http.trim_large_body") == Some(Bool(false))
  {
    hide Name, Walk, Assembled, DotGet, Dotted, Path, Names;
    var ms := DefaultConfig(isTemplate).members;
    PortNames();
    FlagNames();
    DefaultLeaves(isTemplate);
    forall path: seq<Key> | path != [] ensures DotGet(ms, Dotted(path)) == Walk(ms, Names(path)) {
      DottedPath(path);
      DotGetWalks(ms, Dotted(path));
    }
  }

  lemma AddrWalk(ms: seq<Member>)
    requires UniqueKeys(ms) && ms != []
    ensures Walk([Member(Name(ServerKey), Obj(ms))], [Name(ServerKey), ms[0].key]) == Some(ms[0].val)
  {
    hide Name;
    FieldByKey([Member(Name(ServerKey), Obj(ms))], 0);
    FieldByKey(ms, 0);
    assert [Name(ServerKey), ms[0].key][1..] == [ms[0].key];
  }

  lemma SectionWalk(ms: seq<Member>, i: nat, k: Key)
    requires UniqueKeys(ms) && i < |ms| && ms[i].val.Obj?
    ensures Walk([Member(Name(ServerKey), Obj(ms))], [Name(ServerKey), ms[i].key, Name(k)]) ==
            Get(ms[i].val.members, Name(k))
  {
    hide Name;
    var one, path := [Member(Name(ServerKey), Obj(ms))], [Name(ServerKey), ms[i].key, Name(k)];
    FieldByKey(one, 0);
    FieldByKey(ms, i);
    assert path[1..] == [ms[i].key, Name(k)] && path[1..][1..] == [Name(k)];
    assert Walk(one, path) == Walk(ms, path[1..]);
    assert Walk(ms, path[1..]) == Walk(ms[i].val.members, path[1..][1..]);
  }

  lemma HttpLeaves()
    ensures Get(HttpSettings(), Name(PortKey)) == Some(Num(8000.0))
    ensures forall k: Key :: IsFlag(k) ==>
              Get(HttpSettings(), Name(k)) == Some(Bool(false))
  {
    hide Name;
    HttpIsSendable();
    var http := HttpSettings();
    FieldByKey(http, 0);
    FieldByKey(http, 1);
    FieldByKey(http, 2);
    FieldByKey(http, 3);
    FieldByKey(http, 4);
  }

  /** What load_config looks up in a conforming configuration has the type of the template's leaf. */
  lemma LookupMeets(ms: seq<Member>, path: seq<Key>)
    requires Conforms(DefaultConfig(true), Obj(ms)) && path != [] && LeafAt(Template(), Names(path))
    ensures Meets(Walk(Template(), Names(path)).value, DotGet(ms, Dotted(path)))
  {
    hide DefaultConfig, Name, Conforms;
    TemplateIsDefault();
    DottedPath(path);
    DotGetWalks(ms, Dotted(path));
    ConformingMeets(Template(), ms, Names(path));
  }

  /** The paths get_default_config sets. */
  ghost predicate IsTemplatePath(path: seq<Key>) {
    path == [ServerKey, AddrKey] || path == [ServerKey, NodeKey, PortKey] ||
    (|path| == 3 && path[..2] == [ServerKey, HttpKey] && (path[2].PortKey? || IsFlag(path[2])))
  }

  lemma TemplatePathIsLeaf(path: seq<Key>)
    requires IsTemplatePath(path)
    ensures LeafAt(Template(), Names(path)) && Walk(Template(), Names(path)) != Some(Null)
  {
    hide Name, Template, Walk;
    TemplateLeaves();
    if |path| == 3 {
      assert path == [path[0], path[1], path[2]];
    }
  }

  lemma FieldNamed(fields: seq<Member>, key: string) returns (i: nat)
    requires Get(fields, key).Some?
    ensures i < |fields| && fields[i].key == key && Get(fields, key) == Some(fields[i].val)
  {
    i := IndexOf(fields, key);
  }

  /** The template has no other leaves. */
  lemma LeafIsTemplatePath(names: seq<string>) returns (path: seq<Key>)
    requires LeafAt(Template(), names)
    ensures IsTemplatePath(path) && names == Names(path)
  {
    hide Name, Template, HttpSettings;
    TemplateMembers();
    var ms := ServerSettings(true);
    var i := FieldNamed(Template(), names[0]);
    assert |names| > 1;
    assert Walk(Template(), names) == Walk(ms, names[1..]) && names[1..][0] == names[1];
    var j := FieldNamed(ms, names[1]);
    if j == 0 {
      assert |names| == 2;
      path := [ServerKey, AddrKey];
    } else {
      LeafInSection(names, j);
      var k := LastKey(ms[j].val.members, names[2], j == 2);
      path := [ServerKey, if j == 1 then NodeKey else HttpKey, k];
    }
  }

  lemma LeafInSection(names: seq<string>, j: nat)
    requires LeafAt(Template(), names) && |names| > 1 && 0 < j < |ServerSettings(true)|
    requires names[1] == ServerSettings(true)[j].key
    requires Walk(Template(), names) == Walk(ServerSettings(true), names[1..])
    ensures ServerSettings(true)[j].val.Obj?
    ensures |names| == 3 && Get(ServerSettings(true)[j].val.members, names[2]).Some?
  {
    hide Name, Template;
    TemplateMembers();
    var ms := ServerSettings(true);
    FieldByKey(ms, j);
    assert |names| > 2;
    assert names[1..][1..] == names[2..];
    assert Walk(ms, names[1..]) == Walk(ms[j].val.members, names[2..]);
    if |names| > 3 {
      var k := FieldNamed(ms[j].val.members, names[2]);
      assert false;
    }
  }

  lemma LastKey(fields: seq<Member>, name: string, http: bool) returns (k: Key)
    requires fields == if http then HttpSettings() else NodeSettings(true)[1].val.members
    requires Get(fields, name).Some?
    ensures name == Name(k) && (k.PortKey? || (http && IsFlag(k)))
  {
    hide Name;
    var i := FieldNamed(fields, name);
    k := if i == 0 then PortKey else if i == 1 then AnyMethodKey else if i == 2 then IndexingKey
         else if i == 3 then TrimHeadersKey else TrimBodyKey;
  }

  /** The leaves of the template are the template paths. */
  lemma LeafIffTemplatePath(names: seq<string>)
    ensures LeafAt(Template(), names) <==> exists path :: IsTemplatePath(path) && names == Names(path)
  {
    hide Template, Name, Names;
    if LeafAt(Template(), names) {
      var path := LeafIsTemplatePath(names);
    }
    forall path | IsTemplatePath(path) && names == Names(path) ensures LeafAt(Template(), names) {
      TemplatePathIsLeaf(path);
    }
  }

  /** At a template path the values of the leaf's type fit. Anything fits at a key exactly when it is neither a
      template path nor the start of one. */
  lemma WhatFits(key: string)
    ensures forall value :: LeafAt(Template(), Path(key)) ==>
              (Fits(Template(), Path(key), value) <==> Conforms(Walk(Template(), Path(key)).value, value))
    ensures (forall value :: Fits(Template(), Path(key), value)) <==>
            forall path :: IsTemplatePath(path) ==> !(Path(key) <= Names(path))
  {
    hide Template, Path, Fits, IsTemplatePath, Names, Walk;
    forall value | LeafAt(Template(), Path(key))
      ensures Fits(Template(), Path(key), value) <==> Conforms(Walk(Template(), Path(key)).value, value)
    {
      LeafFits(Template(), Path(key), value);
    }
    AnythingFitsIff(Template(), Path(key));
    forall path | IsTemplatePath(path)
      ensures LeafAt(Template(), Names(path)) && Walk(Template(), Names(path)) != Some(Null)
    {
      TemplatePathIsLeaf(path);
    }
    forall leaf | LeafAt(Template(), leaf) ensures exists path :: IsTemplatePath(path) && leaf == Names(path) {
      LeafIffTemplatePath(leaf);
    }
  }

  // ---------------------------------------------------------------- the default configuration fits its buffer

  lemma {:induction false} IndentLength(level: nat)
    ensures |Indent(level)| == 4 * level
  {
    if level > 0 {
      IndentLength(level - 1);
    }
  }

  /** A name with its quotes. */
  const KEY_LENGTH: nat := 110

  lemma NameLength(k: Key)
    ensures |S.Quote(Name(k), true)| <= KEY_LENGTH
  {
    assert |Name(k)| <= 18;
    hide Name;
    Wire.EscapedLength(Name(k), true);
  }

  lemma {:induction false} MembersAtMost(ms: seq<Member>, level: nat, bound: nat)
    requires PrintableMembers(ms)
    requires forall i :: 0 <= i < |ms| ==>
               |S.Quote(ms[i].key, true)| <= KEY_LENGTH && Printable(ms[i].val) &&
               |Text(ms[i].val, level + 1, PRETTY)| <= bound
    ensures |MembersText(ms, level, PRETTY)| <= |ms| * (4 * level + 8 + KEY_LENGTH + bound)
  {
    hide Text, S.Quote, Indent, Printable;
    if ms != [] {
      IndentLength(level + 1);
      MembersAtMost(ms[1..], level, bound);
      ghost var line := 4 * level + 8 + KEY_LENGTH + bound;
      assert |ms| * line == line + |ms[1..]| * line;
    }
  }

  lemma ObjectAtMost(ms: seq<Member>, level: nat, bound: nat)
    requires Printable(Obj(ms))
    requires forall i :: 0 <= i < |ms| ==>
               |S.Quote(ms[i].key, true)| <= KEY_LENGTH && Printable(ms[i].val) &&
               |Text(ms[i].val, level + 1, PRETTY)| <= bound
    ensures |Text(Obj(ms), level, PRETTY)| <= |ms| * (4 * level + 8 + KEY_LENGTH + bound) + 4 * level + 3
  {
    hide S.Quote, Indent;
    MembersAtMost(ms, level, bound);
    IndentLength(level);
  }

  lemma SmallText(v: Value, level: nat)
    requires Printable(v)
    requires v.Bool? || (v.Num? && v.x == v.x.Floor as real && 0 <= v.x.Floor < Wire.PORTS) || (v.Str? && |v.s| <= 15)
    ensures |Text(v, level, PRETTY)| <= if v.Str? then 92 else 5
  {
    match v
    case Num(x) => Wire.PortLength(x.Floor);
    case Str(s) => Wire.EscapedLength(s, true);
    case Bool(_) =>
  }

  lemma SectionsFit(isTemplate: bool)
    ensures Printable(Obj(HttpSettings())) && |Text(Obj(HttpSettings()), 2, PRETTY)| <= 700
    ensures var node := NodeSettings(isTemplate)[1].val; Printable(node) && |Text(node, 2, PRETTY)| <= 700
  {
    hide Name, Text, S.Quote;
    forall k: Key ensures |S.Quote(Name(k), true)| <= KEY_LENGTH { NameLength(k); }
    HttpIsSendable();
    NodeIsSendable(isTemplate);
    var http, node := HttpSettings(), NodeSettings(isTemplate)[1].val.members;
    forall i | 0 <= i < |http| ensures |Text(http[i].val, 3, PRETTY)| <= 5 { SmallText(http[i].val, 3); }
    ObjectAtMost(http, 2, 5);
    Wire.PortIsSendable(if isTemplate then 0 else 9060);
    SmallText(node[0].val, 3);
    ObjectAtMost(node, 2, 5);
  }

  /** What create_default_config writes can be read back whole. */
  lemma DefaultFits(isTemplate: bool)
    ensures Printable(DefaultConfig(isTemplate))
    ensures |Text(DefaultConfig(isTemplate), 0, PRETTY)| < MAX_CONFIG_FILE_CONTENT
  {
    hide Name, Text, S.Quote, HttpSettings, WellFormed, Level;
    forall k: Key ensures |S.Quote(Name(k), true)| <= KEY_LENGTH { NameLength(k); }
    DefaultIsSendable(isTemplate);
    var ms := ServerSettings(isTemplate);
    SectionsFit(isTemplate);
    SmallText(ms[0].val, 2);
    PrintableMembersAll(ms);
    ObjectAtMost(ms, 1, 700);
    ObjectAtMost([Member(Name(ServerKey), Obj(ms))], 0, 3000);
  }

  // ---------------------------------------------------------------- the operations on the file

  /** The configuration file, if it exists, and the settings in memory. */
  class ConfigManager {
    var file: Option<string>
    var loaded: Option<Loaded>

    constructor (file: Option<string>)
      ensures this.file == file && loaded == None
    {
      this.file := file;
      loaded := None;
    }

    /** The whole configuration, or a copy of what a key or dotted path leads to. */
    method GetConfig(key: string) returns (r: Option<Value>)
      ensures r == if file.None? || OnDisk(file.value).None? then None
                   else if key == "" then OnDisk(file.value)
                   else DotGet(Wire.MembersOf(OnDisk(file.value)), key)
    {
      if file.None? { return None; }
      var config := OnDisk(file.value);
      if key == "" || config.None? { return config; }
      var ms := Wire.MembersOf(config);
      var nested := DotPos(key) < |key|;
      r := if nested then DotGet(ms, key) else Get(ms, key);
    }

    method SetConfig(key: string, setting: Setting) returns (ok: bool)
      requires PrintableCall(Call(key, setting))
      modifies this
      ensures ok <==> old(file).Some? && OnDisk(old(file).value).Some? && !setting.OtherSetting?
      ensures file == if old(file).None? then None else Some(AfterCall(old(file).value, Call(key, setting)))
      ensures loaded == old(loaded)
      ensures ok ==> IsLaidOut(file.value)
      ensures ok && Buildable(Call(key, setting)) && |file.value| < MAX_CONFIG_FILE_CONTENT ==>
                SetSeen(old(file).value, file.value, Call(key, setting))
    {
      hide OnDisk, Text, Updated, SetSeen, Buildable, IsLaidOut;
      if file.None? { return false; }
      var config := GetConfig("");
      if config.None? || setting.OtherSetting? { return false; }
      OnDiskIsWellFormed(file.value);
      UpdatedIsPrintable(config.value, Call(key, setting));
      ghost var text := AfterCall(file.value, Call(key, setting));
      if Buildable(Call(key, setting)) && |text| < MAX_CONFIG_FILE_CONTENT {
        SetIsSeen(file.value, Call(key, setting));
      }
      FileIsLaidOut(Updated(config.value, key, setting));
      file := Some(Text(Updated(config.value, key, setting), 0, PRETTY));
      ok := true;
    }

    method IsValidConfig() returns (ok: bool)
      ensures ok <==> file.Some? && ConformsOnDisk(file.value)
    {
      if file.None? { return false; }
      var template := GetDefaultConfig(true);
      DefaultIsSendable(true);
      var config := OnDisk(file.value);
      if config.None? { return false; }
      ValidateIffConforms(template, config.value);
      ok := Validate(template, config.value);
    }

    method CreateDefaultConfig()
      modifies this
      ensures file.Some? && OnDisk(file.value) == Some(DefaultConfig(false)) && loaded == old(loaded)
      ensures IsLaidOut(file.value)
    {
      hide OnDisk, Text, DefaultConfig, IsLaidOut;
      var config := GetDefaultConfig(false);
      DefaultIsSendable(false);
      DefaultFits(false);
      WrittenIsRead(config);
      FileIsLaidOut(config);
      file := Some(Text(config, 0, PRETTY));
    }

    /** Reads the settings. From a conforming configuration every one is what the file says. */
    method LoadConfig() returns (ok: bool)
      requires file.Some? && OnDisk(file.value).Some? ==> HasAddress(OnDisk(file.value))
      modifies this
      ensures file == old(file)
      ensures ok <==> file.Some? && OnDisk(file.value).Some?
      ensures ok ==> loaded.Some? && LoadedFrom(Wire.MembersOf(OnDisk(file.value)), loaded.value)
      ensures ok && ConformsOnDisk(file.value) ==> OnDisk(file.value).value.Obj? &&
                                                   Loadable(OnDisk(file.value).value.members, loaded.value)
    {
      hide OnDisk, DotGet, HttpSettings, Conforms, DefaultConfig;
      var config := GetConfig("");
      if config.None? { return false; }
      var ms := Wire.MembersOf(config);
      if Conforms(DefaultConfig(true), config.value) {
        ConfigurationIsObject(config.value);
        Lookups(ms);
      }
      loaded := Some(Loaded(
        Copied(DotGet(ms, "server.server_addr").value.s, MAX_IPV6_LENGTH),
        Wire.PortOf(DotGet(ms, "server.node.server_port")),
        FlagOf(DotGet(ms, "server.http.accept_any_method")),
        FlagOf(DotGet(ms, "server.http.directory_indexing")),
        FlagOf(DotGet(ms, "server.http.trim_large_headers")),
        FlagOf(DotGet(ms, "server.http.trim_large_body")),
        Wire.PortOf(DotGet(ms, "server.http.server_port"))));
      ok := true;
    }

    /** Whatever was in the file before, the settings are loaded from a valid one, and a valid file is kept. */
    method InitConfigManager() returns (ok: bool)
      modifies this
      ensures ok && file.Some? && ConformsOnDisk(file.value)
      ensures loaded.Some? && OnDisk(file.value).value.Obj? &&
              Loadable(OnDisk(file.value).value.members, loaded.value)
      ensures file == old(file) || OnDisk(file.value) == Some(DefaultConfig(false))
      ensures old(file).Some? && ConformsOnDisk(old(file).value) ==> file == old(file)
    {
      hide OnDisk, Loadable, DefaultConfig, Conforms;
      var valid := false;
      if file.Some? {
        valid := IsValidConfig();
      }
      if !valid {
        CreateDefaultConfig();
        DefaultConforms();
      }
      AddressIsThere(OnDisk(file.value).value);
      ok := LoadConfig();
    }
  }

  lemma AddressIsThere(config: Value)
    requires Conforms(DefaultConfig(true), config)
    ensures HasAddress(Some(config))
  {
    hide DotGet, DefaultConfig;
    ConfigurationIsObject(config);
    Lookups(config.members);
  }

  ghost predicate IsFlagValue(v: Option<Value>) {
    v.Some? && v.value.Bool?
  }

  /** In a conforming configuration every lookup of load_config finds a value of the type it reads. */
  lemma Lookups(ms: seq<Member>)
    requires Conforms(DefaultConfig(true), Obj(ms))
    ensures var addr := DotGet(ms, "server.server_addr"); addr.Some? && addr.value.Str?
    ensures var port := DotGet(ms, "server.node.server_port"); port.Some? && port.value.Num?
    ensures var port := DotGet(ms, "server.http.server_port"); port.Some? && port.value.Num?
    ensures IsFlagValue(DotGet(ms, "server.http.accept_any_method"))
    ensures IsFlagValue(DotGet(ms, "server.http.directory_indexing"))
    ensures IsFlagValue(DotGet(ms, "server.http.trim_large_headers"))
    ensures IsFlagValue(DotGet(ms, "server.http.trim_large_body"))
  {
    hide Name, Template, DefaultConfig, DotGet, Walk, Dotted, Names;
    TemplateLeaves();
    PortNames();
    FlagNames();
    LookupMeets(ms, [ServerKey, AddrKey]);
    LookupMeets(ms, [ServerKey, NodeKey, PortKey]);
    LookupMeets(ms, [ServerKey, HttpKey, PortKey]);
    LookupMeets(ms, [ServerKey, HttpKey, AnyMethodKey]);
    LookupMeets(ms, [ServerKey, HttpKey, IndexingKey]);
    LookupMeets(ms, [ServerKey, HttpKey, TrimHeadersKey]);
    LookupMeets(ms, [ServerKey, HttpKey, TrimBodyKey]);
  }
}
