/**
  Movicon's IO server as seen through OPC UA: the endpoint URL built from
  host name and port, the walk of the server's node tree into a nested
  dictionary on connection, and the selection of the `Objects` subtree.
  The network session is not modelled: what the server answers is a
  parameter (`SessionEvent`).
*/
module Movicon {
  import opened Wrappers
  import opened OpcUa
  import opened NodeTree
  import Decimal

  const Scheme: string := "opc.tcp://"

  /** The port Movicon's OPC UA server listens on unless told otherwise. */
  const DefaultPort: int := 62841

  /** The key under which the server's address space keeps its objects. */
  const ObjectsKey: string := "Objects"

  /** `opc.tcp://<hostname>:<port>`, the port written in decimal. */
  function EndpointUrl(hostname: string, port: int): (url: string)
    ensures |url| > |Scheme| + |hostname| + 1
    ensures url[..|Scheme|] == Scheme
    ensures url[|Scheme|..|Scheme| + |hostname|] == hostname
    ensures url[|Scheme| + |hostname|] == ':'
    ensures url[|Scheme| + |hostname| + 1..] == Decimal.IntToString(port)
  {
    Scheme + hostname + ":" + Decimal.IntToString(port)
  }

  /** Index of the last ':' in `s`, if any. */
  function LastColon(s: string): (r: Option<nat>)
    ensures r.None? <==> ':' !in s
    ensures r.Some? ==> r.value < |s| && s[r.value] == ':'
    ensures r.Some? ==> forall j :: r.value < j < |s| ==> s[j] != ':'
    decreases |s|
  {
    if s == [] then None
    else if s[|s| - 1] == ':' then Some(|s| - 1)
    else LastColon(s[..|s| - 1])
  }

  /**
    Host name and port read back from an endpoint URL. The port follows the
    last ':', so a host name that itself holds colons is recovered whole.
  */
  function ParseEndpoint(url: string): (r: Option<(string, int)>)
  {
    if |url| < |Scheme| || url[..|Scheme|] != Scheme then None
    else
      var rest := url[|Scheme|..];
      match LastColon(rest)
      case None => None
      case Some(k) =>
        match Decimal.ParseInt(rest[k + 1..])
        case None => None
        case Some(port) => Some((rest[..k], port))
  }

  /** The endpoint URL determines the host name and the port it was built from. */
  lemma EndpointRoundTrip(hostname: string, port: int)
    ensures ParseEndpoint(EndpointUrl(hostname, port)) == Some((hostname, port))
  {
    var url := EndpointUrl(hostname, port);
    var digits := Decimal.IntToString(port);
    var rest := url[|Scheme|..];
    assert rest == hostname + [':'] + digits;
    assert rest[|hostname|] == ':';
    forall j | |hostname| < j < |rest|
      ensures rest[j] != ':'
    {
      assert rest[j] == digits[j - |hostname| - 1];
    }
    assert rest[|hostname| + 1..] == digits;
    assert rest[..|hostname|] == hostname;
    Decimal.IntRoundTrip(port);
  }

  /** With the default port the URL ends in ":62841". */
  lemma DefaultEndpoint(hostname: string)
    ensures EndpointUrl(hostname, DefaultPort) == "opc.tcp://" + hostname + ":62841"
  {
  }

  /**
    What the OPC UA client reports during `connect`: the session or the
    root node could not be obtained; the root node was obtained but a
    library call raised during the walk; or everything succeeded.
  */
  datatype SessionEvent =
    | ConnectFailed
    | WalkInterrupted(root: Node)
    | Connected(root: Node)

  /** A dictionary lookup: the value, or the KeyError Python raises. */
  datatype Lookup<T> = Found(value: T) | KeyError(key: string)

  class IOServer {
    const hostname: string
    const port: int
    const url: string
    var rootNode: Option<Node>
    var opcuaNodes: Tree
    var tags: Tree
    var alarms: Tree

    /**
      The URL stays the one built from host name and port, and no code
      path ever puts anything in `tags` or `alarms`.
    */
    ghost predicate Valid()
      reads this
    {
      && url == EndpointUrl(hostname, port)
      && tags == map[]
      && alarms == map[]
    }

    constructor (hostname: string, port: int := DefaultPort)
      ensures Valid()
      ensures this.hostname == hostname && this.port == port
      ensures rootNode == None && opcuaNodes == map[]
    {
      this.hostname := hostname;
      this.port := port;
      url := EndpointUrl(hostname, port);
      rootNode := None;
      opcuaNodes := map[];
      tags := map[];
      alarms := map[];
    }

    /**
      Connects and, on success, replaces the node dictionary by the walk of
      the root node. A failure reports false and leaves the dictionary as it
      was; a failure inside the walk has already recorded the root node.
    */
    method Connect(event: SessionEvent) returns (ok: bool)
      requires Valid()
      modifies this
      ensures Valid()
      ensures ok <==> event.Connected?
      ensures event.ConnectFailed? ==> rootNode == old(rootNode) && opcuaNodes == old(opcuaNodes)
      ensures event.WalkInterrupted? ==> rootNode == Some(event.root) && opcuaNodes == old(opcuaNodes)
      ensures event.Connected? ==> rootNode == Some(event.root) && opcuaNodes == Walk(event.root)
    {
      match event
      case ConnectFailed =>
        ok := false;
      case WalkInterrupted(root) =>
        rootNode := Some(root);
        ok := false;
      case Connected(root) =>
        rootNode := Some(root);
        opcuaNodes := GetNodes(root);
        ok := true;
    }

    /** The `Objects` entry of the node dictionary; a KeyError when there is none. */
    function GetTags(): (r: Lookup<Entry>)
      reads this
      ensures r.Found? <==> ObjectsKey in opcuaNodes
      ensures r.Found? ==> r.value == opcuaNodes[ObjectsKey]
      ensures r.KeyError? ==> r.key == ObjectsKey
    {
      if ObjectsKey in opcuaNodes then Found(opcuaNodes[ObjectsKey]) else KeyError(ObjectsKey)
    }

    /**
      The loop of `_get_nodes`: each child in turn is stored under its
      display name, as a leaf or as the dictionary of a recursive call.
    */
    static method GetNodes(node: Node) returns (nodes: Tree)
      ensures nodes == Walk(node)
      decreases node
    {
      nodes := map[];
      var children := node.children;
      for i := 0 to |children|
        invariant nodes == WalkUpTo(node, i)
      {
        var child := children[i];
        var dname := child.displayName;
        if child.isNode {
          if child.nodeClass == Variable {
            nodes := nodes[child.displayName := Leaf(child)];
          } else {
            var sub := GetNodes(child);
            nodes := nodes[dname := Branch(sub)];
          }
        } else {
          nodes := nodes[child.displayName := Leaf(child)];
        }
      }
    }
  }

  /**
    After a successful connection `get_tags` finds its entry exactly when
    the root has a child displayed as `Objects`.
  */
  lemma TagsPresentIffObjectsChild(root: Node)
    ensures ObjectsKey in Walk(root) <==> exists c :: c in root.children && c.displayName == ObjectsKey
  {
    WalkKeys(root);
  }

  /**
    When the last root child displayed as `Objects` is a container node, the
    tags are the walk of that child.
  */
  lemma TagsAreObjectsSubtree(root: Node, i: nat)
    requires LastWithName(root, i)
    requires root.children[i].displayName == ObjectsKey
    requires root.children[i].isNode && root.children[i].nodeClass != Variable
    ensures ObjectsKey in Walk(root)
    ensures Walk(root)[ObjectsKey] == Branch(Walk(root.children[i]))
  {
    ContainerChildIsBranch(root, i);
  }

  /**
    The example tree of a temperature variable beside a motors folder
    holding one motor variable.
  */
  lemma TemperatureAndMotors(temperature: Node, motor1: Node, motors: Node, root: Node)
    requires temperature == Node("Temperature", true, Variable, [])
    requires motor1 == Node("Motor1", true, Variable, [])
    requires motors == Node("Motors", true, Object, [motor1])
    requires root.children == [temperature, motors]
    ensures Walk(root) == map["Temperature" := Leaf(temperature),
                              "Motors" := Branch(map["Motor1" := Leaf(motor1)])]
  {
    assert EntryOf(motor1) == Leaf(motor1);
    assert WalkUpTo(motors, 1) == map["Motor1" := Leaf(motor1)];
    assert EntryOf(motors) == Branch(map["Motor1" := Leaf(motor1)]);
    assert EntryOf(temperature) == Leaf(temperature);
    assert WalkUpTo(root, 1) == map["Temperature" := Leaf(temperature)];
  }

}
