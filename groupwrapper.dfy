/** The bookkeeping rules of composite node groups
    (src/mpfb/entities/nodemodel/v2/composites/abstractgroupwrapper.py): checking a built group
    tree against its definition, the colour a composite node is drawn in, the socket types a
    group interface accepts and how a link finds the sockets it connects. Blender's node trees
    are modelled by the names, identifiers and fields these rules look at. */
module GroupWrapper {
  import opened Wrappers
  import opened Text

  // ---------------------------------------------------------------------------------------
  // validate_tree_against_original_def
  // ---------------------------------------------------------------------------------------

  /** The names of a sequence of nodes, as a set. */
  function NameSet(names: seq<string>): set<string> {
    set i | 0 <= i < |names| :: names[i]
  }

  /** `validate_tree_against_original_def`. `treeDef` holds the node names of the registered
      definition, None when no definition is registered; `nodeTree` holds the node names of
      the group tree, None when Blender has no tree of that name, where the lookup in
      `bpy.data.node_groups` raises KeyError before the source's own "could not find" check
      is reached. */
  function ValidateTree(treeDef: Option<seq<string>>, nodeTree: Option<seq<string>>, failHard: bool)
    : (r: Result<bool>)
    ensures treeDef.None? ==> r == Err("ValueError")
    ensures treeDef.Some? && nodeTree.None? ==> r == Err("KeyError")
    ensures treeDef.Some? && nodeTree.Some? ==>
      var missing := NameSet(treeDef.value) - NameSet(nodeTree.value);
      r == if failHard && missing != {} then Err("ValueError")
           else Ok(NameSet(treeDef.value) == NameSet(nodeTree.value))
  {
    if treeDef.None? then Err("ValueError")
    else if nodeTree.None? then Err("KeyError")
    else
      var inDef := NameSet(treeDef.value);
      var inTree := NameSet(nodeTree.value);
      var missing := inDef - inTree;
      var superfluous := inTree - inDef;
      if missing == {} && superfluous == {} then Ok(true)
      else if failHard && missing != {} then Err("ValueError")
      else Ok(false)
  }

  /** A tree whose nodes carry the defined names, in any order and with repeats, validates,
      even when failing hard. */
  lemma SameNamesValidate(def: seq<string>, tree: seq<string>, failHard: bool)
    requires forall i :: 0 <= i < |def| ==> def[i] in tree
    requires forall j :: 0 <= j < |tree| ==> tree[j] in def
    ensures ValidateTree(Some(def), Some(tree), failHard) == Ok(true)
  {
    forall n | n in NameSet(def) ensures n in NameSet(tree) {
      var i :| 0 <= i < |def| && def[i] == n;
      var j :| 0 <= j < |tree| && tree[j] == n;
    }
    forall n | n in NameSet(tree) ensures n in NameSet(def) {
      var j :| 0 <= j < |tree| && tree[j] == n;
      var i :| 0 <= i < |def| && def[i] == n;
    }
  }

  /** A node the definition names and the tree lacks makes validation fail: False, or a
      ValueError when failing hard. */
  lemma MissingNodeFails(def: seq<string>, tree: seq<string>, failHard: bool, k: nat)
    requires k < |def| && def[k] !in tree
    ensures ValidateTree(Some(def), Some(tree), failHard) == if failHard then Err("ValueError") else Ok(false)
  {
    assert def[k] in NameSet(def) - NameSet(tree);
  }

  /** Superfluous nodes alone never raise: the answer is False even when failing hard. */
  lemma SuperfluousNodeOnly(def: seq<string>, tree: seq<string>, failHard: bool, k: nat)
    requires forall i :: 0 <= i < |def| ==> def[i] in tree
    requires k < |tree| && tree[k] !in def
    ensures ValidateTree(Some(def), Some(tree), failHard) == Ok(false)
  {
    forall n | n in NameSet(def) ensures n in NameSet(tree) {
      var i :| 0 <= i < |def| && def[i] == n;
      var j :| 0 <= j < |tree| && tree[j] == n;
    }
    assert tree[k] in NameSet(tree) - NameSet(def);
  }

  // ---------------------------------------------------------------------------------------
  // The colour of a composite node
  // ---------------------------------------------------------------------------------------

  /** `_is_constant_group`. */
  predicate IsConstantGroup(groupName: string) {
    var name := Lower(groupName);
    Contains(name, "constant") || EndsWith(name, "info") || Contains(name, "systemvaluetexture")
  }

  /** `_is_texture_group`. */
  predicate IsTextureGroup(groupName: string) {
    StartsWith(Lower(groupName), "mpfbskin")
  }

  const GreyBlue: seq<real> := [0.4, 0.4, 0.5]
  const Olive: seq<real> := [0.35, 0.35, 0.0]
  const Purple: seq<real> := [0.35, 0.0, 0.35]

  /** The colour `node` picks for a composite group: grey-blue, then olive for a constant
      group, then purple for a texture group, overriding olive; with one 1.0 appended when
      the instance's colour has more channels. */
  function CompositeColor(className: string, instanceChannels: nat): seq<real> {
    var rgb := if IsTextureGroup(className) then Purple
               else if IsConstantGroup(className) then Olive
               else GreyBlue;
    if |rgb| < instanceChannels then rgb + [1.0] else rgb
  }

  /** The colour rule as a decision table: texture beats constant, constant beats the
      default, and an alpha channel of 1.0 is added only for a colour with more than three
      channels. */
  lemma CompositeColorChoice(className: string, instanceChannels: nat)
    ensures var c := CompositeColor(className, instanceChannels);
      && |c| == (if instanceChannels > 3 then 4 else 3)
      && (|c| == 4 ==> c[3] == 1.0)
      && c[..3] == (if IsTextureGroup(className) then Purple
                    else if IsConstantGroup(className) then Olive
                    else GreyBlue)
  {
  }

  /** A group named "MpfbSkin...Info" is both a constant and a texture group, and is drawn
      purple. */
  lemma TextureOverridesConstant(middle: string)
    ensures IsConstantGroup("MpfbSkin" + middle + "Info") && IsTextureGroup("MpfbSkin" + middle + "Info")
    ensures CompositeColor("MpfbSkin" + middle + "Info", 3) == Purple
  {
    var name := "MpfbSkin" + middle + "Info";
    LowerSplit("MpfbSkin", middle + "Info");
    LowerSplit(middle, "Info");
    assert name == "MpfbSkin" + (middle + "Info");
    LowerLiterals();
    Framed("mpfbskin", Lower(middle), "info");
  }

  lemma LowerLiterals()
    ensures Lower("MpfbSkin") == "mpfbskin" && Lower("Info") == "info"
  {
    LowerEach("MpfbSkin");
    LowerEach("Info");
  }

  /** A string starts with its first part and ends with its last. */
  lemma Framed(p: string, m: string, q: string)
    ensures StartsWith(p + (m + q), p) && EndsWith(p + (m + q), q)
  {
    assert (p + (m + q))[..|p|] == p;
    assert (p + (m + q))[|p| + |m|..] == q;
  }

  /** Lowering works character by character. */
  lemma {:induction false} LowerSplit(a: string, b: string)
    ensures Lower(a + b) == Lower(a) + Lower(b)
    decreases |a|
  {
    if a != [] {
      assert (a + b)[1..] == a[1..] + b;
      LowerSplit(a[1..], b);
    } else {
      assert a + b == b;
    }
  }

  /** A node instance as `node` colours it. */
  class NodeInstance {
    var useCustomColor: bool
    var color: seq<real>

    constructor (color: seq<real>)
      ensures this.color == color && !useCustomColor
    {
      this.color := color;
      useCustomColor := false;
    }
  }

  /** The colouring step of `node`, applied to the instance the wrapper created. `known` is
      whether `get_wrapper` found a wrapper for the class; `composites` is the set of
      composite class names the registry lists. */
  method ColorNode(className: string, known: bool, composites: set<string>, inst: NodeInstance)
    returns (r: Outcome)
    modifies inst
    ensures !known ==> r == Failed("ValueError") && unchanged(inst)
    ensures known && className !in composites ==> r == Done && unchanged(inst)
    ensures known && className in composites ==>
      r == Done && inst.useCustomColor && inst.color == CompositeColor(className, |old(inst.color)|)
  {
    if !known {
      return Failed("ValueError");
    }
    if className in composites {
      inst.useCustomColor := true;
      var color := GreyBlue;
      if IsConstantGroup(className) {
        color := Olive;
      }
      if IsTextureGroup(className) {
        color := Purple;
      }
      if |color| < |inst.color| {
        color := color + [1.0];
      }
      inst.color := color;
    }
    return Done;
  }

  // ---------------------------------------------------------------------------------------
  // Group interface sockets
  // ---------------------------------------------------------------------------------------

  /** `_SOCKET_TYPES`, the socket types a group interface accepts. */
  const SocketTypes: seq<string> := [
    "NodeSocketBool", "NodeSocketCollection", "NodeSocketColor", "NodeSocketFloat",
    "NodeSocketFloatAngle", "NodeSocketFloatDistance", "NodeSocketFloatFactor",
    "NodeSocketFloatPercentage", "NodeSocketFloatTime", "NodeSocketFloatTimeAbsolute",
    "NodeSocketFloatUnsigned", "NodeSocketGeometry", "NodeSocketImage", "NodeSocketInt",
    "NodeSocketIntFactor", "NodeSocketIntPercentage", "NodeSocketIntUnsigned",
    "NodeSocketMaterial", "NodeSocketObject", "NodeSocketShader", "NodeSocketString",
    "NodeSocketTexture", "NodeSocketVector", "NodeSocketVectorAcceleration",
    "NodeSocketVectorDirection", "NodeSocketVectorEuler", "NodeSocketVectorTranslation",
    "NodeSocketVectorVelocity", "NodeSocketVectorXYZ", "NodeSocketVirtual"]

  /** The type check shared by `add_input_socket` and `add_output_socket`: a float factor is
      created as a plain float, and any type outside the whitelist is a ValueError. */
  function CheckedSocketType(socketType: string): (r: Result<string>)
    ensures socketType == "NodeSocketFloatFactor" ==> r == Ok("NodeSocketFloat")
    ensures socketType != "NodeSocketFloatFactor" ==>
      r == if socketType in SocketTypes then Ok(socketType) else Err("ValueError")
    ensures r.Ok? ==> r.value in SocketTypes && r.value != "NodeSocketFloatFactor"
  {
    var t := if socketType == "NodeSocketFloatFactor" then "NodeSocketFloat" else socketType;
    if t in SocketTypes then Ok(t) else Err("ValueError")
  }

  /** A socket of a group interface. `defaultValue` is a scalar or a colour/vector; the
      range is only set on socket types that have one. */
  datatype Socket = Socket(name: string, socketType: string, defaultValue: Option<seq<real>>,
                           minValue: Option<real>, maxValue: Option<real>)

  /** The interface of a group tree: its input and output sockets in creation order, and
      its links. */
  class GroupTree {
    var inputs: seq<Socket>
    var outputs: seq<Socket>
    var links: seq<Link>

    constructor ()
      ensures inputs == [] && outputs == [] && links == []
    {
      inputs := [];
      outputs := [];
      links := [];
    }

    /** `add_input_socket`. `ranged` says whether Blender's socket of the checked type has
        `min_value` and `max_value`; the range is only written when it does. */
    method AddInputSocket(name: string, socketType: string, defaultValue: Option<seq<real>>,
                          minValue: Option<real>, maxValue: Option<real>, ranged: bool)
      returns (r: Result<Socket>)
      modifies this
      ensures outputs == old(outputs) && links == old(links)
      ensures CheckedSocketType(socketType).Err? ==> r == Err("ValueError") && inputs == old(inputs)
      ensures CheckedSocketType(socketType).Ok? ==>
        && r == Ok(Socket(name, CheckedSocketType(socketType).value, defaultValue,
                          if ranged then minValue else None, if ranged then maxValue else None))
        && inputs == old(inputs) + [r.value]
    {
      var checked := CheckedSocketType(socketType);
      if checked.Err? {
        return Err("ValueError");
      }
      var socket := Socket(name, checked.value, None, None, None);
      if defaultValue.Some? {
        socket := socket.(defaultValue := defaultValue);
      }
      if minValue.Some? && ranged {
        socket := socket.(minValue := minValue);
      }
      if maxValue.Some? && ranged {
        socket := socket.(maxValue := maxValue);
      }
      inputs := inputs + [socket];
      return Ok(socket);
    }

    /** `add_output_socket`: the same type check, and no range. */
    method AddOutputSocket(name: string, socketType: string, defaultValue: Option<seq<real>>)
      returns (r: Result<Socket>)
      modifies this
      ensures inputs == old(inputs) && links == old(links)
      ensures CheckedSocketType(socketType).Err? ==> r == Err("ValueError") && outputs == old(outputs)
      ensures CheckedSocketType(socketType).Ok? ==>
        && r == Ok(Socket(name, CheckedSocketType(socketType).value, defaultValue, None, None))
        && outputs == old(outputs) + [r.value]
    {
      var checked := CheckedSocketType(socketType);
      if checked.Err? {
        return Err("ValueError");
      }
      var socket := Socket(name, checked.value, defaultValue, None, None);
      outputs := outputs + [socket];
      return Ok(socket);
    }

    /** `create_link`: the output socket of `fromNode` and the input socket of `toNode` are
        found by `FindSocket`, after "Subsurface Color" is renamed to "Base Color"; the new
        link joins them, and a socket that cannot be found is a ValueError. */
    method CreateLink(fromNode: Node, fromSocket: string, toNode: Node, toSocket: string)
      returns (r: Result<Link>)
      modifies this
      ensures inputs == old(inputs) && outputs == old(outputs)
      ensures r == LinkFor(fromNode, fromSocket, toNode, toSocket)
      ensures links == if r.Ok? then old(links) + [r.value] else old(links)
    {
      var fsocket := FindSocket(fromNode.outputs, fromSocket);
      if fsocket.None? {
        return Err("ValueError");
      }
      var wanted := toSocket;
      if wanted == "Subsurface Color" {
        wanted := "Base Color";
      }
      var tsocket := FindSocket(toNode.inputs, wanted);
      if tsocket.None? {
        return Err("ValueError");
      }
      var link := Link(fromNode.name, fsocket.value, toNode.name, tsocket.value);
      links := links + [link];
      return Ok(link);
    }
  }

  // ---------------------------------------------------------------------------------------
  // Resolving the sockets of a link
  // ---------------------------------------------------------------------------------------

  /** A socket of a node as a link sees it: its display name and its unique identifier. */
  datatype SocketRef = SocketRef(name: string, identifier: string)

  /** A node: its name and its sockets in order. */
  datatype Node = Node(name: string, inputs: seq<SocketRef>, outputs: seq<SocketRef>)

  /** A link from an output socket to an input socket, each given by its node and its
      position among that node's sockets. */
  datatype Link = Link(fromNode: string, fromSocket: nat, toNode: string, toSocket: nat)

  predicate Matches(s: SocketRef, wanted: string, byIdentifier: bool) {
    if byIdentifier then s.identifier == wanted else s.name == wanted
  }

  /** The last socket that matches, as a loop without `break` leaves it. */
  function LastMatch(sockets: seq<SocketRef>, wanted: string, byIdentifier: bool): (r: Option<nat>)
    ensures r.Some? ==> r.value < |sockets| && Matches(sockets[r.value], wanted, byIdentifier)
    ensures r.Some? ==> forall j :: r.value < j < |sockets| ==> !Matches(sockets[j], wanted, byIdentifier)
    ensures r.None? <==> forall j :: 0 <= j < |sockets| ==> !Matches(sockets[j], wanted, byIdentifier)
    decreases |sockets|
  {
    if sockets == [] then None
    else if Matches(sockets[|sockets| - 1], wanted, byIdentifier) then Some(|sockets| - 1)
    else
      var r := LastMatch(sockets[..|sockets| - 1], wanted, byIdentifier);
      assert forall j :: 0 <= j < |sockets| - 1 ==> sockets[..|sockets| - 1][j] == sockets[j];
      r
  }

  /** The socket `create_link` settles on: the last one with that identifier, or else the
      last one with that name. */
  function Resolved(sockets: seq<SocketRef>, wanted: string): Option<nat> {
    var byId := LastMatch(sockets, wanted, true);
    if byId.Some? then byId else LastMatch(sockets, wanted, false)
  }

  /** An identifier match beats a name match; among several, the last wins; nothing is
      found only when neither an identifier nor a name matches. */
  lemma ResolvedChoice(sockets: seq<SocketRef>, wanted: string)
    ensures var r := Resolved(sockets, wanted);
      && (r.None? <==> forall j :: 0 <= j < |sockets| ==>
                         sockets[j].identifier != wanted && sockets[j].name != wanted)
      && ((exists j :: 0 <= j < |sockets| && sockets[j].identifier == wanted) ==>
            r.Some? && r.value < |sockets| && sockets[r.value].identifier == wanted
            && forall j :: r.value < j < |sockets| ==> sockets[j].identifier != wanted)
      && ((forall j :: 0 <= j < |sockets| ==> sockets[j].identifier != wanted) && r.Some? ==>
            r.value < |sockets| && sockets[r.value].name == wanted
            && forall j :: r.value < j < |sockets| ==> sockets[j].name != wanted)
  {
    var byId := LastMatch(sockets, wanted, true);
    var byName := LastMatch(sockets, wanted, false);
    if byId.None? && byName.Some? {
      assert Matches(sockets[byName.value], wanted, false);
    }
  }

  /** The two scans `create_link` runs over a node's sockets. */
  method FindSocket(sockets: seq<SocketRef>, wanted: string) returns (r: Option<nat>)
    ensures r == Resolved(sockets, wanted)
  {
    r := ScanSockets(sockets, wanted, true);
    if r.None? {
      r := ScanSockets(sockets, wanted, false);
    }
  }

  /** One scan: every socket is visited and the last match is remembered. */
  method ScanSockets(sockets: seq<SocketRef>, wanted: string, byIdentifier: bool) returns (r: Option<nat>)
    ensures r == LastMatch(sockets, wanted, byIdentifier)
  {
    r := None;
    for i := 0 to |sockets|
      invariant r == LastMatch(sockets[..i], wanted, byIdentifier)
    {
      assert sockets[..i + 1][..i] == sockets[..i];
      if Matches(sockets[i], wanted, byIdentifier) {
        r := Some(i);
      }
    }
    assert sockets[..|sockets|] == sockets;
  }

  /** The link `create_link` makes, or the ValueError it raises. */
  function LinkFor(fromNode: Node, fromSocket: string, toNode: Node, toSocket: string): Result<Link> {
    var wanted := if toSocket == "Subsurface Color" then "Base Color" else toSocket;
    var f := Resolved(fromNode.outputs, fromSocket);
    var t := Resolved(toNode.inputs, wanted);
    if f.None? || t.None? then Err("ValueError")
    else Ok(Link(fromNode.name, f.value, toNode.name, t.value))
  }

  /** A link made to "Subsurface Color" lands on "Base Color", and one that names no socket
      of either node fails. */
  lemma LinkToSubsurfaceColor(fromNode: Node, fromSocket: string, toNode: Node)
    ensures LinkFor(fromNode, fromSocket, toNode, "Subsurface Color")
            == LinkFor(fromNode, fromSocket, toNode, "Base Color")
    ensures LinkFor(fromNode, fromSocket, toNode, "Subsurface Color").Ok? ==>
      var t := LinkFor(fromNode, fromSocket, toNode, "Subsurface Color").value.toSocket;
      t < |toNode.inputs| && (toNode.inputs[t].identifier == "Base Color" || toNode.inputs[t].name == "Base Color")
  {
    ResolvedChoice(toNode.inputs, "Base Color");
  }
}
