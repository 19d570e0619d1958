/** The host-independent helpers of src/mpfb/services/materialservice.py: guessing what kind
    of material a node tree holds, numbering ink layers, reading an ink layer's UV map,
    splitting a library path and the static viewport colours. A material is modelled by the
    nodes of its node tree, in order, with the fields these helpers read. */
module MaterialService {
  import opened Wrappers
  import opened Text
  import opened Numbers

  /** A node of a material's node tree. `kind` is the Blender type name; `valueNames` are the
      keys of the values `NodeService.get_node_info` reports for it (an empty list is
      falsy); `uvMap` is a UV map node's map name; `image` names the image of an image
      texture node, None when it has none. */
  datatype ShaderNode = ShaderNode(name: string, kind: string, valueNames: seq<string>,
                                   uvMap: string, image: Option<string>)

  /** A material: None for no material, otherwise the nodes of its node tree. */
  type Material = Option<seq<ShaderNode>>

  // ---------------------------------------------------------------------------------------
  // identify_material
  // ---------------------------------------------------------------------------------------

  const Kinds: set<string> := {"empty", "enhanced_skin", "procedural_eyes", "layered_skin",
                               "makeskin", "gameengine", "unknown"}

  /** What a group node with values reveals about the material, the markers checked in
      order: "Pore detail", "IrisSection4Color", "NavelCenterOverride". */
  function Marker(n: ShaderNode): Option<string> {
    if n.kind != "ShaderNodeGroup" || n.valueNames == [] then None
    else if "Pore detail" in n.valueNames then Some("enhanced_skin")
    else if "IrisSection4Color" in n.valueNames then Some("procedural_eyes")
    else if "NavelCenterOverride" in n.valueNames then Some("layered_skin")
    else None
  }

  /** The scan over the nodes: the marker of the first marked node. */
  function FirstMarker(nodes: seq<ShaderNode>): (r: Option<string>)
    ensures r.None? <==> forall i :: 0 <= i < |nodes| ==> Marker(nodes[i]).None?
    ensures r.Some? ==> exists i :: 0 <= i < |nodes| && Marker(nodes[i]) == r &&
                          forall j :: 0 <= j < i ==> Marker(nodes[j]).None?
  {
    if nodes == [] then None
    else if Marker(nodes[0]).Some? then Marker(nodes[0])
    else
      var r := FirstMarker(nodes[1..]);
      assert forall i :: 1 <= i < |nodes| ==> nodes[i] == nodes[1..][i - 1];
      assert r.Some? ==> exists i :: 0 <= i < |nodes| && Marker(nodes[i]) == r &&
                           forall j :: 0 <= j < i ==> Marker(nodes[j]).None? by {
        if r.Some? {
          var i :| 0 <= i < |nodes[1..]| && Marker(nodes[1..][i]) == r &&
                   forall j :: 0 <= j < i ==> Marker(nodes[1..][j]).None?;
          assert Marker(nodes[i + 1]) == r;
        }
      }
      r
  }

  /** Some node of the tree has this name (`NodeService.find_node_by_name`). */
  predicate HasNodeNamed(nodes: seq<ShaderNode>, name: string) {
    exists i :: 0 <= i < |nodes| && nodes[i].name == name
  }

  /** `identify_material`. */
  function IdentifyMaterial(material: Material): (r: string)
    ensures r in Kinds
    ensures r == "empty" <==> material.None? || material.value == []
  {
    if material.None? || material.value == [] then "empty"
    else
      var marked := FirstMarker(material.value);
      if marked.Some? then
        assert marked.value in {"enhanced_skin", "procedural_eyes", "layered_skin"};
        marked.value
      else if HasNodeNamed(material.value, "diffuseIntensity") then "makeskin"
      else if HasNodeNamed(material.value, "Principled BSDF") then "gameengine"
      else "unknown"
  }

  /** The classification in both directions: procedural markers decide first, by the first
      marked node; the node names decide only when no group node is marked. */
  lemma IdentifyMaterialOrder(nodes: seq<ShaderNode>)
    requires nodes != []
    ensures var r := IdentifyMaterial(Some(nodes));
      && (r in {"enhanced_skin", "procedural_eyes", "layered_skin"} <==>
            exists i :: 0 <= i < |nodes| && Marker(nodes[i]) == Some(r)
                        && forall j :: 0 <= j < i ==> Marker(nodes[j]).None?)
      && (r == "makeskin" <==> (forall i :: 0 <= i < |nodes| ==> Marker(nodes[i]).None?)
                               && HasNodeNamed(nodes, "diffuseIntensity"))
      && (r == "gameengine" <==> (forall i :: 0 <= i < |nodes| ==> Marker(nodes[i]).None?)
                                 && !HasNodeNamed(nodes, "diffuseIntensity")
                                 && HasNodeNamed(nodes, "Principled BSDF"))
  {
    var r := IdentifyMaterial(Some(nodes));
    var marked := FirstMarker(nodes);
    if exists i :: 0 <= i < |nodes| && Marker(nodes[i]) == Some(r)
                   && forall j :: 0 <= j < i ==> Marker(nodes[j]).None? {
      var i :| 0 <= i < |nodes| && Marker(nodes[i]) == Some(r)
               && forall j :: 0 <= j < i ==> Marker(nodes[j]).None?;
      assert marked.Some?;
    }
  }

  /** The last guess: a non-empty tree with no marked group node and neither a
      "diffuseIntensity" nor a "Principled BSDF" node is unknown, and only such a tree. */
  lemma IdentifyMaterialUnknown(nodes: seq<ShaderNode>)
    requires nodes != []
    ensures IdentifyMaterial(Some(nodes)) == "unknown" <==>
              (forall i :: 0 <= i < |nodes| ==> Marker(nodes[i]).None?)
              && !HasNodeNamed(nodes, "diffuseIntensity") && !HasNodeNamed(nodes, "Principled BSDF")
  {
    var marked := FirstMarker(nodes);
    if marked.Some? {
      assert marked.value in {"enhanced_skin", "procedural_eyes", "layered_skin"};
    }
  }

  /** A skin node group with pore detail makes the material an enhanced skin whatever
      follows it. */
  lemma PoreDetailFirst(group: ShaderNode, rest: seq<ShaderNode>)
    requires group.kind == "ShaderNodeGroup" && "Pore detail" in group.valueNames
    ensures IdentifyMaterial(Some([group] + rest)) == "enhanced_skin"
  {
    assert ([group] + rest)[0] == group;
  }

  /** The material types that carry ink layers. */
  predicate Inkable(material: Material) {
    IdentifyMaterial(material) in {"makeskin", "layered_skin"}
  }

  // ---------------------------------------------------------------------------------------
  // Ink layers
  // ---------------------------------------------------------------------------------------

  /** `name.split("inkLayer")[1].split("tex")[0]` for a name that starts with "inkLayer":
      what follows the prefix, up to the next "inkLayer" and then up to the first "tex". */
  function LayerText(name: string): string
    requires StartsWith(name, "inkLayer")
  {
    var rest := name[8..];
    var part := rest[..Find(rest, "inkLayer")];
    part[..Find(part, "tex")]
  }

  /** An image texture node whose name starts with "inkLayer". */
  predicate IsInkNode(n: ShaderNode) {
    n.kind == "ShaderNodeTexImage" && StartsWith(n.name, "inkLayer")
  }

  /** The largest layer number among the ink nodes, starting from `top`; a number `int`
      rejects is a ValueError. */
  function MaxLayer(nodes: seq<ShaderNode>, top: int): Result<int>
    decreases |nodes|
  {
    if nodes == [] then Ok(top)
    else if !IsInkNode(nodes[0]) then MaxLayer(nodes[1..], top)
    else match ParseInt(LayerText(nodes[0].name))
      case None => Err("ValueError")
      case Some(n) => MaxLayer(nodes[1..], if n > top then n else top)
  }

  /** `get_number_of_ink_layers`. */
  function InkLayerCount(material: Material): Result<int> {
    if material.None? || !Inkable(material) then Err("ValueError")
    else MaxLayer(material.value, 0)
  }

  /** The accumulator loop of `get_number_of_ink_layers`. */
  method GetNumberOfInkLayers(material: Material) returns (r: Result<int>)
    ensures r == InkLayerCount(material)
  {
    if material.None? || !Inkable(material) {
      return Err("ValueError");
    }
    var nodes := material.value;
    var maxLayerNumber := 0;
    for i := 0 to |nodes|
      invariant MaxLayer(nodes[i..], maxLayerNumber) == MaxLayer(nodes, 0)
    {
      assert nodes[i..][1..] == nodes[i + 1..];
      if IsInkNode(nodes[i]) {
        var layerNumber := ParseInt(LayerText(nodes[i].name));
        if layerNumber.None? {
          return Err("ValueError");
        }
        if layerNumber.value > maxLayerNumber {
          maxLayerNumber := layerNumber.value;
        }
      }
    }
    return Ok(maxLayerNumber);
  }

  /** The name of the image node of ink layer `k`. */
  function InkTexName(k: int): string {
    "inkLayer" + IntToString(k) + "tex"
  }

  /** Every ink node is named "inkLayer<N>tex" for the layer number it carries. */
  predicate WellNamed(nodes: seq<ShaderNode>, layers: seq<nat>) {
    |layers| == |nodes| && forall i :: 0 <= i < |nodes| ==> IsInkNode(nodes[i]) ==> nodes[i].name == InkTexName(layers[i])
  }

  /** The text between the prefix and "tex" of a well-formed ink node name is its number. */
  lemma LayerTextOf(k: nat)
    ensures StartsWith(InkTexName(k), "inkLayer")
    ensures ParseInt(LayerText(InkTexName(k))) == Some(k)
  {
    var digits := IntToString(k);
    var name := InkTexName(k);
    assert name[..8] == "inkLayer";
    var rest := name[8..];
    assert rest == digits + "tex";
    assert Find(rest, "inkLayer") == |rest| by {
      NoFirstChar(rest, "inkLayer");
    }
    assert rest[..|rest|] == rest;
    DigitsThenTex(digits);
    assert rest[..|digits|] == digits;
    ParseIntOfString(k);
  }

  /** A pattern whose first character does not occur in the text does not occur in it. */
  lemma {:induction false} NoFirstChar(s: string, t: string)
    requires t != [] && forall k :: 0 <= k < |s| ==> s[k] != t[0]
    ensures Find(s, t) == |s|
    decreases |s|
  {
    if s != [] {
      assert !StartsWith(s, t) by {
        if |t| <= |s| {
          assert s[..|t|][0] == s[0];
        }
      }
      NoFirstChar(s[1..], t);
    }
  }

  /** In "<digits>tex" the first "tex" follows the digits. */
  lemma {:induction false} DigitsThenTex(digits: string)
    requires AllDigits(digits)
    ensures Find(digits + "tex", "tex") == |digits|
    decreases |digits|
  {
    var s := digits + "tex";
    if digits == [] {
      assert s[..3] == "tex";
    } else {
      assert !StartsWith(s, "tex") by {
        assert s[0] == digits[0];
      }
      assert s[1..] == digits[1..] + "tex";
      DigitsThenTex(digits[1..]);
    }
  }

  /** The largest of a sequence of layer numbers, or `top` if that is larger. */
  function MaxOf(nodes: seq<ShaderNode>, layers: seq<nat>, top: nat): nat
    requires |layers| == |nodes|
    decreases |nodes|
  {
    if nodes == [] then top
    else MaxOf(nodes[1..], layers[1..], if IsInkNode(nodes[0]) && layers[0] > top then layers[0] else top)
  }

  /** For well-named ink nodes the count is the largest layer number, 0 without ink nodes:
      no layer exceeds it, and it is 0 or the number of some ink node. */
  lemma {:induction false} MaxLayerOfWellNamed(nodes: seq<ShaderNode>, layers: seq<nat>, top: nat)
    requires WellNamed(nodes, layers)
    ensures MaxLayer(nodes, top) == Ok(MaxOf(nodes, layers, top) as int)
    ensures forall i :: 0 <= i < |nodes| && IsInkNode(nodes[i]) ==> layers[i] <= MaxOf(nodes, layers, top)
    ensures top <= MaxOf(nodes, layers, top)
    ensures MaxOf(nodes, layers, top) == top ||
            exists i :: 0 <= i < |nodes| && IsInkNode(nodes[i]) && layers[i] == MaxOf(nodes, layers, top)
    decreases |nodes|
  {
    if nodes != [] {
      var next := if IsInkNode(nodes[0]) && layers[0] > top then layers[0] else top;
      assert WellNamed(nodes[1..], layers[1..]) by {
        forall i | 0 <= i < |nodes[1..]| && IsInkNode(nodes[1..][i])
          ensures nodes[1..][i].name == InkTexName(layers[1..][i])
        {
          assert nodes[1..][i] == nodes[i + 1];
        }
      }
      if IsInkNode(nodes[0]) {
        LayerTextOf(layers[0]);
      }
      MaxLayerOfWellNamed(nodes[1..], layers[1..], next);
      var m := MaxOf(nodes, layers, top);
      forall i | 0 <= i < |nodes| && IsInkNode(nodes[i]) ensures layers[i] <= m {
        if i > 0 {
          assert nodes[1..][i - 1] == nodes[i] && layers[1..][i - 1] == layers[i];
        }
      }
      if m != next {
        var i :| 0 <= i < |nodes[1..]| && IsInkNode(nodes[1..][i]) && layers[1..][i] == m;
        assert IsInkNode(nodes[i + 1]) && layers[i + 1] == m;
      } else if next != top {
        assert IsInkNode(nodes[0]) && layers[0] == m;
      }
    }
  }

  /** `add_focus_nodes`: the id of the layer it adds, one more than the current count. The
      nodes it adds to the tree are Blender-side and not modelled. */
  function NextInkLayerId(material: Material): (r: Result<int>)
    ensures material.None? || !Inkable(material) ==> r == Err("ValueError")
    ensures InkLayerCount(material).Ok? ==> r == Ok(InkLayerCount(material).value + 1)
  {
    if material.None? then Err("ValueError")
    else if !Inkable(material) then Err("ValueError")
    else match InkLayerCount(material)
      case Err(e) => Err(e)
      case Ok(n) => Ok(n + 1)
  }

  /** On a well-named ink material the new layer id is above every existing layer and at
      least 1. */
  lemma NextIdIsFresh(nodes: seq<ShaderNode>, layers: seq<nat>)
    requires Inkable(Some(nodes)) && WellNamed(nodes, layers)
    ensures NextInkLayerId(Some(nodes)).Ok?
    ensures var id := NextInkLayerId(Some(nodes)).value;
      id >= 1 && forall i :: 0 <= i < |nodes| && IsInkNode(nodes[i]) ==> layers[i] < id
  {
    MaxLayerOfWellNamed(nodes, layers, 0);
  }

  /** The first node with a name, as `NodeService.find_node_by_name` finds it. */
  function FindNode(nodes: seq<ShaderNode>, name: string): (r: Option<ShaderNode>)
    ensures r.Some? ==> r.value in nodes && r.value.name == name
    ensures r.None? <==> !HasNodeNamed(nodes, name)
  {
    if nodes == [] then None
    else if nodes[0].name == name then Some(nodes[0])
    else
      var r := FindNode(nodes[1..], name);
      assert forall i :: 1 <= i < |nodes| ==> nodes[i] == nodes[1..][i - 1];
      r
  }

  /** `get_ink_layer_info`: the UV map name and image name of ink layer `inkLayer`; a map
      name containing "UV" is the base mesh's standard map and is reported as "". A missing
      material, a material without ink layers or a missing node is a ValueError; a texture
      node without an image is an AttributeError. */
  function InkLayerInfo(material: Material, inkLayer: int): (r: Result<(string, string)>)
    ensures r.Ok? ==> r.value.0 == [] || !Contains(r.value.0, "UV")
    ensures material.Some? && Inkable(material) && !HasNodeNamed(material.value, "inkLayer" + IntToString(inkLayer) + "tex")
            ==> r == Err("ValueError")
    ensures material.Some? && Inkable(material) && !HasNodeNamed(material.value, "inkLayer" + IntToString(inkLayer) + "uv")
            ==> r == Err("ValueError")
  {
    if material.None? || !Inkable(material) then Err("ValueError")
    else
      var tex := FindNode(material.value, "inkLayer" + IntToString(inkLayer) + "tex");
      var uv := FindNode(material.value, "inkLayer" + IntToString(inkLayer) + "uv");
      if tex.None? || uv.None? then Err("ValueError")
      else
        var uvName := if Contains(uv.value.uvMap, "UV") then "" else uv.value.uvMap;
        if tex.value.image.None? then Err("AttributeError")
        else Ok((uvName, tex.value.image.value))
  }

  /** A layer whose UV node names its own map reports that map; one naming a map with "UV"
      in it reports "". */
  lemma InkLayerUvName(material: Material, inkLayer: int)
    requires InkLayerInfo(material, inkLayer).Ok?
    ensures var uv := FindNode(material.value, "inkLayer" + IntToString(inkLayer) + "uv").value;
      InkLayerInfo(material, inkLayer).value.0 == if Contains(uv.uvMap, "UV") then "" else uv.uvMap
  {
  }

  // ---------------------------------------------------------------------------------------
  // as_blend_path
  // ---------------------------------------------------------------------------------------

  /** `as_blend_path`: `path.rsplit('/', 2)` unpacked into (blend file, directory in the
      blend, asset name), each stripped; fewer than two '/' leave too few parts to unpack,
      which is a ValueError. */
  function AsBlendPath(path: string): (r: Result<(string, string, string)>)
    ensures r.Err? <==> !exists i, j :: 0 <= i < j < |path| && path[i] == '/' && path[j] == '/'
    ensures r.Ok? ==> exists blend, dir, asset ::
      && path == blend + "/" + dir + "/" + asset
      && (forall k :: 0 <= k < |dir| ==> dir[k] != '/')
      && (forall k :: 0 <= k < |asset| ==> asset[k] != '/')
      && r.value == (Strip(blend), Strip(dir), Strip(asset))
  {
    var last := LastIndexOf(path, '/');
    if last == |path| then Err("ValueError")
    else
      var second := LastIndexOf(path[..last], '/');
      if second == last then
        assert forall k :: 0 <= k < last ==> path[k] != '/' by {
          forall k | 0 <= k < last ensures path[k] != '/' {
            assert path[..last][k] == path[k];
          }
        }
        Err("ValueError")
      else
        var blend, dir, asset := path[..second], path[second + 1..last], path[last + 1..];
        assert path == blend + "/" + dir + "/" + asset;
        assert forall k :: 0 <= k < |dir| ==> dir[k] == path[..last][second + 1 + k];
        assert path[second] == path[..last][second];
        Ok((Strip(blend), Strip(dir), Strip(asset)))
  }

  /** A library path "blend/dir/asset" with no '/' in the last two parts splits back into
      its stripped parts. */
  lemma AsBlendPathOf(blend: string, dir: string, asset: string)
    requires forall k :: 0 <= k < |dir| ==> dir[k] != '/'
    requires forall k :: 0 <= k < |asset| ==> asset[k] != '/'
    ensures AsBlendPath(blend + "/" + dir + "/" + asset) == Ok((Strip(blend), Strip(dir), Strip(asset)))
  {
    var path := blend + "/" + dir + "/" + asset;
    var last := |blend| + 1 + |dir|;
    assert path[last] == '/';
    assert forall k :: last < k < |path| ==> path[k] == asset[k - last - 1];
    assert LastIndexOf(path, '/') == last;
    var head := path[..last];
    assert head == blend + "/" + dir;
    assert head[|blend|] == '/';
    assert forall k :: |blend| < k < |head| ==> head[k] == dir[k - |blend| - 1];
    assert LastIndexOf(head, '/') == |blend|;
    assert path[..|blend|] == blend;
    assert path[|blend| + 1..last] == dir;
    assert path[last + 1..] == asset;
  }

  // ---------------------------------------------------------------------------------------
  // get_diffuse_colors
  // ---------------------------------------------------------------------------------------

  const SkinColor: seq<real> := [0.721, 0.568, 0.431, 1.0]
  const BodypartColor: seq<real> := [0.194, 0.030, 0.014, 1.0]
  const ClothesColor: seq<real> := [0.6, 0.6, 0.6, 1.0]
  const EyeColor: seq<real> := [0.95, 0.95, 0.95, 1.0]
  const TeethColor: seq<real> := [0.95, 0.95, 0.95, 1.0]

  const SkinRoles: set<string> := {"Proxymeshes", "Proxymesh", "Bodyproxy", "Basemesh"}
  const BodypartRoles: set<string> := {"Bodypart", "Eyebrows", "Eyelashes", "Hair", "Tongue"}

  /** An opaque RGBA colour with channels in [0, 1]. */
  predicate OpaqueColor(c: seq<real>) {
    |c| == 4 && c[3] == 1.0 && forall k :: 0 <= k < 3 ==> 0.0 <= c[k] <= 1.0
  }

  /** `get_diffuse_colors`: the viewport colour of every object role. */
  function DiffuseColors(): map<string, seq<real>> {
    map["Eyes" := EyeColor, "Teeth" := TeethColor, "Proxymeshes" := SkinColor,
        "Proxymesh" := SkinColor, "Bodyproxy" := SkinColor, "Basemesh" := SkinColor,
        "Clothes" := ClothesColor, "Bodypart" := BodypartColor, "Eyebrows" := BodypartColor,
        "Eyelashes" := BodypartColor, "Hair" := BodypartColor, "Tongue" := BodypartColor]
  }

  /** Every colour of the table is opaque. */
  lemma DiffuseColorsOpaque()
    ensures forall role :: role in DiffuseColors() ==> OpaqueColor(DiffuseColors()[role])
  {
    DiffuseColorRoles();
    DiffuseColorShared();
    DiffuseColorOwn();
    assert OpaqueColor(SkinColor) && OpaqueColor(BodypartColor) && OpaqueColor(ClothesColor);
    assert OpaqueColor(EyeColor) && OpaqueColor(TeethColor);
  }

  /** The table has exactly the twelve roles. */
  lemma DiffuseColorRoles()
    ensures DiffuseColors().Keys == SkinRoles + BodypartRoles + {"Eyes", "Teeth", "Clothes"}
  {
  }

  /** Skin-like roles share the skin colour and body parts share one colour. */
  lemma DiffuseColorShared()
    ensures forall role :: role in SkinRoles ==> DiffuseColors()[role] == SkinColor
    ensures forall role :: role in BodypartRoles ==> DiffuseColors()[role] == BodypartColor
  {
  }

  /** Eyes, teeth and clothes have colours of their own. */
  lemma DiffuseColorOwn()
    ensures DiffuseColors()["Eyes"] == EyeColor && DiffuseColors()["Teeth"] == TeethColor
    ensures DiffuseColors()["Clothes"] == ClothesColor
  {
  }
}
