/** The shape keys of a mesh seen as a stack of named weights
    (src/mpfb/services/targetservice.py): listing the targets, looking one up, setting its
    weight and pruning the ones that no longer contribute. The Blender key collection is
    modelled as a sequence of (name, value) records held by the object. */
module ShapeKeyStack {
  import opened Wrappers
  import opened Text
  import opened TargetNames

  /** A shape key: its name and its weight. */
  datatype ShapeKey = ShapeKey(name: string, value: real)

  /** A Blender object as these operations see it: its type and its shape keys in order, the
      first being the basis. An object without shape keys has none listed. */
  class BlenderObject {
    var objectType: string
    var keys: seq<ShapeKey>

    constructor (objectType: string, keys: seq<ShapeKey>)
      ensures this.objectType == objectType && this.keys == keys
    {
      this.objectType := objectType;
      this.keys := keys;
    }
  }

  // ---------------------------------------------------------------------------------------
  // get_target_stack
  // ---------------------------------------------------------------------------------------

  /** Whether `get_target_stack` leaves out a key: its lowercased name contains "basis",
      starts with the lowercased `excludeStartsWith` or ends with the lowercased
      `excludeEndsWith`. */
  predicate Excluded(name: string, excludeStartsWith: Option<string>, excludeEndsWith: Option<string>) {
    var n := Lower(name);
    || Contains(n, "basis")
    || (excludeStartsWith.Some? && StartsWith(n, Lower(excludeStartsWith.value)))
    || (excludeEndsWith.Some? && EndsWith(n, Lower(excludeEndsWith.value)))
  }

  /** The keys that are not excluded, in their order. */
  function Stack(keys: seq<ShapeKey>, sw: Option<string>, ew: Option<string>): (r: seq<ShapeKey>)
    ensures |r| <= |keys|
    decreases |keys|
  {
    if keys == [] then []
    else
      var last := keys[|keys| - 1];
      Stack(keys[..|keys| - 1], sw, ew) + (if Excluded(last.name, sw, ew) then [] else [last])
  }

  /** A key is on the stack exactly when it is a shape key of the object and not excluded. */
  lemma {:induction false} StackMembers(keys: seq<ShapeKey>, sw: Option<string>, ew: Option<string>)
    ensures forall k :: k in Stack(keys, sw, ew) <==> k in keys && !Excluded(k.name, sw, ew)
    decreases |keys|
  {
    if keys != [] {
      var init := keys[..|keys| - 1];
      StackMembers(init, sw, ew);
      assert keys == init + [keys[|keys| - 1]];
    }
  }

  /** Without a key named like the basis and without exclusions, the stack is every key. */
  lemma {:induction false} StackOfPlainKeys(keys: seq<ShapeKey>)
    requires forall i :: 0 <= i < |keys| ==> !Contains(Lower(keys[i].name), "basis")
    ensures Stack(keys, None, None) == keys
    decreases |keys|
  {
    if keys != [] {
      var init := keys[..|keys| - 1];
      StackOfPlainKeys(init);
      assert keys == init + [keys[|keys| - 1]];
    }
  }

  /** `get_target_stack`: ValueError unless the object is a mesh; otherwise the (name, value)
      of every key that is not excluded, in key order. */
  method GetTargetStack(obj: BlenderObject?, excludeStartsWith: Option<string>, excludeEndsWith: Option<string>)
    returns (r: Result<seq<ShapeKey>>)
    ensures obj == null || obj.objectType != "MESH" ==> r == Err("ValueError")
    ensures obj != null && obj.objectType == "MESH" ==> r == Ok(Stack(obj.keys, excludeStartsWith, excludeEndsWith))
  {
    if obj == null || obj.objectType != "MESH" {
      return Err("ValueError");
    }
    var keys := obj.keys;
    var stack: seq<ShapeKey> := [];
    for i := 0 to |keys|
      invariant stack == Stack(keys[..i], excludeStartsWith, excludeEndsWith)
    {
      assert keys[..i + 1][..i] == keys[..i];
      if !Excluded(keys[i].name, excludeStartsWith, excludeEndsWith) {
        stack := stack + [keys[i]];
      }
    }
    assert keys[..|keys|] == keys;
    return Ok(stack);
  }

  // ---------------------------------------------------------------------------------------
  // has_target and get_target_value
  // ---------------------------------------------------------------------------------------

  /** The scan of `has_target` over a stack: some entry is named `name`, or, when
      `alsoEncoded` is set, named `encoded`. */
  function Listed(stack: seq<ShapeKey>, name: string, encoded: string, alsoEncoded: bool): (r: bool)
    ensures r <==> exists i :: 0 <= i < |stack| &&
                     (stack[i].name == name || (alsoEncoded && stack[i].name == encoded))
    decreases |stack|
  {
    if stack == [] then false
    else if stack[0].name == name then true
    else if alsoEncoded && stack[0].name == encoded then true
    else
      var rest := Listed(stack[1..], name, encoded, alsoEncoded);
      assert forall i :: 1 <= i < |stack| ==> stack[i] == stack[1..][i - 1];
      rest
  }

  /** `has_target`: False for a missing object or an empty name, ValueError (from
      `get_target_stack`) for an object that is not a mesh. */
  function HasTarget(obj: BlenderObject?, targetName: string, alsoEncoded: bool): (r: Result<bool>)
    reads obj
    ensures obj == null || targetName == [] ==> r == Ok(false)
    ensures obj != null && targetName != [] && obj.objectType != "MESH" ==> r == Err("ValueError")
    ensures obj != null && targetName != [] && obj.objectType == "MESH" ==>
      r == Ok(Listed(Stack(obj.keys, None, None), targetName, Encode(targetName), alsoEncoded))
  {
    if obj == null || targetName == [] then Ok(false)
    else if obj.objectType != "MESH" then Err("ValueError")
    else
      var encoded := Encode(targetName);
      var stack := Stack(obj.keys, None, None);
      var found := Listed(stack, targetName, encoded, alsoEncoded);
      Ok(found)
  }

  /** `has_target` finds a name exactly when a shape key not named like the basis carries it
      (or, when asked, its encoding). */
  lemma ListedKeys(keys: seq<ShapeKey>, name: string, encoded: string, alsoEncoded: bool)
    ensures Listed(Stack(keys, None, None), name, encoded, alsoEncoded)
            <==> exists k :: k in keys && !Contains(Lower(k.name), "basis")
                             && (k.name == name || (alsoEncoded && k.name == encoded))
  {
    var stack := Stack(keys, None, None);
    StackMembers(keys, None, None);
    if Listed(stack, name, encoded, alsoEncoded) {
      var i :| 0 <= i < |stack| && (stack[i].name == name || (alsoEncoded && stack[i].name == encoded));
      assert stack[i] in stack;
    }
    if exists k :: k in keys && !Contains(Lower(k.name), "basis") && (k.name == name || (alsoEncoded && k.name == encoded)) {
      var k :| k in keys && !Contains(Lower(k.name), "basis") && (k.name == name || (alsoEncoded && k.name == encoded));
      assert k in stack;
      var i :| 0 <= i < |stack| && stack[i] == k;
    }
  }

  /** The scan of `get_target_value` over a stack: the value of the first entry named
      `name`, or 0.0 when there is none. */
  function FirstValue(stack: seq<ShapeKey>, name: string): (r: real)
    ensures (forall i :: 0 <= i < |stack| ==> stack[i].name != name) ==> r == 0.0
    ensures (exists i :: 0 <= i < |stack| && stack[i].name == name) ==>
      exists i :: 0 <= i < |stack| && stack[i].name == name && r == stack[i].value
                  && forall j :: 0 <= j < i ==> stack[j].name != name
    decreases |stack|
  {
    if stack == [] then 0.0
    else if stack[0].name == name then stack[0].value
    else
      var rest := FirstValue(stack[1..], name);
      assert forall i :: 1 <= i < |stack| ==> stack[i] == stack[1..][i - 1];
      rest
  }

  /** `get_target_value`: 0.0 for a missing object or an empty name, ValueError (from
      `get_target_stack`) for an object that is not a mesh. */
  function GetTargetValue(obj: BlenderObject?, targetName: string): (r: Result<real>)
    reads obj
    ensures obj == null || targetName == [] ==> r == Ok(0.0)
    ensures obj != null && targetName != [] && obj.objectType != "MESH" ==> r == Err("ValueError")
    ensures obj != null && targetName != [] && obj.objectType == "MESH" ==>
      r == Ok(FirstValue(Stack(obj.keys, None, None), targetName))
  {
    if obj == null || targetName == [] then Ok(0.0)
    else if obj.objectType != "MESH" then Err("ValueError")
    else Ok(FirstValue(Stack(obj.keys, None, None), targetName))
  }

  /** When every stack entry of that name holds `v` and there is one, the lookup is `v`. */
  lemma FirstValueOfUniform(stack: seq<ShapeKey>, name: string, v: real)
    requires exists k :: k in stack && k.name == name
    requires forall k :: k in stack && k.name == name ==> k.value == v
    ensures FirstValue(stack, name) == v
  {
    var k :| k in stack && k.name == name;
    var i :| 0 <= i < |stack| && stack[i] == k;
    assert stack[i].name == name;
  }

  // ---------------------------------------------------------------------------------------
  // set_target_value
  // ---------------------------------------------------------------------------------------

  /** The weight under which `set_target_value` removes the key when asked to. */
  const DeleteBelow: real := 0.0001

  /** The keys after `set_target_value`: every key named `name` takes the weight `value`, or is
      removed when the weight is below 0.0001 and removal was asked for. */
  function Assigned(keys: seq<ShapeKey>, name: string, value: real, delete: bool): (r: seq<ShapeKey>)
    ensures |r| <= |keys|
    decreases |keys|
  {
    if keys == [] then []
    else
      var last := keys[|keys| - 1];
      Assigned(keys[..|keys| - 1], name, value, delete)
      + (if last.name != name then [last]
         else if value < DeleteBelow && delete then []
         else [ShapeKey(name, value)])
  }

  /** Without removal, the keys keep their places and only those named `name` change, to the
      new weight. */
  lemma {:induction false} AssignedInPlace(keys: seq<ShapeKey>, name: string, value: real, delete: bool)
    requires !(value < DeleteBelow && delete)
    ensures |Assigned(keys, name, value, delete)| == |keys|
    ensures forall i :: 0 <= i < |keys| ==>
      Assigned(keys, name, value, delete)[i] == if keys[i].name == name then ShapeKey(name, value) else keys[i]
    decreases |keys|
  {
    if keys != [] {
      AssignedInPlace(keys[..|keys| - 1], name, value, delete);
    }
  }

  /** With removal of a weight below 0.0001, exactly the keys named `name` go. */
  lemma {:induction false} AssignedRemoves(keys: seq<ShapeKey>, name: string, value: real, delete: bool)
    requires value < DeleteBelow && delete
    ensures forall k :: k in Assigned(keys, name, value, delete) <==> k in keys && k.name != name
    decreases |keys|
  {
    if keys != [] {
      var init := keys[..|keys| - 1];
      AssignedRemoves(init, name, value, delete);
      assert keys == init + [keys[|keys| - 1]];
    }
  }

  /** `set_target_value`: ValueError for a missing object, an empty name or an object without
      shape keys; otherwise the keys become `Assigned`. */
  method SetTargetValue(obj: BlenderObject?, targetName: string, value: real, deleteTargetOnZero: bool)
    returns (r: Outcome)
    modifies obj
    ensures obj == null || targetName == [] ==> r == Failed("ValueError")
    ensures obj != null && targetName == [] ==> obj.keys == old(obj.keys)
    ensures obj != null && targetName != [] && old(obj.keys) == [] ==> r == Failed("ValueError") && obj.keys == []
    ensures obj != null && targetName != [] && old(obj.keys) != [] ==>
      r == Done && obj.keys == Assigned(old(obj.keys), targetName, value, deleteTargetOnZero)
    ensures obj != null ==> obj.objectType == old(obj.objectType)
  {
    if obj == null || targetName == [] {
      return Failed("ValueError");
    }
    var keys := obj.keys;
    if |keys| < 1 {
      return Failed("ValueError");
    }
    var result: seq<ShapeKey> := [];
    for i := 0 to |keys|
      invariant result == Assigned(keys[..i], targetName, value, deleteTargetOnZero)
    {
      assert keys[..i + 1][..i] == keys[..i];
      var shapeKey := keys[i];
      if shapeKey.name == targetName {
        if !(value < DeleteBelow && deleteTargetOnZero) {
          result := result + [ShapeKey(targetName, value)];
        }
      } else {
        result := result + [shapeKey];
      }
    }
    assert keys[..|keys|] == keys;
    obj.keys := result;
    return Done;
  }

  /** Reading a weight back after setting it gives the weight set, when the key exists, is
      not named like the basis and was not removed. */
  lemma SetThenGet(keys: seq<ShapeKey>, name: string, value: real, delete: bool)
    requires exists k :: k in keys && k.name == name
    requires !Contains(Lower(name), "basis")
    requires !(value < DeleteBelow && delete)
    ensures FirstValue(Stack(Assigned(keys, name, value, delete), None, None), name) == value
  {
    var after := Assigned(keys, name, value, delete);
    AssignedUniform(keys, name, value, delete);
    StackMembers(after, None, None);
    FirstValueOfUniform(Stack(after, None, None), name, value);
  }

  /** Without removal, a key of that name exists after setting and all of them hold `value`. */
  lemma AssignedUniform(keys: seq<ShapeKey>, name: string, value: real, delete: bool)
    requires exists k :: k in keys && k.name == name
    requires !(value < DeleteBelow && delete)
    ensures ShapeKey(name, value) in Assigned(keys, name, value, delete)
    ensures forall e :: e in Assigned(keys, name, value, delete) && e.name == name ==> e.value == value
  {
    var after := Assigned(keys, name, value, delete);
    AssignedInPlace(keys, name, value, delete);
    var k :| k in keys && k.name == name;
    var i :| 0 <= i < |keys| && keys[i] == k;
    assert after[i] == ShapeKey(name, value);
    forall e | e in after && e.name == name
      ensures e.value == value
    {
      var j :| 0 <= j < |after| && after[j] == e;
    }
  }

  /** After removal the name is gone from the stack, so the weight reads as 0.0. */
  lemma RemovedReadsZero(keys: seq<ShapeKey>, name: string, value: real)
    requires value < DeleteBelow
    ensures FirstValue(Stack(Assigned(keys, name, value, true), None, None), name) == 0.0
  {
    var stack := Stack(Assigned(keys, name, value, true), None, None);
    AssignedRemoves(keys, name, value, true);
    StackMembers(Assigned(keys, name, value, true), None, None);
    assert forall i :: 0 <= i < |stack| ==> stack[i] in stack;
  }

  // ---------------------------------------------------------------------------------------
  // prune_shapekeys
  // ---------------------------------------------------------------------------------------

  /** A key `prune_shapekeys` removes: a target whose weight is below the cutoff. */
  predicate Prunable(k: ShapeKey, cutoff: real, oddNames: seq<string>) {
    k.value < cutoff && ShapekeyIsTarget(k.name, oddNames)
  }

  /** The keys after pruning: the first key (the basis) always stays, every later key stays
      unless it is prunable. */
  function Pruned(keys: seq<ShapeKey>, cutoff: real, oddNames: seq<string>): (r: seq<ShapeKey>)
    ensures |r| <= |keys|
    ensures keys != [] ==> r != [] && r[0] == keys[0]
    decreases |keys|
  {
    if |keys| <= 1 then keys
    else
      var last := keys[|keys| - 1];
      Pruned(keys[..|keys| - 1], cutoff, oddNames) + (if Prunable(last, cutoff, oddNames) then [] else [last])
  }

  /** Nothing after the basis that remains is prunable, and every non-prunable key remains. */
  lemma {:induction false} PrunedMembers(keys: seq<ShapeKey>, cutoff: real, oddNames: seq<string>)
    requires keys != []
    ensures forall i :: 1 <= i < |Pruned(keys, cutoff, oddNames)| ==>
      !Prunable(Pruned(keys, cutoff, oddNames)[i], cutoff, oddNames)
    ensures forall k :: k in keys[1..] && !Prunable(k, cutoff, oddNames) ==> k in Pruned(keys, cutoff, oddNames)
    ensures forall k :: k in Pruned(keys, cutoff, oddNames) ==> k in keys
    decreases |keys|
  {
    if |keys| > 1 {
      var init := keys[..|keys| - 1];
      PrunedMembers(init, cutoff, oddNames);
      assert keys == init + [keys[|keys| - 1]];
      assert keys[1..] == init[1..] + [keys[|keys| - 1]];
    }
  }

  /** Appending a key that is not prunable appends it to the pruned list. */
  lemma PrunedKeepsLast(init: seq<ShapeKey>, last: ShapeKey, cutoff: real, oddNames: seq<string>)
    requires init != [] && !Prunable(last, cutoff, oddNames)
    ensures Pruned(init + [last], cutoff, oddNames) == Pruned(init, cutoff, oddNames) + [last]
  {
    assert (init + [last])[..|init|] == init;
  }

  /** A key list with nothing prunable after its basis is left as it is. */
  lemma {:induction false} PrunedFixed(keys: seq<ShapeKey>, cutoff: real, oddNames: seq<string>)
    requires forall i :: 1 <= i < |keys| ==> !Prunable(keys[i], cutoff, oddNames)
    ensures Pruned(keys, cutoff, oddNames) == keys
    decreases |keys|
  {
    if |keys| > 1 {
      var init, last := keys[..|keys| - 1], keys[|keys| - 1];
      assert keys == init + [last];
      PrunedFixed(init, cutoff, oddNames);
      PrunedKeepsLast(init, last, cutoff, oddNames);
    }
  }

  /** Pruning twice with the same cutoff removes nothing more. */
  lemma PruneIdempotent(keys: seq<ShapeKey>, cutoff: real, oddNames: seq<string>)
    ensures Pruned(Pruned(keys, cutoff, oddNames), cutoff, oddNames) == Pruned(keys, cutoff, oddNames)
  {
    if keys != [] {
      PrunedMembers(keys, cutoff, oddNames);
      PrunedFixed(Pruned(keys, cutoff, oddNames), cutoff, oddNames);
    }
  }

  /** `prune_shapekeys`: skipping the first key, removes every target key whose weight is
      below the cutoff. `oddNames` is the list of odd target names `shapekey_is_target`
      consults. */
  method PruneShapekeys(obj: BlenderObject, cutoff: real, oddNames: seq<string>)
    modifies obj
    ensures obj.keys == Pruned(old(obj.keys), cutoff, oddNames)
    ensures obj.objectType == old(obj.objectType)
  {
    var keys := obj.keys;
    if |keys| < 1 {
      return;
    }
    var kept: seq<ShapeKey> := [];
    var skip := true;
    for i := 0 to |keys|
      invariant skip <==> i == 0
      invariant kept == Pruned(keys[..i], cutoff, oddNames)
    {
      assert keys[..i + 1][..i] == keys[..i];
      var shapeKey := keys[i];
      if skip || !(shapeKey.value < cutoff && ShapekeyIsTarget(shapeKey.name, oddNames)) {
        kept := kept + [shapeKey];
      }
      skip := false;
    }
    assert keys[..|keys|] == keys;
    obj.keys := kept;
  }
}
