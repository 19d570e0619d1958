/** Coordinates of shape keys (src/mpfb/services/targetservice.py): applying a parsed target to
    the basis coordinates, reading the mirror table of the base mesh, and copying one side of
    a shape key onto the other with X negated. */
module ShapeKeyCoords {
  import opened Wrappers
  import opened Text
  import opened Numbers
  import opened TargetFile

  /** Python's reading of index `i` into a sequence of length `n`: a negative index counts
      from the end; None where Python raises IndexError. */
  function PyIndex(i: int, n: nat): (r: Option<nat>)
    ensures r.Some? <==> 0 <= i + n && i < n
    ensures r.Some? ==> r.value < n && (r.value == i || r.value == i + n)
  {
    if 0 <= i < n then Some(i) else if 0 <= i + n && i < 0 then Some(i + n) else None
  }

  // ---------------------------------------------------------------------------------------
  // Applying a target to the basis
  // ---------------------------------------------------------------------------------------

  /** The scale `_set_shape_key_coords_from_dict` uses: the one passed in, else the object's
      stored "scale_factor", unless that is missing, zero or below 0.0001, when it is 1. */
  function EffectiveScale(given: Option<real>, stored: Option<real>): (s: real)
    ensures given.Some? ==> s == given.value
    ensures given.None? ==> s >= 0.0001
    ensures given.None? && stored.Some? && stored.value >= 0.0001 ==> s == stored.value
  {
    if given.Some? then given.value
    else if stored.None? || stored.value == 0.0 || stored.value < 0.0001 then 1.0
    else stored.value
  }

  /** Coordinate `c` (0 for x, 1 for y, 2 for z) of an offset. */
  function Coord(v: Offset, c: nat): real {
    if c == 0 then v.x else if c == 1 then v.y else v.z
  }

  /** The buffer after one vertex's offset is added to the three slots from `b` on. */
  function Shifted(buf: seq<real>, b: nat, v: Offset, scale: real): (r: seq<real>)
    requires b + 2 < |buf|
    ensures |r| == |buf|
  {
    buf[b := buf[b] + v.x * scale][b + 1 := buf[b + 1] + v.y * scale][b + 2 := buf[b + 2] + v.z * scale]
  }

  /** Only the three slots of the vertex change, each by its scaled coordinate. */
  lemma ShiftedSlot(buf: seq<real>, b: nat, v: Offset, scale: real, j: nat)
    requires b + 2 < |buf| && j < |buf|
    ensures Shifted(buf, b, v, scale)[j] == if b <= j < b + 3 then buf[j] + Coord(v, j - b) * scale else buf[j]
  {
  }

  /** One vertex of the update loop of `_set_shape_key_coords_from_dict` on a buffer of
      3 * n coordinates: the buffer is left alone when 3 * index is at or past its end, a
      negative 3 * index counts from the end, and one below minus the length raises
      IndexError (None). */
  function Moved(buf: seq<real>, n: nat, v: Offset, scale: real): (r: Option<seq<real>>)
    requires |buf| == 3 * n
    ensures r.None? <==> v.index + n < 0
    ensures r.Some? ==> |r.value| == |buf|
    ensures v.index >= n ==> r == Some(buf)
  {
    var base := 3 * v.index;
    if base >= |buf| then Some(buf)
    else if base < -|buf| then None
    else Some(Shifted(buf, if base < 0 then base + |buf| else base, v, scale))
  }

  /** The update loop of `_set_shape_key_coords_from_dict`: the vertices in order, stopping
      at the first that raises. */
  function ApplyOffsets(buf: seq<real>, n: nat, vs: seq<Offset>, scale: real): (r: Result<seq<real>>)
    requires |buf| == 3 * n
    ensures r.Ok? ==> |r.value| == |buf|
    decreases |vs|
  {
    if vs == [] then Ok(buf)
    else
      var next := Moved(buf, n, vs[0], scale);
      if next.None? then Err("IndexError") else ApplyOffsets(next.value, n, vs[1..], scale)
  }

  /** What the listed offsets add, scaled, to coordinate `c` of vertex `m`: every offset whose
      index Python resolves to `m` contributes. */
  function Added(vs: seq<Offset>, m: nat, c: nat, n: nat, scale: real): real
    decreases |vs|
  {
    if vs == [] then 0.0
    else Contribution(vs[0], m, c, n, scale) + Added(vs[1..], m, c, n, scale)
  }

  /** What one offset adds, scaled, to coordinate `c` of vertex `m`: its coordinate when
      Python resolves its index to `m`, else nothing. */
  function Contribution(v: Offset, m: nat, c: nat, n: nat, scale: real): real {
    if PyIndex(v.index, n) == Some(m) then Coord(v, c) * scale else 0.0
  }

  /** The update raises exactly when some listed index is below minus the vertex count. */
  lemma {:induction false} ApplyOffsetsRaises(buf: seq<real>, n: nat, vs: seq<Offset>, scale: real)
    requires |buf| == 3 * n
    ensures ApplyOffsets(buf, n, vs, scale).Err? <==> exists k :: 0 <= k < |vs| && vs[k].index + n < 0
    decreases |vs|
  {
    if vs != [] {
      var next := Moved(buf, n, vs[0], scale);
      if next.Some? {
        ApplyOffsetsRaises(next.value, n, vs[1..], scale);
      }
      BelowCons(vs, n);
    }
  }

  lemma BelowCons(vs: seq<Offset>, n: nat)
    requires vs != []
    ensures (exists k :: 0 <= k < |vs| && vs[k].index + n < 0)
            <==> vs[0].index + n < 0 || exists k :: 0 <= k < |vs[1..]| && vs[1..][k].index + n < 0
  {
    if exists k :: 0 <= k < |vs| && vs[k].index + n < 0 {
      var k :| 0 <= k < |vs| && vs[k].index + n < 0;
      if k > 0 {
        assert vs[1..][k - 1] == vs[k];
      }
    }
    if exists k :: 0 <= k < |vs[1..]| && vs[1..][k].index + n < 0 {
      var k :| 0 <= k < |vs[1..]| && vs[1..][k].index + n < 0;
      assert vs[k + 1] == vs[1..][k];
    }
  }

  /** When the update does not raise, every coordinate ends up as its basis value plus what
      the offsets that land on its vertex add; offsets with an index at or past the vertex
      count are skipped. */
  lemma {:induction false} ApplyOffsetsSlots(buf: seq<real>, n: nat, vs: seq<Offset>, scale: real)
    requires |buf| == 3 * n
    ensures ApplyOffsets(buf, n, vs, scale).Ok? ==>
      forall j :: 0 <= j < |buf| ==>
        ApplyOffsets(buf, n, vs, scale).value[j] == buf[j] + Added(vs, j / 3, j % 3, n, scale)
    decreases |vs|
  {
    if vs != [] && ApplyOffsets(buf, n, vs, scale).Ok? {
      var next := Moved(buf, n, vs[0], scale).value;
      ApplyOffsetsSlots(next, n, vs[1..], scale);
      SlotsCons(buf, next, ApplyOffsets(buf, n, vs, scale).value, vs, n, scale);
    }
  }

  /** Every slot's step: what the rest of the offsets add on top of the first one's shift. */
  lemma SlotsCons(buf: seq<real>, next: seq<real>, out: seq<real>, vs: seq<Offset>, n: nat, scale: real)
    requires |buf| == 3 * n && vs != [] && |out| == |buf|
    requires Moved(buf, n, vs[0], scale) == Some(next)
    requires forall j :: 0 <= j < |buf| ==> out[j] == next[j] + Added(vs[1..], j / 3, j % 3, n, scale)
    ensures forall j :: 0 <= j < |buf| ==> out[j] == buf[j] + Added(vs, j / 3, j % 3, n, scale)
  {
    forall j | 0 <= j < |buf|
      ensures out[j] == buf[j] + Added(vs, j / 3, j % 3, n, scale)
    {
      SlotCons(buf, next, vs, j, n, scale);
    }
  }

  lemma SlotCons(buf: seq<real>, next: seq<real>, vs: seq<Offset>, j: nat, n: nat, scale: real)
    requires |buf| == 3 * n && vs != [] && j < |buf|
    requires Moved(buf, n, vs[0], scale) == Some(next)
    ensures next[j] + Added(vs[1..], j / 3, j % 3, n, scale) == buf[j] + Added(vs, j / 3, j % 3, n, scale)
  {
    SlotOfVertex(vs[0], j, n, scale, buf, next);
  }

  /** One vertex's step in slot terms: the slot `j` grows by the vertex's scaled coordinate
      exactly when Python resolves its index to the vertex of `j`. */
  lemma SlotOfVertex(v: Offset, j: nat, n: nat, scale: real, buf: seq<real>, next: seq<real>)
    requires |buf| == 3 * n && j < |buf|
    requires Moved(buf, n, v, scale) == Some(next)
    ensures next[j] == buf[j] + Contribution(v, j / 3, j % 3, n, scale)
  {
    if v.index < n {
      var m := PyIndex(v.index, n).value;
      assert 3 * m == if v.index < 0 then 3 * v.index + |buf| else 3 * v.index;
      assert 3 * m <= j < 3 * m + 3 <==> j / 3 == m;
      assert 3 * m <= j < 3 * m + 3 ==> j - 3 * m == j % 3;
      ShiftedSlot(buf, 3 * m, v, scale, j);
    }
  }

  /** Adds one vertex's scaled offset to the three coordinates from `b` on, in place. */
  method AddOffset(buffer: array<real>, b: nat, v: Offset, scale: real)
    requires b + 2 < buffer.Length
    modifies buffer
    ensures buffer[..] == Shifted(old(buffer[..]), b, v, scale)
  {
    buffer[b] := buffer[b] + v.x * scale;
    buffer[b + 1] := buffer[b + 1] + v.y * scale;
    buffer[b + 2] := buffer[b + 2] + v.z * scale;
    forall j | 0 <= j < buffer.Length
      ensures buffer[j] == Shifted(old(buffer[..]), b, v, scale)[j]
    {
      ShiftedSlot(old(buffer[..]), b, v, scale, j);
    }
  }

  /** `_set_shape_key_coords_from_dict`: a copy of the basis coordinates, updated in place by
      the target's offsets. `basis` is None when the shape key has no relative key, and
      `vertexCount` is the number of vertices of the shape key. */
  method SetShapeKeyCoordsFromDict(basis: Option<seq<real>>, vertexCount: nat, vertices: seq<Offset>,
                                   scaleFactor: Option<real>, storedScale: Option<real>)
    returns (r: Result<array<real>>)
    requires basis.Some? ==> |basis.value| == 3 * vertexCount
    ensures basis.None? ==> r == Err("ValueError")
    ensures basis.Some? ==>
      var expected := ApplyOffsets(basis.value, vertexCount, vertices, EffectiveScale(scaleFactor, storedScale));
      (expected.Err? ==> r == Err(expected.error))
      && (expected.Ok? ==> r.Ok? && fresh(r.value) && r.value[..] == expected.value)
  {
    var scale := EffectiveScale(scaleFactor, storedScale);
    if basis.None? {
      return Err("ValueError");
    }
    var buffer := new real[3 * vertexCount];
    forall j | 0 <= j < buffer.Length {
      buffer[j] := basis.value[j];
    }
    assert buffer[..] == basis.value;
    var applied := ApplyOffsetsInPlace(buffer, vertexCount, vertices, scale);
    if applied.Failed? {
      return Err(applied.error);
    }
    return Ok(buffer);
  }

  /** The update loop of `_set_shape_key_coords_from_dict` on the buffer, in place. */
  method ApplyOffsetsInPlace(buffer: array<real>, n: nat, vertices: seq<Offset>, scale: real)
    returns (r: Outcome)
    requires buffer.Length == 3 * n
    modifies buffer
    ensures ApplyOffsets(old(buffer[..]), n, vertices, scale).Err? ==>
      r == Failed(ApplyOffsets(old(buffer[..]), n, vertices, scale).error)
    ensures ApplyOffsets(old(buffer[..]), n, vertices, scale).Ok? ==>
      r == Done && buffer[..] == ApplyOffsets(old(buffer[..]), n, vertices, scale).value
  {
    for k := 0 to |vertices|
      invariant ApplyOffsets(buffer[..], n, vertices[k..], scale) == ApplyOffsets(old(buffer[..]), n, vertices, scale)
    {
      assert vertices[k..][1..] == vertices[k + 1..] && vertices[k..][0] == vertices[k];
      var v := vertices[k];
      var base := 3 * v.index;
      if base < buffer.Length {
        if v.index + n < 0 {
          return Failed("IndexError");
        }
        var b := if v.index < 0 then base + buffer.Length else base;
        AddOffset(buffer, b, v, scale);
      }
    }
    assert vertices[|vertices|..] == [];
    return Done;
  }

  // ---------------------------------------------------------------------------------------
  // The mirror table
  // ---------------------------------------------------------------------------------------

  /** One line of the mirror table read as "from to side": IndexError when it has too few
      fields, ValueError when a number does not parse, in the order Python meets them.
      The first three fields of the split at every space are those of `split(" ", 3)`. */
  function MirrorEntry(line: string): Result<(int, int, string)> {
    var parts := Split(line, ' ');
    var f := ParseInt(parts[0]);
    if f.None? then Err("ValueError")
    else if |parts| < 2 then Err("IndexError")
    else
      var t := ParseInt(parts[1]);
      if t.None? then Err("ValueError")
      else if |parts| < 3 then Err("IndexError")
      else Ok((f.value, t.value, parts[2]))
  }

  /** The loop of `_load_mirror_table` from the lists built so far: blank lines are skipped,
      side "l" appends to the left list, side "r" to the right one, any other side is
      ignored; a line that raises ends the loop with the lists as they are. */
  function ReadMirror(lines: seq<string>, left: seq<(int, int)>, right: seq<(int, int)>)
    : (r: (seq<(int, int)>, seq<(int, int)>, Outcome))
    decreases |lines|
  {
    if lines == [] then (left, right, Done)
    else if lines[0] == [] then ReadMirror(lines[1..], left, right)
    else match MirrorEntry(lines[0])
      case Err(e) => (left, right, Failed(e))
      case Ok((f, t, side)) =>
        ReadMirror(lines[1..], if side == "l" then left + [(f, t)] else left,
                   if side == "r" then right + [(f, t)] else right)
  }

  /** The cache after `_load_mirror_table`: untouched once both lists exist, otherwise both
      lists are read afresh from the text. */
  function Loaded(left: Option<seq<(int, int)>>, right: Option<seq<(int, int)>>, text: string)
    : (Option<seq<(int, int)>>, Option<seq<(int, int)>>, Outcome)
  {
    if left.Some? && right.Some? then (left, right, Done)
    else
      var (l, r, o) := ReadMirror(SplitLines(text), [], []);
      (Some(l), Some(r), o)
  }

  /** `_MIRROR_LEFT` and `_MIRROR_RIGHT`, the module's cache of the mirror table. */
  class MirrorTable {
    var left: Option<seq<(int, int)>>
    var right: Option<seq<(int, int)>>

    constructor ()
      ensures left == None && right == None
    {
      left, right := None, None;
    }

    /** `_load_mirror_table`, with the text of the mirror file passed in. A line that raises
        leaves both lists as far as they were read, and later calls keep them. */
    method Load(text: string) returns (r: Outcome)
      modifies this
      ensures (left, right, r) == Loaded(old(left), old(right), text)
    {
      if left.Some? && right.Some? {
        return Done;
      }
      var l: seq<(int, int)> := [];
      var rt: seq<(int, int)> := [];
      left, right := Some(l), Some(rt);
      var lines := SplitLines(text);
      for k := 0 to |lines|
        invariant left == Some(l) && right == Some(rt)
        invariant ReadMirror(lines[k..], l, rt) == ReadMirror(lines, [], [])
      {
        assert lines[k..][1..] == lines[k + 1..];
        var line := lines[k];
        if line != [] {
          var entry := MirrorEntry(line);
          if entry.Err? {
            return Failed(entry.error);
          }
          var (f, t, side) := entry.value;
          if side == "l" {
            l := l + [(f, t)];
          }
          if side == "r" {
            rt := rt + [(f, t)];
          }
          left, right := Some(l), Some(rt);
        }
      }
      return Done;
    }
  }

  /** A mirror-table entry as the file writes it. */
  datatype MirrorRow = MirrorRow(from: int, to: int, side: string)

  function MirrorLine(e: MirrorRow): string {
    JoinSpace(IntToString(e.from), JoinSpace(IntToString(e.to), e.side))
  }

  function MirrorLines(es: seq<MirrorRow>): (r: seq<string>)
    ensures |r| == |es|
    ensures forall k :: 0 <= k < |es| ==> r[k] == MirrorLine(es[k])
  {
    if es == [] then [] else [MirrorLine(es[0])] + MirrorLines(es[1..])
  }

  /** The (from, to) pairs of the entries on one side, in file order. */
  function Side(es: seq<MirrorRow>, side: string): seq<(int, int)> {
    if es == [] then []
    else (if es[0].side == side then [(es[0].from, es[0].to)] else []) + Side(es[1..], side)
  }

  /** A side written as one word. */
  predicate Word(s: string) {
    NoLineBreak(s) && forall k :: 0 <= k < |s| ==> s[k] != ' '
  }

  /** Reading a mirror table written one entry per line yields the entries marked "l" as the
      left list and those marked "r" as the right list, in file order; other sides are
      dropped. */
  lemma ReadMirrorText(es: seq<MirrorRow>)
    requires forall k :: 0 <= k < |es| ==> Word(es[k].side)
    ensures ReadMirror(SplitLines(Unlines(MirrorLines(es))), [], [])
            == (Side(es, "l"), Side(es, "r"), Done)
  {
    var lines := MirrorLines(es);
    forall k | 0 <= k < |lines|
      ensures NoLineBreak(lines[k])
    {
      MirrorLineShape(es[k]);
    }
    SplitLinesOfUnlines(lines);
    ReadMirrorLines(es, [], []);
    assert [] + Side(es, "l") == Side(es, "l") && [] + Side(es, "r") == Side(es, "r");
  }

  lemma {:induction false} ReadMirrorLines(es: seq<MirrorRow>, left: seq<(int, int)>, right: seq<(int, int)>)
    requires forall k :: 0 <= k < |es| ==> Word(es[k].side)
    ensures ReadMirror(MirrorLines(es), left, right)
            == (left + Side(es, "l"), right + Side(es, "r"), Done)
    decreases |es|
  {
    if es == [] {
      assert left + [] == left && right + [] == right;
    } else {
      var e := es[0];
      MirrorLineShape(e);
      MirrorEntryOf(e);
      assert MirrorLines(es) == [MirrorLine(e)] + MirrorLines(es[1..]);
      var l := if e.side == "l" then left + [(e.from, e.to)] else left;
      var r := if e.side == "r" then right + [(e.from, e.to)] else right;
      ReadMirrorCons(MirrorLine(e), MirrorLines(es[1..]), left, right, e);
      ReadMirrorLines(es[1..], l, r);
      SideCons(es, "l", left);
      SideCons(es, "r", right);
    }
  }

  lemma ReadMirrorCons(line: string, rest: seq<string>, left: seq<(int, int)>, right: seq<(int, int)>,
                       e: MirrorRow)
    requires line != [] && MirrorEntry(line) == Ok((e.from, e.to, e.side))
    ensures ReadMirror([line] + rest, left, right)
            == ReadMirror(rest, if e.side == "l" then left + [(e.from, e.to)] else left,
                          if e.side == "r" then right + [(e.from, e.to)] else right)
  {
    assert ([line] + rest)[1..] == rest;
  }

  lemma SideCons(es: seq<MirrorRow>, side: string, acc: seq<(int, int)>)
    requires es != []
    ensures (if es[0].side == side then acc + [(es[0].from, es[0].to)] else acc) + Side(es[1..], side)
            == acc + Side(es, side)
  {
  }

  lemma MirrorLineShape(e: MirrorRow)
    requires Word(e.side)
    ensures MirrorLine(e) != [] && NoLineBreak(MirrorLine(e))
  {
    var f := IntToString(e.from);
    var t := IntToString(e.to);
    NoLineBreakAppend(f, " ");
    NoLineBreakAppend(t, " ");
    NoLineBreakAppend(t + " ", e.side);
    NoLineBreakAppend(f + " ", JoinSpace(t, e.side));
  }

  lemma MirrorEntryOf(e: MirrorRow)
    requires Word(e.side)
    ensures MirrorEntry(MirrorLine(e)) == Ok((e.from, e.to, e.side))
  {
    var f := IntToString(e.from);
    var t := IntToString(e.to);
    IntTextHasNoSpace(e.from);
    IntTextHasNoSpace(e.to);
    SplitThree(f, t, e.side);
    ParseIntOfString(e.from);
    ParseIntOfString(e.to);
  }

  lemma IntTextHasNoSpace(i: int)
    ensures forall k :: 0 <= k < |IntToString(i)| ==> IntToString(i)[k] != ' '
  {
    var s := IntToString(i);
    forall k | 0 <= k < |s|
      ensures s[k] != ' '
    {
      if k > 0 {
        assert s[1..][k - 1] == s[k];
      }
    }
  }

  // ---------------------------------------------------------------------------------------
  // Symmetrisation
  // ---------------------------------------------------------------------------------------

  /** A vertex coordinate of a shape key. */
  datatype Vec3 = Vec3(x: real, y: real, z: real)

  /** The image of a point in the YZ plane. */
  function Reflected(v: Vec3): Vec3 {
    Vec3(-v.x, v.y, v.z)
  }

  /** The loop of `symmetrize_shape_key` on the coordinates: each (from, to) pair writes the
      reflection of `from` into `to`. The first pair with an index Python cannot resolve
      raises IndexError, leaving the earlier writes in place. */
  function MirrorPairs(co: seq<Vec3>, pairs: seq<(int, int)>): (r: (seq<Vec3>, Outcome))
    ensures |r.0| == |co|
    decreases |pairs|
  {
    if pairs == [] then (co, Done)
    else
      var f, t := PyIndex(pairs[0].0, |co|), PyIndex(pairs[0].1, |co|);
      if f.None? || t.None? then (co, Failed("IndexError"))
      else MirrorPairs(co[t.value := Reflected(co[f.value])], pairs[1..])
  }

  /** A mirror table as the base mesh's is: every index is a vertex, no target is also a
      source, and no vertex is a target twice. */
  predicate Separate(pairs: seq<(int, int)>, n: nat) {
    && (forall k :: 0 <= k < |pairs| ==> 0 <= pairs[k].0 < n && 0 <= pairs[k].1 < n)
    && (forall k, l :: 0 <= k < |pairs| && 0 <= l < |pairs| ==> pairs[k].1 != pairs[l].0)
    && (forall k, l :: 0 <= k < l < |pairs| ==> pairs[k].1 != pairs[l].1)
  }

  /** On such a table symmetrisation completes, every target vertex holds the reflection of
      its source, and every other vertex keeps its coordinates. */
  lemma {:induction false} MirrorPairsResult(co: seq<Vec3>, pairs: seq<(int, int)>)
    requires Separate(pairs, |co|)
    ensures MirrorPairs(co, pairs).1 == Done
    ensures forall k :: 0 <= k < |pairs| ==>
      MirrorPairs(co, pairs).0[pairs[k].1] == Reflected(co[pairs[k].0])
    ensures forall j :: 0 <= j < |co| && (forall k :: 0 <= k < |pairs| ==> pairs[k].1 != j) ==>
      MirrorPairs(co, pairs).0[j] == co[j]
    decreases |pairs|
  {
    if pairs != [] {
      var (f, t) := pairs[0];
      var next := co[t := Reflected(co[f])];
      var rest := pairs[1..];
      assert Separate(rest, |next|) by {
        forall k | 0 <= k < |rest| ensures rest[k] == pairs[k + 1] { }
      }
      MirrorPairsResult(next, rest);
      var out := MirrorPairs(co, pairs).0;
      assert out == MirrorPairs(next, rest).0;
      forall k | 0 <= k < |pairs|
        ensures out[pairs[k].1] == Reflected(co[pairs[k].0])
      {
        if k == 0 {
          forall l | 0 <= l < |rest| ensures rest[l].1 != t {
            assert rest[l] == pairs[l + 1];
          }
        } else {
          assert rest[k - 1] == pairs[k];
          assert pairs[k].0 != t;
        }
      }
      forall j | 0 <= j < |co| && (forall k :: 0 <= k < |pairs| ==> pairs[k].1 != j)
        ensures out[j] == co[j]
      {
        assert pairs[0].1 != j;
        forall l | 0 <= l < |rest| ensures rest[l].1 != j {
          assert rest[l] == pairs[l + 1];
        }
      }
    }
  }

  /** Symmetrising twice with such a table is the same as symmetrising once. */
  lemma MirrorPairsIdempotent(co: seq<Vec3>, pairs: seq<(int, int)>)
    requires Separate(pairs, |co|)
    ensures MirrorPairs(MirrorPairs(co, pairs).0, pairs) == MirrorPairs(co, pairs)
  {
    var once := MirrorPairs(co, pairs).0;
    MirrorPairsResult(co, pairs);
    MirrorPairsResult(once, pairs);
    var twice := MirrorPairs(once, pairs).0;
    forall j | 0 <= j < |co|
      ensures twice[j] == once[j]
    {
      IdempotentAt(co, pairs, j);
    }
    assert twice == once;
  }

  lemma IdempotentAt(co: seq<Vec3>, pairs: seq<(int, int)>, j: nat)
    requires Separate(pairs, |co|) && j < |co|
    ensures MirrorPairs(MirrorPairs(co, pairs).0, pairs).0[j] == MirrorPairs(co, pairs).0[j]
  {
    var once := MirrorPairs(co, pairs).0;
    MirrorPairsResult(co, pairs);
    MirrorPairsResult(once, pairs);
    if k :| 0 <= k < |pairs| && pairs[k].1 == j {
      SourceUnchanged(co, pairs, k);
    }
  }

  /** The source of a pair is no target, so symmetrisation leaves it as it was. */
  lemma SourceUnchanged(co: seq<Vec3>, pairs: seq<(int, int)>, k: nat)
    requires Separate(pairs, |co|) && k < |pairs|
    ensures MirrorPairs(co, pairs).0[pairs[k].0] == co[pairs[k].0]
  {
    MirrorPairsResult(co, pairs);
  }

  lemma MirrorPairsStep(co: seq<Vec3>, pairs: seq<(int, int)>)
    requires pairs != []
    ensures PyIndex(pairs[0].0, |co|).None? || PyIndex(pairs[0].1, |co|).None? ==>
      MirrorPairs(co, pairs) == (co, Failed("IndexError"))
    ensures PyIndex(pairs[0].0, |co|).Some? && PyIndex(pairs[0].1, |co|).Some? ==>
      MirrorPairs(co, pairs)
      == MirrorPairs(co[PyIndex(pairs[0].1, |co|).value := Reflected(co[PyIndex(pairs[0].0, |co|).value])],
                     pairs[1..])
  {
  }

  /** `key_blocks[name]` on an object's shape keys: an object without shape keys (`keys` is
      None) raises AttributeError, a name that is not a key raises KeyError. */
  function KeyBlockError(keys: Option<seq<string>>, name: string): (r: Option<string>)
    ensures r.None? <==> keys.Some? && name in keys.value
  {
    if keys.None? then Some("AttributeError")
    else if name !in keys.value then Some("KeyError")
    else None
  }

  /** `symmetrize_shape_key`: rejects objects other than the base mesh, loads the mirror
      table, looks the shape key up by name among `keys`, then copies the left side onto the
      right (or the right onto the left) of that key's coordinates `co`, in place. */
  method SymmetrizeShapeKey(objectType: string, table: MirrorTable, mirrorText: string,
                            keys: Option<seq<string>>, shapeKeyName: string,
                            co: array<Vec3>, copyLeftToRight: bool) returns (r: Outcome)
    modifies table, co
    ensures objectType != "Basemesh" ==> r == Failed("ValueError") && unchanged(table) && unchanged(co)
    ensures objectType == "Basemesh" ==>
      var (left, right, loaded) := Loaded(old(table.left), old(table.right), mirrorText);
      && table.left == left && table.right == right
      && (loaded.Failed? ==> r == loaded && co[..] == old(co[..]))
      && (loaded.Done? && KeyBlockError(keys, shapeKeyName).Some? ==>
            r == Failed(KeyBlockError(keys, shapeKeyName).value) && co[..] == old(co[..]))
      && (loaded.Done? && KeyBlockError(keys, shapeKeyName).None? ==>
            var pairs := if copyLeftToRight then left.value else right.value;
            (co[..], r) == MirrorPairs(old(co[..]), pairs))
  {
    if objectType != "Basemesh" {
      return Failed("ValueError");
    }
    var loaded := table.Load(mirrorText);
    if loaded.Failed? {
      return loaded;
    }
    var mirror := table.right.value;
    if copyLeftToRight {
      mirror := table.left.value;
    }
    var missing := KeyBlockError(keys, shapeKeyName);
    if missing.Some? {
      return Failed(missing.value);
    }
    r := Done;
    for k := 0 to |mirror|
      invariant table.left == Loaded(old(table.left), old(table.right), mirrorText).0
      invariant table.right == Loaded(old(table.left), old(table.right), mirrorText).1
      invariant MirrorPairs(co[..], mirror[k..]) == MirrorPairs(old(co[..]), mirror)
    {
      assert mirror[k..][1..] == mirror[k + 1..] && mirror[k..][0] == mirror[k];
      var f, t := PyIndex(mirror[k].0, co.Length), PyIndex(mirror[k].1, co.Length);
      MirrorPairsStep(co[..], mirror[k..]);
      if f.None? || t.None? {
        return Failed("IndexError");
      }
      co[t.value] := Reflected(co[f.value]);
    }
  }
}
