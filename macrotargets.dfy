/** The macro-detail combinator of src/mpfb/services/targetservice.py: each macro slider
    value is split into weighted low/high components from the macro configuration, and the
    weighted corner targets of the race, universal, height, breast and proportions families
    are enumerated, keeping those whose weight exceeds the cutoff. */
module MacroTargets {
  import opened Wrappers
  import opened Text

  // ---------------------------------------------------------------------------------------
  // Interpolation of one macro
  // ---------------------------------------------------------------------------------------

  /** One entry of a macro's "parts" in the configuration: the slider range it covers and the
      targets at its two ends (empty when there is none). */
  datatype Part = Part(lowest: real, highest: real, low: string, high: string)

  /** A component: a target name and its weight. */
  datatype Component = Component(name: string, weight: real)

  /** A part contributes only when the value lies strictly inside its range. */
  predicate Active(p: Part, value: real) {
    p.lowest < value < p.highest
  }

  /** How far into the range the value lies, as a fraction. */
  function Position(p: Part, value: real): (pct: real)
    requires Active(p, value)
    ensures 0.0 < pct < 1.0
  {
    FractionBounds(value - p.lowest, p.highest - p.lowest);
    (value - p.lowest) / (p.highest - p.lowest)
  }

  lemma FractionBounds(x: real, d: real)
    requires 0.0 < x < d
    ensures 0.0 < x / d < 1.0
  {
    var q := x / d;
    assert q * d == x;
    assert (1.0 - q) * d == d - q * d;
    PositiveFactor(1.0 - q, d);
  }

  lemma PositiveFactor(q: real, d: real)
    requires d > 0.0 && q * d > 0.0
    ensures q > 0.0
  {
  }

  /** What one part adds: the low target with weight 1 - pct and the high target with weight
      pct, each only when it is named. */
  function PartComponents(p: Part, value: real): seq<Component> {
    if !Active(p, value) then []
    else
      var pct := Position(p, value);
      (if p.low != [] then [Component(p.low, 1.0 - pct)] else [])
      + (if p.high != [] then [Component(p.high, pct)] else [])
  }

  /** The components of all parts, in part order. */
  function Interpolated(parts: seq<Part>, value: real): seq<Component>
    decreases |parts|
  {
    if parts == [] then []
    else Interpolated(parts[..|parts| - 1], value) + PartComponents(parts[|parts| - 1], value)
  }

  /** `_interpolate_macro_components` on the parts of one macro. */
  method InterpolateMacroComponents(parts: seq<Part>, value: real) returns (components: seq<Component>)
    ensures components == Interpolated(parts, value)
  {
    components := [];
    for i := 0 to |parts|
      invariant components == Interpolated(parts[..i], value)
    {
      InterpolatedStep(parts, i, value);
      var part := parts[i];
      var added: seq<Component> := [];
      if value > part.lowest && value < part.highest {
        var pct := Position(part, value);
        if part.low != [] {
          added := added + [Component(part.low, 1.0 - pct)];
        }
        if part.high != [] {
          added := added + [Component(part.high, pct)];
        }
      }
      assert added == PartComponents(part, value);
      components := components + added;
    }
    assert parts[..|parts|] == parts;
  }

  lemma InterpolatedStep(parts: seq<Part>, i: nat, value: real)
    requires i < |parts|
    ensures Interpolated(parts[..i + 1], value) == Interpolated(parts[..i], value) + PartComponents(parts[i], value)
  {
    assert parts[..i + 1][..i] == parts[..i];
  }

  /** A component comes from a part whose range strictly contains the value: it is that
      part's named low target with weight 1 - pct or its named high target with weight pct. */
  lemma {:induction false} InterpolatedMembers(parts: seq<Part>, value: real)
    ensures forall c :: c in Interpolated(parts, value) <==>
      exists i :: 0 <= i < |parts| && Active(parts[i], value) &&
        ((parts[i].low != [] && c == Component(parts[i].low, 1.0 - Position(parts[i], value)))
         || (parts[i].high != [] && c == Component(parts[i].high, Position(parts[i], value))))
    decreases |parts|
  {
    if parts != [] {
      var init := parts[..|parts| - 1];
      InterpolatedMembers(init, value);
      assert forall i :: 0 <= i < |init| ==> init[i] == parts[i];
    }
  }

  /** Every component is named and weighs strictly between 0 and 1. */
  lemma InterpolatedWeights(parts: seq<Part>, value: real)
    ensures forall c :: c in Interpolated(parts, value) ==> c.name != [] && 0.0 < c.weight < 1.0
  {
    InterpolatedMembers(parts, value);
  }

  // ---------------------------------------------------------------------------------------
  // Enumerating corners
  // ---------------------------------------------------------------------------------------

  /** Every way of choosing one component from each list, in the order of nested loops with
      the first list outermost. */
  function Corners(lists: seq<seq<Component>>): (r: seq<seq<Component>>)
    ensures forall i :: 0 <= i < |r| ==> |r[i]| == |lists|
    decreases |lists|
  {
    if lists == [] then [[]] else Extend(lists[0], Corners(lists[1..]), |lists| - 1)
  }

  /** Each component of `cs`, in order, put in front of every one of `rest`. */
  function Extend(cs: seq<Component>, rest: seq<seq<Component>>, n: nat): (r: seq<seq<Component>>)
    requires forall i :: 0 <= i < |rest| ==> |rest[i]| == n
    ensures forall i :: 0 <= i < |r| ==> |r[i]| == n + 1
    decreases |cs|
  {
    if cs == [] then []
    else seq(|rest|, i requires 0 <= i < |rest| => [cs[0]] + rest[i]) + Extend(cs[1..], rest, n)
  }

  lemma {:induction false} ExtendMembers(cs: seq<Component>, rest: seq<seq<Component>>, n: nat)
    requires forall i :: 0 <= i < |rest| ==> |rest[i]| == n
    ensures forall c :: c in Extend(cs, rest, n) <==> |c| == n + 1 && c[0] in cs && c[1..] in rest
    decreases |cs|
  {
    if cs != [] {
      ExtendMembers(cs[1..], rest, n);
      var front := seq(|rest|, i requires 0 <= i < |rest| => [cs[0]] + rest[i]);
      forall c | c in front
        ensures c[0] == cs[0] && c[1..] in rest
      {
        var i :| 0 <= i < |front| && front[i] == c;
        assert c[1..] == rest[i];
      }
      forall c | |c| == n + 1 && c[0] == cs[0] && c[1..] in rest
        ensures c in front
      {
        var i :| 0 <= i < |rest| && rest[i] == c[1..];
        assert front[i] == c;
      }
    }
  }

  /** A corner is exactly one component of each list. */
  lemma {:induction false} CornerIn(lists: seq<seq<Component>>, c: seq<Component>)
    ensures c in Corners(lists) <==> |c| == |lists| && forall i :: 0 <= i < |lists| ==> c[i] in lists[i]
    decreases |lists|
  {
    if lists != [] {
      ExtendHas(lists[0], Corners(lists[1..]), |lists| - 1, c);
      if |c| == |lists| {
        CornerIn(lists[1..], c[1..]);
        EachIn(lists, c);
      }
    }
  }

  lemma ExtendHas(cs: seq<Component>, rest: seq<seq<Component>>, n: nat, c: seq<Component>)
    requires forall i :: 0 <= i < |rest| ==> |rest[i]| == n
    ensures c in Extend(cs, rest, n) <==> |c| == n + 1 && c[0] in cs && c[1..] in rest
  {
    ExtendMembers(cs, rest, n);
  }

  /** One component of each list: the first, and one of each of the others. */
  lemma EachIn(lists: seq<seq<Component>>, c: seq<Component>)
    requires |c| == |lists| > 0
    ensures (forall i :: 0 <= i < |lists| ==> c[i] in lists[i])
            <==> c[0] in lists[0] && forall i :: 0 <= i < |lists[1..]| ==> c[1..][i] in lists[1..][i]
  {
    if forall i :: 0 <= i < |lists[1..]| ==> c[1..][i] in lists[1..][i] {
      forall i | 1 <= i < |lists| ensures c[i] in lists[i] {
        assert c[1..][i - 1] == c[i] && lists[1..][i - 1] == lists[i];
      }
    }
  }

  lemma CornersMembers(lists: seq<seq<Component>>)
    ensures forall c :: c in Corners(lists) <==>
      |c| == |lists| && forall i :: 0 <= i < |lists| ==> c[i] in lists[i]
  {
    forall c: seq<Component>
      ensures c in Corners(lists) <==> |c| == |lists| && forall i :: 0 <= i < |lists| ==> c[i] in lists[i]
    {
      CornerIn(lists, c);
    }
  }

  /** The names of a corner joined with "-". */
  function Join(corner: seq<Component>): string
    decreases |corner|
  {
    if corner == [] then []
    else if |corner| == 1 then corner[0].name
    else corner[0].name + "-" + Join(corner[1..])
  }

  /** The product of the weights of a corner. */
  function Weight(corner: seq<Component>): real
    decreases |corner|
  {
    if corner == [] then 1.0 else corner[0].weight * Weight(corner[1..])
  }

  /** The components of `cs` named `name`, in order. */
  function Only(cs: seq<Component>, name: string): (r: seq<Component>)
    ensures forall c :: c in r <==> c in cs && c.name == name
    decreases |cs|
  {
    if cs == [] then []
    else (if cs[0].name == name then [cs[0]] else []) + Only(cs[1..], name)
  }

  lemma {:induction false} OnlyAbsent(cs: seq<Component>, name: string)
    requires forall c :: c in cs ==> c.name != name
    ensures Only(cs, name) == []
    decreases |cs|
  {
    if cs != [] {
      assert cs[0] in cs;
      assert forall c :: c in cs[1..] ==> c in cs;
      OnlyAbsent(cs[1..], name);
    }
  }

  /** The components of `cs` not named `name`, in order. */
  function Except(cs: seq<Component>, name: string): (r: seq<Component>)
    ensures forall c :: c in r <==> c in cs && c.name != name
    decreases |cs|
  {
    if cs == [] then []
    else (if cs[0].name != name then [cs[0]] else []) + Except(cs[1..], name)
  }

  // ---------------------------------------------------------------------------------------
  // Candidate targets and the cutoff
  // ---------------------------------------------------------------------------------------

  /** A macro target and its weight. */
  datatype Target = Target(name: string, weight: real)

  /** The race weight a race must exceed to produce targets. */
  const RaceThreshold: real := 0.0001

  /** The candidates of one race, looping over age and then over the genders that are not
      "universal", named race-gender-age and weighted by race, gender and age. */
  function RaceCandidates(race: string, raceWeight: real, ages: seq<Component>, genders: seq<Component>)
    : seq<Target>
  {
    var cs := Corners([ages, Except(genders, "universal")]);
    seq(|cs|, i requires 0 <= i < |cs| => RaceTarget(race, raceWeight, cs[i][1], cs[i][0]))
  }

  /** The race-gender-age target of a race, a gender component and an age component. */
  function RaceTarget(race: string, raceWeight: real, g: Component, a: Component): Target {
    Target("macrodetails/" + race + "-" + g.name + "-" + a.name, raceWeight * g.weight * a.weight)
  }

  /** The candidates of one family: every corner of `lists`, named by `prefix` followed by the
      joined names and weighted by the product of its weights, leaving out the first list's
      weight when `dropFirst` is set. */
  function Candidates(prefix: string, lists: seq<seq<Component>>, dropFirst: bool): seq<Target>
    requires lists != []
  {
    var cs := Corners(lists);
    seq(|cs|, i requires 0 <= i < |cs| => CornerTarget(prefix, cs[i], dropFirst))
  }

  /** The target of one corner: `prefix` followed by the joined names, weighted by the
      product of the weights (without the first one when `dropFirst` is set). */
  function CornerTarget(prefix: string, corner: seq<Component>, dropFirst: bool): Target
    requires corner != []
  {
    Target(prefix + Join(corner), if dropFirst then Weight(corner[1..]) else Weight(corner))
  }

  /** The breast combinations that are never applied. */
  predicate Forbidden(name: string) {
    Contains(name, "averagecup-averagefirmness") || Contains(name, "_baby_") || Contains(name, "-baby-")
  }

  /** The candidates whose weight exceeds the cutoff and, when `screen` is set, whose name is
      not forbidden, in order. */
  function Kept(cands: seq<Target>, cutoff: real, screen: bool): seq<Target>
    decreases |cands|
  {
    if cands == [] then []
    else
      var last := cands[|cands| - 1];
      Kept(cands[..|cands| - 1], cutoff, screen)
      + (if last.weight > cutoff && !(screen && Forbidden(last.name)) then [last] else [])
  }

  lemma {:induction false} KeptMembers(cands: seq<Target>, cutoff: real, screen: bool)
    ensures forall t :: t in Kept(cands, cutoff, screen) <==>
      t in cands && t.weight > cutoff && !(screen && Forbidden(t.name))
    decreases |cands|
  {
    if cands != [] {
      var init := cands[..|cands| - 1];
      KeptMembers(init, cutoff, screen);
      assert cands == init + [cands[|cands| - 1]];
    }
  }

  /** The innermost step of every family: a candidate is appended when its weight exceeds the
      cutoff (and, for breast targets, when its name is not forbidden). */
  method AppendKept(targets: seq<Target>, cands: seq<Target>, cutoff: real, screen: bool)
    returns (r: seq<Target>)
    ensures r == targets + Kept(cands, cutoff, screen)
  {
    r := targets;
    for k := 0 to |cands|
      invariant r == targets + Kept(cands[..k], cutoff, screen)
    {
      assert cands[..k + 1][..k] == cands[..k];
      var t := cands[k];
      if t.weight > cutoff {
        if !(screen && Forbidden(t.name)) {
          r := r + [t];
        }
      }
    }
    assert cands[..|cands|] == cands;
  }

  // ---------------------------------------------------------------------------------------
  // calculate_target_stack_from_macro_info_dict
  // ---------------------------------------------------------------------------------------

  /** The slider values of a human; `race` lists the races with their weights in dictionary
      order. */
  datatype MacroInfo = MacroInfo(gender: real, age: real, muscle: real, weight: real,
                                 proportions: real, height: real, cupsize: real, firmness: real,
                                 race: seq<(string, real)>)

  /** `get_default_macro_info_dict`. */
  function DefaultMacroInfo(): MacroInfo {
    MacroInfo(0.5, 0.5, 0.5, 0.5, 0.5, 0.5, 0.5, 0.5, [("asian", 0.33), ("caucasian", 0.33), ("african", 0.33)])
  }

  /** The "macrotargets" section of the macro configuration: the parts of each macro. */
  datatype MacroConfig = MacroConfig(gender: seq<Part>, age: seq<Part>, muscle: seq<Part>, weight: seq<Part>,
                                     proportions: seq<Part>, height: seq<Part>, cupsize: seq<Part>,
                                     firmness: seq<Part>)

  /** The interpolated components of every macro. */
  datatype Components = Components(gender: seq<Component>, age: seq<Component>, muscle: seq<Component>,
                                   weight: seq<Component>, proportions: seq<Component>,
                                   height: seq<Component>, cupsize: seq<Component>,
                                   firmness: seq<Component>)

  function ComponentsOf(info: MacroInfo, config: MacroConfig): Components {
    Components(Interpolated(config.gender, info.gender), Interpolated(config.age, info.age),
               Interpolated(config.muscle, info.muscle), Interpolated(config.weight, info.weight),
               Interpolated(config.proportions, info.proportions), Interpolated(config.height, info.height),
               Interpolated(config.cupsize, info.cupsize), Interpolated(config.firmness, info.firmness))
  }

  /** The race-gender-age targets: races at or below the race threshold contribute nothing. */
  function RaceTargets(races: seq<(string, real)>, ages: seq<Component>, genders: seq<Component>, cutoff: real)
    : seq<Target>
    decreases |races|
  {
    if races == [] then []
    else
      var last := races[|races| - 1];
      RaceTargets(races[..|races| - 1], ages, genders, cutoff)
      + (if last.1 > RaceThreshold then Kept(RaceCandidates(last.0, last.1, ages, genders), cutoff, false) else [])
  }

  function UniversalCandidates(c: Components): seq<Target> {
    Candidates("macrodetails/universal-", [c.gender, c.age, c.muscle, c.weight], false)
  }

  function HeightCandidates(c: Components): seq<Target> {
    Candidates("macrodetails/height/", [c.gender, c.age, c.muscle, c.weight, c.height], false)
  }

  /** Breast targets loop only over the "female" gender components and leave the gender
      weight out. */
  function BreastCandidates(c: Components): seq<Target> {
    Candidates("breast/", [Only(c.gender, "female"), c.age, c.muscle, c.weight, c.cupsize, c.firmness], true)
  }

  function ProportionCandidates(c: Components): seq<Target> {
    Candidates("macrodetails/proportions/", [c.gender, c.age, c.muscle, c.weight, c.proportions], false)
  }

  /** The target stack: the five families in source order, each filtered by the cutoff. */
  function TargetStack(info: Option<MacroInfo>, config: MacroConfig, cutoff: real): seq<Target> {
    var m := if info.None? then DefaultMacroInfo() else info.value;
    var c := ComponentsOf(m, config);
    RaceTargets(m.race, c.age, c.gender, cutoff)
    + Kept(UniversalCandidates(c), cutoff, false)
    + Kept(HeightCandidates(c), cutoff, false)
    + Kept(BreastCandidates(c), cutoff, true)
    + Kept(ProportionCandidates(c), cutoff, false)
  }

  /** `calculate_target_stack_from_macro_info_dict`, with the macro configuration passed in;
      `info` is None when the caller gives no macro values. */
  method CalculateTargetStack(info: Option<MacroInfo>, config: MacroConfig, cutoff: real)
    returns (targets: seq<Target>)
    ensures targets == TargetStack(info, config, cutoff)
  {
    var m := if info.None? then DefaultMacroInfo() else info.value;
    var gender := InterpolateMacroComponents(config.gender, m.gender);
    var age := InterpolateMacroComponents(config.age, m.age);
    var muscle := InterpolateMacroComponents(config.muscle, m.muscle);
    var weight := InterpolateMacroComponents(config.weight, m.weight);
    var proportions := InterpolateMacroComponents(config.proportions, m.proportions);
    var height := InterpolateMacroComponents(config.height, m.height);
    var cupsize := InterpolateMacroComponents(config.cupsize, m.cupsize);
    var firmness := InterpolateMacroComponents(config.firmness, m.firmness);
    var c := Components(gender, age, muscle, weight, proportions, height, cupsize, firmness);
    assert c == ComponentsOf(m, config);

    targets := [];
    var races := m.race;
    for k := 0 to |races|
      invariant targets == RaceTargets(races[..k], age, gender, cutoff)
    {
      assert races[..k + 1][..k] == races[..k];
      var (race, raceWeight) := races[k];
      if raceWeight > RaceThreshold {
        targets := AppendKept(targets, RaceCandidates(race, raceWeight, age, gender), cutoff, false);
      }
    }
    assert races[..|races|] == races;
    targets := AppendKept(targets, UniversalCandidates(c), cutoff, false);
    targets := AppendKept(targets, HeightCandidates(c), cutoff, false);
    targets := AppendKept(targets, BreastCandidates(c), cutoff, true);
    targets := AppendKept(targets, ProportionCandidates(c), cutoff, false);
  }

  // ---------------------------------------------------------------------------------------
  // What the stack promises
  // ---------------------------------------------------------------------------------------

  lemma {:induction false} RaceTargetsMembers(races: seq<(string, real)>, ages: seq<Component>,
                                               genders: seq<Component>, cutoff: real)
    ensures forall t :: t in RaceTargets(races, ages, genders, cutoff) ==>
      t.weight > cutoff &&
      exists k :: 0 <= k < |races| && races[k].1 > RaceThreshold &&
        t in RaceCandidates(races[k].0, races[k].1, ages, genders)
    decreases |races|
  {
    if races != [] {
      var init := races[..|races| - 1];
      var last := races[|races| - 1];
      RaceTargetsMembers(init, ages, genders, cutoff);
      KeptMembers(RaceCandidates(last.0, last.1, ages, genders), cutoff, false);
      assert forall k :: 0 <= k < |init| ==> init[k] == races[k];
    }
  }

  /** Every race-gender-age target is named race-gender-age for a race above the threshold,
      an age component and a gender component other than "universal", and weighs the
      product of the three weights, which exceeds the cutoff. */
  lemma RaceTargetShape(races: seq<(string, real)>, ages: seq<Component>, genders: seq<Component>,
                        cutoff: real, t: Target)
    requires t in RaceTargets(races, ages, genders, cutoff)
    ensures t.weight > cutoff
    ensures exists k, a, g ::
      && 0 <= k < |races| && races[k].1 > RaceThreshold && a in ages && g in genders
      && g.name != "universal"
      && t == RaceTarget(races[k].0, races[k].1, g, a)
  {
    RaceTargetsMembers(races, ages, genders, cutoff);
    var k :| 0 <= k < |races| && races[k].1 > RaceThreshold &&
             t in RaceCandidates(races[k].0, races[k].1, ages, genders);
    var lists: seq<seq<Component>> := [ages, Except(genders, "universal")];
    var cs := Corners(lists);
    var i :| 0 <= i < |cs| && RaceCandidates(races[k].0, races[k].1, ages, genders)[i] == t;
    var corner := cs[i];
    assert corner in cs;
    CornerIn(lists, corner);
    var a, g := corner[0], corner[1];
    assert a in ages && g in Except(genders, "universal");
    assert t == RaceTarget(races[k].0, races[k].1, g, a);
  }

  /** Every target of the stack weighs more than the cutoff. */
  lemma StackAboveCutoff(info: Option<MacroInfo>, config: MacroConfig, cutoff: real)
    ensures forall t :: t in TargetStack(info, config, cutoff) ==> t.weight > cutoff
  {
    var m := if info.None? then DefaultMacroInfo() else info.value;
    var c := ComponentsOf(m, config);
    RaceTargetsMembers(m.race, c.age, c.gender, cutoff);
    KeptMembers(UniversalCandidates(c), cutoff, false);
    KeptMembers(HeightCandidates(c), cutoff, false);
    KeptMembers(BreastCandidates(c), cutoff, true);
    KeptMembers(ProportionCandidates(c), cutoff, false);
  }

  /** Breast targets never name a forbidden combination, exceed the cutoff, are named
      "breast/female-" followed by age, muscle, weight, cup size and firmness, and weigh
      the product of those five weights, without the gender weight. */
  lemma BreastTargetShape(c: Components, cutoff: real, t: Target)
    requires t in Kept(BreastCandidates(c), cutoff, true)
    ensures !Forbidden(t.name) && t.weight > cutoff
    ensures exists corner ::
      && corner in Corners([c.age, c.muscle, c.weight, c.cupsize, c.firmness])
      && t == Target("breast/female-" + Join(corner), Weight(corner))
  {
    KeptMembers(BreastCandidates(c), cutoff, true);
    var rest: seq<seq<Component>> := [c.age, c.muscle, c.weight, c.cupsize, c.firmness];
    var female := Only(c.gender, "female");
    assert [female] + rest == [female, c.age, c.muscle, c.weight, c.cupsize, c.firmness];
    var k := CandidateOf("breast/", [female] + rest, true, t);
    CornerTail(female, rest, k);
    var corner := k[1..];
    assert Join(k) == "female" + "-" + Join(corner);
    BreastName(Join(corner));
  }

  /** A corner of a list followed by further lists is a component of the first list put in
      front of a corner of the others. */
  lemma CornerTail(first: seq<Component>, rest: seq<seq<Component>>, k: seq<Component>)
    requires k in Corners([first] + rest)
    ensures |k| == |rest| + 1 && k[0] in first && k[1..] in Corners(rest)
  {
    assert ([first] + rest)[1..] == rest;
    ExtendMembers(first, Corners(rest), |rest|);
  }

  /** The corner a candidate of a family comes from. */
  lemma CandidateOf(prefix: string, lists: seq<seq<Component>>, dropFirst: bool, t: Target)
    returns (corner: seq<Component>)
    requires lists != [] && t in Candidates(prefix, lists, dropFirst)
    ensures corner in Corners(lists)
    ensures t == CornerTarget(prefix, corner, dropFirst)
  {
    var cs := Corners(lists);
    var i :| 0 <= i < |cs| && Candidates(prefix, lists, dropFirst)[i] == t;
    corner := cs[i];
  }

  lemma BreastName(j: string)
    ensures "breast/" + ("female" + "-" + j) == "breast/female-" + j
  {
  }

  /** Without a "female" gender component there are no breast targets. */
  lemma NoFemaleNoBreast(c: Components, cutoff: real)
    requires forall g :: g in c.gender ==> g.name != "female"
    ensures Kept(BreastCandidates(c), cutoff, true) == []
  {
    var lists: seq<seq<Component>> := [Only(c.gender, "female"), c.age, c.muscle, c.weight, c.cupsize, c.firmness];
    OnlyAbsent(c.gender, "female");
    assert Corners(lists) == Extend([], Corners(lists[1..]), 5);
    assert BreastCandidates(c) == [];
  }
}
