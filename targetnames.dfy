/** Shape-key names of targets (src/mpfb/services/targetservice.py): the guess whether a shape
    key is a target, the abbreviation table that keeps names under Blender's length limit, the
    derivation of a shape-key name from a target file name and the translation of `.mhm`
    modifier lines. */
module TargetNames {
  import opened Wrappers
  import opened Text
  import opened Numbers

  /** `_SHAPEKEY_ENCODING`: (long word, code) pairs, applied in this order. */
  const Encoding: seq<(string, string)> := [
    ("macrodetail", "$md"), ("female", "$fe"), ("male", "$ma"), ("caucasian", "$ca"),
    ("asian", "$as"), ("african", "$af"), ("average", "$av"), ("weight", "$wg"),
    ("height", "$hg"), ("muscle", "$mu"), ("proportions", "$pr"), ("firmness", "$fi"),
    ("ideal", "$id"), ("uncommon", "$un"), ("young", "$yn"), ("child", "$ch")]

  /** `_OPPOSITES`, each "low-high" entry kept as the pair its split at '-' yields. */
  const Opposites: seq<(string, string)> := [
    ("decr", "incr"), ("down", "up"), ("in", "out"), ("backward", "forward"),
    ("concave", "convex"), ("compress", "uncompress"), ("square", "round"),
    ("pointed", "triangle")]

  /** The entry as it is written in the table, "low-high". */
  function OppositeText(p: (string, string)): string {
    p.0 + "-" + p.1
  }

  // ---------------------------------------------------------------------------------------
  // Is a shape key a target?
  // ---------------------------------------------------------------------------------------

  /** One step of the opposites scan: the entry itself, "-low" or "-high" occurs in the name. */
  predicate MatchesOpposite(name: string, p: (string, string)) {
    Contains(name, OppositeText(p)) || Contains(name, "-" + p.0) || Contains(name, "-" + p.1)
  }

  /** The scan over the table, first entry first, stopping at the first match. */
  function ScanOpposites(name: string, ops: seq<(string, string)>): (r: bool)
    ensures r <==> exists i :: 0 <= i < |ops| && MatchesOpposite(name, ops[i])
  {
    if ops == [] then false
    else if MatchesOpposite(name, ops[0]) then true
    else ScanOpposites(name, ops[1..])
  }

  /** `shapekey_is_target`. The list of odd target names is module state that target loading
      fills in elsewhere, so it is a parameter here. */
  function ShapekeyIsTarget(name: string, oddNames: seq<string>): (r: bool)
    ensures name == [] || Lower(name) == "basis" ==> !r
    ensures name != [] && Lower(name) != "basis" ==>
      (r <==> StartsWith(name, "$md")
              || (exists i :: 0 <= i < |Opposites| && MatchesOpposite(name, Opposites[i]))
              || name in oddNames)
  {
    if name == [] then false
    else if Lower(name) == "basis" then false
    else if StartsWith(name, "$md") then true
    else if ScanOpposites(name, Opposites) then true
    else name in oddNames
  }

  /** A name that ends in a sided suffix such as "-incr" or "-up" is a target, whatever the
      list of odd names holds. */
  lemma SidedNameIsTarget(stem: string, i: nat, high: bool, oddNames: seq<string>)
    requires i < |Opposites|
    ensures var side := if high then Opposites[i].1 else Opposites[i].0;
            ShapekeyIsTarget(stem + "-" + side, oddNames)
  {
    var side := if high then Opposites[i].1 else Opposites[i].0;
    var name := stem + "-" + side;
    assert name[|stem|..] == "-" + side;
    SuffixContained(stem, "-" + side);
    assert name == stem + ("-" + side);
    assert MatchesOpposite(name, Opposites[i]);
    NotBasis(name, |stem|);
  }

  /** A suffix is contained in the string it ends. */
  lemma {:induction false} SuffixContained(stem: string, t: string)
    ensures Contains(stem + t, t)
    decreases |stem|
  {
    if stem == [] {
      assert (stem + t)[..|t|] == t;
    } else {
      SuffixContained(stem[1..], t);
      assert (stem + t)[1..] == stem[1..] + t;
    }
  }

  /** "basis" has no '-' and no '$', so no name with one of them lowers to it. */
  lemma NotBasis(name: string, k: nat)
    requires k < |name| && (name[k] == '-' || name[k] == '$')
    ensures Lower(name) != "basis"
  {
    LowerAt(name, k);
  }

  // ---------------------------------------------------------------------------------------
  // The abbreviation table
  // ---------------------------------------------------------------------------------------

  /** Every pattern of a replacement table is non-empty. */
  predicate Patterns(table: seq<(string, string)>) {
    forall i :: 0 <= i < |table| ==> table[i].0 != []
  }

  /** `str.replace` with each (pattern, replacement) pair of the table in turn. */
  function ReplaceAll(name: string, table: seq<(string, string)>): string
    requires Patterns(table)
    decreases |table|
  {
    if table == [] then name else ReplaceAll(Replace(name, table[0].0, table[0].1), table[1..])
  }

  /** The table read backwards: (code, long word). */
  function Swapped(table: seq<(string, string)>): (r: seq<(string, string)>)
    ensures |r| == |table|
    ensures forall i :: 0 <= i < |r| ==> r[i] == (table[i].1, table[i].0)
  {
    seq(|table|, i requires 0 <= i < |table| => (table[i].1, table[i].0))
  }

  /** `encode_shapekey_name`. */
  function Encode(name: string): string {
    ReplaceAll(name, Encoding)
  }

  /** `decode_shapekey_name`: the codes turned back into words, in table order. */
  function Decode(name: string): string {
    ReplaceAll(name, Swapped(Encoding))
  }

  /** The loop shared by `encode_shapekey_name` and `decode_shapekey_name`: `str.replace`
      with each pair of the table in turn. */
  method ReplaceEach(original: string, table: seq<(string, string)>) returns (name: string)
    requires Patterns(table)
    ensures name == ReplaceAll(original, table)
  {
    name := original;
    for k := 0 to |table|
      invariant ReplaceAll(name, table[k..]) == ReplaceAll(original, table)
    {
      assert table[k..][1..] == table[k + 1..];
      name := Replace(name, table[k].0, table[k].1);
    }
  }

  /** The long words of the table are non-empty patterns. */
  lemma EncodingPatterns()
    ensures Patterns(Encoding)
  {
  }

  /** `encode_shapekey_name`, computed by its loop. */
  method EncodeShapekeyName(original: string) returns (name: string)
    ensures name == Encode(original)
  {
    EncodingPatterns();
    name := ReplaceEach(original, Encoding);
  }

  /** `decode_shapekey_name`, computed by its loop. */
  method DecodeShapekeyName(encoded: string) returns (name: string)
    ensures name == Decode(encoded)
  {
    name := ReplaceEach(encoded, Swapped(Encoding));
  }

  /** A name in which no pattern of the table occurs comes back unchanged. */
  lemma {:induction false} ReplaceAllAbsent(name: string, table: seq<(string, string)>)
    requires Patterns(table)
    requires forall i :: 0 <= i < |table| ==> !Contains(name, table[i].0)
    ensures ReplaceAll(name, table) == name
  {
    if table != [] {
      ReplaceAbsent(name, table[0].0, table[0].1);
      ReplaceAllAbsent(name, table[1..]);
    }
  }

  /** A name containing none of the long words is left alone by the encoder. */
  lemma EncodeUnchanged(name: string)
    requires forall i :: 0 <= i < |Encoding| ==> !Contains(name, Encoding[i].0)
    ensures Encode(name) == name
  {
    ReplaceAllAbsent(name, Encoding);
  }

  /** A name without '$' holds no code, so the decoder leaves it alone. */
  lemma DecodeUnchanged(name: string)
    requires forall k :: 0 <= k < |name| ==> name[k] != '$'
    ensures Decode(name) == name
  {
    var codes := Swapped(Encoding);
    forall i | 0 <= i < |codes|
      ensures !Contains(name, codes[i].0)
    {
      assert codes[i].0[0] == '$';
      if Contains(name, codes[i].0) {
        ContainsFirstChar(name, codes[i].0);
      }
    }
    ReplaceAllAbsent(name, codes);
  }

  /** An occurrence of `t` puts its first character somewhere in `s`. */
  lemma {:induction false} ContainsFirstChar(s: string, t: string)
    requires t != [] && Contains(s, t)
    ensures exists k :: 0 <= k < |s| && s[k] == t[0]
    decreases |s|
  {
    if StartsWith(s, t) {
      assert s[..|t|][0] == t[0];
    } else {
      ContainsFirstChar(s[1..], t);
      var k :| 0 <= k < |s[1..]| && s[1..][k] == t[0];
      assert s[k + 1] == t[0];
    }
  }

  /** A character at which no occurrence of the pattern starts is copied over as it is. */
  lemma ReplaceSkip(c: char, t: string, pat: string, rep: string)
    requires pat != []
    requires c != pat[0] || (|pat| >= 2 && t != [] && t[0] != pat[1])
    ensures Replace([c] + t, pat, rep) == [c] + Replace(t, pat, rep)
  {
    var s := [c] + t;
    assert s[1..] == t;
    if |s| >= |pat| {
      assert s[..|pat|][0] == c;
      if c == pat[0] {
        assert s[..|pat|][1] == t[0];
      }
    }
  }

  /** A replacement that cannot start inside "$md-" leaves that prefix in place. */
  lemma ReplaceKeepsMdPrefix(t: string, pat: string, rep: string)
    requires |pat| >= 2 && pat[0] != '$' && pat[0] != 'd' && pat[0] != '-'
    requires pat[0] == 'm' ==> pat[1] != 'd'
    ensures Replace("$md-" + t, pat, rep) == "$md-" + Replace(t, pat, rep)
  {
    var t3 := ['-'] + t;
    var t2 := ['d'] + t3;
    var t1 := ['m'] + t2;
    ReplaceSkip('-', t, pat, rep);
    ReplaceSkip('d', t3, pat, rep);
    ReplaceSkip('m', t2, pat, rep);
    ReplaceSkip('$', t1, pat, rep);
    MdPrefix(t);
    MdPrefix(Replace(t, pat, rep));
  }

  /** "$md-" put in front one character at a time. */
  lemma MdPrefix(t: string)
    ensures "$md-" + t == ['$'] + (['m'] + (['d'] + (['-'] + t)))
  {
  }

  /** No pattern of the table can start inside "$md-". */
  predicate MdSafe(table: seq<(string, string)>) {
    forall i :: 0 <= i < |table| ==>
      var pat := table[i].0;
      |pat| >= 2 && pat[0] != '$' && pat[0] != 'd' && pat[0] != '-' && (pat[0] == 'm' ==> pat[1] != 'd')
  }

  /** Every long word after "macrodetail" may follow "$md-" without touching it. */
  lemma EncodingMdSafe()
    ensures MdSafe(Encoding[1..])
  {
  }

  lemma {:induction false} ReplaceAllKeepsMdPrefix(t: string, table: seq<(string, string)>)
    requires Patterns(table) && MdSafe(table)
    ensures ReplaceAll("$md-" + t, table) == "$md-" + ReplaceAll(t, table)
    decreases |table|
  {
    if table != [] {
      ReplaceKeepsMdPrefix(t, table[0].0, table[0].1);
      ReplaceAllKeepsMdPrefix(Replace(t, table[0].0, table[0].1), table[1..]);
    }
  }

  /** The encoded name of a macro detail starts with the code "$md-", which is what
      `shapekey_is_target` and the macro bookkeeping look for. */
  lemma EncodeMacrodetail(stem: string)
    ensures StartsWith(Encode("macrodetail-" + stem), "$md-")
  {
    var s := "macrodetail-" + stem;
    var rest := "-" + stem;
    assert s[..11] == "macrodetail" && s[11..] == rest;
    ReplaceSkip('-', stem, "macrodetail", "$md");
    assert Replace(s, "macrodetail", "$md") == "$md" + Replace(rest, "macrodetail", "$md");
    var t := Replace(stem, "macrodetail", "$md");
    assert Replace(s, "macrodetail", "$md") == "$md-" + t;
    EncodingMdSafe();
    ReplaceAllKeepsMdPrefix(t, Encoding[1..]);
    assert Encode(s) == ReplaceAll("$md-" + t, Encoding[1..]);
  }

  // ---------------------------------------------------------------------------------------
  // From a file name to a shape-key name
  // ---------------------------------------------------------------------------------------

  /** The directory that holds the macro detail targets, as `filename_to_shapekey_name` looks
      for it. */
  const MacroPathPattern: string := "/mpfb/data/targets/macrodetails/"

  /** `os.path.basename`: what follows the last '/'. */
  function Basename(path: string): (r: string)
    ensures forall k :: 0 <= k < |r| ==> r[k] != '/'
    ensures EndsWith(path, r)
    ensures r == path || path[|path| - |r| - 1] == '/'
  {
    var i := LastIndexOf(path, '/');
    if i == |path| then path else path[i + 1..]
  }

  /** The string ends in `suffix` when ASCII case is ignored (`suffix` is lower case). */
  predicate EndsWithIgnoreCase(s: string, suffix: string) {
    |suffix| <= |s| && Lower(s[|s| - |suffix|..]) == suffix
  }

  /** `re.sub(re.escape(suffix) + "$", "", name, flags=re.IGNORECASE)`: `$` matches at the end
      and also just before a final newline, which stays. */
  function DropSuffix(name: string, suffix: string): (r: string)
    ensures EndsWithIgnoreCase(name, suffix) ==> r == name[..|name| - |suffix|]
    ensures (!EndsWithIgnoreCase(name, suffix) && !(name != [] && name[|name| - 1] == '\n'
             && EndsWithIgnoreCase(name[..|name| - 1], suffix))) ==> r == name
  {
    if EndsWithIgnoreCase(name, suffix) then name[..|name| - |suffix|]
    else if name != [] && name[|name| - 1] == '\n' && EndsWithIgnoreCase(name[..|name| - 1], suffix)
    then name[..|name| - 1 - |suffix|] + "\n"
    else name
  }

  /** `re.sub(r'\.p?target$', "", name, flags=re.IGNORECASE)`: the suffix is ".ptarget" or
      ".target", never both. */
  function DropTargetSuffix(name: string): string {
    var p := DropSuffix(name, ".ptarget");
    if p != name then p else DropSuffix(name, ".target")
  }

  /** The file name's stem: its base name with ".gz", then ".ptarget" or ".target", dropped,
      ignoring case. */
  function Stem(filename: string): string {
    DropTargetSuffix(DropSuffix(Basename(filename), ".gz"))
  }

  /** `filename_to_shapekey_name`. `macrodetail` and `encodeName` are None where the caller
      passes None. `absolutePath` is `os.path.abspath(filename)`, which depends on the working
      directory and is consulted only when `macrodetail` is None. */
  function FilenameToShapekeyName(filename: string, macrodetail: Option<bool>,
                                  encodeName: Option<bool>, absolutePath: string): string
  {
    var stem := Stem(filename);
    var isMacro := if macrodetail.Some? then macrodetail.value
                   else Contains(Lower(absolutePath), MacroPathPattern);
    var name := if isMacro then "macrodetail-" + stem else stem;
    var encode := if encodeName.Some? then encodeName.value else isMacro || |name| > 60;
    if encode then Encode(name) else name
  }

  /** Without a macro detail and without a choice, a stem longer than 60 characters is
      encoded and a shorter one is kept; an explicit choice is obeyed. */
  lemma PlainNameEncoding(filename: string, absolutePath: string)
    ensures FilenameToShapekeyName(filename, Some(false), None, absolutePath)
            == if |Stem(filename)| > 60 then Encode(Stem(filename)) else Stem(filename)
    ensures FilenameToShapekeyName(filename, Some(false), Some(true), absolutePath) == Encode(Stem(filename))
    ensures FilenameToShapekeyName(filename, Some(false), Some(false), absolutePath) == Stem(filename)
  {
  }

  /** A macro detail with encoding turned off explicitly keeps its plain name. */
  lemma MacroNameUnencoded(filename: string, absolutePath: string)
    ensures FilenameToShapekeyName(filename, Some(true), Some(false), absolutePath)
            == "macrodetail-" + Stem(filename)
  {
  }

  /** With `macrodetail` None the absolute path decides whether the name is a macro detail. */
  lemma MacroFromPath(filename: string, encodeName: Option<bool>, absolutePath: string)
    ensures FilenameToShapekeyName(filename, None, encodeName, absolutePath)
            == FilenameToShapekeyName(filename, Some(Contains(Lower(absolutePath), MacroPathPattern)),
                                      encodeName, absolutePath)
  {
  }

  /** The stem of "DIR/STEM.target.gz", "DIR/STEM.ptarget" and the like, in any mix of case,
      with or without ".gz", is STEM. */
  lemma StemOf(dir: string, stem: string, suffix: string, gz: string)
    requires Lacks(stem, '/')
    requires Lower(suffix) == ".target" || Lower(suffix) == ".ptarget"
    requires gz == "" || Lower(gz) == ".gz"
    ensures Stem(dir + "/" + stem + suffix + gz) == stem
  {
    LowerLacks(suffix, '/');
    LowerLacks(gz, '/');
    LacksAppend(stem, suffix, '/');
    LacksAppend(stem + suffix, gz, '/');
    assert dir + "/" + stem + suffix + gz == dir + "/" + (stem + suffix + gz);
    BasenameOf(dir, stem + suffix + gz);
    SuffixesDropped(stem, suffix, gz);
  }

  /** The suffixes of a base name "STEM.target.gz" and the like are dropped. */
  lemma SuffixesDropped(stem: string, suffix: string, gz: string)
    requires Lower(suffix) == ".target" || Lower(suffix) == ".ptarget"
    requires gz == "" || Lower(gz) == ".gz"
    ensures DropTargetSuffix(DropSuffix(stem + suffix + gz, ".gz")) == stem
  {
    if gz == "" {
      assert stem + suffix + gz == stem + suffix;
      LowerAt(suffix, |suffix| - 1);
      NoGz(stem + suffix);
    } else {
      GzDropped(stem + suffix, gz);
    }
    if Lower(suffix) == ".target" {
      TargetDropped(stem, suffix);
    } else {
      PtargetDropped(stem, suffix);
    }
  }

  /** A name given as a plain target file name ends up as the file's stem. */
  lemma PlainTargetFileName(dir: string, stem: string, absolutePath: string)
    requires Lacks(stem, '/')
    requires |stem| <= 60
    ensures FilenameToShapekeyName(dir + "/" + stem + ".target" + ".gz", Some(false), None,
                                   absolutePath) == stem
  {
    LowerOfLower(".target");
    LowerOfLower(".gz");
    StemOf(dir, stem, ".target", ".gz");
  }

  /** A macro detail file name becomes an encoded name that starts with "$md-", so the
      shape key is taken for a target. */
  lemma MacrodetailFileName(filename: string, encodeName: Option<bool>, absolutePath: string,
                            oddNames: seq<string>)
    requires encodeName != Some(false)
    ensures var r := FilenameToShapekeyName(filename, Some(true), encodeName, absolutePath);
            StartsWith(r, "$md-") && ShapekeyIsTarget(r, oddNames)
  {
    var stem := DropTargetSuffix(DropSuffix(Basename(filename), ".gz"));
    var r := FilenameToShapekeyName(filename, Some(true), encodeName, absolutePath);
    assert r == Encode("macrodetail-" + stem);
    EncodeMacrodetail(stem);
    MdNameIsTarget(r, oddNames);
  }

  /** A name that starts with the code "$md" is a target. */
  lemma MdNameIsTarget(name: string, oddNames: seq<string>)
    requires StartsWith(name, "$md-")
    ensures ShapekeyIsTarget(name, oddNames)
  {
    assert name[..4][..3] == name[..3];
    assert name[0] == '$';
    NotBasis(name, 0);
  }

  lemma BasenameOf(dir: string, base: string)
    requires forall k :: 0 <= k < |base| ==> base[k] != '/'
    ensures Basename(dir + "/" + base) == base
  {
    var path := dir + "/" + base;
    assert path[|dir|] == '/';
    assert forall k :: |dir| < k < |path| ==> path[k] == base[k - |dir| - 1];
    assert path[|dir| + 1..] == base;
  }

  lemma GzDropped(s: string, gz: string)
    requires Lower(gz) == ".gz"
    ensures DropSuffix(s + gz, ".gz") == s
  {
    var t := s + gz;
    assert t[|t| - 3..] == gz;
  }

  /** A name whose last character lowers to 't' has no ".gz" to drop. */
  lemma NoGz(s: string)
    requires s != [] && LowerChar(s[|s| - 1]) == 't'
    ensures DropSuffix(s, ".gz") == s
  {
    if |s| >= 3 {
      assert s[|s| - 3..][2] == s[|s| - 1];
      LowerAt(s[|s| - 3..], 2);
    }
  }

  lemma TargetDropped(stem: string, suffix: string)
    requires Lower(suffix) == ".target"
    ensures DropTargetSuffix(stem + suffix) == stem
  {
    var t := stem + suffix;
    assert t[|t| - 7..] == suffix;
    LowerAt(suffix, 0);
    LowerAt(suffix, 6);
    if |t| >= 8 {
      LowerAt(t[|t| - 8..], 1);
      assert t[|t| - 8..][1] == suffix[0];
    }
  }

  lemma PtargetDropped(stem: string, suffix: string)
    requires Lower(suffix) == ".ptarget"
    ensures DropTargetSuffix(stem + suffix) == stem
  {
    var t := stem + suffix;
    assert t[|t| - 8..] == suffix;
  }

  /** Lower-case ASCII text is its own lower case. */
  lemma {:induction false} LowerOfLower(s: string)
    requires forall k :: 0 <= k < |s| ==> !('A' <= s[k] <= 'Z')
    ensures Lower(s) == s
  {
    if s != [] {
      LowerOfLower(s[1..]);
    }
  }

  // ---------------------------------------------------------------------------------------
  // .mhm modifier lines
  // ---------------------------------------------------------------------------------------

  /** The target name and weight that one `.mhm` modifier line asks for. */
  datatype Fragment = Fragment(target: string, value: real)

  /** The "neg|pos" term of an opposites entry, as `.mhm` files write it. */
  function MhmTerm(p: (string, string)): (t: string)
    ensures |t| == |p.0| + 1 + |p.1|
  {
    p.0 + "|" + p.1
  }

  function Abs(x: real): real {
    if x < 0.0 then -x else x
  }

  /** Some "neg|pos" term of the remaining entries occurs in the line. */
  predicate AnyTerm(line: string, ops: seq<(string, string)>) {
    exists i :: 0 <= i < |ops| && Contains(line, MhmTerm(ops[i]))
  }

  /** The opposites pass of the translator: a "neg|pos" term that occurs anywhere in the line
      is replaced in the name by `neg`, negating the weight, while the weight is negative, and
      by `pos` otherwise. The first match makes the weight non-negative. */
  function Rewrite(line: string, name: string, weight: real, ops: seq<(string, string)>): (string, real)
    decreases |ops|
  {
    if ops == [] then (name, weight)
    else
      var term := MhmTerm(ops[0]);
      var next := if !Contains(line, term) then (name, weight)
                  else if weight < 0.0 then (Replace(name, term, ops[0].0), -weight)
                  else (Replace(name, term, ops[0].1), weight);
      Rewrite(line, next.0, next.1, ops[1..])
  }

  /** When some "neg|pos" term occurs in the line the weight ends up as its absolute value;
      otherwise name and weight are left as they are. */
  lemma {:induction false} RewriteEffect(line: string, name: string, weight: real, ops: seq<(string, string)>)
    ensures Rewrite(line, name, weight, ops).1 == if AnyTerm(line, ops) then Abs(weight) else weight
    ensures !AnyTerm(line, ops) ==> Rewrite(line, name, weight, ops).0 == name
    decreases |ops|
  {
    if ops != [] {
      var term := MhmTerm(ops[0]);
      var next := if !Contains(line, term) then (name, weight)
                  else if weight < 0.0 then (Replace(name, term, ops[0].0), -weight)
                  else (Replace(name, term, ops[0].1), weight);
      RewriteEffect(line, next.0, next.1, ops[1..]);
      if AnyTerm(line, ops[1..]) {
        var i :| 0 <= i < |ops[1..]| && Contains(line, MhmTerm(ops[1..][i]));
        assert Contains(line, MhmTerm(ops[i + 1]));
      }
      if AnyTerm(line, ops) && !Contains(line, term) {
        var i :| 0 <= i < |ops| && Contains(line, MhmTerm(ops[i]));
        assert i > 0 && ops[1..][i - 1] == ops[i];
      }
    }
  }

  /** The word that replaces a matched "neg|pos" term: `neg` for a negative weight, `pos`
      otherwise. */
  function Word(p: (string, string), weight: real): string {
    if weight < 0.0 then p.0 else p.1
  }

  /** When exactly one entry's term occurs in the line, the name has that term replaced by
      the word the weight's sign picks, and the weight becomes its absolute value. */
  lemma {:induction false} RewriteOne(line: string, name: string, weight: real,
                                      ops: seq<(string, string)>, i: nat)
    requires i < |ops| && Contains(line, MhmTerm(ops[i]))
    requires forall j :: 0 <= j < |ops| && j != i ==> !Contains(line, MhmTerm(ops[j]))
    ensures Rewrite(line, name, weight, ops) == (Replace(name, MhmTerm(ops[i]), Word(ops[i], weight)), Abs(weight))
    decreases |ops|
  {
    forall j | 0 <= j < |ops[1..]| && j + 1 != i
      ensures !Contains(line, MhmTerm(ops[1..][j]))
    {
      assert ops[1..][j] == ops[j + 1];
    }
    if i == 0 {
      var next := (Replace(name, MhmTerm(ops[0]), Word(ops[0], weight)), Abs(weight));
      assert Rewrite(line, name, weight, ops) == Rewrite(line, next.0, next.1, ops[1..]);
      RewriteEffect(line, next.0, next.1, ops[1..]);
    } else {
      assert ops[1..][i - 1] == ops[i];
      RewriteOne(line, name, weight, ops[1..], i - 1);
    }
  }

  /** What follows the first '/', as `name.split("/", 1)` leaves it; the name itself when it
      has none. */
  function AfterSlash(name: string): (r: string)
    ensures EndsWith(name, r)
    ensures r == name <==> forall k :: 0 <= k < |name| ==> name[k] != '/'
  {
    var i := IndexOf(name, '/');
    if i == |name| then name else name[i + 1..]
  }

  /** `translate_mhm_target_line_to_target_fragment` as written: the "modifier " prefix is
      tested for, but the stripped line is discarded, so the line is translated whole. Errors
      carry the exception class. */
  function TranslateAsWritten(line: string): (r: Result<Fragment>)
    ensures IndexOf(line, ' ') == |line| ==> r == Err("ValueError")
    ensures r.Err? ==> r.error == "ValueError"
  {
    if IndexOf(line, ' ') == |line| then Err("ValueError")
    else Weighted(line, WeightText(line))
  }

  /** The text after a line's first blank. */
  function WeightText(line: string): string
    requires IndexOf(line, ' ') < |line|
  {
    line[IndexOf(line, ' ') + 1..]
  }

  /** A line with a blank, given the text after its first blank. */
  function Weighted(line: string, weight: string): (r: Result<Fragment>)
    requires IndexOf(line, ' ') < |line|
    ensures r.Err? <==> ParseReal(weight).None?
    ensures r.Err? ==> r.error == "ValueError"
  {
    match ParseReal(weight)
    case None => Err("ValueError")
    case Some(w) => Ok(Renamed(line[..IndexOf(line, ' ')], line, w))
  }

  /** The fragment of a line's name and weight: the opposites pass, then the directory
      dropped. */
  function Renamed(name: string, line: string, w: real): Fragment {
    var rewritten := Rewrite(line, name, w, Opposites);
    Fragment(AfterSlash(rewritten.0), rewritten.1)
  }

  /** The line once its "modifier " prefix is dropped, as the translator evidently intends. */
  function Unprefixed(line: string): string {
    if StartsWith(line, "modifier ") then Replace(line, "modifier ", "") else line
  }

  /** The translator with the "modifier " prefix dropped. */
  function Translate(line: string): (r: Result<Fragment>)
    ensures !StartsWith(line, "modifier ") ==> r == TranslateAsWritten(line)
    ensures r.Err? ==> r.error == "ValueError"
  {
    TranslateAsWritten(Unprefixed(line))
  }

  /** The translator's loop over the opposites, proved to compute `Rewrite`. */
  method RewriteLoop(line: string, original: string, written: real, ops: seq<(string, string)>)
    returns (name: string, weight: real)
    ensures (name, weight) == Rewrite(line, original, written, ops)
  {
    name, weight := original, written;
    for k := 0 to |ops|
      invariant Rewrite(line, name, weight, ops[k..]) == Rewrite(line, original, written, ops)
    {
      assert ops[k..][1..] == ops[k + 1..];
      var term := MhmTerm(ops[k]);
      if Contains(line, term) {
        if weight < 0.0 {
          name, weight := Replace(name, term, ops[k].0), -weight;
        } else {
          name := Replace(name, term, ops[k].1);
        }
      }
    }
  }

  /** `translate_mhm_target_line_to_target_fragment` with the prefix dropped, proved to
      compute `Translate`. */
  method TranslateMhmTargetLine(mhmLine: string) returns (r: Result<Fragment>)
    ensures r == Translate(mhmLine)
  {
    var line := DropModifier(mhmLine);
    r := TranslateLine(line);
  }

  /** The translator on a line whose prefix is already dealt with. */
  method TranslateLine(line: string) returns (r: Result<Fragment>)
    ensures r == TranslateAsWritten(line)
  {
    if IndexOf(line, ' ') == |line| {
      return Err("ValueError");
    }
    r := TranslateWeighted(line, WeightText(line));
  }

  /** The weight parsed: a failed parse is the error, otherwise the name is rewritten. */
  method TranslateWeighted(line: string, weight: string) returns (r: Result<Fragment>)
    requires IndexOf(line, ' ') < |line|
    ensures r == Weighted(line, weight)
  {
    var parsed := ParseReal(weight);
    if parsed.None? {
      return Err("ValueError");
    }
    var fragment := TranslateName(line[..IndexOf(line, ' ')], line, parsed.value);
    r := Ok(fragment);
  }

  /** The opposites pass over the name, then the directory dropped. */
  method TranslateName(name: string, line: string, w: real) returns (fragment: Fragment)
    ensures fragment == Renamed(name, line, w)
  {
    var rewritten, weight := RewriteLoop(line, name, w, Opposites);
    var target := DropDirectory(rewritten);
    fragment := Fragment(target, weight);
  }

  /** The "modifier " prefix dropped from a line that has it. */
  method DropModifier(mhmLine: string) returns (line: string)
    ensures line == Unprefixed(mhmLine)
  {
    line := mhmLine;
    if StartsWith(line, "modifier ") {
      line := Replace(line, "modifier ", "");
    }
  }

  /** The part of a name after its first '/', when it has one. */
  method DropDirectory(name: string) returns (target: string)
    ensures target == AfterSlash(name)
  {
    target := name;
    if IndexOf(name, '/') < |name| {
      target := name[IndexOf(name, '/') + 1..];
    }
  }

  /** A line without a space, or with a weight `float` rejects, is an error. */
  lemma TranslateErr(mhmLine: string, line: string)
    requires line == Unprefixed(mhmLine)
    requires IndexOf(line, ' ') < |line| ==> ParseReal(WeightText(line)).None?
    ensures Translate(mhmLine) == Err("ValueError")
  {
    if IndexOf(line, ' ') < |line| {
      BadWeightErr(line);
    } else {
      NoBlankErr(line);
    }
  }

  /** A line without a blank is rejected. */
  lemma NoBlankErr(line: string)
    requires IndexOf(line, ' ') == |line|
    ensures TranslateAsWritten(line) == Err("ValueError")
  {
  }

  /** A line whose weight text `float` rejects is rejected. */
  lemma BadWeightErr(line: string)
    requires IndexOf(line, ' ') < |line| && ParseReal(WeightText(line)).None?
    ensures TranslateAsWritten(line) == Err("ValueError")
  {
    WeightedErr(line, WeightText(line));
  }

  /** A weight text `float` rejects is an error. */
  lemma WeightedErr(line: string, weight: string)
    requires IndexOf(line, ' ') < |line| && ParseReal(weight).None?
    ensures Weighted(line, weight) == Err("ValueError")
  {
  }

  /** A line "NAME WEIGHT" whose weight `float` accepts is split at the blank after NAME and
      translated to NAME's fragment. */
  lemma TranslateNamed(name: string, weightText: string, w: real)
    requires Lacks(name, ' ') && !StartsWith(name + " " + weightText, "modifier ")
    requires ParseReal(weightText) == Some(w)
    ensures Translate(name + " " + weightText) == Ok(Renamed(name, name + " " + weightText, w))
  {
    var line := name + " " + weightText;
    IndexOfPrefix(name, ' ', weightText);
    assert line[..|name|] == name;
    assert line[|name| + 1..] == weightText;
  }

  /** A line whose name has a directory does not start with "modifier ". */
  lemma DirectoryLineUnprefixed(dir: string, rest: string)
    requires Lacks(dir, ' ')
    ensures !StartsWith(dir + "/" + rest, "modifier ")
  {
    var line := dir + "/" + rest;
    assert line[|dir|] == '/';
    if |dir| >= 9 {
      assert line[8] == dir[8];
    }
  }

  /** Dropping the directory after a replacement leaves the replaced stem, when neither the
      term nor its word holds a '/'. */
  lemma ReplacedStem(dir: string, stem: string, term: string, word: string)
    requires term != [] && Lacks(dir, '/') && Lacks(term, '/') && Lacks(word, '/')
    ensures AfterSlash(Replace(dir + "/" + stem, term, word)) == Replace(stem, term, word)
  {
    ReplaceAround(dir, '/', stem, term, word);
    ReplaceLacks(dir, '/', term, word);
    var head := Replace(dir, term, word);
    IndexOfPrefix(head, '/', Replace(stem, term, word));
    assert (head + "/" + Replace(stem, term, word))[|head| + 1..] == Replace(stem, term, word);
  }

  /** No word of the opposites table holds a '/'. */
  lemma OppositesLackSlash(i: nat)
    requires i < |Opposites|
    ensures Lacks(Opposites[i].0, '/') && Lacks(Opposites[i].1, '/')
  {
  }

  /** A term lacks any character other than '|' that both its words lack. */
  lemma TermLacks(p: (string, string), c: char)
    requires c != '|' && Lacks(p.0, c) && Lacks(p.1, c)
    ensures Lacks(MhmTerm(p), c)
  {
    var t := MhmTerm(p);
    assert forall k :: 0 <= k < |t| ==> t[k] == if k < |p.0| then p.0[k] else if k == |p.0| then '|' else p.1[k - |p.0| - 1];
  }

  /** The fragment of "DIR/STEM" on a line holding exactly the i-th "neg|pos" term. */
  lemma RenamedOne(dir: string, stem: string, line: string, w: real, i: nat)
    requires Lacks(dir, '/')
    requires i < |Opposites| && Contains(line, MhmTerm(Opposites[i]))
    requires forall j :: 0 <= j < |Opposites| && j != i ==> !Contains(line, MhmTerm(Opposites[j]))
    ensures Renamed(dir + "/" + stem, line, w)
            == Fragment(Replace(stem, MhmTerm(Opposites[i]), Word(Opposites[i], w)), Abs(w))
  {
    RewriteOne(line, dir + "/" + stem, w, Opposites, i);
    OppositesLackSlash(i);
    TermLacks(Opposites[i], '/');
    ReplacedStem(dir, stem, MhmTerm(Opposites[i]), Word(Opposites[i], w));
  }

  /** The fragment of "DIR/STEM" on a line holding no "neg|pos" term. */
  lemma RenamedPlain(dir: string, stem: string, line: string, w: real)
    requires Lacks(dir, '/') && !AnyTerm(line, Opposites)
    ensures Renamed(dir + "/" + stem, line, w) == Fragment(stem, w)
  {
    RewriteEffect(line, dir + "/" + stem, w, Opposites);
    IndexOfPrefix(dir, '/', stem);
    assert (dir + "/" + stem)[|dir| + 1..] == stem;
  }

  /** The translator's main rule, for a line "DIR/STEM WEIGHT" holding exactly one "neg|pos"
      term: the term in the stem becomes `neg` when the weight is negative and `pos` otherwise,
      the weight becomes its absolute value, and the directory is dropped. */
  lemma TranslateOpposite(dir: string, stem: string, weightText: string, w: real, i: nat)
    requires Lacks(dir, '/') && Lacks(dir, ' ') && Lacks(stem, ' ')
    requires ParseReal(weightText) == Some(w)
    requires i < |Opposites| && Contains(dir + "/" + stem + " " + weightText, MhmTerm(Opposites[i]))
    requires forall j :: 0 <= j < |Opposites| && j != i ==>
               !Contains(dir + "/" + stem + " " + weightText, MhmTerm(Opposites[j]))
    ensures Translate(dir + "/" + stem + " " + weightText)
            == Ok(Fragment(Replace(stem, MhmTerm(Opposites[i]), Word(Opposites[i], w)), Abs(w)))
  {
    DirectoryLine(dir, stem, weightText, w);
    RenamedOne(dir, stem, dir + "/" + stem + " " + weightText, w, i);
  }

  /** A line "DIR/STEM WEIGHT" holding no "neg|pos" term translates to STEM and the weight
      as written. */
  lemma TranslatePlain(dir: string, stem: string, weightText: string, w: real)
    requires Lacks(dir, '/') && Lacks(dir, ' ') && Lacks(stem, ' ')
    requires ParseReal(weightText) == Some(w)
    requires !AnyTerm(dir + "/" + stem + " " + weightText, Opposites)
    ensures Translate(dir + "/" + stem + " " + weightText) == Ok(Fragment(stem, w))
  {
    DirectoryLine(dir, stem, weightText, w);
    RenamedPlain(dir, stem, dir + "/" + stem + " " + weightText, w);
  }

  /** A line "DIR/STEM WEIGHT" translates to the fragment of "DIR/STEM". */
  lemma DirectoryLine(dir: string, stem: string, weightText: string, w: real)
    requires Lacks(dir, ' ') && Lacks(stem, ' ')
    requires ParseReal(weightText) == Some(w)
    ensures Translate(dir + "/" + stem + " " + weightText)
            == Ok(Renamed(dir + "/" + stem, dir + "/" + stem + " " + weightText, w))
  {
    DirectoryName(dir, stem);
    DirectoryLineUnprefixed(dir, stem + " " + weightText);
    assert dir + "/" + (stem + " " + weightText) == dir + "/" + stem + " " + weightText;
    TranslateNamed(dir + "/" + stem, weightText, w);
  }

  /** "DIR/STEM" has no blank when neither part has one. */
  lemma DirectoryName(dir: string, stem: string)
    requires Lacks(dir, ' ') && Lacks(stem, ' ')
    ensures Lacks(dir + "/" + stem, ' ')
  {
  }

  /** A line "modifier NAME WEIGHT" translates like "NAME WEIGHT" once the prefix is dropped. */
  lemma ModifierLineTranslated(rest: string)
    requires !Contains(rest, "modifier ")
    ensures Translate("modifier " + rest) == TranslateAsWritten(rest)
  {
    UnprefixedModifier(rest);
  }

  lemma UnprefixedModifier(rest: string)
    requires !Contains(rest, "modifier ")
    ensures Unprefixed("modifier " + rest) == rest
  {
    var line := "modifier " + rest;
    assert line[..9] == "modifier " && line[9..] == rest;
    ReplaceAbsent(rest, "modifier ", "");
  }

  /** As written, a line "modifier NAME WEIGHT" is split after "modifier", and `float` then
      rejects "NAME WEIGHT": every such line is an error. */
  lemma ModifierLineRejected(name: string, weight: string)
    requires name != [] && weight != []
    requires forall k :: 0 <= k < |name| ==> name[k] != ' ' && !IsSpace(name[k])
    requires !IsSpace(weight[|weight| - 1])
    ensures TranslateAsWritten("modifier " + name + " " + weight).Err?
  {
    var line := "modifier " + name + " " + weight;
    assert line[8] == ' ';
    assert forall k :: 0 <= k < 8 ==> line[k] != ' ';
    assert IndexOf(line, ' ') == 8;
    var t := name + " " + weight;
    assert line[9..] == t;
    StripUnchanged(t);
    assert t[|name|] == ' ';
    SpaceDefeatsReal(t, |name|);
  }

  /** `float` rejects text with a space between its first and last characters. */
  lemma SpaceDefeatsReal(t: string, at: nat)
    requires 0 < at < |t| - 1 && t[at] == ' '
    requires !IsSpace(t[0]) && !IsSpace(t[|t| - 1])
    ensures ParseReal(t) == None
  {
    StripUnchanged(t);
    var (neg, body) := Unsigned(t);
    var j := if body == t then at else at - 1;
    assert body[j] == ' ';
    var dot := IndexOf(body, '.');
    if j < dot {
      assert body[..dot][j] == ' ';
    } else if dot < |body| {
      assert body[dot + 1..][j - dot - 1] == ' ';
    }
  }
}
