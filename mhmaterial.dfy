/** MakeHuman material settings (src/mpfb/entities/material/mhmaterial.py): an `MhMaterial`
    holds the settings read from a `.mhmat` file or handed over by MakeHuman, answers lookups
    and writes the settings back out as `.mhmat` text.

    The key table (`MHMAT_NAME_TO_KEY`, `MHMAT_KEY_GROUPS`, `parse_alias`) and the key
    objects' own parsing and printing live in a module this model does not include; they
    are the `KeyTable` parameter, the key objects' functions being uninterpreted functions
    in it. */
module Mhmat {
  import opened Wrappers
  import opened Text

  // ---------------------------------------------------------------------------------------
  // Values and the settings dictionary
  // ---------------------------------------------------------------------------------------

  /** A setting's value, as the key objects parse it or MakeHuman sends it: None, a string,
      a number, a boolean, a colour or vector, or a shader parameter (name, argument). */
  datatype Value = Null | Str(s: string) | Number(x: real) | Flag(b: bool) | Vector(xs: seq<real>)
                 | Param(name: string, arg: string)

  /** Python truthiness of a value. */
  predicate Truthy(v: Value) {
    match v
    case Null => false
    case Str(s) => s != []
    case Number(x) => x != 0.0
    case Flag(b) => b
    case Vector(xs) => xs != []
    case Param(_, _) => true
  }

  /** A dictionary in insertion order. */
  type Settings = seq<(string, Value)>

  /** `d.get(k)`: the value under `k`, None when the key is absent. */
  function Get<V>(d: seq<(string, V)>, k: string): (r: Option<V>)
    ensures r.None? <==> forall i :: 0 <= i < |d| ==> d[i].0 != k
    decreases |d|
  {
    if d == [] then None
    else if d[0].0 == k then Some(d[0].1)
    else
      var r := Get(d[1..], k);
      assert forall i :: 1 <= i < |d| ==> d[i] == d[1..][i - 1];
      r
  }

  /** The slot of `k` in the dictionary, `|d|` when it has none. */
  function Slot(d: Settings, k: string): (i: nat)
    ensures i <= |d| && (i < |d| ==> d[i].0 == k)
    ensures forall j :: 0 <= j < i ==> d[j].0 != k
    decreases |d|
  {
    if d == [] || d[0].0 == k then 0
    else
      var i := 1 + Slot(d[1..], k);
      assert forall j :: 1 <= j < i ==> d[j] == d[1..][j - 1];
      i
  }

  /** `d[k] = v`: an existing key keeps its slot and only its value changes, a new key goes
      last; every other key keeps its value. */
  function Put(d: Settings, k: string, v: Value): (r: Settings)
    ensures Get(r, k) == Some(v)
    ensures forall j :: j != k ==> Get(r, j) == Get(d, j)
    decreases |d|
  {
    if d == [] then [(k, v)]
    else if d[0].0 == k then [(k, v)] + d[1..]
    else
      var r := [d[0]] + Put(d[1..], k, v);
      assert r[1..] == Put(d[1..], k, v);
      r
  }

  /** A new key goes last. */
  lemma {:induction false} PutNew(d: Settings, k: string, v: Value)
    requires Slot(d, k) == |d|
    ensures Put(d, k, v) == d + [(k, v)]
    decreases |d|
  {
    if d != [] {
      PutNew(d[1..], k, v);
      assert d == [d[0]] + d[1..];
    }
  }

  /** An existing key keeps its slot, and every other entry keeps its place. Together with
      `PutNew` this is the order the value scans depend on. */
  lemma {:induction false} PutExisting(d: Settings, k: string, v: Value)
    requires Slot(d, k) < |d|
    ensures Put(d, k, v) == d[..Slot(d, k)] + [(k, v)] + d[Slot(d, k) + 1..]
    decreases |d|
  {
    if d[0].0 != k {
      PutExisting(d[1..], k, v);
      assert Slot(d, k) == Slot(d[1..], k) + 1;
      assert Put(d, k, v) == [d[0]] + Put(d[1..], k, v);
      assert d == [d[0]] + d[1..];
      Splice(d[0], d[1..], Slot(d[1..], k), (k, v));
    } else {
      assert Slot(d, k) == 0;
    }
  }

  /** Replacing the entry at `i` commutes with putting an entry in front. */
  lemma Splice(x: (string, Value), rest: Settings, i: nat, e: (string, Value))
    requires i < |rest|
    ensures [x] + (rest[..i] + [e] + rest[i + 1..]) == ([x] + rest)[..i + 1] + [e] + ([x] + rest)[i + 2..]
  {
    assert ([x] + rest)[..i + 1] == [x] + rest[..i];
    assert ([x] + rest)[i + 2..] == rest[i + 1..];
  }

  // ---------------------------------------------------------------------------------------
  // The key table
  // ---------------------------------------------------------------------------------------

  /** A key object: its canonical name, the group `as_mhmat` lists it under, and whether it
      names a file (an `MhMatFileKey`, parsed relative to the material's location). */
  datatype MatKey = MatKey(name: string, group: string, isFile: bool)

  /** `MHMAT_NAME_TO_KEY` as (lower-case name, key) pairs in dictionary order,
      `MHMAT_KEY_GROUPS`, the aliases `parse_alias` resolves, and the key objects' `parse`,
      `parse_file` and `as_string`, each given the canonical key name. */
  datatype KeyTable = KeyTable(entries: seq<(string, MatKey)>, groups: seq<string>,
                               aliases: map<string, string>,
                               parse: (string, string) -> Value,
                               parseFile: (string, string, string) -> Value,
                               asString: (string, Value) -> string)

  /** `parse_alias`. */
  function Alias(t: KeyTable, key: string): string {
    if key in t.aliases then t.aliases[key] else key
  }

  // ---------------------------------------------------------------------------------------
  // _parse_material_line
  // ---------------------------------------------------------------------------------------

  /** The length of the run of ASCII letters that starts `s`. */
  function LetterRun(s: string): (n: nat)
    ensures n <= |s| && (forall k :: 0 <= k < n ==> IsAsciiLetter(s[k]))
    ensures n < |s| ==> !IsAsciiLetter(s[n])
  {
    if s != [] && IsAsciiLetter(s[0]) then
      var n := 1 + LetterRun(s[1..]);
      assert forall k :: 1 <= k < n ==> s[k] == s[1..][k - 1];
      n
    else 0
  }

  /** The length of the run of whitespace that starts `s`. */
  function SpaceRun(s: string): (n: nat)
    ensures n <= |s| && (forall k :: 0 <= k < n ==> IsSpace(s[k]))
    ensures n < |s| ==> !IsSpace(s[n])
  {
    if s != [] && IsSpace(s[0]) then
      var n := 1 + SpaceRun(s[1..]);
      assert forall k :: 1 <= k < n ==> s[k] == s[1..][k - 1];
      n
    else 0
  }

  /** `(.*)$`: no line feed before the last character. */
  predicate RestOfLine(s: string) {
    forall k :: 0 <= k < |s| - 1 ==> s[k] != '\n'
  }

  /** The key of a line matching `^([a-zA-Z]+)\s+(.*)$`, None when it does not match: the
      letters that start the line, followed by whitespace, followed by the rest of a single
      line. */
  function KeyOf(line: string): (r: Option<string>)
    ensures r.Some? ==> && r.value != [] && |r.value| < |line| && line[..|r.value|] == r.value
                        && (forall k :: 0 <= k < |r.value| ==> IsAsciiLetter(r.value[k]))
                        && IsSpace(line[|r.value|])
  {
    var n := LetterRun(line);
    var rest := line[n..];
    var w := SpaceRun(rest);
    if n > 0 && w > 0 && RestOfLine(rest[w..]) then Some(line[..n]) else None
  }

  /** Any line with no line feed before its end whose first word is ASCII letters followed by
      whitespace is a key line, keyed by that word. */
  lemma KeyOfLine(key: string, rest: string)
    requires key != [] && forall k :: 0 <= k < |key| ==> IsAsciiLetter(key[k])
    requires rest != [] && IsSpace(rest[0]) && RestOfLine(rest)
    ensures KeyOf(key + rest) == Some(key)
  {
    var line := key + rest;
    LetterRunOf(key, rest);
    assert line[|key|..] == rest;
    var w := SpaceRun(rest);
    assert RestOfLine(rest[w..]) by {
      forall k | 0 <= k < |rest[w..]| - 1 ensures rest[w..][k] != '\n' {
        assert rest[w..][k] == rest[w + k];
      }
    }
    assert line[..|key|] == key;
  }

  lemma {:induction false} LetterRunOf(key: string, rest: string)
    requires forall k :: 0 <= k < |key| ==> IsAsciiLetter(key[k])
    requires rest == [] || !IsAsciiLetter(rest[0])
    ensures LetterRun(key + rest) == |key|
    decreases |key|
  {
    if key == [] {
      assert key + rest == rest;
    } else {
      assert (key + rest)[1..] == key[1..] + rest;
      LetterRunOf(key[1..], rest);
    }
  }

  /** The first word of a "shader_config" line ends at '_', which is not whitespace, so the
      line is not a key line and changes nothing. */
  lemma ShaderConfigLineIgnored(s: Settings, rest: string, t: KeyTable, location: Option<string>)
    ensures KeyOf("shader_config" + rest) == None
    ensures ParseLine(s, "shader_config" + rest, t, location) == Ok(s)
  {
    ShaderConfigKeyless(rest);
  }

  /** A "shader_config" line has no key. */
  lemma ShaderConfigKeyless(rest: string)
    ensures KeyOf("shader_config" + rest) == None
  {
    var line := "shader_config" + rest;
    assert line == "shader" + ("_config" + rest);
    LetterRunOf("shader", "_config" + rest);
    assert line[6..][0] == '_';
  }

  /** What `litspheres/(.*)\.png$` captures: `$` also matches before a final line feed,
      and `.` never matches a line feed. */
  function LitsphereName(arg: string): Option<string> {
    var t := if arg != [] && arg[|arg| - 1] == '\n' then arg[..|arg| - 1] else arg;
    if |t| >= 15 && t[..11] == "litspheres/" && t[|t| - 4..] == ".png"
       && forall k :: 11 <= k < |t| - 4 ==> t[k] != '\n'
    then Some(t[11..|t| - 4])
    else None
  }

  /** The litsphere texture of "litspheres/NAME.png" is NAME. */
  lemma LitsphereNameOf(name: string)
    requires forall k :: 0 <= k < |name| ==> name[k] != '\n'
    ensures LitsphereName("litspheres/" + name + ".png") == Some(name)
  {
    var t := "litspheres/" + name + ".png";
    assert t[|t| - 1] == 'g';
    assert t[..11] == "litspheres/";
    assert t[|t| - 4..] == ".png";
    assert forall k :: 11 <= k < |t| - 4 ==> t[k] == name[k - 11];
    assert t[11..|t| - 4] == name;
  }

  /** The `tag` branch: a truthy tag already stored gets ", " and the new tag appended;
      otherwise the new value is stored. Appending anything but a string to a string is a
      TypeError. */
  function AddTag(d: Settings, value: Value): Result<Settings> {
    var stored := Get(d, "tag");
    if stored.Some? && Truthy(stored.value) then
      if stored.value.Str? && value.Str? then Ok(Put(d, "tag", Str(stored.value.s + ", " + value.s)))
      else Err("TypeError")
    else Ok(Put(d, "tag", value))
  }

  /** The `shaderParam` branch: only a `litsphereTexture` parameter whose argument names a
      litsphere image is kept, under "litsphereTexture". Indexing an empty value is an
      IndexError, and indexing None, a number or a boolean a TypeError. */
  function ShaderParam(d: Settings, value: Value): Result<Settings> {
    match value
    case Param(name, arg) =>
      if name == "litsphereTexture" && LitsphereName(arg).Some? then
        Ok(Put(d, "litsphereTexture", Str(LitsphereName(arg).value)))
      else Ok(d)
    case Str(s) => if s == [] then Err("IndexError") else Ok(d)
    case Vector(xs) => if xs == [] then Err("IndexError") else Ok(d)
    case _ => Err("TypeError")
  }

  /** Where a parsed value goes: tags accumulate, shader parameters are filtered, every
      other key is overwritten. */
  function Store(d: Settings, key: string, value: Value): (r: Result<Settings>)
    ensures r.Err? ==> r.error == "TypeError" || r.error == "IndexError"
  {
    if key == "tag" then AddTag(d, value)
    else if key == "shaderParam" then ShaderParam(d, value)
    else Ok(Put(d, key, value))
  }

  /** The line the key object parses: the original key replaced by the canonical one. */
  function Patched(line: string, orig: string, key: string): string
    requires orig != []
  {
    if key != orig then Replace(line, orig, key) else line
  }

  /** The settings after `_parse_material_line(line)`. `location` is the directory of the
      file being read, None before any file is read. Lines that are not key lines, those
      starting with "shader" among them, change nothing. */
  function ParseLine(d: Settings, line: string, t: KeyTable, location: Option<string>): (r: Result<Settings>)
    ensures KeyOf(line).None? ==> r == Ok(d)
    ensures r.Err? ==> r.error == "AttributeError" || r.error == "TypeError" || r.error == "IndexError"
  {
    match KeyOf(line)
    case None => Ok(d)
    case Some(orig) =>
      var key := Alias(t, orig);
      match Get(t.entries, Lower(key))
      case None => Store(d, key, Null)
      case Some(mk) =>
        var patched := Patched(line, orig, mk.name);
        if !mk.isFile then Store(d, mk.name, t.parse(mk.name, patched))
        else if location.None? then Err("AttributeError")
        else Store(d, mk.name, t.parseFile(mk.name, patched, location.value))
  }

  /** A key the table knows, in whatever case the line writes it, is stored under the
      table's spelling, with the value its key object parses from the line rewritten to
      that spelling (a file key parses it relative to the location); no other key changes.
      A file key read before any location is set raises AttributeError. */
  lemma CanonicalKeyStored(d: Settings, line: string, t: KeyTable, location: Option<string>,
                           orig: string, mk: MatKey)
    requires KeyOf(line) == Some(orig)
    requires Get(t.entries, Lower(Alias(t, orig))) == Some(mk)
    requires mk.name != "tag" && mk.name != "shaderParam"
    ensures StartsWith(Patched(line, orig, mk.name), mk.name)
    ensures mk.isFile && location.None? ==> ParseLine(d, line, t, location) == Err("AttributeError")
    ensures !mk.isFile ==> ParseLine(d, line, t, location)
                           == Ok(Put(d, mk.name, t.parse(mk.name, Patched(line, orig, mk.name))))
    ensures mk.isFile && location.Some? ==>
              ParseLine(d, line, t, location)
              == Ok(Put(d, mk.name, t.parseFile(mk.name, Patched(line, orig, mk.name), location.value)))
  {
    if mk.name != orig {
      ReplaceAtStart(line, orig, mk.name);
    }
  }

  lemma ReplaceAtStart(line: string, orig: string, key: string)
    requires orig != [] && |orig| <= |line| && line[..|orig|] == orig
    ensures StartsWith(Replace(line, orig, key), key)
  {
    assert Replace(line, orig, key) == key + Replace(line[|orig|..], orig, key);
  }

  /** A key the table does not know is stored as None, unless it is "tag" or
      "shaderParam". */
  lemma UnknownKeyStoredAsNone(d: Settings, line: string, t: KeyTable, location: Option<string>, orig: string)
    requires KeyOf(line) == Some(orig)
    requires Get(t.entries, Lower(Alias(t, orig))).None?
    requires Alias(t, orig) != "tag" && Alias(t, orig) != "shaderParam"
    ensures ParseLine(d, line, t, location) == Ok(Put(d, Alias(t, orig), Null))
    ensures Get(ParseLine(d, line, t, location).value, Alias(t, orig)) == Some(Null)
  {
  }

  /** Successive tags, as `AddTag` accumulates them. */
  function AddTags(d: Settings, tags: seq<string>): Result<Settings>
    decreases |tags|
  {
    if tags == [] then Ok(d)
    else match AddTags(d, tags[..|tags| - 1])
      case Err(e) => Err(e)
      case Ok(d') => AddTag(d', Str(tags[|tags| - 1]))
  }

  /** Tags joined by ", ", first tag first. */
  function JoinTags(tags: seq<string>): string
    requires tags != []
    decreases |tags|
  {
    if |tags| == 1 then tags[0] else JoinTags(tags[..|tags| - 1]) + ", " + tags[|tags| - 1]
  }

  /** Starting from no tag, non-empty tags accumulate as "a, b, …" and nothing else
      changes. */
  lemma {:induction false} TagsAccumulate(d: Settings, tags: seq<string>)
    requires Get(d, "tag").None? || !Truthy(Get(d, "tag").value)
    requires tags != [] && forall i :: 0 <= i < |tags| ==> tags[i] != []
    ensures AddTags(d, tags).Ok?
    ensures Get(AddTags(d, tags).value, "tag") == Some(Str(JoinTags(tags)))
    ensures forall j :: j != "tag" ==> Get(AddTags(d, tags).value, j) == Get(d, j)
    decreases |tags|
  {
    if |tags| > 1 {
      var init := tags[..|tags| - 1];
      TagsAccumulate(d, init);
    } else {
      assert AddTags(d, tags[..0]) == Ok(d);
    }
  }

  /** A litsphere shader parameter stores its texture name; any other parameter name leaves
      the settings as they are. */
  lemma ShaderParamLitsphere(d: Settings, name: string, other: string, arg: string)
    requires forall k :: 0 <= k < |name| ==> name[k] != '\n'
    requires other != "litsphereTexture"
    ensures ShaderParam(d, Param("litsphereTexture", "litspheres/" + name + ".png"))
            == Ok(Put(d, "litsphereTexture", Str(name)))
    ensures ShaderParam(d, Param(other, arg)) == Ok(d)
  {
    LitsphereNameOf(name);
  }

  // ---------------------------------------------------------------------------------------
  // populate_from_mhmat
  // ---------------------------------------------------------------------------------------

  /** The lines `readline` returns one after another: each ends with its line feed, except
      a last line without one. None is empty, so the reading loop sees them all. */
  function ReadLines(text: string): (lines: seq<string>)
    ensures forall i :: 0 <= i < |lines| ==> lines[i] != []
    decreases |text|
  {
    if text == [] then []
    else
      var i := IndexOf(text, '\n');
      if i == |text| then [text]
      else
        var rest := ReadLines(text[i + 1..]);
        var lines := [text[..i + 1]] + rest;
        assert forall j :: 1 <= j < |lines| ==> lines[j] == rest[j - 1];
        lines
  }

  function Concat(lines: seq<string>): string {
    if lines == [] then "" else lines[0] + Concat(lines[1..])
  }

  /** Reading line by line sees the whole text, and only the last line may lack a line
      feed. */
  lemma {:induction false} ReadLinesCoverText(text: string)
    ensures Concat(ReadLines(text)) == text
    ensures forall i :: 0 <= i < |ReadLines(text)| ==> RestOfLine(ReadLines(text)[i])
    decreases |text|
  {
    if text != [] {
      var i := IndexOf(text, '\n');
      if i == |text| {
        assert RestOfLine(text);
      } else {
        ReadLinesCoverText(text[i + 1..]);
        assert text[..i + 1] + text[i + 1..] == text;
        var lines := ReadLines(text);
        assert RestOfLine(text[..i + 1]);
        forall j | 1 <= j < |lines| ensures RestOfLine(lines[j]) {
          assert lines[j] == ReadLines(text[i + 1..])[j - 1];
        }
      }
    }
  }

  /** The filter of the reading loop: a line goes to the parser when its stripped form is
      non-empty and starts with neither '#' nor '/'. */
  predicate Handed(line: string) {
    var parsed := Strip(line);
    parsed != [] && !StartsWith(parsed, "#") && !StartsWith(parsed, "/")
  }

  /** The settings after the reading loop has handed `lines` to the parser; the first error
      stops it. */
  function Populated(d: Settings, lines: seq<string>, t: KeyTable, location: Option<string>): Result<Settings>
    decreases |lines|
  {
    if lines == [] then Ok(d)
    else if !Handed(lines[0]) then Populated(d, lines[1..], t, location)
    else match ParseLine(d, lines[0], t, location)
      case Err(e) => Err(e)
      case Ok(d') => Populated(d', lines[1..], t, location)
  }

  /** Blank lines and comment lines ("#…", "//…") have no effect wherever they stand. */
  lemma {:induction false} CommentLinesIgnored(d: Settings, before: seq<string>, comment: string,
                                               after: seq<string>, t: KeyTable, location: Option<string>)
    requires !Handed(comment)
    ensures Populated(d, before + [comment] + after, t, location) == Populated(d, before + after, t, location)
    decreases |before|
  {
    if before == [] {
      assert before + [comment] + after == [comment] + after;
      assert ([comment] + after)[1..] == after;
      assert before + after == after;
    } else {
      assert (before + [comment] + after)[0] == before[0];
      assert (before + [comment] + after)[1..] == before[1..] + [comment] + after;
      assert (before + after)[0] == before[0];
      assert (before + after)[1..] == before[1..] + after;
      if Handed(before[0]) {
        match ParseLine(d, before[0], t, location)
        case Err(e) =>
        case Ok(d') => CommentLinesIgnored(d', before[1..], comment, after, t, location);
      } else {
        CommentLinesIgnored(d, before[1..], comment, after, t, location);
      }
    }
  }

  // ---------------------------------------------------------------------------------------
  // _populate
  // ---------------------------------------------------------------------------------------

  /** `str(v).strip()` is non-empty: only a blank string prints as blank. */
  predicate NonBlank(v: Value) {
    match v
    case Str(s) => Strip(s) != []
    case _ => true
  }

  /** Whether `_populate` reads the material file instead of copying the settings. */
  predicate LoadsFile(info: Settings, loadMhmat: bool) {
    Get(info, "materialFile").Some? && NonBlank(Get(info, "materialFile").value) && loadMhmat
  }

  /** The settings with every entry of `info` except "materialFile" copied in. */
  function Copied(d: Settings, info: Settings): Settings
    decreases |info|
  {
    if info == [] then d
    else Copied(if info[0].0 != "materialFile" then Put(d, info[0].0, info[0].1) else d, info[1..])
  }

  /** Keys of a dictionary are distinct. */
  predicate DistinctKeys(info: Settings) {
    forall i, j :: 0 <= i < j < |info| ==> info[i].0 != info[j].0
  }

  /** Copying gives every key of `info` but "materialFile" the value `info` has for it, and
      leaves the other keys, "materialFile" among them, as they were. */
  lemma {:induction false} CopiedValues(d: Settings, info: Settings, k: string)
    requires DistinctKeys(info)
    ensures Get(Copied(d, info), k) == if k != "materialFile" && Get(info, k).Some? then Get(info, k) else Get(d, k)
    decreases |info|
  {
    if info != [] {
      var next := if info[0].0 != "materialFile" then Put(d, info[0].0, info[0].1) else d;
      assert DistinctKeys(info[1..]) by {
        forall i, j | 0 <= i < j < |info[1..]| ensures info[1..][i].0 != info[1..][j].0 {
          assert info[1..][i] == info[i + 1] && info[1..][j] == info[j + 1];
        }
      }
      CopiedValues(next, info[1..], k);
      if info[0].0 == k {
        assert forall i :: 0 <= i < |info[1..]| ==> info[1..][i].0 != k by {
          forall i | 0 <= i < |info[1..]| ensures info[1..][i].0 != k {
            assert info[1..][i] == info[i + 1];
          }
        }
      }
    }
  }

  // ---------------------------------------------------------------------------------------
  // get_value
  // ---------------------------------------------------------------------------------------

  /** The name a case-insensitive lookup compares: lowered, then stripped. */
  function Loose(name: string): string {
    Strip(Lower(name))
  }

  /** The first truthy value whose key loosely equals `requested`, None when there is none. */
  function FirstLoose(d: Settings, requested: string): (r: Value)
    ensures r == Null || Truthy(r)
    ensures r == Null <==> forall i :: 0 <= i < |d| ==> !LooseHit(d[i], requested)
    decreases |d|
  {
    if d == [] then Null
    else if LooseHit(d[0], requested) then d[0].1
    else
      var r := FirstLoose(d[1..], requested);
      assert forall i :: 1 <= i < |d| ==> d[i] == d[1..][i - 1];
      r
  }

  /** An entry a case-insensitive lookup of `requested` accepts. */
  predicate LooseHit(entry: (string, Value), requested: string) {
    Loose(entry.0) == requested && Truthy(entry.1)
  }

  /** The case-insensitive scan answers with the first entry it accepts. */
  lemma {:induction false} FirstLooseIsFirst(d: Settings, requested: string, i: nat)
    requires i < |d| && LooseHit(d[i], requested)
    requires forall j :: 0 <= j < i ==> !LooseHit(d[j], requested)
    ensures FirstLoose(d, requested) == d[i].1
    decreases i
  {
    if i > 0 {
      assert forall j :: 0 <= j < i - 1 ==> d[1..][j] == d[j + 1];
      FirstLooseIsFirst(d[1..], requested, i - 1);
    }
  }

  /** `get_value`: the value under the exact name if it is truthy; otherwise, when
      `caseInsensitive`, the first truthy value under a loosely equal name; otherwise None.
      A falsy value counts as absent. */
  function ValueOf(d: Settings, name: string, caseInsensitive: bool): (r: Value)
    ensures r == Null || Truthy(r)
    ensures Get(d, name).Some? && Truthy(Get(d, name).value) ==> r == Get(d, name).value
    ensures !(Get(d, name).Some? && Truthy(Get(d, name).value)) ==>
      r == if caseInsensitive then FirstLoose(d, Loose(name)) else Null
  {
    var exact := Get(d, name);
    if exact.Some? && Truthy(exact.value) then exact.value
    else if caseInsensitive then FirstLoose(d, Loose(name))
    else Null
  }

  // ---------------------------------------------------------------------------------------
  // as_mhmat
  // ---------------------------------------------------------------------------------------

  const Preamble: string := "# This is a material for MakeHuman or MPFB\n"
  const ShaderHeading: string := "\n// Shader properties (only affects how things look in MakeHuman)\n\n"
  const UnsetHeading: string :=
    "\n// The following settings would also have been valid, but do currently not have a value\n//\n"

  function GroupHeading(group: string): string {
    "\n// " + group + "\n\n"
  }

  /** One "tag" line per comma-separated part, stripped. */
  function TagLines(parts: seq<string>): string
    decreases |parts|
  {
    if parts == [] then "" else TagLines(parts[..|parts| - 1]) + "tag " + Strip(parts[|parts| - 1]) + "\n"
  }

  /** Whether a key counts as set: present and not None. */
  predicate IsSet(d: Settings, name: string) {
    Get(d, name).Some? && !Get(d, name).value.Null?
  }

  /** The lines written for one key of the table: nothing when it is not set, a line per tag
      for "tag" (whose value must be a string to split), else "name value". */
  function KeyText(d: Settings, mk: MatKey, t: KeyTable): Result<string> {
    if !IsSet(d, mk.name) then Ok("")
    else
      var v := Get(d, mk.name).value;
      if mk.name == "tag" then
        if v.Str? then Ok(TagLines(Split(v.s, ','))) else Err("AttributeError")
      else Ok(mk.name + " " + t.asString(mk.name, v) + "\n")
  }

  /** `acc` followed by the lines of the keys of `group`, in table order. */
  function GroupBody(d: Settings, entries: seq<(string, MatKey)>, group: string, t: KeyTable, acc: string)
    : Result<string>
    decreases |entries|
  {
    if entries == [] then Ok(acc)
    else if entries[0].1.group != group then GroupBody(d, entries[1..], group, t, acc)
    else match KeyText(d, entries[0].1, t)
      case Err(e) => Err(e)
      case Ok(lines) => GroupBody(d, entries[1..], group, t, acc + lines)
  }

  /** `acc` followed by a section per group: its heading and its keys. */
  function Sections(d: Settings, groups: seq<string>, t: KeyTable, acc: string): Result<string>
    decreases |groups|
  {
    if groups == [] then Ok(acc)
    else match GroupBody(d, t.entries, groups[0], t, acc + GroupHeading(groups[0]))
      case Err(e) => Err(e)
      case Ok(a) => Sections(d, groups[1..], t, a)
  }

  /** The table's keys that are not set, in table order. */
  function UnsetNames(d: Settings, entries: seq<(string, MatKey)>): seq<string>
    decreases |entries|
  {
    if entries == [] then []
    else
      var name := entries[|entries| - 1].1.name;
      UnsetNames(d, entries[..|entries| - 1]) + (if IsSet(d, name) then [] else [name])
  }

  /** A "// name" comment line per name. */
  function Comments(names: seq<string>): string
    decreases |names|
  {
    if names == [] then "" else Comments(names[..|names| - 1]) + "// " + names[|names| - 1] + "\n"
  }

  /** The text `as_mhmat` writes. The shader section stays empty: this file never fills the
      litsphere and shader configuration it would list there. */
  function MhmatText(d: Settings, t: KeyTable): Result<string> {
    match Sections(d, t.groups, t, Preamble)
    case Err(e) => Err(e)
    case Ok(body) => Ok(body + ShaderHeading + UnsetHeading + Comments(UnsetNames(d, t.entries)))
  }

  /** The trailing section lists a name exactly when a key of the table has that name and is
      missing from the settings or None. */
  lemma {:induction false} UnsetListed(d: Settings, entries: seq<(string, MatKey)>, name: string)
    ensures name in UnsetNames(d, entries) <==>
      (exists i :: 0 <= i < |entries| && entries[i].1.name == name) && !IsSet(d, name)
    decreases |entries|
  {
    if entries != [] {
      UnsetListed(d, entries[..|entries| - 1], name);
      NamedSnoc(entries, name);
    }
  }

  predicate HasName(entries: seq<(string, MatKey)>, name: string) {
    exists i :: 0 <= i < |entries| && entries[i].1.name == name
  }

  /** A name is among the entries when it is among all but the last, or is the last's. */
  lemma NamedSnoc(entries: seq<(string, MatKey)>, name: string)
    requires entries != []
    ensures HasName(entries, name) <==>
      HasName(entries[..|entries| - 1], name) || entries[|entries| - 1].1.name == name
  {
    var init := entries[..|entries| - 1];
    if exists i :: 0 <= i < |entries| && entries[i].1.name == name {
      var i :| 0 <= i < |entries| && entries[i].1.name == name;
      if i < |init| {
        assert init[i].1.name == name;
      }
    }
    if exists i :: 0 <= i < |init| && init[i].1.name == name {
      var i :| 0 <= i < |init| && init[i].1.name == name;
      assert entries[i] == init[i];
    }
  }

  /** One "tag" line per tag. */
  function TagBlock(tags: seq<string>): string
    decreases |tags|
  {
    if tags == [] then "" else TagBlock(tags[..|tags| - 1]) + "tag " + tags[|tags| - 1] + "\n"
  }

  /** A tag as a `.mhmat` line writes it: non-empty, without ',', line feeds or surrounding
      whitespace. */
  predicate PlainTag(tag: string) {
    && tag != [] && !IsSpace(tag[0]) && !IsSpace(tag[|tag| - 1])
    && forall k :: 0 <= k < |tag| ==> tag[k] != ','
  }

  /** Tags read one line each and accumulated into "a, b, …" are written back one "tag"
      line each, in the order they were read. */
  lemma TagsRoundTrip(d: Settings, tags: seq<string>, t: KeyTable, mk: MatKey)
    requires Get(d, "tag").None? || !Truthy(Get(d, "tag").value)
    requires tags != [] && forall i :: 0 <= i < |tags| ==> PlainTag(tags[i])
    requires mk.name == "tag"
    ensures AddTags(d, tags).Ok?
    ensures KeyText(AddTags(d, tags).value, mk, t) == Ok(TagBlock(tags))
  {
    TagsAccumulate(d, tags);
    SplitTags(tags);
  }

  /** Splitting "a, b, …" at ',' and stripping each part gives the tags back. */
  lemma {:induction false} SplitTags(tags: seq<string>)
    requires tags != [] && forall i :: 0 <= i < |tags| ==> PlainTag(tags[i])
    ensures TagLines(Split(JoinTags(tags), ',')) == TagBlock(tags)
    decreases |tags|
  {
    if |tags| == 1 {
      SplitOneTag(tags);
    } else {
      var init, last := tags[..|tags| - 1], tags[|tags| - 1];
      SplitTags(init);
      assert tags == init + [last];
      SplitLastTag(init, last);
    }
  }

  lemma SplitOneTag(tags: seq<string>)
    requires |tags| == 1 && PlainTag(tags[0])
    ensures TagLines(Split(JoinTags(tags), ',')) == TagBlock(tags)
  {
    var tag := tags[0];
    StripUnchanged(tag);
    SplitNone(tag, ',');
    assert TagLines([tag]) == TagLines([]) + "tag " + Strip(tag) + "\n";
    assert tags[..0] == [];
  }

  /** The step of `SplitTags`: the last tag, after ", ", splits off as one more part. */
  lemma SplitLastTag(init: seq<string>, last: string)
    requires init != [] && PlainTag(last)
    requires TagLines(Split(JoinTags(init), ',')) == TagBlock(init)
    ensures TagLines(Split(JoinTags(init + [last]), ',')) == TagBlock(init + [last])
  {
    var joined := JoinTags(init);
    JoinTagsSnoc(init, last);
    SplitAppend(joined, ',', " " + last);
    SplitNone(" " + last, ',');
    TagLinesSnoc(Split(joined, ','), " " + last);
    StripSpaceThen(last);
    TagBlockSnoc(init, last);
  }

  lemma JoinTagsSnoc(init: seq<string>, last: string)
    requires init != []
    ensures JoinTags(init + [last]) == JoinTags(init) + [','] + (" " + last)
  {
    assert (init + [last])[..|init|] == init;
  }

  lemma TagLinesSnoc(parts: seq<string>, part: string)
    ensures TagLines(parts + [part]) == TagLines(parts) + "tag " + Strip(part) + "\n"
  {
    assert (parts + [part])[..|parts|] == parts;
  }

  lemma TagBlockSnoc(tags: seq<string>, tag: string)
    ensures TagBlock(tags + [tag]) == TagBlock(tags) + "tag " + tag + "\n"
  {
    assert (tags + [tag])[..|tags|] == tags;
  }

  lemma StripSpaceThen(tag: string)
    requires tag != [] && !IsSpace(tag[0]) && !IsSpace(tag[|tag| - 1])
    ensures Strip(" " + tag) == tag
  {
    assert (" " + tag)[1..] == tag;
    StripUnchanged(tag);
  }

  /** Splitting at a separator that joins two texts splits each of them. */
  lemma {:induction false} SplitAppend(a: string, c: char, b: string)
    ensures Split(a + [c] + b, c) == Split(a, c) + Split(b, c)
    decreases |a|
  {
    var i := IndexOf(a, c);
    if i == |a| {
      SplitWhole(a, c, b);
    } else {
      var a1, a2 := a[..i], a[i + 1..];
      SplitAt(a, c, b, i);
      SplitAppend(a2, c, b);
      Regroup(a1, Split(a2, c), Split(b, c));
    }
  }

  /** Without a separator in `a`, `a` is the first part. */
  lemma SplitWhole(a: string, c: char, b: string)
    requires IndexOf(a, c) == |a|
    ensures Split(a + [c] + b, c) == Split(a, c) + Split(b, c)
  {
    SplitFirst(a, c, b);
    SplitNone(a, c);
  }

  lemma Regroup(x: string, ys: seq<string>, zs: seq<string>)
    ensures [x] + (ys + zs) == [x] + ys + zs
  {
  }

  /** Both texts split first at the first separator of `a`. */
  lemma SplitAt(a: string, c: char, b: string, i: nat)
    requires i == IndexOf(a, c) < |a|
    ensures Split(a + [c] + b, c) == [a[..i]] + Split(a[i + 1..] + [c] + b, c)
    ensures Split(a, c) == [a[..i]] + Split(a[i + 1..], c)
    ensures |a[i + 1..]| < |a|
  {
    var a1, a2 := a[..i], a[i + 1..];
    assert forall k :: 0 <= k < |a1| ==> a1[k] != c;
    assert a == a1 + [c] + a2;
    SplitFirst(a1, c, a2);
    assert a + [c] + b == a1 + [c] + (a2 + [c] + b);
    SplitFirst(a1, c, a2 + [c] + b);
  }

  // ---------------------------------------------------------------------------------------
  // The material
  // ---------------------------------------------------------------------------------------

  /** `MhMaterial`: its settings, and the directory of the `.mhmat` file last read, None
      before any file is read. */
  class MhMaterial {
    var settings: Settings
    var location: Option<string>

    constructor ()
      ensures settings == [] && location == None
    {
      settings := [];
      location := None;
    }

    /** `_parse_material_line`: the settings change as `ParseLine` says, or not at all when
        it raises. */
    method ParseMaterialLine(line: string, t: KeyTable) returns (r: Outcome)
      modifies this
      ensures location == old(location)
      ensures ParseLine(old(settings), line, t, old(location)) == if r.Done? then Ok(settings) else Err(r.error)
      ensures r.Failed? ==> settings == old(settings)
    {
      var matched := KeyOf(line);
      if matched.None? {
        return Done;
      }
      var origkey := matched.value;
      var key := Alias(t, origkey);
      var value := Null;
      var entry := Get(t.entries, Lower(key));
      if entry.Some? {
        key := entry.value.name;
        var patched := line;
        if key != origkey {
          patched := Replace(line, origkey, key);
        }
        if entry.value.isFile {
          if location.None? {
            return Failed("AttributeError");
          }
          value := t.parseFile(key, patched, location.value);
        } else {
          value := t.parse(key, patched);
        }
      }
      var stored := Store(settings, key, value);
      if stored.Err? {
        return Failed(stored.error);
      }
      settings := stored.value;
      return Done;
    }

    /** `populate_from_mhmat`, given the text of the file and its directory. */
    method PopulateFromMhmat(text: string, dir: string, t: KeyTable) returns (r: Outcome)
      modifies this
      ensures location == Some(dir)
      ensures var p := Populated(old(settings), ReadLines(text), t, Some(dir));
        && (r.Done? <==> p.Ok?)
        && (r.Done? ==> settings == p.value)
        && (r.Failed? ==> p == Err(r.error))
    {
      location := Some(dir);
      var lines := ReadLines(text);
      for k := 0 to |lines|
        invariant location == Some(dir)
        invariant Populated(settings, lines[k..], t, location) == Populated(old(settings), lines, t, Some(dir))
      {
        assert lines[k..][1..] == lines[k + 1..];
        var line := lines[k];
        if Handed(line) {
          var step := ParseMaterialLine(line, t);
          if step.Failed? {
            return step;
          }
        }
      }
      return Done;
    }

    /** `_populate`, given the text and directory of the material file `info` may name:
        with `loadMhmat` and a non-blank "materialFile" the file is read; otherwise every
        other entry of `info` is copied in. */
    method Populate(info: Settings, loadMhmat: bool, fileText: string, dir: string, t: KeyTable)
      returns (r: Outcome)
      modifies this
      ensures !LoadsFile(info, loadMhmat) ==>
        r == Done && settings == Copied(old(settings), info) && location == old(location)
      ensures LoadsFile(info, loadMhmat) && !Get(info, "materialFile").value.Str? ==>
        r == Failed("TypeError") && settings == old(settings) && location == old(location)
      ensures LoadsFile(info, loadMhmat) && Get(info, "materialFile").value.Str? ==>
        var p := Populated(old(settings), ReadLines(fileText), t, Some(dir));
        && location == Some(dir)
        && (r.Done? <==> p.Ok?)
        && (r.Done? ==> settings == p.value)
        && (r.Failed? ==> p == Err(r.error))
    {
      if LoadsFile(info, loadMhmat) {
        if !Get(info, "materialFile").value.Str? {
          return Failed("TypeError");
        }
        r := PopulateFromMhmat(fileText, dir, t);
        return;
      }
      for k := 0 to |info|
        invariant location == old(location)
        invariant Copied(settings, info[k..]) == Copied(old(settings), info)
      {
        assert info[k..][1..] == info[k + 1..];
        if info[k].0 != "materialFile" {
          settings := Put(settings, info[k].0, info[k].1);
        }
      }
      return Done;
    }

    /** `get_value`: the exact lookup, then the case-insensitive scan. */
    method GetValue(name: string, caseInsensitive: bool) returns (r: Value)
      ensures r == ValueOf(settings, name, caseInsensitive)
    {
      var exact := Get(settings, name);
      if exact.Some? && Truthy(exact.value) {
        return exact.value;
      }
      if caseInsensitive {
        var requested := Loose(name);
        for i := 0 to |settings|
          invariant FirstLoose(settings[i..], requested) == FirstLoose(settings, requested)
        {
          assert settings[i..][1..] == settings[i + 1..];
          if LooseHit(settings[i], requested) {
            return settings[i].1;
          }
        }
      }
      return Null;
    }

    /** `as_mhmat`: the preamble, a section per key group, the shader section and the list
        of keys without a value. */
    method AsMhmat(t: KeyTable) returns (r: Result<string>)
      ensures r == MhmatText(settings, t)
    {
      var mat := Preamble;
      for g := 0 to |t.groups|
        invariant Sections(settings, t.groups[g..], t, mat) == Sections(settings, t.groups, t, Preamble)
      {
        assert t.groups[g..][1..] == t.groups[g + 1..];
        var section := AppendGroup(t.groups[g], t, mat + GroupHeading(t.groups[g]));
        if section.Err? {
          return Err(section.error);
        }
        mat := section.value;
      }
      var unset := UnsetComments(t);
      return Ok(mat + ShaderHeading + UnsetHeading + unset);
    }

    /** The lines of the keys of one group, in table order, after `mat`. */
    method AppendGroup(group: string, t: KeyTable, start: string) returns (r: Result<string>)
      ensures r == GroupBody(settings, t.entries, group, t, start)
    {
      var mat := start;
      for e := 0 to |t.entries|
        invariant GroupBody(settings, t.entries[e..], group, t, mat) == GroupBody(settings, t.entries, group, t, start)
      {
        assert t.entries[e..][1..] == t.entries[e + 1..];
        var mk := t.entries[e].1;
        if mk.group == group && IsSet(settings, mk.name) {
          var value := Get(settings, mk.name).value;
          if mk.name == "tag" {
            if !value.Str? {
              return Err("AttributeError");
            }
            var lines := TagText(value.s);
            mat := mat + lines;
          } else {
            mat := mat + (mk.name + " " + t.asString(mk.name, value) + "\n");
          }
        } else if mk.group == group {
          assert mat + "" == mat;
        }
      }
      assert t.entries[|t.entries|..] == [];
      return Ok(mat);
    }

    /** A "tag" line per comma-separated part of the stored tags. */
    static method TagText(tags: string) returns (lines: string)
      ensures lines == TagLines(Split(tags, ','))
    {
      var parts := Split(tags, ',');
      lines := "";
      for p := 0 to |parts|
        invariant lines == TagLines(parts[..p])
      {
        assert parts[..p + 1][..p] == parts[..p];
        lines := lines + "tag " + Strip(parts[p]) + "\n";
      }
      assert parts[..|parts|] == parts;
    }

    /** A "// name" line per key of the table that has no value. */
    method UnsetComments(t: KeyTable) returns (text: string)
      ensures text == Comments(UnsetNames(settings, t.entries))
    {
      text := "";
      for e := 0 to |t.entries|
        invariant text == Comments(UnsetNames(settings, t.entries[..e]))
      {
        assert t.entries[..e + 1][..e] == t.entries[..e];
        var key := t.entries[e].1.name;
        ghost var names := UnsetNames(settings, t.entries[..e]);
        if !IsSet(settings, key) {
          assert (names + [key])[..|names|] == names;
          text := text + "// " + key + "\n";
        } else {
          assert names + [] == names;
        }
      }
      assert t.entries[..|t.entries|] == t.entries;
    }
  }
}
