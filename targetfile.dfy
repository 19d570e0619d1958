/** The MakeHuman `.target` text format: a header of comment lines, then one
    "index x z -y" line per modified vertex (coordinates in X, Z, -Y order). */
module TargetFile {
  import opened Wrappers
  import opened Text
  import opened Numbers
  import opened TargetHeader
  import opened Seqs

  /** A vertex offset as the writer receives it, each coordinate in thousandths of a unit:
      exactly the values that the writer's three-decimal formatting can represent. */
  datatype Delta = Delta(index: int, x: int, y: int, z: int)

  /** A vertex offset as the reader produces it. */
  datatype Offset = Offset(index: int, x: real, y: real, z: real)

  /** What the reader returns: the shape key name it was given and the offsets it read. */
  datatype ShapeKeyInfo = ShapeKeyInfo(name: string, vertices: seq<Offset>)

  function Thousandths(n: int): real {
    n as real / 1000.0
  }

  function AsOffset(d: Delta): Offset {
    Offset(d.index, Thousandths(d.x), Thousandths(d.y), Thousandths(d.z))
  }

  function AsOffsets(ds: seq<Delta>): (r: seq<Offset>)
    ensures |r| == |ds|
  {
    if ds == [] then [] else [AsOffset(ds[0])] + AsOffsets(ds[1..])
  }

  function Abs(n: int): nat {
    if n < 0 then -n else n
  }

  /** Three digits, zero padded, for a remainder below 1000. */
  function Pad3(r: nat): string
    requires r < 1000
  {
    [DigitChar(r / 100), DigitChar(r / 10 % 10), DigitChar(r % 10)]
  }

  /** `'%.3f' % v` for a non-negative `v` of `m` thousandths. */
  function FixedThree(m: nat): string {
    NatToString(m / 1000) + "." + Pad3(m % 1000)
  }

  /** The integer digits `fmt` keeps: none at all for a zero integer part. */
  function Lead(q: nat): (s: string)
    ensures AllDigits(s) && (s == [] <==> q == 0)
  {
    if q == 0 then "" else NatToString(q)
  }

  /** The fractional digits `fmt` keeps of a remainder below 1000: trailing zeros dropped,
      a single "0" when all three are zero. */
  function FracDigits(r: nat): (f: string)
    requires r < 1000
    ensures 1 <= |f| <= 3 && AllDigits(f)
  {
    if r % 100 == 0 then [DigitChar(r / 100)]
    else if r % 10 == 0 then [DigitChar(r / 100), DigitChar(r / 10 % 10)]
    else Pad3(r)
  }

  /** The shortest decimal text of a non-zero value with integer part `q` and `r`
      thousandths: optional '-', the integer digits (none when `q` is zero), '.', and the
      fractional digits without trailing zeros (at least one digit). */
  function DecimalOf(negative: bool, q: nat, r: nat): string
    requires r < 1000
  {
    Sign(negative) + (Lead(q) + "." + FracDigits(r))
  }

  /** The shortest decimal text of a value of `n` thousandths: "0" for zero. */
  function Decimal(n: int): string {
    if n == 0 then "0" else DecimalOf(n < 0, Abs(n) / 1000, Abs(n) % 1000)
  }

  /** The writer's number formatter `fmt`, as written, for a value of `n` thousandths: the
      three-decimal text of its magnitude with zeros stripped from both ends, then finished
      by `Finish`. */
  function Fmt(n: int): string {
    StrippedFixedThree(Abs(n));
    Finish(StripChar(FixedThree(Abs(n)), '0'), n < 0)
  }

  /** The end of `fmt`: "0" when nothing but the point is left, a "0" added after a bare
      point, and "-" before negative values. */
  function Finish(s: string, negative: bool): string
    requires s != []
  {
    if s == "." then "0"
    else
      var t := if s[|s| - 1] == '.' then s + "0" else s;
      if negative then "-" + t else t
  }

  lemma StrippedFixedThree(m: nat)
    ensures StripChar(FixedThree(m), '0') == Lead(m / 1000) + "." + RStripChar(Pad3(m % 1000), '0')
  {
    var q, p := m / 1000, Pad3(m % 1000);
    LStripFixedThree(m);
    RStripCharAppend(Lead(q) + ".", p, '0');
  }

  lemma LStripFixedThree(m: nat)
    ensures LStripChar(FixedThree(m), '0') == Lead(m / 1000) + "." + Pad3(m % 1000)
  {
    var q, rest := m / 1000, "." + Pad3(m % 1000);
    assert FixedThree(m) == NatToString(q) + rest;
    if q == 0 {
      assert NatToString(q) + rest == ['0'] + rest;
      assert (['0'] + rest)[1..] == rest;
      assert LStripChar(rest, '0') == rest;
    } else {
      assert (NatToString(q) + rest)[0] == NatToString(q)[0];
    }
  }

  /** Stripping '0' from the right of the three fractional digits leaves nothing for a zero
      remainder and the kept fractional digits otherwise. */
  lemma StrippedPad3(r: nat)
    requires r < 1000
    ensures RStripChar(Pad3(r), '0') == if r == 0 then [] else FracDigits(r)
  {
    var p := Pad3(r);
    var a, b, c := r / 100, r / 10 % 10, r % 10;
    assert r / 10 == a * 10 + b;
    assert r == a * 100 + b * 10 + c;
    assert p[..2] == [p[0], p[1]] && p[..1] == [p[0]] && p[..0] == [];
    if c != 0 {
    } else if b != 0 {
      assert RStripChar(p, '0') == RStripChar(p[..2], '0');
    } else if a != 0 {
      assert RStripChar(p[..2], '0') == RStripChar(p[..1], '0');
    } else {
      assert RStripChar(p[..2], '0') == RStripChar(p[..1], '0');
      assert RStripChar(p[..1], '0') == RStripChar(p[..0], '0');
    }
  }

  /** Finishing integer digits, a point and stripped fractional digits. */
  lemma FinishPoint(lead: string, t: string, negative: bool)
    requires t == [] || t[|t| - 1] != '.'
    ensures Finish(lead + "." + t, negative)
         == if lead == [] && t == [] then "0" else Sign(negative) + (lead + "." + (if t == [] then "0" else t))
  {
    var s := lead + "." + t;
    assert s[|s| - 1] == (if t == [] then '.' else t[|t| - 1]);
    if lead == [] && t == [] {
      assert s == ".";
    } else if lead != [] {
      assert |s| > 1;
    } else {
      assert |s| > 1;
    }
  }

  /** The source's strip-based formatter yields exactly the shortest decimal text. */
  lemma FmtIsDecimal(n: int)
    ensures Fmt(n) == Decimal(n)
  {
    var q, r := Abs(n) / 1000, Abs(n) % 1000;
    StrippedFixedThree(Abs(n));
    StrippedPad3(r);
    var t := RStripChar(Pad3(r), '0');
    FinishPoint(Lead(q), t, n < 0);
    assert n == 0 <==> q == 0 && r == 0;
  }

  lemma FracDigitsValue(r: nat)
    requires r < 1000
    ensures FracValue(FracDigits(r)) == r as real / 1000.0
  {
    var a, b, c := r / 100, r / 10 % 10, r % 10;
    assert r / 10 == a * 10 + b;
    assert r == a * 100 + b * 10 + c;
    var f := FracDigits(r);
    if r % 100 == 0 {
      assert f[1..] == [];
      assert FracValue(f) == a as real / 10.0;
    } else if r % 10 == 0 {
      assert f[1..][1..] == [];
      assert FracValue(f[1..]) == b as real / 10.0;
      assert FracValue(f) == (a as real + b as real / 10.0) / 10.0;
    } else {
      assert f[1..][1..][1..] == [];
      assert FracValue(f[1..][1..]) == c as real / 10.0;
      assert FracValue(f[1..]) == (b as real + c as real / 10.0) / 10.0;
      assert FracValue(f) == (a as real + (b as real + c as real / 10.0) / 10.0) / 10.0;
    }
  }

  lemma ParseDecimalOf(negative: bool, q: nat, r: nat, t: real)
    requires r < 1000
    requires t == if negative then -(q as real + r as real / 1000.0) else q as real + r as real / 1000.0
    ensures ParseReal(DecimalOf(negative, q, r)) == Some(t)
  {
    FracDigitsValue(r);
    LeadValue(q);
    ParseSignedDecimal(negative, Lead(q), FracDigits(r), t);
  }

  lemma LeadValue(q: nat)
    ensures DigitsValue(Lead(q)) == q
  {
    if q != 0 {
      DigitsOfNat(q);
    }
  }

  /** `float(fmt(v)) == v` for every value with three decimals. */
  lemma ParseDecimal(n: int)
    ensures ParseReal(Decimal(n)) == Some(Thousandths(n))
  {
    if n == 0 {
      ParseZero();
    } else {
      ParseNonZero(n);
    }
  }

  lemma ParseNonZero(n: int)
    requires n != 0
    ensures ParseReal(Decimal(n)) == Some(Thousandths(n))
  {
    ThousandthsSplit(n);
    ParseDecimalOf(n < 0, Abs(n) / 1000, Abs(n) % 1000, Thousandths(n));
  }

  lemma ParseZero()
    ensures ParseReal(Decimal(0)) == Some(0.0)
  {
    ParseDigitsAsReal("0");
    assert DigitsValue("0") == 0;
  }

  lemma ThousandthsSplit(n: int)
    ensures var v := (Abs(n) / 1000) as real + (Abs(n) % 1000) as real / 1000.0;
      Thousandths(n) == if n < 0 then -v else v
  {
    var q, r := Abs(n) / 1000, Abs(n) % 1000;
    assert Abs(n) == q * 1000 + r;
    assert q as real + r as real / 1000.0 == Abs(n) as real / 1000.0;
  }

  /** Digits, '-' and '.', ending in a digit. */
  predicate NumberText(s: string) {
    |s| > 0 && IsDigit(s[|s| - 1]) && forall i :: 0 <= i < |s| ==> IsDigit(s[i]) || s[i] == '-' || s[i] == '.'
  }

  lemma DecimalIsNumberText(n: int)
    ensures NumberText(Decimal(n))
  {
    if n == 0 {
      assert Decimal(0) == "0";
    } else {
      var f := Decimal(n);
      var body := Lead(Abs(n) / 1000) + "." + FracDigits(Abs(n) % 1000);
      assert f == Sign(n < 0) + body;
    }
  }

  /** The shape of what `fmt` prints: "0" exactly for zero, a leading '-' exactly for
      negative values, no integer digits below one, ".0" after whole numbers, and no
      trailing zero otherwise. */
  lemma DecimalProperties(n: int)
    ensures Decimal(n) == "0" <==> n == 0
    ensures Decimal(n)[0] == '-' <==> n < 0
    ensures n != 0 && Abs(n) < 1000 ==> StartsWith(Decimal(n), if n < 0 then "-." else ".")
    ensures n != 0 && n % 1000 == 0 ==> EndsWith(Decimal(n), ".0")
    ensures n % 1000 != 0 ==> Decimal(n)[|Decimal(n)| - 1] != '0'
  {
    if n != 0 {
      AbsThousands(n);
      DecimalOfSign(n < 0, Abs(n) / 1000, Abs(n) % 1000);
      DecimalOfEnd(n < 0, Abs(n) / 1000, Abs(n) % 1000);
    }
  }

  lemma AbsThousands(n: int)
    ensures n % 1000 == 0 <==> Abs(n) % 1000 == 0
    ensures Abs(n) < 1000 <==> Abs(n) / 1000 == 0
  {
  }

  lemma DecimalOfSign(negative: bool, q: nat, r: nat)
    requires r < 1000
    ensures DecimalOf(negative, q, r) != "0"
    ensures DecimalOf(negative, q, r)[0] == '-' <==> negative
    ensures q == 0 ==> StartsWith(DecimalOf(negative, q, r), if negative then "-." else ".")
  {
    var f := DecimalOf(negative, q, r);
    if q == 0 {
      assert f == Sign(negative) + "." + FracDigits(r);
    } else {
      assert Lead(q)[0] != '-';
    }
    if !negative {
      assert f[0] == (Lead(q) + "." + FracDigits(r))[0];
    }
  }

  lemma DecimalOfEnd(negative: bool, q: nat, r: nat)
    requires r < 1000
    ensures r == 0 ==> EndsWith(DecimalOf(negative, q, r), ".0")
    ensures r != 0 ==> DecimalOf(negative, q, r)[|DecimalOf(negative, q, r)| - 1] != '0'
  {
    var f := DecimalOf(negative, q, r);
    if r == 0 {
      assert f[|f| - 2..] == ".0";
    } else {
      var a, b, c := r / 100, r / 10 % 10, r % 10;
      assert r / 10 == a * 10 + b;
      assert r == a * 100 + b * 10 + c;
      assert f[|f| - 1] == FracDigits(r)[|FracDigits(r)| - 1];
    }
  }


  /** A line of four fields separated by single spaces. */
  function FieldsLine(i: string, x: string, z: string, y: string): string {
    JoinSpace(i, JoinSpace(x, JoinSpace(z, y)))
  }

  /** The file stores the y coordinate negated. */
  function FileY(d: Delta): int {
    -d.y
  }

  /** One vertex line, without its terminator: "{index} {x} {z} {y}" with `y` negated, each
      coordinate formatted by `fmt` (written `Decimal` here, equal to `Fmt` by FmtIsDecimal). */
  function VertexLine(d: Delta): string {
    FieldsLine(IntToString(d.index), Decimal(d.x), Decimal(d.z), Decimal(FileY(d)))
  }

  function VertexLines(ds: seq<Delta>): (r: seq<string>)
    ensures |r| == |ds|
  {
    if ds == [] then [] else [VertexLine(ds[0])] + VertexLines(ds[1..])
  }

  lemma {:induction false} VertexLinesAppend(ds: seq<Delta>, d: Delta)
    ensures VertexLines(ds + [d]) == VertexLines(ds) + [VertexLine(d)]
  {
    if ds != [] {
      assert (ds + [d])[1..] == ds[1..] + [d];
      VertexLinesAppend(ds[1..], d);
    } else {
      assert [] + [d] == [d];
    }
  }

  /** The text the writer produces. */
  function TargetText(ds: seq<Delta>, includeHeader: bool): string {
    Unlines((if includeHeader then HeaderLines else []) + VertexLines(ds))
  }

  /** `shape_key_info_as_target_string`: the header when asked for, then one line per vertex. */
  method ShapeKeyInfoAsTargetString(ds: seq<Delta>, includeHeader: bool) returns (out: string)
    ensures out == TargetText(ds, includeHeader)
  {
    var header := if includeHeader then HeaderLines else [];
    out := Unlines(header);
    WriterStart(out, ds);
    for k := 0 to |ds|
      invariant out == Unlines(header) + Unlines(VertexLines(ds[..k]))
    {
      WriterStep(Unlines(header), ds, k, out);
      out := out + (VertexLine(ds[k]) + "\n");
    }
    WriterEnd(header, ds, includeHeader, out);
  }

  lemma WriterStart(start: string, ds: seq<Delta>)
    ensures start == start + Unlines(VertexLines(ds[..0]))
  {
    assert VertexLines(ds[..0]) == [];
  }

  lemma WriterEnd(header: seq<string>, ds: seq<Delta>, includeHeader: bool, out: string)
    requires header == if includeHeader then HeaderLines else []
    requires out == Unlines(header) + Unlines(VertexLines(ds[..|ds|]))
    ensures out == TargetText(ds, includeHeader)
  {
    TakeAll(ds);
    UnlinesAppend(header, VertexLines(ds));
  }

  /** Appending the line of vertex `k` extends the text by the lines of the first `k + 1`. */
  lemma WriterStep(start: string, ds: seq<Delta>, k: nat, out: string)
    requires k < |ds| && out == start + Unlines(VertexLines(ds[..k]))
    ensures out + (VertexLine(ds[k]) + "\n") == start + Unlines(VertexLines(ds[..k + 1]))
  {
    AppendLine(VertexLines(ds[..k]), VertexLine(ds[k]));
    TakeOneMore(ds, k);
    VertexLinesAppend(ds[..k], ds[k]);
    AppendAssoc(start, Unlines(VertexLines(ds[..k])), VertexLine(ds[k]) + "\n");
  }

  lemma AppendLine(lines: seq<string>, line: string)
    ensures Unlines(lines + [line]) == Unlines(lines) + (line + "\n")
  {
    UnlinesAppend(lines, [line]);
    assert Unlines([line]) == line + "\n" + Unlines([]);
  }

  /** One field of a vertex line as a number; IndexError when the line has too few fields. */
  function Field(parts: seq<string>, k: nat): Result<real> {
    if k >= |parts| then Err("IndexError")
    else match ParseReal(parts[k])
      case None => Err("ValueError")
      case Some(v) => Ok(v)
  }

  /** What the reader makes of one line: nothing for a blank line and for lines starting
      with '#' or '"', otherwise the fields split at single spaces. The fields after the
      fourth are never read, so splitting at every space, rather than at the first four as
      the source does, reads the same values. */
  function ParseLine(line: string): Result<Option<Offset>> {
    var t := Strip(line);
    if t == [] || t[0] == '#' || t[0] == '"' then Ok(None)
    else ParseFields(Split(t, ' '))
  }

  /** The index, then x, then y negated from the fourth field, then z from the third,
      failing where Python's int(), float() or indexing would raise. */
  function ParseFields(parts: seq<string>): Result<Option<Offset>>
    requires |parts| >= 1
  {
    var index, x, negY, z := ParseInt(parts[0]), Field(parts, 1), Field(parts, 3), Field(parts, 2);
    if index.None? then Err("ValueError")
    else if x.Err? then Err(x.error)
    else if negY.Err? then Err(negY.error)
    else if z.Err? then Err(z.error)
    else Ok(Some(Offset(index.value, x.value, -negY.value, z.value)))
  }


  function ParseLines(lines: seq<string>): Result<seq<Offset>> {
    if lines == [] then Ok([])
    else match ParseLine(lines[0])
      case Err(e) => Err(e)
      case Ok(None) => ParseLines(lines[1..])
      case Ok(Some(v)) => Prepend([v], ParseLines(lines[1..]))
  }

  function Prepend(vs: seq<Offset>, r: Result<seq<Offset>>): Result<seq<Offset>> {
    match r
    case Ok(ws) => Ok(vs + ws)
    case Err(e) => Err(e)
  }

  /** The reader's result for a whole text. */
  function ParseTargetText(text: string, name: string): Result<ShapeKeyInfo> {
    match ParseLines(SplitLines(text))
    case Ok(vs) => Ok(ShapeKeyInfo(name, vs))
    case Err(e) => Err(e)
  }

  /** `_target_string_to_shape_key_info`: reads the lines in order, appending one offset per
      vertex line. */
  method TargetStringToShapeKeyInfo(text: string, name: string) returns (r: Result<ShapeKeyInfo>)
    ensures r == ParseTargetText(text, name)
  {
    var lines := SplitLines(text);
    var vertices: seq<Offset> := [];
    var k := 0;
    PrependNothing(ParseLines(lines));
    assert lines[0..] == lines;
    while k < |lines|
      invariant 0 <= k <= |lines|
      invariant ParseLines(lines) == Prepend(vertices, ParseLines(lines[k..]))
    {
      var parsed := ParseLine(lines[k]);
      ReaderStep(lines, k, vertices);
      match parsed {
        case Err(e) =>
          return Err(e);
        case Ok(None) =>
        case Ok(Some(v)) =>
          vertices := vertices + [v];
      }
      k := k + 1;
    }
    assert lines[k..] == [];
    assert vertices + [] == vertices;
    return Ok(ShapeKeyInfo(name, vertices));
  }

  lemma PrependNothing(r: Result<seq<Offset>>)
    ensures Prepend([], r) == r
  {
    if r.Ok? {
      assert [] + r.value == r.value;
    }
  }

  /** Reading line `k` either fails, skips the line, or adds one vertex to those before it. */
  lemma ReaderStep(lines: seq<string>, k: nat, vertices: seq<Offset>)
    requires k < |lines|
    ensures ParseLine(lines[k]).Err? ==> Prepend(vertices, ParseLines(lines[k..])) == Err(ParseLine(lines[k]).error)
    ensures ParseLine(lines[k]) == Ok(None) ==>
      Prepend(vertices, ParseLines(lines[k..])) == Prepend(vertices, ParseLines(lines[k + 1..]))
    ensures ParseLine(lines[k]).Ok? && ParseLine(lines[k]).value.Some? ==>
      Prepend(vertices, ParseLines(lines[k..]))
        == Prepend(vertices + [ParseLine(lines[k]).value.value], ParseLines(lines[k + 1..]))
  {
    assert lines[k..][0] == lines[k] && lines[k..][1..] == lines[k + 1..];
    if ParseLine(lines[k]).Ok? && ParseLine(lines[k]).value.Some? {
      var v := ParseLine(lines[k]).value.value;
      match ParseLines(lines[k + 1..])
      case Ok(ws) =>
        assert vertices + ([v] + ws) == vertices + [v] + ws;
      case Err(_) =>
    }
  }

  /** The reader skips every header line. */
  lemma HeaderLinesAreComments()
    ensures forall k :: 0 <= k < |HeaderLines| ==> ParseLine(HeaderLines[k]) == Ok(None)
  {
    HeaderLinesStartWithHash();
    forall k | 0 <= k < |HeaderLines|
      ensures ParseLine(HeaderLines[k]) == Ok(None)
    {
      CommentLine(HeaderLines[k]);
    }
  }

  lemma CommentLine(l: string)
    requires l != [] && l[0] == '#'
    ensures ParseLine(l) == Ok(None)
  {
    StripKeepsFirst(l);
  }

  lemma {:induction false} SkipCommentLines(a: seq<string>, b: seq<string>)
    requires forall k :: 0 <= k < |a| ==> ParseLine(a[k]) == Ok(None)
    ensures ParseLines(a + b) == ParseLines(b)
  {
    if a != [] {
      assert (a + b)[0] == a[0] && (a + b)[1..] == a[1..] + b;
      SkipCommentLines(a[1..], b);
    } else {
      assert a + b == b;
    }
  }

  /** Reading a line the writer produced gives back its vertex. */
  lemma ParseVertexLine(d: Delta)
    ensures NoLineBreak(VertexLine(d))
    ensures ParseLine(VertexLine(d)) == Ok(Some(AsOffset(d)))
  {
    VertexLineFields(d);
    ParseVertexFields(d);
  }

  /** A vertex line is one line, needs no stripping, is no comment, and splits into its four
      fields. */
  lemma VertexLineFields(d: Delta)
    ensures NoLineBreak(VertexLine(d))
    ensures Strip(VertexLine(d)) == VertexLine(d)
    ensures VertexLine(d)[0] != '#' && VertexLine(d)[0] != '"'
    ensures Split(VertexLine(d), ' ') == [IntToString(d.index), Decimal(d.x), Decimal(d.z), Decimal(FileY(d))]
  {
    NumberFields(d);
    LineOfNumbers(IntToString(d.index), Decimal(d.x), Decimal(d.z), Decimal(FileY(d)));
  }


  lemma LineOfNumbers(i: string, x: string, z: string, y: string)
    requires NumberText(i) && NumberText(x) && NumberText(z) && NumberText(y)
    ensures var line := FieldsLine(i, x, z, y);
      && NoLineBreak(line) && Strip(line) == line && line[0] != '#' && line[0] != '"'
      && Split(line, ' ') == [i, x, z, y]
  {
    LineOfNumbersShape(i, x, z, y);
    LineOfNumbersSplit(i, x, z, y);
  }

  lemma LineOfNumbersShape(i: string, x: string, z: string, y: string)
    requires NumberText(i) && NumberText(x) && NumberText(z) && NumberText(y)
    ensures var line := FieldsLine(i, x, z, y);
      && NoLineBreak(line) && Strip(line) == line && line[0] != '#' && line[0] != '"'
  {
    NumberField(i);
    NumberField(x);
    NumberField(z);
    NumberField(y);
    JoinSpaceEnds(z, y);
    JoinSpaceEnds(x, JoinSpace(z, y));
    JoinSpaceEnds(i, JoinSpace(x, JoinSpace(z, y)));
    StripUnchanged(FieldsLine(i, x, z, y));
  }

  lemma LineOfNumbersSplit(i: string, x: string, z: string, y: string)
    requires NumberText(i) && NumberText(x) && NumberText(z) && NumberText(y)
    ensures Split(FieldsLine(i, x, z, y), ' ') == [i, x, z, y]
  {
    NumberField(i);
    NumberField(x);
    NumberField(z);
    NumberField(y);
    SplitFour(i, x, z, y);
  }

  lemma SplitFour(i: string, x: string, z: string, y: string)
    requires forall k :: 0 <= k < |i| ==> i[k] != ' '
    requires forall k :: 0 <= k < |x| ==> x[k] != ' '
    requires forall k :: 0 <= k < |z| ==> z[k] != ' '
    requires forall k :: 0 <= k < |y| ==> y[k] != ' '
    ensures Split(FieldsLine(i, x, z, y), ' ') == [i, x, z, y]
  {
    SplitThree(x, z, y);
    SplitFieldThen(i, JoinSpace(x, JoinSpace(z, y)), [x, z, y]);
    FieldsCons(i, [x, z, y]);
  }

  lemma FieldsCons(a: string, fields: seq<string>)
    requires |fields| == 3
    ensures [a] + fields == [a, fields[0], fields[1], fields[2]]
  {
  }

  /** A field without a space, a space, then fields: the field comes first. */
  lemma SplitFieldThen(a: string, rest: string, fields: seq<string>)
    requires forall k :: 0 <= k < |a| ==> a[k] != ' '
    requires Split(rest, ' ') == fields
    ensures Split(JoinSpace(a, rest), ' ') == [a] + fields
  {
    SplitJoinSpace(a, rest);
  }

  lemma SplitThree(x: string, z: string, y: string)
    requires forall k :: 0 <= k < |x| ==> x[k] != ' '
    requires forall k :: 0 <= k < |z| ==> z[k] != ' '
    requires forall k :: 0 <= k < |y| ==> y[k] != ' '
    ensures Split(JoinSpace(x, JoinSpace(z, y)), ' ') == [x, z, y]
  {
    SplitJoinSpace(x, JoinSpace(z, y));
    SplitTwo(z, y);
  }

  lemma SplitTwo(z: string, y: string)
    requires forall k :: 0 <= k < |z| ==> z[k] != ' '
    requires forall k :: 0 <= k < |y| ==> y[k] != ' '
    ensures Split(JoinSpace(z, y), ' ') == [z, y]
  {
    SplitJoinSpace(z, y);
    SplitNone(y, ' ');
  }

  lemma NumberFields(d: Delta)
    ensures NumberText(IntToString(d.index)) && NumberText(Decimal(d.x))
    ensures NumberText(Decimal(d.z)) && NumberText(Decimal(FileY(d)))
  {
    DecimalIsNumberText(d.x);
    DecimalIsNumberText(d.z);
    DecimalIsNumberText(FileY(d));
  }

  /** The text of a number holds no space and no line break and does not start a comment. */
  lemma NumberField(s: string)
    requires NumberText(s)
    ensures forall k :: 0 <= k < |s| ==> s[k] != ' '
    ensures NoLineBreak(s) && !IsSpace(s[0]) && !IsSpace(s[|s| - 1]) && s[0] != '#' && s[0] != '"'
  {
  }

  lemma ParseVertexFields(d: Delta)
    ensures ParseFields([IntToString(d.index), Decimal(d.x), Decimal(d.z), Decimal(FileY(d))]) == Ok(Some(AsOffset(d)))
  {
    OffsetOfFileY(d);
    ParseNumberFields(d.index, d.x, d.z, FileY(d));
  }

  lemma ParseNumberFields(i: int, x: int, z: int, y: int)
    ensures ParseFields([IntToString(i), Decimal(x), Decimal(z), Decimal(y)])
      == Ok(Some(Offset(i, Thousandths(x), -Thousandths(y), Thousandths(z))))
  {
    IndexColumn(i, x, z, y);
    XColumn(i, x, z, y);
    ZColumn(i, x, z, y);
    YColumn(i, x, z, y);
    ParseFieldsOf([IntToString(i), Decimal(x), Decimal(z), Decimal(y)], i, Thousandths(x), Thousandths(z), Thousandths(y));
  }

  lemma IndexColumn(i: int, x: int, z: int, y: int)
    ensures ParseInt([IntToString(i), Decimal(x), Decimal(z), Decimal(y)][0]) == Some(i)
  {
    ParseIntOfString(i);
  }

  lemma XColumn(i: int, x: int, z: int, y: int)
    ensures Field([IntToString(i), Decimal(x), Decimal(z), Decimal(y)], 1) == Ok(Thousandths(x))
  {
    ParseDecimal(x);
  }

  lemma ZColumn(i: int, x: int, z: int, y: int)
    ensures Field([IntToString(i), Decimal(x), Decimal(z), Decimal(y)], 2) == Ok(Thousandths(z))
  {
    ParseDecimal(z);
  }

  lemma YColumn(i: int, x: int, z: int, y: int)
    ensures Field([IntToString(i), Decimal(x), Decimal(z), Decimal(y)], 3) == Ok(Thousandths(y))
  {
    ParseDecimal(y);
  }

  lemma OffsetOfFileY(d: Delta)
    ensures AsOffset(d) == Offset(d.index, Thousandths(d.x), -Thousandths(FileY(d)), Thousandths(d.z))
  {
  }

  lemma ParseFieldsOf(parts: seq<string>, vi: int, vx: real, vz: real, vy: real)
    requires |parts| == 4
    requires ParseInt(parts[0]) == Some(vi) && Field(parts, 1) == Ok(vx)
    requires Field(parts, 2) == Ok(vz) && Field(parts, 3) == Ok(vy)
    ensures ParseFields(parts) == Ok(Some(Offset(vi, vx, -vy, vz)))
  {
  }


  lemma {:induction false} ParseVertexLines(ds: seq<Delta>)
    ensures ParseLines(VertexLines(ds)) == Ok(AsOffsets(ds))
  {
    if ds != [] {
      ParseVertexLine(ds[0]);
      ParseVertexLines(ds[1..]);
    }
  }

  lemma VertexLinesAreSingleLines(ds: seq<Delta>)
    ensures forall k :: 0 <= k < |ds| ==> NoLineBreak(VertexLines(ds)[k])
  {
    forall k | 0 <= k < |ds| ensures NoLineBreak(VertexLines(ds)[k]) {
      VertexLinesAt(ds, k);
      ParseVertexLine(ds[k]);
    }
  }

  lemma {:induction false} VertexLinesAt(ds: seq<Delta>, k: nat)
    requires k < |ds|
    ensures VertexLines(ds)[k] == VertexLine(ds[k])
  {
    if k > 0 {
      VertexLinesAt(ds[1..], k - 1);
    }
  }

  /** Comment lines followed by lines that read as `vs`, joined into one text, read as `vs`. */
  lemma ReadBack(header: seq<string>, body: seq<string>, vs: seq<Offset>)
    requires forall k :: 0 <= k < |header| ==> NoLineBreak(header[k]) && ParseLine(header[k]) == Ok(None)
    requires forall k :: 0 <= k < |body| ==> NoLineBreak(body[k])
    requires ParseLines(body) == Ok(vs)
    ensures ParseLines(SplitLines(Unlines(header + body))) == Ok(vs)
  {
    var lines := header + body;
    assert forall k :: 0 <= k < |lines| ==> NoLineBreak(lines[k]) by {
      forall k | 0 <= k < |lines| ensures NoLineBreak(lines[k]) {
        if k < |header| {
          assert lines[k] == header[k];
        } else {
          assert lines[k] == body[k - |header|];
        }
      }
    }
    SplitLinesOfUnlines(lines);
    SkipCommentLines(header, body);
  }

  /** Reading what the writer wrote gives back every vertex, in order, with its index and
      its three coordinates, whether or not the header was written. */
  lemma TargetTextRoundTrip(ds: seq<Delta>, includeHeader: bool, name: string)
    ensures ParseTargetText(TargetText(ds, includeHeader), name) == Ok(ShapeKeyInfo(name, AsOffsets(ds)))
  {
    var header := if includeHeader then HeaderLines else [];
    HeaderLinesAreSingleLines();
    HeaderLinesAreComments();
    VertexLinesAreSingleLines(ds);
    ParseVertexLines(ds);
    ReadBack(header, VertexLines(ds), AsOffsets(ds));
  }
}
