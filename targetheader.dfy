/** The comment header that starts every `.target` file the writer produces. */
module TargetHeader {
  import opened Text

  /** A header line: '#' followed by its text. */
  function Comment(text: string): string {
    "#" + text
  }

  /** The lines of the header the writer puts before the vertex lines. The longer texts are
      written as a few literals joined, which keeps the proofs about them small. */
  const HeaderLines: seq<string> := [
    Comment(" This is a target" + " file for MakeHuman"),
    Comment(""),
    Comment(" It was written by" + " the MakeTarget" + " submodule of MPFB"),
    Comment(""),
    Comment(" For more" + " information, see" + " MakeHuman's home page" + " at http://www." + "makehumancommunity.org"),
    Comment(""),
    Comment(" basemesh hm08")
  ]

  /** Each header line is a single line. */
  lemma HeaderLinesAreSingleLines()
    ensures forall k :: 0 <= k < |HeaderLines| ==> NoLineBreak(HeaderLines[k])
  {
    FirstHeaderLine();
    ThirdHeaderLine();
    FifthHeaderLine();
    ShortHeaderLines();
  }

  lemma CommentSingleLine(text: string)
    requires NoLineBreak(text)
    ensures NoLineBreak(Comment(text))
  {
    NoLineBreakAppend("#", text);
  }

  lemma FirstHeaderLine()
    ensures NoLineBreak(HeaderLines[0])
  {
    var a, b := " This is a target", " file for MakeHuman";
    PrintableIsSingleLine(a);
    PrintableIsSingleLine(b);
    NoLineBreakAppend(a, b);
    CommentSingleLine(a + b);
  }

  lemma ThirdHeaderLine()
    ensures NoLineBreak(HeaderLines[2])
  {
    var a, b, c := " It was written by", " the MakeTarget", " submodule of MPFB";
    PrintableIsSingleLine(a);
    PrintableIsSingleLine(b);
    PrintableIsSingleLine(c);
    NoLineBreakAppend(a, b);
    NoLineBreakAppend(a + b, c);
    CommentSingleLine(a + b + c);
  }

  lemma FifthHeaderLine()
    ensures NoLineBreak(HeaderLines[4])
  {
    FifthHeaderText();
    CommentSingleLine(" For more" + " information, see" + " MakeHuman's home page" + " at http://www." + "makehumancommunity.org");
  }

  lemma FifthHeaderText()
    ensures NoLineBreak(" For more" + " information, see" + " MakeHuman's home page" + " at http://www." + "makehumancommunity.org")
  {
    var a, b, c, d, e := " For more", " information, see", " MakeHuman's home page", " at http://www.", "makehumancommunity.org";
    PrintableIsSingleLine(a);
    PrintableIsSingleLine(b);
    PrintableIsSingleLine(c);
    PrintableIsSingleLine(d);
    PrintableIsSingleLine(e);
    NoLineBreakAppend5(a, b, c, d, e);
  }

  /** Printable ASCII, space included. */
  predicate Printable(s: string) {
    forall i :: 0 <= i < |s| ==> ' ' <= s[i] <= '~'
  }

  lemma PrintableIsSingleLine(s: string)
    requires Printable(s)
    ensures NoLineBreak(s)
  {
  }

  lemma NoLineBreakAppend5(a: string, b: string, c: string, d: string, e: string)
    requires NoLineBreak(a) && NoLineBreak(b) && NoLineBreak(c) && NoLineBreak(d) && NoLineBreak(e)
    ensures NoLineBreak(a + b + c + d + e)
  {
    NoLineBreakAppend(a, b);
    NoLineBreakAppend(a + b, c);
    NoLineBreakAppend(a + b + c, d);
    NoLineBreakAppend(a + b + c + d, e);
  }

  lemma ShortHeaderLines()
    ensures NoLineBreak(Comment("")) && NoLineBreak(Comment(" basemesh hm08"))
  {
    CommentSingleLine("");
    CommentSingleLine(" basemesh hm08");
  }

  /** Every header line starts with '#'. */
  lemma HeaderLinesStartWithHash()
    ensures forall k :: 0 <= k < |HeaderLines| ==> HeaderLines[k] != [] && HeaderLines[k][0] == '#'
  {
  }
}
