/** The markdown extensions of private/parsedown/Parsedown_mod.php, each as
    a recogniser over the line or the excerpt the markdown engine hands it:
    inline equations, inline module calls, the link hook, the filter on
    fenced code, the block of display equations and the comment block.
    The engine itself, which calls these and renders their elements, is
    not part of this model; the blocks its own recognisers return are
    parameters. */
module ParsedownMod {
  import opened Wrappers
  import opened PhpString
  import opened PhpArray

  /** An element of the engine's output tree: a tag, its text and its
      attributes in insertion order. */
  datatype Element = Element(name: string, text: string, attributes: Assoc<string>)

  /** What an inline recogniser returns: the number of characters it takes
      from the excerpt, counted from the marker, and the element they
      become. */
  datatype InlineElement = InlineElement(extent: nat, element: Element)

  /** What the module recogniser returns: the characters it takes and the
      markup that replaces them verbatim. */
  datatype InlineMarkup = InlineMarkup(extent: nat, markup: string)

  /** One input line: `body` is the whole line, `text` the line without
      its indentation. Lines never hold a line feed: the engine splits the
      document on them. */
  datatype Line = Line(body: string, text: string)

  /** The code types handled by a block of their own instead of by the
      plain fenced code block, with the name of their renderer. */
  const SPECIAL_CODE_BLOCKS: Assoc<string> := [("math", "KatexMath")]

  predicate IsSpecialCodeType(t: string) {
    t in Keys(SPECIAL_CODE_BLOCKS)
  }

  lemma SpecialIsMath(t: string)
    ensures IsSpecialCodeType(t) <==> t == "math"
  {
    assert Keys(SPECIAL_CODE_BLOCKS) == ["math"];
  }

  /** The class of every rendered equation. */
  const EQUATION_CLASS: string := "equation"

  /** The length of the longest run of characters satisfying `p` from
      `i` on. */
  function RunEnd(t: string, p: char -> bool, i: nat): (j: nat)
    requires i <= |t|
    ensures i <= j <= |t|
    ensures forall k :: i <= k < j ==> p(t[k])
    ensures j == |t| || !p(t[j])
    decreases |t| - i
  {
    if i < |t| && p(t[i]) then RunEnd(t, p, i + 1) else i
  }

  predicate IsSpace(c: char) {
    c in RegexSpaces
  }

  // ---------------------------------------------------------------
  // Inline equations: `/^\$`([^\$]*)`\$/`

  /** The element of an inline equation: a span showing the equation,
      with the equation as its title. */
  function MathSpan(eq: string): Element {
    Element("span", eq, [("title", eq), ("class", EQUATION_CLASS)])
  }

  /** `inlineMath($excerpt)`: the excerpt starts with "$`", and the first
      "$" after those two characters closes the equation, provided a
      backtick stands right before it. */
  function InlineMath(text: string): (r: Option<InlineElement>)
    ensures r.Some? ==>
      var eq := r.value.element.text;
      r.value.extent == |eq| + 4 <= |text| &&
      text[..r.value.extent] == "$`" + eq + "`$" &&
      '$' !in eq &&
      r.value.element == MathSpan(eq)
  {
    if |text| < 2 || text[0] != '$' || text[1] != '`' then None
    else match IndexOf(text[2..], '$')
      case None => None
      case Some(k) =>
        if k == 0 || text[k + 1] != '`' then None
        else
          var eq := text[2..k + 1];
          assert eq == text[2..][..k - 1];
          assert text[..k + 3] == "$`" + eq + "`$";
          Some(InlineElement(k + 3, MathSpan(eq)))
  }

  /** Every equation without a "$" is recognised, whatever follows it. */
  lemma MathRecognised(eq: string, rest: string)
    requires '$' !in eq
    ensures InlineMath("$`" + eq + "`$" + rest) == Some(InlineElement(|eq| + 4, MathSpan(eq)))
  {
    var text := "$`" + eq + "`$" + rest;
    var p := eq + "`";
    assert text[2..] == p + ['$'] + rest;
    IndexOfAfter(p, '$', rest);
    assert text[2..|eq| + 2] == eq;
  }

  // ---------------------------------------------------------------
  // Links

  /** The link hook installed by the constructor: elements pass unchanged. */
  function DefaultLinkCallback(e: Element): Element {
    e
  }

  /** `inlineLink($excerpt)`, given what the engine's own link recogniser
      returned for the excerpt: no link stays no link, and of a link only
      the element goes through the hook. */
  function InlineLink(parent: Option<InlineElement>, callback: Element -> Element): (r: Option<InlineElement>)
    ensures r.None? <==> parent.None?
    ensures r.Some? ==> r.value.extent == parent.value.extent && r.value.element == callback(parent.value.element)
  {
    match parent
    case None => None
    case Some(p) => Some(p.(element := callback(p.element)))
  }

  /** With the default hook links are exactly what the engine makes of
      them, and hooks compose. */
  lemma LinkHooks(parent: Option<InlineElement>, f: Element -> Element, g: Element -> Element)
    ensures InlineLink(parent, DefaultLinkCallback) == parent
    ensures InlineLink(InlineLink(parent, f), g) == InlineLink(parent, e => g(f(e)))
  {
  }

  // ---------------------------------------------------------------
  // Comment blocks

  /** The pattern `-->$`: the text ends in "-->", or in "-->" and a line
      feed. */
  predicate EndsWithClose(t: string) {
    (|t| >= 3 && t[|t| - 3..] == "-->") || (|t| >= 4 && t[|t| - 4..] == "-->\n")
  }

  datatype CommentBlock = CommentBlock(markup: string, closed: bool)

  /** `blockComment($Line)`: unless markup is escaped or the engine is in
      safe mode, a line whose second to fourth characters are "!--" opens
      a comment, already closed when the line ends it. A comment renders
      as nothing. */
  function BlockComment(line: Line, markupEscaped: bool, safeMode: bool): (r: Option<CommentBlock>)
    ensures r.Some? <==> !markupEscaped && !safeMode && |line.text| >= 4 && line.text[1..4] == "!--"
    ensures r.Some? ==> r.value.markup == "" && (r.value.closed <==> EndsWithClose(line.text))
  {
    if markupEscaped || safeMode then None
    else if |line.text| >= 4 && line.text[3] == '-' && line.text[2] == '-' && line.text[1] == '!' then
      Some(CommentBlock("", EndsWithClose(line.text)))
    else None
  }

  /** `blockCommentContinue($Line, $Block)`: a closed comment takes no
      more lines; an open one takes the line, which closes it when it ends
      it. The markup stays what it was. */
  function BlockCommentContinue(line: Line, b: CommentBlock): (r: Option<CommentBlock>)
    ensures r.None? <==> b.closed
    ensures r.Some? ==> r.value.markup == b.markup && (r.value.closed <==> EndsWithClose(line.text))
  {
    if b.closed then None
    else Some(b.(closed := EndsWithClose(line.text)))
  }

  /** How many of the following lines a comment takes before the engine
      has to end it. */
  function Absorbed(b: CommentBlock, lines: seq<Line>): nat
    decreases |lines|
  {
    if lines == [] then 0
    else match BlockCommentContinue(lines[0], b)
      case None => 0
      case Some(next) => 1 + Absorbed(next, lines[1..])
  }

  /** An open comment runs to the first line that ends it, that line
      included, or to the end of the document when no line does. */
  lemma {:induction false} CommentRunsToClose(b: CommentBlock, lines: seq<Line>, k: nat)
    requires !b.closed
    requires k <= |lines|
    requires forall i :: 0 <= i < k ==> !EndsWithClose(lines[i].text)
    requires k < |lines| ==> EndsWithClose(lines[k].text)
    ensures Absorbed(b, lines) == if k < |lines| then k + 1 else k
    decreases k
  {
    if k == 0 {
      if 0 < |lines| {
        var next := BlockCommentContinue(lines[0], b).value;
        assert next.closed;
        assert Absorbed(next, lines[1..]) == 0 by {
          if lines[1..] != [] {
            assert BlockCommentContinue(lines[1..][0], next).None?;
          }
        }
      }
    } else {
      var next := BlockCommentContinue(lines[0], b).value;
      assert !next.closed;
      CommentRunsToClose(next, lines[1..], k - 1);
    }
  }

  // ---------------------------------------------------------------
  // Plain fenced code

  /** The block the engine's own fenced-code recogniser opens: the fence
      character, the class of the code element ("language-" and the info
      string, when the opening line has one) and the code. */
  datatype CodeBlock = CodeBlock(fence: char, codeClass: Option<string>, code: string)

  /** The code type named by a class: what follows its first "-", or,
      when it has none, everything after its first character (`strpos`
      gives FALSE, which counts as 0). */
  function CodeTypeOf(cssClass: string): (t: string)
    ensures '-' in cssClass ==>
      |t| < |cssClass| && t == cssClass[|cssClass| - |t|..] &&
      cssClass[|cssClass| - |t| - 1] == '-' && '-' !in cssClass[..|cssClass| - |t| - 1]
    ensures '-' !in cssClass && cssClass != [] ==> t == cssClass[1..]
  {
    match IndexOf(cssClass, '-')
    case None => SubstrFrom(cssClass, 1)
    case Some(i) =>
      assert cssClass == cssClass[..i] + "-" + cssClass[i + 1..];
      SubstrFrom(cssClass, i + 1)
  }

  /** A fence of a special code type, which the special block renders. */
  predicate IsSpecialFence(b: CodeBlock) {
    b.codeClass.Some? && IsSpecialCodeType(CodeTypeOf(b.codeClass.value))
  }

  /** `blockFencedCode($Line)` as written: the engine's block is kept only
      when it has a class and that class does not name a special code
      type. A fence without an info string has no class and is dropped. */
  function BlockFencedCodeAsWritten(parent: Option<CodeBlock>): (r: Option<CodeBlock>)
    ensures r.Some? <==> parent.Some? && parent.value.codeClass.Some? && !IsSpecialFence(parent.value)
    ensures r.Some? ==> r == parent
  {
    match parent
    case Some(b) =>
      if b.codeClass.Some? && !IsSpecialCodeType(CodeTypeOf(b.codeClass.value)) then parent else None
    case None => None
  }

  /** A plain code fence, without an info string, is lost. */
  lemma PlainFenceDropped(fence: char, code: string)
    ensures !IsSpecialFence(CodeBlock(fence, None, code))
    ensures BlockFencedCodeAsWritten(Some(CodeBlock(fence, None, code))) == None
  {
  }

  /** `blockFencedCode($Line)` as intended: the engine's block, unless its
      class names a special code type. */
  function BlockFencedCode(parent: Option<CodeBlock>): (r: Option<CodeBlock>)
    ensures r.None? <==> parent.None? || IsSpecialFence(parent.value)
    ensures r.Some? ==> r == parent
  {
    if parent.Some? && IsSpecialFence(parent.value) then None else parent
  }

  /** Corrected, every fence the special block does not render is kept,
      and the correction changes nothing for fences with a class. */
  lemma FencedCodeKept(parent: Option<CodeBlock>)
    ensures parent.Some? && !IsSpecialFence(parent.value) ==> BlockFencedCode(parent) == parent
    ensures parent.Some? && parent.value.codeClass.Some? ==>
      BlockFencedCode(parent) == BlockFencedCodeAsWritten(parent)
  {
  }

  /** The engine names the class "language-" and the info string: "math"
      goes to the special block, everything else stays plain code. */
  lemma {:induction false} LanguageClass(fence: char, info: string, code: string)
    ensures IsSpecialFence(CodeBlock(fence, Some("language-" + info), code)) <==> info == "math"
  {
    var c := "language-" + info;
    assert c[8] == '-' && '-' !in c[..8];
    assert IndexOf(c, '-') == Some(8) by {
      IndexOfAfter("language", '-', info);
      assert c == "language" + ['-'] + info;
    }
    assert CodeTypeOf(c) == info;
    SpecialIsMath(info);
  }

  // ---------------------------------------------------------------
  // Display equations: a fenced block of code type "math"

  /** The state of a special fenced block: its fence character, its code
      type, the code gathered so far (no longer there once the block is
      rendered), whether blank lines came before the current line, whether
      the closing fence was seen, and the rendered element. */
  datatype FenceBlock = FenceBlock(
    fence: char, codeType: string, code: Option<string>,
    interrupted: bool, complete: bool, element: Option<Element>)

  predicate IsBacktick(c: char) {
    c == '`'
  }

  predicate IsBlankChar(c: char) {
    c == ' '
  }

  /** The pattern `^`{3,}[ ]*([^`]+)?[ ]*$` of an opening line: the
      captured info string, "" when the optional group does not take part,
      or nothing when the line does not match. The backticks and the
      spaces after them are taken greedily; the info string then runs to
      the end of the line, trailing spaces included. */
  function FenceInfo(text: string): (r: Option<string>)
    ensures var n := RunEnd(text, IsBacktick, 0);
      var m := RunEnd(text, IsBlankChar, n);
      r.Some? <==> n >= 3 && '`' !in text[m..]
    ensures r.Some? ==> r.value == text[RunEnd(text, IsBlankChar, RunEnd(text, IsBacktick, 0))..]
  {
    var n := RunEnd(text, IsBacktick, 0);
    var m := RunEnd(text, IsBlankChar, n);
    if n >= 3 && '`' !in text[m..] then Some(text[m..]) else None
  }

  /** The block a "math" opening line starts. */
  function OpenMath(): FenceBlock {
    FenceBlock('`', "math", Some(""), false, false, None)
  }

  /** `blockSpecialFencedCode($Line)`, which the engine calls for lines
      that start with a backtick: the line opens a block when its info
      string is exactly a special code type. */
  function BlockSpecialFencedCode(line: Line): (r: Option<FenceBlock>)
    requires |line.text| > 0 && line.text[0] == '`'
    ensures r.Some? <==> FenceInfo(line.text) == Some("math")
    ensures r.Some? ==> r.value == OpenMath()
  {
    match FenceInfo(line.text)
    case None => None
    case Some(info) =>
      SpecialIsMath(info);
      if !IsSpecialCodeType(info) then None
      else Some(FenceBlock(line.text[0], info, Some(""), false, false, None))
  }

  /** Three or more backticks and any spaces, then "math", open a block;
      "math" must end the line and a shorter fence is not one. */
  lemma {:induction false} MathOpening(n: nat, m: nat)
    requires n >= 3
    ensures var t := seq(n, _ => '`') + seq(m, _ => ' ') + "math";
      BlockSpecialFencedCode(Line(t, t)) == Some(OpenMath())
  {
    var t := seq(n, _ => '`') + seq(m, _ => ' ') + "math";
    assert RunEnd(t, IsBacktick, 0) == n by {
      RunEndAt(t, IsBacktick, 0, n);
    }
    assert RunEnd(t, IsBlankChar, n) == n + m by {
      RunEndAt(t, IsBlankChar, n, n + m);
    }
    assert t[n + m..] == "math";
  }

  /** `RunEnd` is the first position from `i` on where the run breaks. */
  lemma {:induction false} RunEndAt(t: string, p: char -> bool, i: nat, j: nat)
    requires i <= j <= |t|
    requires forall k :: i <= k < j ==> p(t[k])
    requires j == |t| || !p(t[j])
    ensures RunEnd(t, p, i) == j
    decreases j - i
  {
    if i < j {
      RunEndAt(t, p, i + 1, j);
    }
  }

  lemma NotOpenings()
    ensures BlockSpecialFencedCode(Line("``math", "``math")).None?
    ensures BlockSpecialFencedCode(Line("```math ", "```math ")).None?
    ensures BlockSpecialFencedCode(Line("```python", "```python")).None?
    ensures BlockSpecialFencedCode(Line("```", "```")).None?
  {
    var a, b, c, d := "``math", "```math ", "```python", "```";
    RunEndAt(a, IsBacktick, 0, 2);
    RunEndAt(b, IsBacktick, 0, 3);
    RunEndAt(b, IsBlankChar, 3, 3);
    assert b[3..] == "math ";
    RunEndAt(c, IsBacktick, 0, 3);
    RunEndAt(c, IsBlankChar, 3, 3);
    assert c[3..] == "python";
    RunEndAt(d, IsBacktick, 0, 3);
    RunEndAt(d, IsBlankChar, 3, 3);
    SpecialIsMath("math ");
    SpecialIsMath("python");
    SpecialIsMath("");
  }

  /** The pattern `^c{3,}[ ]*$` of a closing line for fence character
      `c`: three or more of it, then only spaces. */
  predicate IsClosingFence(text: string, c: char) {
    var n := RunEnd(text, x => x == c, 0);
    n >= 3 && RunEnd(text, IsBlankChar, n) == |text|
  }

  /** `blockSpecialFencedCodeContinue($Line, $Block)`: a complete block
      takes no more lines. Otherwise blank lines skipped before this line
      add one line feed; a closing fence completes the block and drops
      the line feed the first line of code began with; any other line is
      appended, whole, after a line feed. */
  function BlockSpecialFencedCodeContinue(line: Line, b: FenceBlock): (r: Option<FenceBlock>)
    ensures r.None? <==> b.complete
    ensures r.Some? ==> (r.value.fence == b.fence && r.value.codeType == b.codeType &&
      r.value.element == b.element && !r.value.interrupted)
    ensures r.Some? ==> (r.value.complete <==> IsClosingFence(line.text, b.fence))
    ensures r.Some? && !r.value.complete ==>
      r.value.code == Some(b.code.GetOr("") + (if b.interrupted then "\n" else "") + "\n" + line.body)
  {
    if b.complete then None
    else
      var code := b.code.GetOr("") + (if b.interrupted then "\n" else "");
      if IsClosingFence(line.text, b.fence) then
        Some(b.(code := Some(SubstrFrom(code, 1)), interrupted := false, complete := true))
      else
        Some(b.(code := Some(code + "\n" + line.body), interrupted := false))
  }

  /** Feeding lines to a block, as the engine does while the block takes
      them. */
  function ContinueAll(b: FenceBlock, lines: seq<Line>): Option<FenceBlock>
    decreases |lines|
  {
    if lines == [] then Some(b)
    else match BlockSpecialFencedCodeContinue(lines[0], b)
      case None => None
      case Some(next) => ContinueAll(next, lines[1..])
  }

  /** The code lines, each after a line feed. */
  function FedLines(lines: seq<Line>): string
    decreases |lines|
  {
    if lines == [] then "" else "\n" + lines[0].body + FedLines(lines[1..])
  }

  /** The code lines joined by line feeds. */
  function CodeOf(lines: seq<Line>): string {
    Join(seq(|lines|, i requires 0 <= i < |lines| => lines[i].body), '\n')
  }

  /** Lines that are not a closing fence are appended one by one. */
  lemma {:induction false} FeedCode(b: FenceBlock, lines: seq<Line>)
    requires !b.complete && !b.interrupted && b.code.Some?
    requires forall i :: 0 <= i < |lines| ==> !IsClosingFence(lines[i].text, b.fence)
    ensures ContinueAll(b, lines) == Some(b.(code := Some(b.code.value + FedLines(lines))))
    decreases |lines|
  {
    if lines != [] {
      var next := b.(code := Some(b.code.value + "\n" + lines[0].body));
      ContinueStep(lines[0], b);
      assert ContinueAll(b, lines) == ContinueAll(next, lines[1..]);
      assert forall i :: 0 <= i < |lines[1..]| ==> !IsClosingFence(lines[1..][i].text, next.fence) by {
        forall i | 0 <= i < |lines[1..]| ensures !IsClosingFence(lines[1..][i].text, next.fence) {
          assert lines[1..][i] == lines[i + 1];
        }
      }
      FeedCode(next, lines[1..]);
      var v, w := b.code.value, "\n" + lines[0].body;
      assert FedLines(lines) == w + FedLines(lines[1..]);
      assert v + "\n" + lines[0].body == v + w;
      assert v + w + FedLines(lines[1..]) == v + (w + FedLines(lines[1..]));
    } else {
      assert b.code.value + FedLines(lines) == b.code.value;
    }
  }

  /** One line of code is appended after a line feed. */
  lemma ContinueStep(line: Line, b: FenceBlock)
    requires !b.complete && !b.interrupted && b.code.Some? && !IsClosingFence(line.text, b.fence)
    ensures BlockSpecialFencedCodeContinue(line, b) == Some(b.(code := Some(b.code.value + "\n" + line.body)))
  {
    assert b.code.GetOr("") + "" == b.code.value;
  }

  /** The lines fed, less the first line feed, are the lines joined. */
  lemma {:induction false} FedLinesJoin(lines: seq<Line>)
    ensures FedLines(lines) == if lines == [] then "" else "\n" + CodeOf(lines)
    decreases |lines|
  {
    if |lines| > 1 {
      FedLinesJoin(lines[1..]);
      var bodies := seq(|lines|, i requires 0 <= i < |lines| => lines[i].body);
      assert bodies[1..] == seq(|lines[1..]|, i requires 0 <= i < |lines[1..]| => lines[1..][i].body);
    } else if |lines| == 1 {
      assert FedLines(lines[1..]) == "";
    }
  }

  /** From the opening line to the closing fence, the block gathers the
      lines in between, joined by line feeds, and is complete. */
  lemma {:induction false} FenceGathersLines(lines: seq<Line>, close: Line)
    requires forall i :: 0 <= i < |lines| ==> !IsClosingFence(lines[i].text, '`')
    requires IsClosingFence(close.text, '`')
    ensures ContinueAll(OpenMath(), lines + [close]) ==
      Some(OpenMath().(code := Some(CodeOf(lines)), complete := true))
  {
    FeedCode(OpenMath(), lines);
    var fed := FedLines(lines);
    assert "" + fed == fed;
    var mid := OpenMath().(code := Some(fed));
    ContinueAllAppend(OpenMath(), lines, close, mid);
    assert fed + "" == fed;
    FedLinesJoin(lines);
    assert SubstrFrom(fed, 1) == CodeOf(lines) by {
      if lines != [] {
        assert fed[1..] == CodeOf(lines);
      }
    }
    assert BlockSpecialFencedCodeContinue(close, mid) ==
      Some(mid.(code := Some(SubstrFrom(fed, 1)), interrupted := false, complete := true));
  }

  lemma {:induction false} ContinueAllAppend(b: FenceBlock, lines: seq<Line>, last: Line, mid: FenceBlock)
    requires ContinueAll(b, lines) == Some(mid)
    ensures ContinueAll(b, lines + [last]) == BlockSpecialFencedCodeContinue(last, mid)
    decreases |lines|
  {
    if lines == [] {
      assert lines + [last] == [last];
    } else {
      var next := BlockSpecialFencedCodeContinue(lines[0], b).value;
      assert (lines + [last])[1..] == lines[1..] + [last];
      ContinueAllAppend(next, lines[1..], last, mid);
    }
  }

  /** The title of a display equation: `preg_replace('/\\\s*\n/', '', ...)`.
      In the single-quoted pattern `\s` is the letter "s" after an escaped
      backslash, so every backslash followed by any number of "s" and a
      line feed is removed, scanning left to right. */
  function RemoveBreaks(s: string): (r: string)
    ensures |r| <= |s|
    ensures '\\' !in s ==> r == s
    ensures '\n' !in s ==> r == s
    decreases |s|
  {
    if s == [] then []
    else if s[0] == '\\' then
      var j := RunEnd(s, IsLetterS, 1);
      if j < |s| && s[j] == '\n' then
        assert '\n' in s;
        RemoveBreaks(s[j + 1..])
      else
        assert s == [s[0]] + s[1..];
        [s[0]] + RemoveBreaks(s[1..])
    else
      assert s == [s[0]] + s[1..];
      [s[0]] + RemoveBreaks(s[1..])
  }

  predicate IsLetterS(c: char) {
    c == 's'
  }

  /** A backslash right before a line feed goes with it. */
  lemma BreakRemoved()
    ensures RemoveBreaks("a\\\nb") == "ab"
  {
    var s := "a\\\nb";
    assert s[1..] == "\\\nb";
    RunEndAt(s[1..], IsLetterS, 1, 1);
    assert s[1..][2..] == "b";
    assert RemoveBreaks("b") == "b";
  }

  /** So does a backslash followed by letters "s" and a line feed. */
  lemma LettersSRemoved()
    ensures RemoveBreaks("a\\ss\nb") == "ab"
  {
    var s := "a\\ss\nb";
    assert s[1..] == "\\ss\nb";
    RunEndAt(s[1..], IsLetterS, 1, 3);
    assert s[1..][4..] == "b";
    assert RemoveBreaks("b") == "b";
  }

  /** A space between the backslash and the line feed keeps both. */
  lemma SpacedBreakKept()
    ensures RemoveBreaks("a\\ \nb") == "a\\ \nb"
  {
    var s := "a\\ \nb";
    assert s[1..] == "\\ \nb";
    RunEndAt(s[1..], IsLetterS, 1, 1);
    assert s[1..][1..] == " \nb";
    assert s[1..][1..][1..] == "\nb";
    assert RemoveBreaks("\nb") == "\nb" by {
      assert "\nb"[1..] == "b";
      assert RemoveBreaks("b") == "b";
    }
  }

  /** `specialCodeKatexMath($Block)`: a paragraph showing the code, of the
      equation class, titled by the code without its escaped line breaks. */
  function SpecialCodeKatexMath(b: FenceBlock): (r: FenceBlock)
    ensures r == b.(element := Some(Element("p", b.code.GetOr(""),
      [("class", EQUATION_CLASS), ("title", RemoveBreaks(b.code.GetOr("")))])))
  {
    var code := b.code.GetOr("");
    b.(element := Some(Element("p", code, [("class", EQUATION_CLASS), ("title", RemoveBreaks(code))])))
  }

  /** `blockSpecialFencedCodeComplete($Block)`: the block is rendered by
      the renderer of its code type, and its code is dropped. The code type
      stays: the source unsets a key spelled `codetype`, which the block
      does not have. */
  function BlockSpecialFencedCodeComplete(b: FenceBlock): (r: FenceBlock)
    requires IsSpecialCodeType(b.codeType)
    ensures r.code.None? && r.codeType == b.codeType && r.fence == b.fence && r.complete == b.complete
    ensures r.element == Some(Element("p", b.code.GetOr(""),
      [("class", EQUATION_CLASS), ("title", RemoveBreaks(b.code.GetOr("")))]))
  {
    SpecialIsMath(b.codeType);
    SpecialCodeKatexMath(b).(code := None)
  }

  /** A display equation renders as a paragraph holding the lines between
      its fences, joined by line feeds, and takes no line after its
      closing fence. */
  lemma {:induction false} DisplayEquation(lines: seq<Line>, close: Line)
    requires forall i :: 0 <= i < |lines| ==> !IsClosingFence(lines[i].text, '`')
    requires IsClosingFence(close.text, '`')
    ensures IsSpecialCodeType(OpenMath().codeType)
    ensures ContinueAll(OpenMath(), lines + [close]) == Some(OpenMath().(code := Some(CodeOf(lines)), complete := true))
    ensures BlockSpecialFencedCodeComplete(OpenMath().(code := Some(CodeOf(lines)), complete := true)).element ==
      Some(Element("p", CodeOf(lines), [("class", EQUATION_CLASS), ("title", RemoveBreaks(CodeOf(lines)))]))
    ensures BlockSpecialFencedCodeContinue(close, OpenMath().(code := Some(CodeOf(lines)), complete := true)).None?
  {
    FenceGathersLines(lines, close);
    SpecialIsMath("math");
  }

  // ---------------------------------------------------------------
  // Inline module calls:
  // `/\[\[\s*([a-z0-9][a-z0-9\-]*)\s*:\s*(.*[^\\\\])\]\]/`

  predicate IsNameStart(c: char) {
    'a' <= c <= 'z' || '0' <= c <= '9'
  }

  predicate IsNameChar(c: char) {
    IsNameStart(c) || c == '-'
  }

  /** A module call found in a text: where it starts, where its name
      starts and ends, where its ":" stands, and where its arguments start
      and end. */
  datatype ModuleMatch = ModuleMatch(
    start: nat, nameStart: nat, nameEnd: nat, colon: nat, argsStart: nat, argsEnd: nat)

  /** Characters `i` to `j` are blanks (`\s`). */
  predicate BlanksBetween(t: string, i: nat, j: nat)
    requires i <= j <= |t|
  {
    forall k :: i <= k < j ==> IsSpace(t[k])
  }

  /** Characters `i` to `j` are a name: `[a-z0-9][a-z0-9\-]*`. */
  predicate NameBetween(t: string, i: nat, j: nat)
    requires i < j <= |t|
  {
    IsNameStart(t[i]) && forall k :: i <= k < j ==> IsNameChar(t[k])
  }

  /** The positions of `m` are in order and inside the text. */
  predicate InOrder(t: string, m: ModuleMatch) {
    m.start + 2 <= m.nameStart < m.nameEnd <= m.colon < m.argsStart < m.argsEnd && m.argsEnd + 2 <= |t|
  }

  /** The call `m` has the shape of the pattern: "[[", blanks, a name,
      blanks, ":", blanks, arguments that do not cross a line feed
      (though their last character may be one) and do not end in a
      backslash, and "]]". */
  predicate IsModuleCall(t: string, m: ModuleMatch) {
    InOrder(t, m) &&
    t[m.start] == '[' && t[m.start + 1] == '[' &&
    BlanksBetween(t, m.start + 2, m.nameStart) &&
    NameBetween(t, m.nameStart, m.nameEnd) &&
    BlanksBetween(t, m.nameEnd, m.colon) && t[m.colon] == ':' &&
    BlanksBetween(t, m.colon + 1, m.argsStart) &&
    ClosesAt(t, m.argsStart, m.argsEnd)
  }

  /** The arguments may end at `e`: "]]" follows, the character before is
      not a backslash, and no line feed comes between `q` and it. */
  predicate ClosesAt(t: string, q: nat, e: nat) {
    q < e && e + 2 <= |t| && t[e] == ']' && t[e + 1] == ']' && t[e - 1] != '\\' &&
    forall k :: q <= k < e - 1 ==> t[k] != '\n'
  }

  /** The largest end not above `e` where the arguments may end, as the
      greedy `.*` finds it. */
  function LastClose(t: string, q: nat, e: nat): (r: Option<nat>)
    ensures r.Some? ==> ClosesAt(t, q, r.value) && r.value <= e
    ensures r.Some? ==> forall e': nat :: r.value < e' <= e ==> !ClosesAt(t, q, e')
    ensures r.None? ==> forall e': nat :: e' <= e ==> !ClosesAt(t, q, e')
    decreases e
  {
    if ClosesAt(t, q, e) then Some(e)
    else if e <= q then None
    else LastClose(t, q, e - 1)
  }

  /** The match of the pattern that starts at `s`, as the backtracking
      matcher finds it: the blanks and the name are taken greedily and
      never given back; the blanks after ":" are taken greedily, and the
      arguments run to the last "]]" that can close them. Only when none
      can, the last blank goes back to the arguments, which then are that
      one character when "]]" follows the blanks directly. */
  function ModuleAt(t: string, s: nat): (r: Option<ModuleMatch>)
    ensures r.Some? ==> r.value.start == s && IsModuleCall(t, r.value)
  {
    if s + 2 > |t| || t[s] != '[' || t[s + 1] != '[' then None
    else
      var i1 := RunEnd(t, IsSpace, s + 2);
      if i1 == |t| || !IsNameStart(t[i1]) then None
      else CallAfterName(t, s, i1, RunEnd(t, IsNameChar, i1))
  }

  /** The rest of the match once "[[", the blanks and the name are taken. */
  function CallAfterName(t: string, s: nat, i1: nat, i2: nat): (r: Option<ModuleMatch>)
    requires s + 2 <= i1 < i2 <= |t| && t[s] == '[' && t[s + 1] == '['
    requires BlanksBetween(t, s + 2, i1) && NameBetween(t, i1, i2)
    ensures r.Some? ==> r.value.start == s && IsModuleCall(t, r.value)
    ensures r.Some? ==> r.value.nameStart == i1 && r.value.nameEnd == i2
  {
    var i3 := RunEnd(t, IsSpace, i2);
    if i3 == |t| || t[i3] != ':' then None
    else CallArguments(t, s, i1, i2, i3, RunEnd(t, IsSpace, i3 + 1))
  }

  /** The arguments, once everything up to the blanks after ":" is taken. */
  function CallArguments(t: string, s: nat, i1: nat, i2: nat, i3: nat, q: nat): (r: Option<ModuleMatch>)
    requires s + 2 <= i1 < i2 <= i3 < q <= |t| && t[s] == '[' && t[s + 1] == '['
    requires BlanksBetween(t, s + 2, i1) && NameBetween(t, i1, i2)
    requires BlanksBetween(t, i2, i3) && t[i3] == ':' && BlanksBetween(t, i3 + 1, q)
    ensures r.Some? ==> r.value.start == s && IsModuleCall(t, r.value)
    ensures r.Some? ==> r.value.nameStart == i1 && r.value.nameEnd == i2 && r.value.colon == i3
  {
    match LastClose(t, q, |t|)
    case Some(e) => Some(ModuleMatch(s, i1, i2, i3, q, e))
    case None =>
      if q > i3 + 1 && q + 2 <= |t| && t[q] == ']' && t[q + 1] == ']' then
        Some(ModuleMatch(s, i1, i2, i3, q - 1, q))
      else None
  }

  /** The first start from `s` on where the pattern matches. */
  function FirstModule(t: string, s: nat): (r: Option<ModuleMatch>)
    ensures r.Some? ==> s <= r.value.start && ModuleAt(t, r.value.start) == r
    decreases |t| - s
  {
    if s + 2 > |t| then None
    else match ModuleAt(t, s)
      case Some(m) => Some(m)
      case None => FirstModule(t, s + 1)
  }

  /** The first match is the leftmost one, and there is none when it is
      not found. */
  lemma FirstModuleIsLeftmost(t: string, s: nat)
    ensures FirstModule(t, s).Some? ==>
      forall s': nat :: s <= s' < FirstModule(t, s).value.start ==> ModuleAt(t, s').None?
    ensures FirstModule(t, s).None? ==> forall s': nat :: s <= s' ==> ModuleAt(t, s').None?
  {
    forall s': nat | s <= s' && (FirstModule(t, s).None? || s' < FirstModule(t, s).value.start)
      ensures ModuleAt(t, s').None?
    {
      FirstModuleSkips(t, s, s');
    }
  }

  /** No start the search passes over has a match. */
  lemma {:induction false} FirstModuleSkips(t: string, s: nat, s': nat)
    requires s <= s'
    requires FirstModule(t, s).None? || s' < FirstModule(t, s).value.start
    ensures ModuleAt(t, s').None?
    decreases s' - s
  {
    if s + 2 > |t| {
      NoRoom(t, s');
    } else {
      assert ModuleAt(t, s).None?;
      assert FirstModule(t, s) == FirstModule(t, s + 1);
      if s < s' {
        FirstModuleSkips(t, s + 1, s');
      }
    }
  }

  /** Too close to the end of the text for "[[" and "]]". */
  lemma NoRoom(t: string, s: nat)
    requires s + 2 > |t|
    ensures ModuleAt(t, s).None?
  {
  }

  /** The markup of a call: the handler's output for the name and the
      arguments with their C-style escapes undone (`stripcslashes`, a
      parameter here). */
  function CallMarkup(t: string, m: ModuleMatch, handler: (string, string) -> string,
                      unescape: string -> string): string
    requires IsModuleCall(t, m)
  {
    handler(t[m.nameStart..m.nameEnd], unescape(t[m.argsStart..m.argsEnd]))
  }

  /** `inlineModule($excerpt)` as written: the pattern is not anchored, so
      the call may start anywhere in the excerpt, while the extent is its
      length alone, counted by the engine from the marker. */
  function InlineModuleAsWritten(t: string, handler: (string, string) -> string,
                                 unescape: string -> string): (r: Option<InlineMarkup>)
    ensures r.None? <==> forall s: nat :: ModuleAt(t, s).None?
    ensures r.Some? ==> FirstModule(t, 0).Some? && var m := FirstModule(t, 0).value;
      r.value.extent == m.argsEnd + 2 - m.start && r.value.markup == CallMarkup(t, m, handler, unescape)
  {
    FirstModuleIsLeftmost(t, 0);
    match FirstModule(t, 0)
    case None => None
    case Some(m) => Some(InlineMarkup(m.argsEnd + 2 - m.start, CallMarkup(t, m, handler, unescape)))
  }

  /** `inlineModule($excerpt)` anchored at the marker: only a call that
      starts the excerpt is taken, and the extent covers exactly it. */
  function InlineModule(t: string, handler: (string, string) -> string,
                        unescape: string -> string): (r: Option<InlineMarkup>)
    ensures r.None? <==> ModuleAt(t, 0).None?
    ensures r.Some? ==> var m := ModuleAt(t, 0).value;
      r.value.extent == m.argsEnd + 2 && r.value.extent <= |t| &&
      t[0] == '[' && t[1] == '[' && t[r.value.extent - 2] == ']' && t[r.value.extent - 1] == ']' &&
      r.value.markup == CallMarkup(t, m, handler, unescape)
  {
    match ModuleAt(t, 0)
    case None => None
    case Some(m) => Some(InlineMarkup(m.argsEnd + 2, CallMarkup(t, m, handler, unescape)))
  }

  /** Every text with a call of the pattern's shape at `s` has a match
      there: the matcher finds one whenever the pattern allows one, with
      the same name; when the arguments do not start with a blank, it
      finds them where they start, and runs them at least as far. */
  lemma {:induction false} ModuleFound(t: string, m: ModuleMatch)
    requires IsModuleCall(t, m)
    ensures ModuleAt(t, m.start).Some?
    ensures var r := ModuleAt(t, m.start).value;
      r.nameStart == m.nameStart && r.nameEnd == m.nameEnd && r.colon == m.colon &&
      (!IsSpace(t[m.argsStart]) ==> r.argsStart == m.argsStart && m.argsEnd <= r.argsEnd)
  {
    NameEndsAtBlankOrColon(t, m);
    NameTaken(t, m.start, m.nameStart, m.nameEnd);
    ModuleAtStages(t, m.start, m.nameStart, m.nameEnd);
    CallAfterNameFound(t, m);
  }

  /** With the runs of blanks and of the name known, the match is the
      second stage's. */
  lemma ModuleAtStages(t: string, s: nat, i1: nat, i2: nat)
    requires s + 2 <= i1 < i2 <= |t| && t[s] == '[' && t[s + 1] == '['
    requires BlanksBetween(t, s + 2, i1) && NameBetween(t, i1, i2)
    requires RunEnd(t, IsSpace, s + 2) == i1 && RunEnd(t, IsNameChar, i1) == i2
    ensures ModuleAt(t, s) == CallAfterName(t, s, i1, i2)
  {
  }

  /** With the runs of blanks around ":" known, the second stage's match
      is the last stage's. */
  lemma CallAfterNameStages(t: string, s: nat, i1: nat, i2: nat, i3: nat, q: nat)
    requires s + 2 <= i1 < i2 <= i3 < q <= |t| && t[s] == '[' && t[s + 1] == '['
    requires BlanksBetween(t, s + 2, i1) && NameBetween(t, i1, i2)
    requires BlanksBetween(t, i2, i3) && t[i3] == ':' && BlanksBetween(t, i3 + 1, q)
    requires RunEnd(t, IsSpace, i2) == i3 && RunEnd(t, IsSpace, i3 + 1) == q
    ensures CallAfterName(t, s, i1, i2) == CallArguments(t, s, i1, i2, i3, q)
  {
  }

  /** The first stage takes the "[[", the blanks and the name of a call as
      they stand. */
  lemma {:induction false} NameTaken(t: string, s: nat, i1: nat, i2: nat)
    requires s + 2 <= i1 < i2 < |t| && t[s] == '[' && t[s + 1] == '['
    requires BlanksBetween(t, s + 2, i1) && NameBetween(t, i1, i2) && !IsNameChar(t[i2])
    ensures RunEnd(t, IsSpace, s + 2) == i1 && RunEnd(t, IsNameChar, i1) == i2
  {
    RunEndAt(t, IsSpace, s + 2, i1);
    assert !IsSpace(t[i1]);
    RunEndAt(t, IsNameChar, i1, i2);
  }

  lemma NameEndsAtBlankOrColon(t: string, m: ModuleMatch)
    requires IsModuleCall(t, m)
    ensures !IsNameChar(t[m.nameEnd])
  {
    if m.nameEnd < m.colon {
      assert IsSpace(t[m.nameEnd]);
    } else {
      assert t[m.nameEnd] == ':';
    }
  }

  /** The second stage finds a call whose "[[", blanks and name are taken. */
  lemma {:induction false} CallAfterNameFound(t: string, m: ModuleMatch)
    requires IsModuleCall(t, m)
    ensures var r := CallAfterName(t, m.start, m.nameStart, m.nameEnd);
      r.Some? && r.value.colon == m.colon &&
      (!IsSpace(t[m.argsStart]) ==> r.value.argsStart == m.argsStart && m.argsEnd <= r.value.argsEnd)
  {
    RunEndAt(t, IsSpace, m.nameEnd, m.colon);
    var q := RunEnd(t, IsSpace, m.colon + 1);
    assert m.argsStart <= q;
    assert !IsSpace(t[m.argsStart]) ==> q == m.argsStart;
    CallAfterNameStages(t, m.start, m.nameStart, m.nameEnd, m.colon, q);
    CallArgumentsFound(t, m, q);
  }

  /** The last stage finds the arguments once the blanks after ":" are
      taken up to `q`. */
  lemma {:induction false} CallArgumentsFound(t: string, m: ModuleMatch, q: nat)
    requires IsModuleCall(t, m)
    requires m.argsStart <= q <= |t| && BlanksBetween(t, m.colon + 1, q)
    requires q == |t| || !IsSpace(t[q])
    ensures var r := CallArguments(t, m.start, m.nameStart, m.nameEnd, m.colon, q);
      r.Some? && (q == m.argsStart ==> r.value.argsStart == q && m.argsEnd <= r.value.argsEnd)
  {
    assert q <= m.argsEnd;
    if q < m.argsEnd {
      assert ClosesAt(t, q, m.argsEnd);
    }
  }

  /** A call written out plainly, with its arguments on one line, is
      found where it stands. */
  lemma {:induction false} PlainCall(name: string, args: string, rest: string)
    requires name != [] && IsNameStart(name[0]) && forall i :: 0 <= i < |name| ==> IsNameChar(name[i])
    requires args != [] && !IsSpace(args[0]) && args[|args| - 1] != '\\' && '\n' !in args
    ensures var t := "[[" + name + ":" + args + "]]" + rest;
      ModuleAt(t, 0).Some? && ModuleAt(t, 0).value.nameStart == 2 &&
      ModuleAt(t, 0).value.nameEnd == |name| + 2 && ModuleAt(t, 0).value.argsStart == |name| + 3
  {
    var t := "[[" + name + ":" + args + "]]" + rest;
    var n := |name|;
    var m := ModuleMatch(0, 2, n + 2, n + 2, n + 3, n + 3 + |args|);
    assert t[2..n + 2] == name;
    assert t[n + 2] == ':';
    assert t[n + 3..n + 3 + |args|] == args;
    assert IsModuleCall(t, m);
    assert t[n + 3] == args[0];
    ModuleFound(t, m);
  }

  /** The unanchored pattern in action: after a link label, the call
      "[[m:a]]" is found four characters on, and the seven characters the
      inline takes from the marker are "[x] [[m", not the call. */
  lemma UnanchoredCallMisplaced(h: (string, string) -> string, u: string -> string)
    ensures var t := "[x] [[m:a]]";
      InlineModuleAsWritten(t, h, u).Some? && InlineModuleAsWritten(t, h, u).value.extent == 7 &&
      t[..7] == "[x] [[m" && InlineModule(t, h, u).None?
  {
    var t := "[x] [[m:a]]";
    var m := ModuleMatch(4, 6, 7, 7, 8, 9);
    CallAfterLabel(t);
    assert FirstModule(t, 3) == Some(m);
    assert FirstModule(t, 2) == Some(m);
    assert FirstModule(t, 1) == Some(m);
    assert FirstModule(t, 0) == Some(m);
  }

  /** Where the matcher finds the call in "[x] [[m:a]]", and that it finds
      none before. */
  lemma CallAfterLabel(t: string)
    requires t == "[x] [[m:a]]"
    ensures ModuleAt(t, 0).None? && ModuleAt(t, 1).None? && ModuleAt(t, 2).None? && ModuleAt(t, 3).None?
    ensures ModuleAt(t, 4) == Some(ModuleMatch(4, 6, 7, 7, 8, 9))
  {
    assert t[1] == 'x' && t[2] == ']' && t[3] == ' ' && t[4] == '[' && t[6] == 'm' && t[7] == ':';
    RunEndAt(t, IsSpace, 6, 6);
    RunEndAt(t, IsNameChar, 6, 7);
    RunEndAt(t, IsSpace, 7, 7);
    RunEndAt(t, IsSpace, 8, 8);
    assert !ClosesAt(t, 8, 11) && !ClosesAt(t, 8, 10) && ClosesAt(t, 8, 9);
    assert LastClose(t, 8, 11) == Some(9);
  }

  // ---------------------------------------------------------------
  // Configuration

  /** The state the extension keeps beside the engine's own: the hook
      every link element goes through and the handler of module calls.
      The recognisers above take these as parameters; the registration of
      the recognisers with the engine is not part of this model. */
  class Hooks {
    var linkCallback: Element -> Element
    var moduleHandler: Option<(string, string) -> string>

    /** A new formatter passes links through unchanged and has no module
        handler yet. */
    constructor ()
      ensures linkCallback == DefaultLinkCallback && moduleHandler == None
    {
      linkCallback := DefaultLinkCallback;
      moduleHandler := None;
    }

    /** `setLinkCallback($cb)`: later links go through `cb`; the module
        handler stays. */
    method SetLinkCallback(cb: Element -> Element)
      modifies this
      ensures linkCallback == cb && moduleHandler == old(moduleHandler)
    {
      linkCallback := cb;
    }

    /** `setModuleHandlerCallback($cb)`: later module calls go to `cb`;
        the link hook stays. */
    method SetModuleHandlerCallback(cb: (string, string) -> string)
      modifies this
      ensures moduleHandler == Some(cb) && linkCallback == old(linkCallback)
    {
      moduleHandler := Some(cb);
    }
  }

  /** Registering a hook on a new formatter makes every link the engine
      finds go through it, and nothing else of the link changes. */
  method HookedLink(cb: Element -> Element, parent: Option<InlineElement>) returns (r: Option<InlineElement>)
    ensures r.None? <==> parent.None?
    ensures r.Some? ==> r.value == parent.value.(element := cb(parent.value.element))
  {
    var hooks := new Hooks();
    hooks.SetLinkCallback(cb);
    r := InlineLink(parent, hooks.linkCallback);
  }
}
