/** The literate-Chapel renderer (scripts/chpl2md.py): a tokenized Chapel
    file, a list of pieces, becomes either a Markdown page for Hugo
    (`gen_md`) or the plain companion source (`gen_code`).

    Code lines are numbered the same way by both: counting starts at 1 and
    each code piece advances the count by its number of lines plus one, the
    blank line that separates code pieces in the companion source. */
module Chpl2Md {
  import opened Prelude
  import opened Strings
  import opened VariantOptions
  import opened LineAnchors

  /** A piece of a tokenized literate-Chapel file. A title piece is
      represented by its first line, the only one the renderer reads; an
      output piece carries the index of its output chunk. */
  datatype Piece =
    | Title(text: string)
    | FrontMatter(lines: seq<string>)
    | Prose(lines: seq<string>)
    | Code(lines: seq<string>)
    | Output(chunk: nat)

  // ---------------------------------------------------------------------
  // print_good: the console-output widget

  const ConsoleOutputOpen: string := "{{< console_output >}}"
  const ConsoleOutputClose: string := "{{< /console_output >}}"
  const ConsoleMultiClose: string := "{{< /console_multi >}}"
  const ConsoleDummy: string := "{{< console_single dummy=\"\" >}}"
  const ConsoleOptionClose: string := "{{< /console_option >}}"

  function ConsoleSingle(chunk: nat): string {
    "{{< console_single suffix=\"\" chunk=\"" + NatToString(chunk) + "\">}}"
  }

  function ConsoleMultiOpen(chunk: nat): string {
    "{{< console_multi chunk=\"" + NatToString(chunk) + "\" >}}"
  }

  /** The menu entry of one variant: its suffix behind a dot, and the label
      made of its compile and execution options. */
  function OptionEntry(v: Variant): seq<string> {
    var text := v.compopt + " " + v.execopt;
    [ "{{< console_option suffix=\"." + v.suffix + "\" label=\"" + text + "\" >}}",
      ConsoleDummy,
      ConsoleOptionClose ]
  }

  /** The menu entries of `vs`, in order. */
  function OptionEntries(vs: seq<Variant>): seq<string> {
    if vs == [] then [] else OptionEntries(vs[..|vs| - 1]) + OptionEntry(vs[|vs| - 1])
  }

  /** The lines `print_good` appends for output chunk `chunk`. */
  function ConsoleBlock(options: seq<Variant>, chunk: nat): seq<string> {
    ["", ConsoleOutputOpen]
    + (if |options| == 1 then [ConsoleSingle(chunk)]
       else [ConsoleMultiOpen(chunk)] + OptionEntries(options) + [ConsoleMultiClose])
    + [ConsoleOutputClose]
  }

  /** `print_good`: appends the console widget for one output chunk. */
  method PrintGood(output: seq<string>, options: seq<Variant>, chunk: nat) returns (out: seq<string>)
    ensures out == output + ConsoleBlock(options, chunk)
  {
    out := output + [""];
    out := out + [ConsoleOutputOpen];
    if |options| == 1 {
      out := out + [ConsoleSingle(chunk)];
    } else {
      out := out + [ConsoleMultiOpen(chunk)];
      for k := 0 to |options|
        invariant out == output + ["", ConsoleOutputOpen, ConsoleMultiOpen(chunk)] + OptionEntries(options[..k])
      {
        assert options[..k + 1][..k] == options[..k];
        assert OptionEntries(options[..k + 1]) == OptionEntries(options[..k]) + OptionEntry(options[k]);
        ghost var before := out;
        var v := options[k];
        var text := v.compopt + " " + v.execopt;
        out := out + ["{{< console_option suffix=\"." + v.suffix + "\" label=\"" + text + "\" >}}"];
        out := out + [ConsoleDummy];
        out := out + [ConsoleOptionClose];
        assert out == before + OptionEntry(v);
      }
      assert options[..|options|] == options;
      out := out + [ConsoleMultiClose];
    }
    out := out + [ConsoleOutputClose];
  }

  /** The menu has three lines per variant, and variant `k` owns lines
      `3k` to `3k + 2`. */
  lemma {:induction false} OptionEntriesAt(vs: seq<Variant>)
    ensures |OptionEntries(vs)| == 3 * |vs|
    ensures forall k :: 0 <= k < |vs| ==> OptionEntries(vs)[3 * k..3 * k + 3] == OptionEntry(vs[k])
  {
    if vs != [] {
      var init := vs[..|vs| - 1];
      OptionEntriesAt(init);
      var e := OptionEntries(vs);
      forall k | 0 <= k < |vs| ensures e[3 * k..3 * k + 3] == OptionEntry(vs[k]) {
        if k < |init| {
          assert e[3 * k..3 * k + 3] == OptionEntries(init)[3 * k..3 * k + 3];
        }
      }
    }
  }

  /** With exactly one variant the widget is a single console with an empty
      suffix; the whole block is wrapped in `console_output` and preceded by
      a blank line. */
  lemma ConsoleBlockSingle(options: seq<Variant>, chunk: nat)
    requires |options| == 1
    ensures ConsoleBlock(options, chunk) == ["", ConsoleOutputOpen, ConsoleSingle(chunk), ConsoleOutputClose]
  {
  }

  lemma TripleInBlock(pre: seq<string>, e: seq<string>, post: seq<string>, k: nat)
    requires |pre| == 3 && 3 * k + 3 <= |e|
    ensures var b := pre + e + post;
      b[3 * k + 3] == e[3 * k..3 * k + 3][0]
      && b[3 * k + 4] == e[3 * k..3 * k + 3][1]
      && b[3 * k + 5] == e[3 * k..3 * k + 3][2]
  {
  }

  lemma Regroup<T>(a: seq<T>, m: seq<T>, e: seq<T>, c: seq<T>, z: seq<T>)
    ensures a + (m + e + c) + z == (a + m) + e + (c + z)
  {
  }

  /** The block around the menu: a blank line, the two openers, the
      entries, and the two closers. */
  lemma ConsoleBlockFrame(options: seq<Variant>, chunk: nat)
    requires |options| != 1
    ensures ConsoleBlock(options, chunk)
         == ["", ConsoleOutputOpen, ConsoleMultiOpen(chunk)] + OptionEntries(options) + [ConsoleMultiClose, ConsoleOutputClose]
  {
    var a, m, c, z := ["", ConsoleOutputOpen], [ConsoleMultiOpen(chunk)], [ConsoleMultiClose], [ConsoleOutputClose];
    var e := OptionEntries(options);
    assert ConsoleBlock(options, chunk) == a + (m + e + c) + z;
    Regroup(a, m, e, c, z);
    assert a + m == ["", ConsoleOutputOpen, ConsoleMultiOpen(chunk)];
    assert c + z == [ConsoleMultiClose, ConsoleOutputClose];
  }

  /** With any other number of variants the widget is a menu holding one
      entry per variant, in order: the suffix behind a dot and the label
      `compopt execopt`. */
  lemma ConsoleBlockMulti(options: seq<Variant>, chunk: nat)
    requires |options| != 1
    ensures var b := ConsoleBlock(options, chunk);
      && |b| == 3 * |options| + 5
      && b[..3] == ["", ConsoleOutputOpen, ConsoleMultiOpen(chunk)]
      && b[|b| - 2..] == [ConsoleMultiClose, ConsoleOutputClose]
      && forall k :: 0 <= k < |options| ==>
           b[3 * k + 3] == "{{< console_option suffix=\"." + options[k].suffix + "\" label=\""
                           + options[k].compopt + " " + options[k].execopt + "\" >}}"
           && b[3 * k + 4] == ConsoleDummy && b[3 * k + 5] == ConsoleOptionClose
  {
    OptionEntriesAt(options);
    ConsoleBlockFrame(options, chunk);
    var b := ConsoleBlock(options, chunk);
    var e := OptionEntries(options);
    var pre := ["", ConsoleOutputOpen, ConsoleMultiOpen(chunk)];
    var post := [ConsoleMultiClose, ConsoleOutputClose];
    assert b[..3] == pre;
    assert b[|b| - 2..] == post;
    forall k | 0 <= k < |options|
      ensures b[3 * k + 3] == OptionEntry(options[k])[0]
      ensures b[3 * k + 4] == ConsoleDummy && b[3 * k + 5] == ConsoleOptionClose
    {
      TripleInBlock(pre, e, post, k);
    }
  }

  // ---------------------------------------------------------------------
  // Line numbering shared by gen_md and gen_code

  /** The number of the first line of piece `n` in the companion source:
      1, plus the lines of every earlier code piece and one separating
      line after each. */
  function LineBase(ps: seq<Piece>, n: nat): (b: nat)
    requires n <= |ps|
    ensures 1 <= b
  {
    if n == 0 then 1
    else LineBase(ps, n - 1) + (if ps[n - 1].Code? then |ps[n - 1].lines| + 1 else 0)
  }

  /** A piece with the anchor markers cut out of its code lines. */
  function StripPiece(p: Piece): Piece {
    if p.Code? then Code(StrippedLines(p.lines)) else p
  }

  function StripPieces(ps: seq<Piece>): (r: seq<Piece>)
    ensures |r| == |ps|
  {
    seq(|ps|, i requires 0 <= i < |ps| => StripPiece(ps[i]))
  }

  /** Cutting out the markers keeps the number of lines of every piece, so
      the numbering of the second pass of `gen_md`, made over the stripped
      pieces, is the numbering of the first pass. */
  lemma {:induction false} LineBaseStrip(ps: seq<Piece>, n: nat)
    requires n <= |ps|
    ensures LineBase(StripPieces(ps), n) == LineBase(ps, n)
  {
    if n > 0 {
      LineBaseStrip(ps, n - 1);
      assert StripPieces(ps)[n - 1] == StripPiece(ps[n - 1]);
    }
  }

  // ---------------------------------------------------------------------
  // gen_md

  /** The anchors of the code pieces among the first `n` pieces, each code
      piece numbered from its `LineBase`. */
  function AllAnchors(ps: seq<Piece>, n: nat): seq<Anchor>
    requires n <= |ps|
  {
    if n == 0 then []
    else AllAnchors(ps, n - 1) + (if ps[n - 1].Code? then AnchorsOf(ps[n - 1].lines, LineBase(ps, n - 1)) else [])
  }

  /** The Hugo directive that declares an anchor. */
  function Directive(a: Anchor): string {
    "{{< mark_line_anchor tag=\"" + a.tag + "\" line=" + NatToString(a.line) + " >}}"
  }

  function Directives(anchors: seq<Anchor>): (r: seq<string>)
    ensures |r| == |anchors|
  {
    seq(|anchors|, k requires 0 <= k < |anchors| => Directive(anchors[k]))
  }

  /** The section a code block is classified into, from its index and the
      indices of the first and the last code piece. */
  function CodeSection(i: nat, first: int, last: int): (r: string)
    ensures r == "middle" <==> i != first && i != last
    ensures r == "only" <==> i == first && i == last
  {
    if i == first && i == last then "only"
    else if i == first then "first"
    else if i == last then "last"
    else "middle"
  }

  /** The renderer never records the first or the last code piece: both
      stay -1, so every code block is in the middle section. */
  lemma SectionAlwaysMiddle(i: nat, first: int, last: int)
    requires first == -1 && last == -1
    ensures CodeSection(i, first, last) == "middle"
  {
  }

  /** The attributes of a code block in section `section` numbered from
      `base`. */
  function FenceAttrs(section: string, base: nat): string {
    "data-code-type=main,data-code-section=" + section + ",linenos=true,linenostart=" + NatToString(base)
  }

  /** The attributes added when the companion source has a path. */
  function PathAttrs(path: string, base: nat): string {
    ",data-code-path=\"" + path + "\",data-start-line=" + NatToString(base)
  }

  /** The opening fence of a code block numbered from `base`; every block
      is in the middle section. */
  function Fence(base: nat, codePath: Option<string>): string {
    var attrs := FenceAttrs("middle", base);
    "```Chapel {" + (if codePath.Some? then attrs + PathAttrs(codePath.value, base) else attrs) + "}"
  }

  /** The path and start-line attributes are in a fence exactly when a code
      path is given. */
  lemma FencePathAttrs(base: nat, codePath: Option<string>)
    ensures EndsWith(Fence(base, codePath), "}")
    ensures codePath.Some? <==> EndsWith(Fence(base, codePath), "\",data-start-line=" + NatToString(base) + "}")
  {
    var n := NatToString(base);
    var r := Fence(base, codePath);
    var tail := "\",data-start-line=" + n + "}";
    var head := "```Chapel {";
    if codePath.Some? {
      var mid := head + FenceAttrs("middle", base) + ",data-code-path=\"" + codePath.value;
      assert r == mid + tail;
    } else {
      var x := "data-code-type=main,data-code-section=" + "middle" + ",linenos=true,linenostart=";
      assert r == head + (x + n) + "}";
      var at := |r| - |n| - 3;
      assert at == |head| + |x| - 2;
      assert r[at] == x[|x| - 2] == 't';
      assert !EndsWith(r, tail) by {
        if |tail| <= |r| {
          assert r[|r| - |tail|..][|tail| - |n| - 3] == r[at];
          assert tail[|tail| - |n| - 3] == 'e';
        }
      }
    }
  }

  /** The fence the renderer assembles from its attributes is `Fence`. */
  lemma FenceAssembled(section: string, base: nat, codePath: Option<string>, attrs: string)
    requires section == "middle"
    requires attrs == if codePath.Some? then FenceAttrs(section, base) + PathAttrs(codePath.value, base) else FenceAttrs(section, base)
    ensures "```Chapel {" + attrs + "}" == Fence(base, codePath)
  {
  }

  /** The body lines of one piece (title and front matter go to the front
      matter instead), numbered from `base` when it is code. */
  function PieceBody(p: Piece, base: nat, options: seq<Variant>, codePath: Option<string>): seq<string> {
    match p
    case Title(_) => []
    case FrontMatter(_) => []
    case Prose(lines) => lines
    case Code(lines) => [Fence(base, codePath)] + lines + ["```"]
    case Output(chunk) => ConsoleBlock(options, chunk)
  }

  /** The front-matter lines of one piece. */
  function PieceFront(p: Piece): seq<string> {
    match p
    case Title(text) => ["title: \"" + text + "\""]
    case FrontMatter(lines) => lines
    case _ => []
  }

  /** The body the second pass writes for the first `n` pieces: each piece's
      lines followed by one empty line. */
  function BodyOf(ps: seq<Piece>, n: nat, options: seq<Variant>, codePath: Option<string>): seq<string>
    requires n <= |ps|
  {
    if n == 0 then []
    else BodyOf(ps, n - 1, options, codePath) + PieceBody(ps[n - 1], LineBase(ps, n - 1), options, codePath) + [""]
  }

  function FrontOf(ps: seq<Piece>, n: nat): seq<string>
    requires n <= |ps|
  {
    if n == 0 then [] else FrontOf(ps, n - 1) + PieceFront(ps[n - 1])
  }

  /** The page `gen_md` renders: front matter between `---` lines, then the
      anchor directives of all code pieces, then the body of the stripped
      pieces. */
  function Render(ps: seq<Piece>, options: seq<Variant>, codePath: Option<string>): string {
    var qs := StripPieces(ps);
    "---\n" + Join(FrontOf(qs, |qs|), '\n') + "\n---\n"
    + Join(Directives(AllAnchors(ps, |ps|)) + BodyOf(qs, |qs|, options, codePath), '\n')
  }

  /** The array after `i` steps of the first pass: the first `i` pieces
      stripped, the rest untouched. */
  lemma StripStep(ps: seq<Piece>, before: seq<Piece>, i: nat, after: seq<Piece>, lines: seq<string>)
    requires i < |ps| && ps[i].Code?
    requires before == StripPieces(ps[..i]) + ps[i..]
    requires lines == StrippedLines(ps[i].lines)
    requires after == before[i := Code(lines)]
    ensures after == StripPieces(ps[..i + 1]) + ps[i + 1..]
  {
    assert StripPieces(ps[..i + 1]) == StripPieces(ps[..i]) + [StripPiece(ps[i])];
  }

  lemma StripSkip(ps: seq<Piece>, before: seq<Piece>, i: nat)
    requires i < |ps| && !ps[i].Code?
    requires before == StripPieces(ps[..i]) + ps[i..]
    ensures before == StripPieces(ps[..i + 1]) + ps[i + 1..]
  {
    assert StripPieces(ps[..i + 1]) == StripPieces(ps[..i]) + [StripPiece(ps[i])];
  }

  /** The first pass of `gen_md`: every code piece is replaced, in place,
      by its lines with the markers cut out, and the anchor directives of
      all code pieces are returned in order. */
  method MarkAnchors(pieces: array<Piece>) returns (output: seq<string>)
    modifies pieces
    ensures pieces[..] == StripPieces(old(pieces[..]))
    ensures output == Directives(AllAnchors(old(pieces[..]), pieces.Length))
  {
    ghost var ps := pieces[..];
    output := [];
    var lineNumber := 1;
    for i := 0 to pieces.Length
      invariant pieces[..] == StripPieces(ps[..i]) + ps[i..]
      invariant lineNumber == LineBase(ps, i)
      invariant output == Directives(AllAnchors(ps, i))
    {
      var p := pieces[i];
      assert p == ps[i];
      if p.Code? {
        var newContent, anchors := ExtractLineAnchors(p.lines, lineNumber);
        ghost var before := pieces[..];
        pieces[i] := Code(newContent);
        StripStep(ps, before, i, pieces[..], newContent);
        for k := 0 to |anchors|
          invariant output == Directives(AllAnchors(ps, i) + anchors[..k])
        {
          assert anchors[..k + 1] == anchors[..k] + [anchors[k]];
          output := output + [Directive(anchors[k])];
        }
        assert anchors[..|anchors|] == anchors;
        lineNumber := lineNumber + |newContent| + 1;
      } else {
        StripSkip(ps, pieces[..], i);
      }
    }
    assert ps[..pieces.Length] == ps;
  }

  lemma RenderStep(qs: seq<Piece>, i: nat, options: seq<Variant>, codePath: Option<string>)
    requires i < |qs|
    ensures BodyOf(qs, i + 1, options, codePath) == BodyOf(qs, i, options, codePath) + PieceBody(qs[i], LineBase(qs, i), options, codePath) + [""]
    ensures FrontOf(qs, i + 1) == FrontOf(qs, i) + PieceFront(qs[i])
    ensures LineBase(qs, i + 1) == LineBase(qs, i) + if qs[i].Code? then |qs[i].lines| + 1 else 0
  {
  }

  lemma AppendBlock(output: seq<string>, body: seq<string>, block: seq<string>)
    ensures output + body + block + [""] == output + (body + block + [""])
  {
  }

  /** The opening fence of the code block at index `i`, as the second pass
      of `gen_md` assembles it. */
  method CodeFence(i: nat, firstCodeIdx: int, lastCodeIdx: int, lineNumber: nat, codePath: Option<string>)
    returns (fence: string)
    requires firstCodeIdx == -1 && lastCodeIdx == -1
    ensures fence == Fence(lineNumber, codePath)
  {
    var section := CodeSection(i, firstCodeIdx, lastCodeIdx);
    SectionAlwaysMiddle(i, firstCodeIdx, lastCodeIdx);
    var attrs := FenceAttrs(section, lineNumber);
    if codePath.Some? {
      attrs := attrs + PathAttrs(codePath.value, lineNumber);
    }
    FenceAssembled(section, lineNumber, codePath, attrs);
    fence := "```Chapel {" + attrs + "}";
  }

  /** One more piece rendered keeps the renderer's three accumulators in
      step with `BodyOf`, `FrontOf` and `LineBase`. */
  lemma RenderAdvance(pieces: seq<Piece>, i: nat, options: seq<Variant>, codePath: Option<string>,
                      output: seq<string>, out: seq<string>, front: seq<string>, line: nat)
    requires i < |pieces|
    requires out == output + BodyOf(pieces, i, options, codePath) + PieceBody(pieces[i], LineBase(pieces, i), options, codePath) + [""]
    requires front == FrontOf(pieces, i) + PieceFront(pieces[i])
    requires line == LineBase(pieces, i) + if pieces[i].Code? then |pieces[i].lines| + 1 else 0
    ensures out == output + BodyOf(pieces, i + 1, options, codePath)
    ensures front == FrontOf(pieces, i + 1)
    ensures line == LineBase(pieces, i + 1)
  {
    RenderStep(pieces, i, options, codePath);
    AppendBlock(output, BodyOf(pieces, i, options, codePath), PieceBody(pieces[i], LineBase(pieces, i), options, codePath));
  }

  /** One round of the second pass of `gen_md`: piece `p` adds its lines to
      the body or to the front matter, and a code piece moves the line
      counter past its lines and its fence. */
  method RenderPiece(p: Piece, i: nat, firstCodeIdx: int, lastCodeIdx: int, lineNumber: nat,
                     options: seq<Variant>, codePath: Option<string>, output: seq<string>, frontMatter: seq<string>)
    returns (out: seq<string>, front: seq<string>, line: nat)
    requires firstCodeIdx == -1 && lastCodeIdx == -1
    ensures out == output + PieceBody(p, lineNumber, options, codePath)
    ensures front == frontMatter + PieceFront(p)
    ensures line == lineNumber + if p.Code? then |p.lines| + 1 else 0
  {
    out, front, line := output, frontMatter, lineNumber;
    match p {
      case Title(text) =>
        front := front + ["title: \"" + text + "\""];
      case FrontMatter(lines) =>
        front := front + lines;
      case Prose(lines) =>
        out := out + lines;
      case Code(lines) =>
        var fence := CodeFence(i, firstCodeIdx, lastCodeIdx, lineNumber, codePath);
        out := out + [fence];
        out := out + lines;
        out := out + ["```"];
        line := line + |lines| + 1;
      case Output(chunk) =>
        out := PrintGood(out, options, chunk);
    }
  }

  /** The second pass of `gen_md`: front matter and body, each code block
      numbered from the running line counter; `output` holds the anchor
      directives of the first pass. */
  method RenderPieces(pieces: seq<Piece>, output: seq<string>, options: seq<Variant>, codePath: Option<string>)
    returns (doc: string)
    ensures doc == "---\n" + Join(FrontOf(pieces, |pieces|), '\n') + "\n---\n"
      + Join(output + BodyOf(pieces, |pieces|, options, codePath), '\n')
  {
    var out := output;
    var frontMatter: seq<string> := [];
    var firstCodeIdx := -1;
    var lastCodeIdx := -1;
    var lineNumber := 1;
    for i := 0 to |pieces|
      invariant frontMatter == FrontOf(pieces, i)
      invariant out == output + BodyOf(pieces, i, options, codePath)
      invariant lineNumber == LineBase(pieces, i)
    {
      out, frontMatter, lineNumber := RenderPiece(pieces[i], i, firstCodeIdx, lastCodeIdx, lineNumber, options, codePath, out, frontMatter);
      out := out + [""];
      RenderAdvance(pieces, i, options, codePath, output, out, frontMatter, lineNumber);
    }
    doc := "---\n" + Join(frontMatter, '\n') + "\n---\n" + Join(out, '\n');
  }

  /** `gen_md`: the page for the pieces, which are left with their markers
      cut out. `options` are the variants `compute_options` finds for the
      file. */
  method GenMd(pieces: array<Piece>, options: seq<Variant>, codePath: Option<string>) returns (doc: string)
    modifies pieces
    ensures pieces[..] == StripPieces(old(pieces[..]))
    ensures doc == Render(old(pieces[..]), options, codePath)
  {
    var output := MarkAnchors(pieces);
    doc := RenderPieces(pieces[..], output, options, codePath);
  }

  // ---------------------------------------------------------------------
  // gen_code

  /** The contents of the code pieces among the first `n`. */
  function CodeBlocks(ps: seq<Piece>, n: nat): seq<seq<string>>
    requires n <= |ps|
  {
    if n == 0 then []
    else CodeBlocks(ps, n - 1) + (if ps[n - 1].Code? then [ps[n - 1].lines] else [])
  }

  /** `''.join(line + '\n' for line in code)`. */
  function Terminated(code: seq<string>): string {
    Concat(seq(|code|, i requires 0 <= i < |code| => code[i] + "\n"))
  }

  /** The text `gen_code` writes for its list of code blocks. */
  function CodeText(blocks: seq<seq<string>>): string {
    Join(seq(|blocks|, k requires 0 <= k < |blocks| => Terminated(blocks[k])), '\n')
  }

  /** `gen_code`: the code pieces, markers cut out, each line ended by a
      newline and the pieces separated by one more newline: the lines
      `CodeLines` lists for the stripped pieces. */
  method GenCode(pieces: seq<Piece>) returns (text: string)
    ensures text == Join(CodeLines(StripPieces(pieces), |pieces|), '\n')
  {
    ghost var qs := StripPieces(pieces);
    var output: seq<seq<string>> := [];
    for i := 0 to |pieces|
      invariant output == CodeBlocks(qs, i)
    {
      assert qs[i] == StripPiece(pieces[i]);
      match pieces[i] {
        case Code(content) =>
          var stripped, _ := ExtractLineAnchors(content, 0);
          output := output + [stripped];
        case _ =>
      }
    }
    text := CodeText(output);
    CodeTextIsJoin(output);
    CodeLinesBlocks(qs, |qs|);
  }

  /** The lines of the companion source for the first `n` pieces: each code
      piece's lines followed by one empty line. */
  function CodeLines(ps: seq<Piece>, n: nat): seq<string>
    requires n <= |ps|
  {
    if n == 0 then []
    else CodeLines(ps, n - 1) + (if ps[n - 1].Code? then ps[n - 1].lines + [""] else [])
  }

  /** The lines of a list of blocks, each followed by one empty line. */
  function LinesOfBlocks(blocks: seq<seq<string>>): seq<string> {
    if blocks == [] then []
    else LinesOfBlocks(blocks[..|blocks| - 1]) + blocks[|blocks| - 1] + [""]
  }

  lemma {:induction false} CodeLinesBlocks(ps: seq<Piece>, n: nat)
    requires n <= |ps|
    ensures CodeLines(ps, n) == LinesOfBlocks(CodeBlocks(ps, n))
  {
    if n > 0 {
      CodeLinesBlocks(ps, n - 1);
      if ps[n - 1].Code? {
        CodeBlockStep(ps, n);
      } else {
        assert CodeBlocks(ps, n) == CodeBlocks(ps, n - 1) + [] == CodeBlocks(ps, n - 1);
        assert CodeLines(ps, n) == CodeLines(ps, n - 1) + [] == CodeLines(ps, n - 1);
      }
    }
  }

  /** A code piece adds its block to the blocks and its lines and an empty
      line to the companion lines. */
  lemma CodeBlockStep(ps: seq<Piece>, n: nat)
    requires 0 < n <= |ps| && ps[n - 1].Code?
    requires CodeLines(ps, n - 1) == LinesOfBlocks(CodeBlocks(ps, n - 1))
    ensures CodeLines(ps, n) == LinesOfBlocks(CodeBlocks(ps, n))
  {
    var prev := CodeBlocks(ps, n - 1);
    var b := ps[n - 1].lines;
    var bs := prev + [b];
    assert CodeBlocks(ps, n) == bs;
    assert bs[..|bs| - 1] == prev;
    calc {
      LinesOfBlocks(bs);
      LinesOfBlocks(prev) + b + [""];
      LinesOfBlocks(prev) + (b + [""]);
      CodeLines(ps, n);
    }
  }

  /** Ending every line by a newline is joining the lines and one empty
      line by newlines. */
  lemma {:induction false} TerminatedIsJoin(code: seq<string>)
    ensures Terminated(code) == Join(code + [""], '\n')
  {
    var ends := seq(|code|, i requires 0 <= i < |code| => code[i] + "\n");
    if code != [] {
      var rest := code[1..];
      TerminatedIsJoin(rest);
      assert ends[1..] == seq(|rest|, i requires 0 <= i < |rest| => rest[i] + "\n");
      assert (code + [""])[1..] == rest + [""];
    }
  }

  lemma {:induction false} CodeTextIsJoin(blocks: seq<seq<string>>)
    ensures CodeText(blocks) == Join(LinesOfBlocks(blocks), '\n')
  {
    if blocks != [] {
      var n := |blocks| - 1;
      var init, last := blocks[..n], blocks[n];
      var ts := seq(|blocks|, k requires 0 <= k < |blocks| => Terminated(blocks[k]));
      var ts' := seq(|init|, k requires 0 <= k < |init| => Terminated(init[k]));
      assert ts == ts' + [Terminated(last)];
      TerminatedIsJoin(last);
      assert LinesOfBlocks(blocks) == LinesOfBlocks(init) + (last + [""]);
      if init == [] {
        assert ts == [Terminated(last)];
        assert CodeText(blocks) == Join(ts, '\n') == Terminated(last);
        assert LinesOfBlocks(blocks) == last + [""];
      } else {
        CodeTextIsJoin(init);
        JoinAppend(ts', Terminated(last), '\n');
        assert LinesOfBlocks(init) != [];
        JoinConcat(LinesOfBlocks(init), last + [""], '\n');
      }
    }
  }

  // ---------------------------------------------------------------------
  // The anchors of gen_md point at the lines of gen_code

  /** The pieces before piece `n` fill the first `LineBase(ps, n) - 1` lines
      of the companion source. */
  lemma {:induction false} CodeLinesLength(ps: seq<Piece>, n: nat)
    requires n <= |ps|
    ensures |CodeLines(ps, n)| == LineBase(ps, n) - 1
  {
    if n > 0 {
      CodeLinesLength(ps, n - 1);
    }
  }

  lemma {:induction false} CodeLinesPrefix(ps: seq<Piece>, m: nat, n: nat, idx: nat)
    requires m <= n <= |ps|
    requires idx < |CodeLines(ps, m)|
    ensures idx < |CodeLines(ps, n)| && CodeLines(ps, n)[idx] == CodeLines(ps, m)[idx]
  {
    if m < n {
      CodeLinesPrefix(ps, m, n - 1, idx);
    }
  }

  /** Line `LineBase(ps, j) + i` of the companion source is line `i` of
      code piece `j`. */
  lemma CodeLineAt(ps: seq<Piece>, j: nat, i: nat)
    requires j < |ps| && ps[j].Code? && i < |ps[j].lines|
    ensures LineBase(ps, j) + i <= |CodeLines(ps, |ps|)|
    ensures CodeLines(ps, |ps|)[LineBase(ps, j) + i - 1] == ps[j].lines[i]
  {
    CodeLinesLength(ps, j);
    var idx := LineBase(ps, j) + i - 1;
    assert CodeLines(ps, j + 1) == CodeLines(ps, j) + (ps[j].lines + [""]);
    assert CodeLines(ps, j + 1)[idx] == ps[j].lines[i];
    CodeLinesPrefix(ps, j + 1, |ps|, idx);
  }

  /** No code line holds a newline, as the tokenizer delivers them. */
  predicate NoNewlines(ps: seq<Piece>) {
    forall j, i :: 0 <= j < |ps| && ps[j].Code? && 0 <= i < |ps[j].lines| ==> '\n' !in ps[j].lines[i]
  }

  lemma StrippedNoNewline(line: string)
    requires '\n' !in line
    ensures '\n' !in StrippedLine(line)
  {
    match FindMarker(line, 0)
    case None =>
    case Some(m) =>
      var s := line[..m.start] + line[m.tagEnd + 1..];
      assert forall x :: 0 <= x < |s| ==> s[x] in line;
  }

  lemma StripKeepsNoNewlines(ps: seq<Piece>)
    requires NoNewlines(ps)
    ensures NoNewlines(StripPieces(ps))
  {
    var qs := StripPieces(ps);
    forall j, i | 0 <= j < |qs| && qs[j].Code? && 0 <= i < |qs[j].lines| ensures '\n' !in qs[j].lines[i] {
      assert qs[j].lines[i] == StrippedLine(ps[j].lines[i]);
      StrippedNoNewline(ps[j].lines[i]);
    }
  }

  lemma {:induction false} CodeLinesNoNewline(ps: seq<Piece>, n: nat)
    requires n <= |ps| && NoNewlines(ps)
    ensures forall x :: 0 <= x < |CodeLines(ps, n)| ==> '\n' !in CodeLines(ps, n)[x]
  {
    if n > 0 {
      CodeLinesNoNewline(ps, n - 1);
    }
  }

  /** The code piece an anchor comes from. */
  lemma {:induction false} AllAnchorsFrom(ps: seq<Piece>, n: nat, a: Anchor) returns (j: nat)
    requires n <= |ps| && a in AllAnchors(ps, n)
    ensures j < n && ps[j].Code? && a in AnchorsOf(ps[j].lines, LineBase(ps, j))
  {
    if a !in AllAnchors(ps, n - 1) {
      j := n - 1;
    } else {
      j := AllAnchorsFrom(ps, n - 1, a);
    }
  }

  /** The lines of the text `gen_code` writes for `ps`. */
  function CompanionLines(ps: seq<Piece>): seq<string> {
    Split(Join(CodeLines(StripPieces(ps), |ps|), '\n'), '\n')
  }

  /** Line `LineBase(ps, j) + i` of the text `gen_code` writes is line `i`
      of code piece `j` with its marker cut out. */
  lemma CodeTextLine(ps: seq<Piece>, j: nat, i: nat)
    requires NoNewlines(ps)
    requires j < |ps| && ps[j].Code? && i < |ps[j].lines|
    ensures LineBase(ps, j) + i <= |CompanionLines(ps)|
    ensures CompanionLines(ps)[LineBase(ps, j) + i - 1] == StrippedLine(ps[j].lines[i])
  {
    var qs := StripPieces(ps);
    var lines := CodeLines(qs, |qs|);
    LineBaseStrip(ps, j);
    CodeLineAt(qs, j, i);
    assert qs[j].lines[i] == StrippedLine(ps[j].lines[i]);
    StripKeepsNoNewlines(ps);
    CodeLinesNoNewline(qs, |qs|);
    SplitJoin(lines, '\n');
  }

  /** The central link between the two outputs: for every anchor directive
      `gen_md` emits, line `a.line` of the text `gen_code` writes for the
      same pieces is a line that carried the anchor's tag, with its marker
      cut out. */
  lemma AnchorRoundTrip(ps: seq<Piece>, a: Anchor)
    requires NoNewlines(ps)
    requires a in AllAnchors(ps, |ps|)
    ensures 1 <= a.line <= |CompanionLines(ps)|
    ensures exists j, i ::
      && 0 <= j < |ps| && ps[j].Code? && 0 <= i < |ps[j].lines|
      && TagOf(ps[j].lines[i]) == Some(a.tag)
      && CompanionLines(ps)[a.line - 1] == StrippedLine(ps[j].lines[i])
  {
    var j := AllAnchorsFrom(ps, |ps|, a);
    var i := AnchorIndex(ps[j].lines, LineBase(ps, j), a);
    CodeTextLine(ps, j, i);
    var line := ps[j].lines[i];
    assert CompanionLines(ps)[a.line - 1] == StrippedLine(line);
    assert TagOf(line) == Some(a.tag);
  }

  /** The position, within its code piece, of the line an anchor came from. */
  lemma AnchorIndex(lines: seq<string>, base: nat, a: Anchor) returns (i: nat)
    requires a in AnchorsOf(lines, base)
    ensures i < |lines| && a.line == base + i && TagOf(lines[i]) == Some(a.tag)
  {
    AnchorsOfSpec(lines, base);
    i := a.line - base;
  }

  /** In the page, code piece `j` is shown as a fence numbered from the
      same line its anchors were numbered from, followed by its stripped
      lines: line `i` of the piece is shown at offset `i + 1`. */
  lemma CodeLineShown(ps: seq<Piece>, j: nat, i: nat, options: seq<Variant>, codePath: Option<string>)
    requires j < |ps| && ps[j].Code? && i < |ps[j].lines|
    ensures var shown := PieceBody(StripPieces(ps)[j], LineBase(StripPieces(ps), j), options, codePath);
      && |shown| == |ps[j].lines| + 2
      && shown[0] == Fence(LineBase(ps, j), codePath)
      && shown[i + 1] == StrippedLine(ps[j].lines[i])
  {
    LineBaseStrip(ps, j);
    var body := StrippedLines(ps[j].lines);
    assert StripPieces(ps)[j] == Code(body);
    var shown := [Fence(LineBase(ps, j), codePath)] + body + ["```"];
    assert shown[i + 1] == body[i];
  }

  /** An anchor at line `n` labels the displayed line at offset
      `n - linenostart` of its block, and that line is the tagged one,
      marker cut out. */
  lemma CodeBlockShown(ps: seq<Piece>, j: nat, options: seq<Variant>, codePath: Option<string>, a: Anchor)
    requires j < |ps| && ps[j].Code?
    requires a in AnchorsOf(ps[j].lines, LineBase(ps, j))
    ensures var i := a.line - LineBase(ps, j);
      && 0 <= i < |ps[j].lines|
      && TagOf(ps[j].lines[i]) == Some(a.tag)
      && PieceBody(StripPieces(ps)[j], LineBase(StripPieces(ps), j), options, codePath)[i + 1]
         == StrippedLine(ps[j].lines[i])
  {
    var i := AnchorIndex(ps[j].lines, LineBase(ps, j), a);
    CodeLineShown(ps, j, i, options, codePath);
  }

  // ---------------------------------------------------------------------
  // A small page

  /** A prose piece `Hello` followed by the code piece `x = 1;`: the body
      is the prose, a blank line, the block numbered from line 1, and a
      blank line. */
  lemma HelloPage(options: seq<Variant>)
    ensures var ps := [Prose(["Hello"]), Code(["x = 1;"])];
      BodyOf(ps, 2, options, None) == ["Hello", "", Fence(1, None), "x = 1;", "```", ""]
  {
    var ps := [Prose(["Hello"]), Code(["x = 1;"])];
    assert LineBase(ps, 1) == 1;
    assert BodyOf(ps, 1, options, None) == ["Hello", ""];
    assert PieceBody(ps[1], 1, options, None) == [Fence(1, None), "x = 1;", "```"];
  }
}
