/** The embedded-file extractor (scripts/markdown_driver.py): a Markdown
    document may hold fenced code blocks whose attributes name a file,

        ```chapel {file_name=hello.chpl}
        ...
        ```

    and the lines of every such block are collected, with the fence's
    indentation removed, into the contents of that file. Blocks for the same
    file are concatenated in document order. An opening fence inside an open
    block, or a closing fence indented differently from its opening one,
    stops the extraction with an error. */
module EmbeddedFiles {
  import opened Prelude
  import opened Strings
  import LineAnchors

  // ---------------------------------------------------------------------
  // The two regular expressions

  /** The characters of `[a-zA-Z\-+_]`. */
  predicate IsLangChar(c: char) {
    ('a' <= c <= 'z') || ('A' <= c <= 'Z') || c == '-' || c == '+' || c == '_'
  }

  /** The end of the run of language characters starting at `i`. */
  function LangEnd(s: string, i: nat): (j: nat)
    requires i <= |s|
    ensures i <= j <= |s|
    ensures forall k :: i <= k < j ==> IsLangChar(s[k])
    ensures j == |s| || !IsLangChar(s[j])
    decreases |s| - i
  {
    if i < |s| && IsLangChar(s[i]) then LangEnd(s, i + 1) else i
  }

  /** The two groups of a match of the opening-fence expression. */
  datatype Opening = Opening(indent: string, attrs: string)

  /** The part of `rest` before its closing `}`: `(.+)}$`, where `$` matches
      at the end or before a final newline and `.` matches anything but a
      newline. */
  function BracedBody(rest: string): (r: Option<string>)
  {
    // where the body ends: before a final `}` or a final `}\n`; 0 when the
    // line ends in neither, which leaves no body
    var n := |rest|;
    var cut :=
      if 2 <= n && rest[n - 2] == '}' && rest[n - 1] == '\n' then n - 2
      else if 1 <= n && rest[n - 1] == '}' then n - 1
      else 0;
    if 1 <= cut && forall k :: 0 <= k < cut ==> rest[k] != '\n' then
      Some(rest[..cut])
    else None
  }

  /** `re.match(FILE_REGEX, line)` for `^(\s*)```[a-zA-Z\-+_]+ {(.+)}$`.
      The blanks, the backticks and the language name are each determined
      by the characters that follow them, so the only match is found by
      scanning once. */
  function MatchOpening(line: string): (r: Option<Opening>)
    ensures r.Some? ==> StartsWith(line, r.value.indent)
    ensures r.Some? ==> forall k :: 0 <= k < |r.value.indent| ==> LineAnchors.IsSpace(line[k])
  {
    var w := LineAnchors.SkipSpaces(line, 0);
    if OccursAt(line, "```", w) then
      var l := LangEnd(line, w + 3);
      if w + 3 < l && OccursAt(line, " {", l) then
        match BracedBody(line[l + 2..])
        case Some(attrs) =>
          Some(Opening(line[..w], attrs))
        case None => None
      else None
    else None
  }

  /** `re.match(END_REGEX, line)` for `^(\s*)```$`: group 1 when it
      matches. */
  function MatchClosing(line: string): (r: Option<string>)
    ensures r.Some? ==> line == r.value + "```" || line == r.value + "```\n"
    ensures r.Some? ==> forall k :: 0 <= k < |r.value| ==> LineAnchors.IsSpace(r.value[k])
  {
    var w := LineAnchors.SkipSpaces(line, 0);
    var rest := line[w..];
    if rest == "```" || rest == "```\n" then
      assert line == line[..w] + rest;
      Some(line[..w])
    else None
  }

  /** `line` is white space `indent`, three backticks, a non-empty language
      name `lang`, a blank, and `{attrs}` with a non-empty, newline-free
      `attrs`, optionally followed by one newline. */
  predicate OpeningLine(line: string, indent: string, lang: string, attrs: string) {
    && (forall k :: 0 <= k < |indent| ==> LineAnchors.IsSpace(indent[k]))
    && 1 <= |lang| && (forall k :: 0 <= k < |lang| ==> IsLangChar(lang[k]))
    && 1 <= |attrs| && '\n' !in attrs
    && (line == indent + "```" + lang + " {" + attrs + "}"
        || line == indent + "```" + lang + " {" + attrs + "}\n")
  }

  /** A string is the concatenation of its slices at four cut points. */
  lemma CutInFive(s: string, a: nat, b: nat, c: nat, d: nat)
    requires a <= b <= c <= d <= |s|
    ensures s == s[..a] + s[a..b] + s[b..c] + s[c..d] + s[d..]
  {
    assert s[..b] == s[..a] + s[a..b];
    assert s[..c] == s[..b] + s[b..c];
    assert s[..d] == s[..c] + s[c..d];
    assert s == s[..d] + s[d..];
  }

  /** The pieces the opening-fence scan finds put together again: blanks up
      to `w`, backticks, language characters up to `l`, ` {`, and the
      braced body. */
  lemma OpeningShape(line: string, w: nat, l: nat, attrs: string)
    requires w + 3 < l && l + 2 <= |line|
    requires forall k :: 0 <= k < w ==> LineAnchors.IsSpace(line[k])
    requires OccursAt(line, "```", w) && OccursAt(line, " {", l)
    requires forall k :: w + 3 <= k < l ==> IsLangChar(line[k])
    requires 1 <= |attrs| && '\n' !in attrs
    requires line[l + 2..] == attrs + "}" || line[l + 2..] == attrs + "}\n"
    ensures OpeningLine(line, line[..w], line[w + 3..l], attrs)
  {
    var indent, lang, rest := line[..w], line[w + 3..l], line[l + 2..];
    CutInFive(line, w, w + 3, l, l + 2);
    var head := indent + "```" + lang + " {";
    assert line == head + rest;
    if rest == attrs + "}" {
      assert line == head + attrs + "}";
    } else {
      assert line == head + attrs + "}\n";
    }
  }

  /** A body followed by a closing brace and at most one newline is what
      `BracedBody` extracts. */
  lemma BracedBodyOf(attrs: string, tail: string)
    requires 1 <= |attrs| && '\n' !in attrs && (tail == "}" || tail == "}\n")
    ensures BracedBody(attrs + tail) == Some(attrs)
  {
    var rest := attrs + tail;
    if tail == "}" {
      assert rest[|rest| - 1] == '}';
      assert rest[..|rest| - 1] == attrs;
    } else {
      assert rest[|rest| - 2] == '}' && rest[|rest| - 1] == '\n';
      assert rest[..|rest| - 2] == attrs;
    }
    forall k | 0 <= k < |attrs| ensures rest[k] != '\n' {
      assert rest[k] == attrs[k];
    }
  }

  /** What `BracedBody` extracts is a non-empty, newline-free body followed
      by a closing brace and at most one newline. */
  lemma BracedBodySound(rest: string)
    requires BracedBody(rest).Some?
    ensures var attrs := BracedBody(rest).value;
      && 1 <= |attrs| && '\n' !in attrs
      && (rest == attrs + "}" || rest == attrs + "}\n")
  {
    var attrs := BracedBody(rest).value;
    var cut := |attrs|;
    assert attrs == rest[..cut];
    assert rest == rest[..cut] + rest[cut..];
    assert rest[cut..] == "}" || rest[cut..] == "}\n";
    assert forall k :: 0 <= k < cut ==> rest[k] != '\n';
  }

  /** `(.+)}$` matches `rest` with group `attrs` exactly when `attrs` is
      non-empty and newline-free and is followed by `}` and at most one
      newline. */
  lemma BracedBodyIff(rest: string, attrs: string)
    ensures BracedBody(rest) == Some(attrs)
        <==> 1 <= |attrs| && '\n' !in attrs && (rest == attrs + "}" || rest == attrs + "}\n")
  {
    if BracedBody(rest) == Some(attrs) {
      BracedBodySound(rest);
    }
    if 1 <= |attrs| && '\n' !in attrs && (rest == attrs + "}" || rest == attrs + "}\n") {
      BracedBodyOf(attrs, if rest == attrs + "}" then "}" else "}\n");
    }
  }

  /** Where the pieces of a line of the form `OpeningLine` describes lie:
      blanks before `|indent|`, the language name up to `l`, the braced body
      after it. */
  lemma OpeningPieces(line: string, indent: string, lang: string, attrs: string) returns (w: nat, l: nat, tail: string)
    requires OpeningLine(line, indent, lang, attrs)
    ensures w == |indent| && l == w + 3 + |lang| && line[..w] == indent
    ensures w + 3 < l && l + 2 <= |line|
    ensures forall k :: 0 <= k < w ==> LineAnchors.IsSpace(line[k])
    ensures line[w] == '`' && OccursAt(line, "```", w)
    ensures forall k :: w + 3 <= k < l ==> IsLangChar(line[k])
    ensures line[l] == ' ' && OccursAt(line, " {", l)
    ensures 1 <= |attrs| && '\n' !in attrs && (tail == "}" || tail == "}\n")
    ensures line[l + 2..] == attrs + tail
  {
    w := |indent|;
    l := w + 3 + |lang|;
    tail := if line == indent + "```" + lang + " {" + attrs + "}" then "}" else "}\n";
    assert line == indent + "```" + lang + " {" + (attrs + tail);
    forall k | 0 <= k < w ensures LineAnchors.IsSpace(line[k]) {
      assert line[k] == indent[k];
    }
    forall k | w + 3 <= k < l ensures IsLangChar(line[k]) {
      assert line[k] == lang[k - w - 3];
    }
  }

  /** The scan of the blanks, of the language name and of the braced body
      stops where `OpeningPieces` puts their ends. */
  lemma OpeningScanStops(line: string, w: nat, l: nat, attrs: string, tail: string)
    requires w + 3 < l && l + 2 <= |line|
    requires forall k :: 0 <= k < w ==> LineAnchors.IsSpace(line[k])
    requires line[w] == '`'
    requires forall k :: w + 3 <= k < l ==> IsLangChar(line[k])
    requires line[l] == ' '
    requires 1 <= |attrs| && '\n' !in attrs && (tail == "}" || tail == "}\n")
    requires line[l + 2..] == attrs + tail
    ensures LineAnchors.SkipSpaces(line, 0) == w
    ensures LangEnd(line, w + 3) == l
    ensures BracedBody(line[l + 2..]) == Some(attrs)
  {
    BracedBodyOf(attrs, tail);
  }

  /** The opening-fence scan, given where it stops. */
  lemma OpeningScan(line: string, w: nat, l: nat, attrs: string)
    requires w + 3 < l && l + 2 <= |line|
    requires LineAnchors.SkipSpaces(line, 0) == w && LangEnd(line, w + 3) == l
    requires OccursAt(line, "```", w) && OccursAt(line, " {", l)
    requires BracedBody(line[l + 2..]) == Some(attrs)
    ensures MatchOpening(line) == Some(Opening(line[..w], attrs))
  {
  }

  /** Every line of the form `OpeningLine` describes matches the
      opening-fence expression, with `indent` and `attrs` as its groups. */
  lemma MatchOpeningComplete(line: string, indent: string, lang: string, attrs: string)
    requires OpeningLine(line, indent, lang, attrs)
    ensures MatchOpening(line) == Some(Opening(indent, attrs))
  {
    var w, l, tail := OpeningPieces(line, indent, lang, attrs);
    OpeningScanStops(line, w, l, attrs, tail);
    OpeningScan(line, w, l, attrs);
  }

  /** Where a successful opening-fence scan stopped. */
  lemma OpeningScanFound(line: string) returns (w: nat, l: nat)
    requires MatchOpening(line).Some?
    ensures w + 3 < l && l + 2 <= |line|
    ensures w == LineAnchors.SkipSpaces(line, 0) && l == LangEnd(line, w + 3)
    ensures OccursAt(line, "```", w) && OccursAt(line, " {", l)
    ensures BracedBody(line[l + 2..]) == Some(MatchOpening(line).value.attrs)
    ensures MatchOpening(line).value.indent == line[..w]
  {
    w := LineAnchors.SkipSpaces(line, 0);
    l := LangEnd(line, w + 3);
  }

  /** Every match of the opening-fence expression has the form
      `OpeningLine` describes. */
  lemma MatchOpeningSound(line: string)
    requires MatchOpening(line).Some?
    ensures exists lang :: OpeningLine(line, MatchOpening(line).value.indent, lang, MatchOpening(line).value.attrs)
  {
    var w, l := OpeningScanFound(line);
    BracedBodySound(line[l + 2..]);
    OpeningShape(line, w, l, MatchOpening(line).value.attrs);
  }

  /** The opening-fence expression matches with groups `indent` and `attrs`
      exactly when the line has the form `OpeningLine` describes. */
  lemma MatchOpeningIff(line: string, indent: string, attrs: string)
    ensures MatchOpening(line) == Some(Opening(indent, attrs))
        <==> exists lang :: OpeningLine(line, indent, lang, attrs)
  {
    if MatchOpening(line) == Some(Opening(indent, attrs)) {
      MatchOpeningSound(line);
    }
    if exists lang :: OpeningLine(line, indent, lang, attrs) {
      var lang :| OpeningLine(line, indent, lang, attrs);
      MatchOpeningComplete(line, indent, lang, attrs);
    }
  }

  /** The closing-fence expression matches with group `indent` exactly when
      the line is white space `indent` followed by three backticks and
      optionally one newline. */
  lemma MatchClosingIff(line: string, indent: string)
    ensures MatchClosing(line) == Some(indent)
        <==> && (forall k :: 0 <= k < |indent| ==> LineAnchors.IsSpace(indent[k]))
             && (line == indent + "```" || line == indent + "```\n")
  {
    if && (forall k :: 0 <= k < |indent| ==> LineAnchors.IsSpace(indent[k]))
       && (line == indent + "```" || line == indent + "```\n")
    {
      var w := |indent|;
      assert line[w] == '`';
      assert LineAnchors.SkipSpaces(line, 0) == w by {
        forall k | 0 <= k < w ensures LineAnchors.IsSpace(line[k]) {
          assert line[k] == indent[k];
        }
      }
      assert line[..w] == indent;
      assert line[w..] == "```" || line[w..] == "```\n";
    }
  }

  // ---------------------------------------------------------------------
  // The attributes of an opening fence

  /** `piece.split("=")` has exactly two parts and the first is
      `file_name`. */
  predicate NamesFile(piece: string) {
    var kv := Split(piece, '=');
    |kv| == 2 && kv[0] == "file_name"
  }

  /** The value of the last `file_name=value` piece; a piece that does not
      split into exactly two parts is skipped. */
  function FileNameIn(pieces: seq<string>): Option<string> {
    if pieces == [] then None
    else
      var last := pieces[|pieces| - 1];
      if NamesFile(last) then Some(Split(last, '=')[1]) else FileNameIn(pieces[..|pieces| - 1])
  }

  /** The last `file_name` piece wins, and a fence without one names no
      file. */
  lemma {:induction false} FileNameInSpec(pieces: seq<string>)
    ensures FileNameIn(pieces).None? <==> forall k :: 0 <= k < |pieces| ==> !NamesFile(pieces[k])
    ensures FileNameIn(pieces).Some? ==> exists k ::
      && 0 <= k < |pieces| && NamesFile(pieces[k])
      && FileNameIn(pieces).value == Split(pieces[k], '=')[1]
      && forall k' :: k < k' < |pieces| ==> !NamesFile(pieces[k'])
  {
    if pieces != [] {
      var init := pieces[..|pieces| - 1];
      var n := |pieces| - 1;
      FileNameInSpec(init);
      if NamesFile(pieces[n]) {
      } else if FileNameIn(init).Some? {
        var k :| && 0 <= k < |init| && NamesFile(init[k])
          && FileNameIn(init).value == Split(init[k], '=')[1]
          && forall k' :: k < k' < |init| ==> !NamesFile(init[k']);
        assert pieces[k] == init[k];
        assert forall k' :: k < k' < |pieces| ==> !NamesFile(pieces[k']);
      } else {
        assert forall k :: 0 <= k < |init| ==> pieces[k] == init[k];
      }
    }
  }

  // ---------------------------------------------------------------------
  // The line loop

  /** `current_file`, `current_snippet` and `indent_string`: either no
      block is open, or one is, collecting lines for `file`. */
  datatype Block = Idle | Open(file: string, snippet: seq<string>, indent: string)

  /** The loop's state: the open block and `file_contents`. */
  datatype State = State(block: Block, contents: map<string, seq<string>>)

  const NestedOpening: string := "Starting a new file without finishing another!"
  const IndentMismatch: string := "Inconsistent indentation in code blocks!"

  /** `file_contents[file].extend(lines)` on a `defaultdict(list)`. */
  function Extend(contents: map<string, seq<string>>, file: string, lines: seq<string>): (r: map<string, seq<string>>)
    ensures r.Keys == contents.Keys + {file}
    ensures r[file] == (if file in contents then contents[file] else []) + lines
    ensures forall f :: f in contents && f != file ==> r[f] == contents[f]
  {
    contents[file := (if file in contents then contents[file] else []) + lines]
  }

  /** What an opening fence does: an error inside an open block; otherwise
      a block opens when the attributes name a file. */
  function OpenStep(s: State, opening: Opening): Result<State> {
    if s.block.Open? then Err(NestedOpening)
    else
      var file := FileNameIn(Split(opening.attrs, ','));
      if file.Some? then Ok(State(Open(file.value, [], opening.indent), s.contents)) else Ok(s)
  }

  /** What any other line does inside an open block: a closing fence at the
      opening indentation closes the block and appends its lines to the
      file, one at another indentation is an error, and any other line is
      recorded without the indentation. */
  function InBlockStep(file: string, snippet: seq<string>, indent: string, contents: map<string, seq<string>>, line: string): Result<State> {
    var closing := MatchClosing(line);
    if closing.Some? then
      if indent != closing.value then Err(IndentMismatch)
      else Ok(State(Idle, Extend(contents, file, snippet)))
    else Ok(State(Open(file, snippet + [RemovePrefix(line, indent)], indent), contents))
  }

  /** What one line does to the state. */
  function Step(s: State, line: string): Result<State> {
    var opening := MatchOpening(line);
    if opening.Some? then OpenStep(s, opening.value)
    else if s.block.Open? then InBlockStep(s.block.file, s.block.snippet, s.block.indent, s.contents, line)
    else Ok(s)
  }

  /** The state after `lines`, starting from `s`, or the first error. */
  function ProcessFrom(s: State, lines: seq<string>): Result<State> {
    if lines == [] then Ok(s)
    else
      match ProcessFrom(s, lines[..|lines| - 1])
      case Err(m) => Err(m)
      case Ok(t) => Step(t, lines[|lines| - 1])
  }

  const Initial: State := State(Idle, map[])

  /** The files a document holds; a block still open at the end contributes
      nothing. */
  function Extract(lines: seq<string>): Result<map<string, seq<string>>> {
    match ProcessFrom(Initial, lines)
    case Err(m) => Err(m)
    case Ok(s) => Ok(s.contents)
  }

  /** Once an error is raised the rest of the document does not matter. */
  lemma {:induction false} ErrorPersists(s: State, lines: seq<string>, n: nat)
    requires n <= |lines| && ProcessFrom(s, lines[..n]).Err?
    ensures ProcessFrom(s, lines) == ProcessFrom(s, lines[..n])
    decreases |lines| - n
  {
    if n < |lines| {
      assert lines[..n + 1][..n] == lines[..n];
      ErrorPersists(s, lines, n + 1);
    } else {
      assert lines[..n] == lines;
    }
  }

  /** The loop over the comma-separated pieces of an opening fence's
      attributes: every `file_name=value` piece sets the file, so the last
      one wins. */
  method ReadFileName(attrs: string) returns (file: Option<string>)
    ensures file == FileNameIn(Split(attrs, ','))
  {
    var pieces := Split(attrs, ',');
    file := None;
    for k := 0 to |pieces|
      invariant file == FileNameIn(pieces[..k])
    {
      assert pieces[..k + 1][..k] == pieces[..k];
      var pieceAssign := Split(pieces[k], '=');
      if |pieceAssign| != 2 {
        continue;
      }
      var key, value := pieceAssign[0], pieceAssign[1];
      if key == "file_name" {
        file := Some(value);
      }
    }
    assert pieces[..|pieces|] == pieces;
  }

  /** The module-level loop of scripts/markdown_driver.py, lines 16-55. */
  method ExtractFiles(lines: seq<string>) returns (r: Result<map<string, seq<string>>>)
    ensures r == Extract(lines)
  {
    var fileContents: map<string, seq<string>> := map[];
    var currentSnippet: seq<string> := [];
    var currentFile: Option<string> := None;
    var indentString: string := "";
    for i := 0 to |lines|
      invariant ProcessFrom(Initial, lines[..i]) == Ok(State(
        if currentFile.Some? then Open(currentFile.value, currentSnippet, indentString) else Idle,
        fileContents))
    {
      var line := lines[i];
      assert lines[..i + 1][..i] == lines[..i];
      var fileMatch := MatchOpening(line);
      var endMatch := MatchClosing(line);
      if fileMatch.Some? {
        if currentFile.Some? {
          r := Err(NestedOpening);
          ErrorPersists(Initial, lines, i + 1);
          return;
        }
        var file := ReadFileName(fileMatch.value.attrs);
        if file.Some? {
          currentFile := file;
          currentSnippet := [];
          indentString := fileMatch.value.indent;
        }
        continue;
      } else if endMatch.Some? && currentFile.Some? {
        var indentEndString := endMatch.value;
        if indentString != indentEndString {
          r := Err(IndentMismatch);
          ErrorPersists(Initial, lines, i + 1);
          return;
        }
        fileContents := Extend(fileContents, currentFile.value, currentSnippet);
        currentSnippet := [];
        currentFile := None;
        indentString := "";
        continue;
      } else if currentFile.Some? {
        currentSnippet := currentSnippet + [RemovePrefix(line, indentString)];
      }
    }
    assert lines[..|lines|] == lines;
    r := Ok(fileContents);
  }

  // ---------------------------------------------------------------------
  // Properties of whole documents

  lemma {:induction false} ProcessConcat(s: State, a: seq<string>, b: seq<string>)
    ensures ProcessFrom(s, a + b) == match ProcessFrom(s, a)
      case Err(m) => Err(m)
      case Ok(t) => ProcessFrom(t, b)
  {
    if b == [] {
      assert a + b == a;
    } else {
      assert (a + b)[..|a + b| - 1] == a + b[..|b| - 1];
      ProcessConcat(s, a, b[..|b| - 1]);
    }
  }

  /** A line that is neither an opening nor a closing fence. */
  predicate Plain(line: string) {
    MatchOpening(line).None? && MatchClosing(line).None?
  }

  /** The lines of a block as they are recorded: indentation removed. */
  function Dedent(lines: seq<string>, indent: string): (r: seq<string>)
    ensures |r| == |lines|
    ensures forall k :: 0 <= k < |lines| ==> r[k] == RemovePrefix(lines[k], indent)
  {
    if lines == [] then [] else Dedent(lines[..|lines| - 1], indent) + [RemovePrefix(lines[|lines| - 1], indent)]
  }

  /** Inside an open block, plain lines are recorded and nothing else
      changes. */
  lemma {:induction false} PlainLines(file: string, snippet: seq<string>, indent: string,
                                      contents: map<string, seq<string>>, body: seq<string>)
    requires forall k :: 0 <= k < |body| ==> Plain(body[k])
    ensures ProcessFrom(State(Open(file, snippet, indent), contents), body)
         == Ok(State(Open(file, snippet + Dedent(body, indent), indent), contents))
  {
    if body != [] {
      var init := body[..|body| - 1];
      var last := body[|body| - 1];
      PlainLines(file, snippet, indent, contents, init);
      assert Plain(last);
      assert Step(State(Open(file, snippet + Dedent(init, indent), indent), contents), last)
          == InBlockStep(file, snippet + Dedent(init, indent), indent, contents, last);
      assert snippet + Dedent(body, indent) == snippet + Dedent(init, indent) + [RemovePrefix(body[|body| - 1], indent)];
    } else {
      assert snippet + Dedent(body, indent) == snippet;
    }
  }

  /** Outside a block, plain lines are ignored. */
  lemma {:induction false} PlainLinesOutside(contents: map<string, seq<string>>, text: seq<string>)
    requires forall k :: 0 <= k < |text| ==> Plain(text[k])
    ensures ProcessFrom(State(Idle, contents), text) == Ok(State(Idle, contents))
  {
    if text != [] {
      PlainLinesOutside(contents, text[..|text| - 1]);
      assert Plain(text[|text| - 1]);
    }
  }

  /** Outside a block, a stray closing fence is ignored. */
  lemma StrayCloseIgnored(contents: map<string, seq<string>>, line: string)
    requires MatchClosing(line).Some?
    ensures ProcessFrom(State(Idle, contents), [line]) == Ok(State(Idle, contents))
  {
    assert [line][..0] == [];
  }

  /** Outside a block, an opening fence that names `file` opens a block. */
  lemma OpensBlock(contents: map<string, seq<string>>, open: string, file: string)
    requires MatchOpening(open).Some?
    requires FileNameIn(Split(MatchOpening(open).value.attrs, ',')) == Some(file)
    ensures ProcessFrom(State(Idle, contents), [open])
         == Ok(State(Open(file, [], MatchOpening(open).value.indent), contents))
  {
    assert [open][..0] == [];
    assert ProcessFrom(State(Idle, contents), [open]) == Step(State(Idle, contents), open);
  }

  /** A closing fence at the block's indentation closes it and appends the
      recorded lines to the file. */
  lemma ClosesBlock(file: string, snippet: seq<string>, indent: string, contents: map<string, seq<string>>, close: string)
    requires MatchClosing(close) == Some(indent)
    ensures ProcessFrom(State(Open(file, snippet, indent), contents), [close])
         == Ok(State(Idle, Extend(contents, file, snippet)))
  {
    var s := State(Open(file, snippet, indent), contents);
    assert [close][..0] == [];
    assert ProcessFrom(s, [close]) == Step(s, close);
    assert MatchOpening(close).None?;
  }

  /** A complete block: an opening fence naming `file` at indentation
      `indent`, plain lines, and a closing fence at the same indentation
      appends the dedented lines to `file` and closes the block. */
  lemma BlockAppends(contents: map<string, seq<string>>, open: string, body: seq<string>, close: string, file: string, indent: string)
    requires MatchOpening(open).Some? && MatchOpening(open).value.indent == indent
    requires FileNameIn(Split(MatchOpening(open).value.attrs, ',')) == Some(file)
    requires forall k :: 0 <= k < |body| ==> Plain(body[k])
    requires MatchClosing(close) == Some(indent)
    ensures ProcessFrom(State(Idle, contents), [open] + body + [close])
         == Ok(State(Idle, Extend(contents, file, Dedent(body, indent))))
  {
    var s := State(Idle, contents);
    var started := State(Open(file, [], indent), contents);
    var filled := State(Open(file, Dedent(body, indent), indent), contents);
    OpensBlock(contents, open, file);
    ProcessConcat(s, [open], body);
    PlainLines(file, [], indent, contents, body);
    assert [] + Dedent(body, indent) == Dedent(body, indent);
    assert ProcessFrom(s, [open] + body) == ProcessFrom(started, body) == Ok(filled);
    ProcessConcat(s, [open] + body, [close]);
    ClosesBlock(file, Dedent(body, indent), indent, contents, close);
  }

  /** A block still open at the end of the document adds nothing to the
      files. */
  lemma UnclosedBlockIgnored(contents: map<string, seq<string>>, open: string, body: seq<string>, file: string)
    requires MatchOpening(open).Some?
    requires FileNameIn(Split(MatchOpening(open).value.attrs, ',')) == Some(file)
    requires forall k :: 0 <= k < |body| ==> Plain(body[k])
    ensures ProcessFrom(State(Idle, contents), [open] + body).Ok?
    ensures ProcessFrom(State(Idle, contents), [open] + body).value.contents == contents
  {
    var s := State(Idle, contents);
    var indent := MatchOpening(open).value.indent;
    OpensBlock(contents, open, file);
    ProcessConcat(s, [open], body);
    PlainLines(file, [], indent, contents, body);
  }

  /** An opening fence while a block is open is an error, whatever follows;
      so is a closing fence whose indentation differs from the opening
      one. */
  lemma FenceErrors(s: State, line: string, rest: seq<string>)
    requires s.block.Open?
    requires MatchOpening(line).Some? || (MatchClosing(line).Some? && MatchClosing(line).value != s.block.indent)
    ensures ProcessFrom(s, [line] + rest).Err?
  {
    assert ProcessFrom(s, [line]) == Step(s, line);
    ProcessConcat(s, [line], rest);
  }
}
