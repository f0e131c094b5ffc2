/** Line anchors of the literate-Chapel renderer (scripts/chpl2md.py): a code
    line may end in a marker `// hugo-tag="name"`, which is cut out of the
    line and recorded as an anchor `(name, line number)`.

    The marker is found by the regular expression `//\s*hugo-tag="(.+)"`
    searched from the left. `MatchesAt` below says declaratively when that
    expression matches at a position; `MarkerAt` and `FindMarker` compute the
    match the way the regular-expression engine does (leftmost start, greedy
    `.+`), and their contracts tie the two together. */
module LineAnchors {
  import opened Prelude

  /** The characters Python's `\s` matches in a `str` pattern. */
  predicate IsSpace(c: char) {
    || c == ' ' || c == '\t' || c == '\n' || c == '\r'
    || c == '\U{000B}' || c == '\U{000C}'
    || '\U{001C}' <= c <= '\U{001F}'
    || c == '\U{0085}' || c == '\U{00A0}' || c == '\U{1680}'
    || '\U{2000}' <= c <= '\U{200A}'
    || c == '\U{2028}' || c == '\U{2029}' || c == '\U{202F}' || c == '\U{205F}'
    || c == '\U{3000}'
  }

  /** The literal text between `//` plus blanks and the tag. */
  const Key: string := "hugo-tag=\""

  /** The marker regular expression matches `s[p..k + 1]` with its group
      being `s[q..k]`: `//`, blanks, `hugo-tag="`, one or more characters
      other than a newline, and a closing quote at `k`. */
  ghost predicate MatchesAt(s: string, p: nat, q: nat, k: nat) {
    && p + 2 + |Key| <= q < k < |s|
    && s[p] == '/' && s[p + 1] == '/'
    && (forall i :: p + 2 <= i < q - |Key| ==> IsSpace(s[i]))
    && s[q - |Key|..q] == Key
    && s[k] == '"'
    && (forall i :: q <= i < k ==> s[i] != '\n')
  }

  /** No match of the marker starts before `p`. */
  ghost predicate NoMatchBefore(s: string, p: nat) {
    forall p': nat, q: nat, k: nat :: p' < p ==> !MatchesAt(s, p', q, k)
  }

  /** Where a match of the marker lies in its line: it starts at `start`, the
      tag is `line[tagStart..tagEnd]` and the closing quote is at `tagEnd`. */
  datatype Marker = Marker(start: nat, tagStart: nat, tagEnd: nat)

  /** The first position at or after `i` that is not a blank. */
  function SkipSpaces(s: string, i: nat): (j: nat)
    requires i <= |s|
    ensures i <= j <= |s|
    ensures forall m :: i <= m < j ==> IsSpace(s[m])
    ensures j == |s| || !IsSpace(s[j])
    decreases |s| - i
  {
    if i < |s| && IsSpace(s[i]) then SkipSpaces(s, i + 1) else i
  }

  /** The position of the first newline at or after `q`, or the end of `s`. */
  function LineEnd(s: string, q: nat): (e: nat)
    requires q <= |s|
    ensures q <= e <= |s|
    ensures forall i :: q <= i < e ==> s[i] != '\n'
    ensures e == |s| || s[e] == '\n'
    decreases |s| - q
  {
    if q < |s| && s[q] != '\n' then LineEnd(s, q + 1) else q
  }

  /** The last quote in `s[lo..hi]`. */
  function LastQuote(s: string, lo: nat, hi: nat): (r: Option<nat>)
    requires hi <= |s|
    ensures r.None? ==> forall j :: lo <= j < hi ==> s[j] != '"'
    ensures r.Some? ==> lo <= r.value < hi && s[r.value] == '"'
    ensures r.Some? ==> forall j :: r.value < j < hi ==> s[j] != '"'
    decreases hi
  {
    if hi <= lo then None
    else if s[hi - 1] == '"' then Some(hi - 1)
    else LastQuote(s, lo, hi - 1)
  }

  /** The match of the marker that starts at `p`, if any: the blanks are
      skipped, the key is checked, and the greedy `.+` runs to the last quote
      before the end of the line. */
  function MarkerAt(s: string, p: nat): (r: Option<Marker>)
    ensures r.Some? ==> r.value.start == p && p + 2 + |Key| <= r.value.tagStart < r.value.tagEnd < |s|
  {
    if p + 2 <= |s| && s[p] == '/' && s[p + 1] == '/' then
      var w := SkipSpaces(s, p + 2);
      if w + |Key| <= |s| && s[w..w + |Key|] == Key then
        var q := w + |Key|;
        match LastQuote(s, q + 1, LineEnd(s, q))
        case Some(k) => Some(Marker(p, q, k))
        case None => None
      else None
    else None
  }

  /** Every match at `p` has its key right after the blanks that follow `//`,
      and its closing quote before the end of the line. */
  lemma MatchAtSkippedBlanks(s: string, p: nat, q: nat, k: nat)
    requires MatchesAt(s, p, q, k)
    ensures q == SkipSpaces(s, p + 2) + |Key| && q + 1 <= k < LineEnd(s, q)
  {
    var w, w' := SkipSpaces(s, p + 2), q - |Key|;
    assert s[w'] == Key[0] && !IsSpace(s[w']);
    var e := LineEnd(s, q);
    assert s[k] != '\n';
  }

  /** `MarkerAt` finds a match at `p` exactly when the regular expression
      matches there, and then the one with the longest tag. */
  lemma MarkerAtSpec(s: string, p: nat)
    ensures MarkerAt(s, p).Some? ==>
      var m := MarkerAt(s, p).value;
      && MatchesAt(s, p, m.tagStart, m.tagEnd)
      && (forall q: nat, k: nat :: MatchesAt(s, p, q, k) ==> q == m.tagStart && k <= m.tagEnd)
    ensures MarkerAt(s, p).None? ==> forall q: nat, k: nat :: !MatchesAt(s, p, q, k)
  {
    forall q: nat, k: nat | MatchesAt(s, p, q, k)
      ensures MarkerAt(s, p).Some? && q == MarkerAt(s, p).value.tagStart && k <= MarkerAt(s, p).value.tagEnd
    {
      MatchAtSkippedBlanks(s, p, q, k);
    }
  }

  /** The leftmost match of the marker starting at or after `from`. */
  function FindMarker(s: string, from: nat): (r: Option<Marker>)
    requires from <= |s|
    ensures r.Some? ==> from <= r.value.start && r.value.start + 2 + |Key| <= r.value.tagStart < r.value.tagEnd < |s|
    decreases |s| - from
  {
    match MarkerAt(s, from)
    case Some(m) => Some(m)
    case None => if from == |s| then None else FindMarker(s, from + 1)
  }

  /** `FindMarker` returns the leftmost match, and nothing only when there is
      no match at all. */
  lemma {:induction false} FindMarkerSpec(s: string, from: nat)
    requires from <= |s|
    ensures FindMarker(s, from).None? ==> forall p: nat, q: nat, k: nat :: from <= p ==> !MatchesAt(s, p, q, k)
    ensures FindMarker(s, from).Some? ==>
      && MarkerAt(s, FindMarker(s, from).value.start) == FindMarker(s, from)
      && forall p: nat, q: nat, k: nat :: from <= p < FindMarker(s, from).value.start ==> !MatchesAt(s, p, q, k)
    decreases |s| - from
  {
    MarkerAtSpec(s, from);
    match MarkerAt(s, from)
    case Some(m) =>
      assert FindMarker(s, from) == Some(m);
      assert m.start == from;
    case None =>
      if from < |s| {
        FindMarkerSpec(s, from + 1);
        var r := FindMarker(s, from + 1);
        assert FindMarker(s, from) == r;
        forall p: nat, q: nat, k: nat | from <= p && (r.None? || p < r.value.start)
          ensures !MatchesAt(s, p, q, k)
        {
          if p == from {
            assert !MatchesAt(s, from, q, k);
          }
        }
      } else {
        assert FindMarker(s, from).None?;
      }
  }

  /** A line with its marker cut out, and the marker's tag. */
  datatype Tagged = Tagged(stripped: string, tag: string)

  /** `extract_line_anchor`: no result when the marker does not occur in the
      line; otherwise the line without its leftmost marker, and the tag, which
      runs to the last quote of the line and is never empty. */
  function ExtractLineAnchor(line: string): (r: Option<Tagged>)
    ensures r.Some? ==> 1 <= |r.value.tag| < |line| && |r.value.stripped| < |line|
  {
    match FindMarker(line, 0)
    case None => None
    case Some(m) => Some(Tagged(line[..m.start] + line[m.tagEnd + 1..], line[m.tagStart..m.tagEnd]))
  }

  /** `extract_line_anchor` finds nothing exactly when the regular
      expression matches nowhere in the line. */
  lemma ExtractLineAnchorNone(line: string)
    ensures ExtractLineAnchor(line).None? <==> forall p: nat, q: nat, k: nat :: !MatchesAt(line, p, q, k)
  {
    FindMarkerSpec(line, 0);
    match FindMarker(line, 0)
    case None =>
    case Some(m) =>
      MarkerAtSpec(line, m.start);
      assert MatchesAt(line, m.start, m.tagStart, m.tagEnd);
  }

  /** The match `extract_line_anchor` cuts out: the leftmost one, with its
      longest tag. */
  lemma ExtractLineAnchorMatch(line: string) returns (p: nat, q: nat, k: nat)
    requires ExtractLineAnchor(line).Some?
    ensures MatchesAt(line, p, q, k) && NoMatchBefore(line, p)
    ensures forall k': nat :: MatchesAt(line, p, q, k') ==> k' <= k
    ensures ExtractLineAnchor(line).value == Tagged(line[..p] + line[k + 1..], line[q..k])
  {
    var m := FindMarker(line, 0).value;
    p, q, k := m.start, m.tagStart, m.tagEnd;
    assert ExtractLineAnchor(line).value == Tagged(line[..p] + line[k + 1..], line[q..k]);
    FindMarkerSpec(line, 0);
    assert MarkerAt(line, p) == Some(m);
    MarkerAtSpec(line, p);
  }

  lemma TagWithoutNewline(line: string, p: nat, q: nat, k: nat)
    requires MatchesAt(line, p, q, k)
    ensures '\n' !in line[q..k]
  {
    var tag := line[q..k];
    assert forall i :: 0 <= i < |tag| ==> tag[i] == line[q + i];
  }

  /** The meaning of `extract_line_anchor` in terms of the regular
      expression: no result exactly when nothing matches; otherwise the cut
      is the leftmost match, with its longest tag, and the tag has no
      newline. */
  lemma ExtractLineAnchorSpec(line: string)
    ensures ExtractLineAnchor(line).None? <==> forall p: nat, q: nat, k: nat :: !MatchesAt(line, p, q, k)
    ensures ExtractLineAnchor(line).Some? ==>
      '\n' !in ExtractLineAnchor(line).value.tag
      && exists p: nat, q: nat, k: nat ::
        && MatchesAt(line, p, q, k)
        && NoMatchBefore(line, p)
        && (forall k': nat :: MatchesAt(line, p, q, k') ==> k' <= k)
        && ExtractLineAnchor(line).value == Tagged(line[..p] + line[k + 1..], line[q..k])
  {
    ExtractLineAnchorNone(line);
    if ExtractLineAnchor(line).Some? {
      var p, q, k := ExtractLineAnchorMatch(line);
      var r := ExtractLineAnchor(line).value;
      TagWithoutNewline(line, p, q, k);
      assert MatchesAt(line, p, q, k)
        && NoMatchBefore(line, p)
        && (forall k': nat :: MatchesAt(line, p, q, k') ==> k' <= k)
        && r == Tagged(line[..p] + line[k + 1..], line[q..k]);
    }
  }

  /** The line that `extract_line_anchors` keeps for `line`. */
  function StrippedLine(line: string): string {
    match ExtractLineAnchor(line)
    case Some(t) => t.stripped
    case None => line
  }

  /** The lines that `extract_line_anchors` returns. */
  function StrippedLines(lines: seq<string>): (r: seq<string>)
    ensures |r| == |lines|
  {
    seq(|lines|, i requires 0 <= i < |lines| => StrippedLine(lines[i]))
  }

  /** An anchor: a tag and the number of the line that carried it. */
  datatype Anchor = Anchor(tag: string, line: nat)

  /** The tag a line carries, if any. */
  function TagOf(line: string): (r: Option<string>)
    ensures r.Some? <==> ExtractLineAnchor(line).Some?
    ensures r.Some? ==> r.value == ExtractLineAnchor(line).value.tag
  {
    match ExtractLineAnchor(line)
    case Some(t) => Some(t.tag)
    case None => None
  }

  /** The tags of a list of lines, line by line. */
  function TagsOf(lines: seq<string>): (r: seq<Option<string>>)
    ensures |r| == |lines|
  {
    seq(|lines|, i requires 0 <= i < |lines| => TagOf(lines[i]))
  }

  /** The anchors of the lines whose tags are `tags`, when the first of them
      is line number `base`. */
  function Anchors(tags: seq<Option<string>>, base: nat): seq<Anchor>
  {
    if tags == [] then []
    else
      var last := |tags| - 1;
      Anchors(tags[..last], base) + (if tags[last].Some? then [Anchor(tags[last].value, base + last)] else [])
  }

  /** The anchors of `lines` when the first of them is line number `base`. */
  function AnchorsOf(lines: seq<string>, base: nat): seq<Anchor>
  {
    Anchors(TagsOf(lines), base)
  }

  /** One more line adds its stripped form and its anchor, numbered by its
      position. */
  lemma ExtendLines(lines: seq<string>, i: nat, base: nat)
    requires i < |lines|
    ensures StrippedLines(lines[..i + 1]) == StrippedLines(lines[..i]) + [StrippedLine(lines[i])]
    ensures AnchorsOf(lines[..i + 1], base) == AnchorsOf(lines[..i], base) +
      (if TagOf(lines[i]).Some? then [Anchor(TagOf(lines[i]).value, base + i)] else [])
  {
    assert lines[..i + 1][..i] == lines[..i];
    var tags := TagsOf(lines[..i + 1]);
    assert tags[..i] == TagsOf(lines[..i]);
  }

  /** `extract_line_anchors`: every line with its marker cut out, and the
      anchors of the lines in order. */
  method ExtractLineAnchors(lines: seq<string>, lineNo: nat) returns (newLines: seq<string>, anchors: seq<Anchor>)
    ensures newLines == StrippedLines(lines)
    ensures anchors == AnchorsOf(lines, lineNo)
  {
    anchors := [];
    newLines := [];
    for i := 0 to |lines|
      invariant newLines == StrippedLines(lines[..i])
      invariant anchors == AnchorsOf(lines[..i], lineNo)
    {
      ExtendLines(lines, i, lineNo);
      var result := ExtractLineAnchor(lines[i]);
      match result {
        case Some(t) =>
          anchors := anchors + [Anchor(t.tag, lineNo + i)];
          newLines := newLines + [t.stripped];
        case None =>
          newLines := newLines + [lines[i]];
      }
    }
    assert lines[..|lines|] == lines;
  }

  /** Every anchor comes from a tagged line, numbered `base` plus its
      position, and carries that line's tag. */
  lemma {:induction false} AnchorsSound(tags: seq<Option<string>>, base: nat)
    ensures forall a :: a in Anchors(tags, base) ==>
      base <= a.line < base + |tags| && tags[a.line - base] == Some(a.tag)
  {
    if tags != [] {
      var last := |tags| - 1;
      var init := tags[..last];
      AnchorsSound(init, base);
      assert forall i :: 0 <= i < last ==> init[i] == tags[i];
    }
  }

  /** Every tagged line contributes its anchor. */
  lemma {:induction false} AnchorsComplete(tags: seq<Option<string>>, base: nat)
    ensures forall i :: 0 <= i < |tags| && tags[i].Some? ==>
      Anchor(tags[i].value, base + i) in Anchors(tags, base)
  {
    if tags != [] {
      var last := |tags| - 1;
      var init := tags[..last];
      AnchorsComplete(init, base);
      assert forall i :: 0 <= i < last ==> init[i] == tags[i];
    }
  }

  /** Anchors are listed in strictly increasing line order, at most one per
      line. */
  lemma {:induction false} AnchorsOrdered(tags: seq<Option<string>>, base: nat)
    ensures forall x, y :: 0 <= x < y < |Anchors(tags, base)| ==>
      Anchors(tags, base)[x].line < Anchors(tags, base)[y].line
    ensures |Anchors(tags, base)| <= |tags|
  {
    if tags != [] {
      var last := |tags| - 1;
      var init := tags[..last];
      AnchorsOrdered(init, base);
      AnchorsSound(init, base);
      var prev := Anchors(init, base);
      assert forall x :: 0 <= x < |prev| ==> prev[x] in prev;
    }
  }

  /** The anchors of a list of lines are exactly its tagged lines, each
      numbered `base` plus its position and carrying the tag
      `extract_line_anchor` finds there, in strictly increasing line order. */
  lemma AnchorsOfSpec(lines: seq<string>, base: nat)
    ensures forall a :: a in AnchorsOf(lines, base) ==>
      base <= a.line < base + |lines| && TagOf(lines[a.line - base]) == Some(a.tag)
    ensures forall i :: 0 <= i < |lines| && TagOf(lines[i]).Some? ==>
      Anchor(TagOf(lines[i]).value, base + i) in AnchorsOf(lines, base)
    ensures forall x, y :: 0 <= x < y < |AnchorsOf(lines, base)| ==>
      AnchorsOf(lines, base)[x].line < AnchorsOf(lines, base)[y].line
  {
    assert forall i :: 0 <= i < |lines| ==> TagsOf(lines)[i] == TagOf(lines[i]);
    AnchorsSound(TagsOf(lines), base);
    AnchorsComplete(TagsOf(lines), base);
    AnchorsOrdered(TagsOf(lines), base);
  }

  /** In a line without newlines, no quote follows the greedy end of a
      match: a later quote would close a longer tag. */
  lemma NoQuoteAfterMatch(line: string, p: nat, q: nat, k: nat)
    requires '\n' !in line
    requires MatchesAt(line, p, q, k)
    requires forall k': nat :: MatchesAt(line, p, q, k') ==> k' <= k
    ensures forall j :: k < j < |line| ==> line[j] != '"'
  {
    forall j | k < j < |line| && line[j] == '"' ensures false {
      assert MatchesAt(line, p, q, j);
    }
  }

  /** A match in `line[..p] + rest`, where `rest` has no quote, lies wholly
      inside `line[..p]`, and so is a match in `line` that starts before
      `p`. */
  lemma MatchInPrefix(line: string, p: nat, rest: string, p': nat, q': nat, k': nat)
    requires p <= |line|
    requires '"' !in rest
    requires MatchesAt(line[..p] + rest, p', q', k')
    ensures p' < p && MatchesAt(line, p', q', k')
  {
    var s := line[..p] + rest;
    assert forall i :: 0 <= i <= k' ==> s[i] == line[i];
    assert s[q' - |Key|..q'] == line[q' - |Key|..q'];
  }

  /** A stripped line holds no further marker, provided the line has no
      newline in it: cutting out the leftmost marker leaves no quote after the
      cut, and every match needs a closing quote. */
  lemma StripIdempotent(line: string)
    requires '\n' !in line
    ensures ExtractLineAnchor(StrippedLine(line)).None?
  {
    if ExtractLineAnchor(line).Some? {
      var t := ExtractLineAnchor(line).value;
      var p, q, k := ExtractLineAnchorMatch(line);
      NoQuoteAfterMatch(line, p, q, k);
      var rest := line[k + 1..];
      assert forall j :: 0 <= j < |rest| ==> rest[j] == line[k + 1 + j];
      forall p': nat, q': nat, k': nat | MatchesAt(t.stripped, p', q', k') ensures false {
        MatchInPrefix(line, p, rest, p', q', k');
      }
      ExtractLineAnchorNone(t.stripped);
    } else {
      ExtractLineAnchorNone(line);
    }
  }

  /** Stripping the marker twice is stripping it once. */
  lemma StrippedLineIdempotent(line: string)
    requires '\n' !in line
    ensures StrippedLine(StrippedLine(line)) == StrippedLine(line)
  {
    StripIdempotent(line);
  }
}
