/** The link annotator of scripts/insert_links.py: every rendered code line is
    a small tree of HTML nodes, walked left to right with a column cursor and
    an index into the references that start on that line. A node whose whole
    text lies inside the current reference is wrapped in a link to that
    reference's documentation and not entered; other elements are entered.
    The Python code keeps the cursor and the index in two `nonlocal`
    variables; here they are passed in and returned.

    `LinkResolver` holds the per-file memo of `parse` and the update of the
    on-disk cache. */
module LinkAnnotator {
  import opened Prelude
  import opened Strings
  import opened LinkTable

  /** A node of a rendered line: a text run, an element with children, or an
      element wrapped in a link (`<a href=...>`). */
  datatype Node = Text(text: string) | Element(tag: string, children: seq<Node>) | Link(href: string, child: Node)

  /** `node.text`: the visible text below a node. */
  function TextOf(n: Node): string
    decreases n
  {
    match n
    case Text(t) => t
    case Element(_, cs) => TextOfAll(cs)
    case Link(_, c) => TextOf(c)
  }

  function TextOfAll(cs: seq<Node>): string
    decreases cs
  {
    if cs == [] then "" else TextOfAll(cs[..|cs| - 1]) + TextOf(cs[|cs| - 1])
  }

  // ---------------------------------------------------------------------
  // check_position

  /** The index `check_position` moves to: past every reference whose end
      column is before the cursor. */
  function Advance(links: seq<Ref>, idx: nat, col: int): (j: nat)
    requires idx <= |links|
    ensures idx <= j <= |links|
    ensures forall k :: idx <= k < j ==> links[k].span.end.col < col
    ensures j == |links| || col <= links[j].span.end.col
    decreases |links| - idx
  {
    if idx < |links| && links[idx].span.end.col < col then Advance(links, idx + 1, col) else idx
  }

  /** The text starting at the cursor lies inside reference `idx`. */
  predicate Fits(links: seq<Ref>, idx: nat, col: int, text: string) {
    idx < |links| && links[idx].span.start.col <= col && col + |text| <= links[idx].span.end.col
  }

  /** `check_position(text)`: skips the references that end before the
      cursor, then tells whether `text` fits inside the current one. */
  method CheckPosition(links: seq<Ref>, idx: nat, col: int, text: string) returns (fits: bool, idx': nat)
    requires idx <= |links|
    ensures idx' == Advance(links, idx, col)
    ensures fits <==> idx' < |links| && links[idx'].span.start.col <= col && col + |text| <= links[idx'].span.end.col
  {
    idx' := idx;
    while idx' < |links| && links[idx'].span.end.col < col
      invariant idx <= idx' <= |links|
      invariant Advance(links, idx', col) == Advance(links, idx, col)
      decreases |links| - idx'
    {
      idx' := idx' + 1;
    }
    if idx' >= |links| {
      return false, idx';
    }
    var curLink := links[idx'];
    if col >= curLink.span.start.col && col + |text| <= curLink.span.end.col {
      return true, idx';
    }
    return false, idx';
  }

  // ---------------------------------------------------------------------
  // traverse

  /** The rewritten node, and where the index and the cursor end up. */
  datatype Walk = Walk(node: Node, idx: nat, col: int)

  datatype WalkAll = WalkAll(nodes: seq<Node>, idx: nat, col: int)

  /** What `traverse` does to a node, as a function. */
  function Annotate(links: seq<Ref>, n: Node, idx: nat, col: int): (w: Walk)
    requires idx <= |links|
    ensures idx <= w.idx <= |links|
    decreases n, 1
  {
    var j := Advance(links, idx, col);
    var text := TextOf(n);
    if Fits(links, j, col, text) then
      Walk(if links[j].url != "" then Link(links[j].url, n) else n, j, col + |text|)
    else
      match n
      case Text(_) => Walk(n, j, col + |text|)
      case Element(tag, cs) =>
        var r := AnnotateAll(links, cs, j, col);
        Walk(Element(tag, r.nodes), r.idx, r.col)
      case Link(href, c) =>
        var r := Annotate(links, c, j, col);
        Walk(Link(href, r.node), r.idx, r.col)
  }

  /** `traverse` applied to the children of one element, in order. */
  function AnnotateAll(links: seq<Ref>, cs: seq<Node>, idx: nat, col: int): (w: WalkAll)
    requires idx <= |links|
    ensures idx <= w.idx <= |links| && |w.nodes| == |cs|
    decreases cs, 0
  {
    if cs == [] then WalkAll([], idx, col)
    else
      var r := AnnotateAll(links, cs[..|cs| - 1], idx, col);
      var x := Annotate(links, cs[|cs| - 1], r.idx, r.col);
      WalkAll(r.nodes + [x.node], x.idx, x.col)
  }

  /** `traverse(node)` with the cursor and the index passed explicitly. The
      tree is rebuilt with the wrapped nodes in place of the originals. */
  method Traverse(links: seq<Ref>, node: Node, idx: nat, col: int) returns (w: Walk)
    requires idx <= |links|
    ensures w == Annotate(links, node, idx, col)
    decreases node
  {
    var text := TextOf(node);
    var fits, linkIdx := CheckPosition(links, idx, col, text);
    if fits {
      var docLink := links[linkIdx].url;
      var wrapped := node;
      if docLink != "" {
        wrapped := Link(docLink, node);
      }
      return Walk(wrapped, linkIdx, col + |text|);
    }
    match node {
      case Text(_) =>
        return Walk(node, linkIdx, col + |text|);
      case Element(tag, children) =>
        var out: seq<Node> := [];
        var curIdx, curCol := linkIdx, col;
        for k := 0 to |children|
          invariant WalkAll(out, curIdx, curCol) == AnnotateAll(links, children[..k], linkIdx, col)
        {
          assert children[..k + 1][..k] == children[..k];
          var r := Traverse(links, children[k], curIdx, curCol);
          out, curIdx, curCol := out + [r.node], r.idx, r.col;
        }
        assert children[..|children|] == children;
        return Walk(Element(tag, out), curIdx, curCol);
      case Link(href, child) =>
        var r := Traverse(links, child, linkIdx, col);
        return Walk(Link(href, r.node), r.idx, r.col);
    }
  }

  /** Walking a node moves the cursor by exactly the length of its text,
      whether the node is wrapped, is a text run, or is entered. */
  lemma {:induction false} AnnotateColumn(links: seq<Ref>, n: Node, idx: nat, col: int)
    requires idx <= |links|
    ensures Annotate(links, n, idx, col).col == col + |TextOf(n)|
    decreases n, 1
  {
    var j := Advance(links, idx, col);
    if !Fits(links, j, col, TextOf(n)) {
      match n
      case Text(_) =>
      case Element(_, cs) => AnnotateAllColumn(links, cs, j, col);
      case Link(_, c) => AnnotateColumn(links, c, j, col);
    }
  }

  lemma {:induction false} AnnotateAllColumn(links: seq<Ref>, cs: seq<Node>, idx: nat, col: int)
    requires idx <= |links|
    ensures AnnotateAll(links, cs, idx, col).col == col + |TextOfAll(cs)|
    decreases cs, 0
  {
    if cs != [] {
      var init := cs[..|cs| - 1];
      AnnotateAllColumn(links, init, idx, col);
      var r := AnnotateAll(links, init, idx, col);
      AnnotateColumn(links, cs[|cs| - 1], r.idx, r.col);
    }
  }

  /** Annotation never changes the visible text of a node. */
  lemma {:induction false} AnnotateText(links: seq<Ref>, n: Node, idx: nat, col: int)
    requires idx <= |links|
    ensures TextOf(Annotate(links, n, idx, col).node) == TextOf(n)
    decreases n, 1
  {
    var j := Advance(links, idx, col);
    if !Fits(links, j, col, TextOf(n)) {
      match n
      case Text(_) =>
      case Element(_, cs) => AnnotateAllText(links, cs, j, col);
      case Link(_, c) => AnnotateText(links, c, j, col);
    }
  }

  lemma {:induction false} AnnotateAllText(links: seq<Ref>, cs: seq<Node>, idx: nat, col: int)
    requires idx <= |links|
    ensures TextOfAll(AnnotateAll(links, cs, idx, col).nodes) == TextOfAll(cs)
    decreases cs, 0
  {
    if cs != [] {
      var init := cs[..|cs| - 1];
      AnnotateAllText(links, init, idx, col);
      var r := AnnotateAll(links, init, idx, col);
      AnnotateText(links, cs[|cs| - 1], r.idx, r.col);
      var out := AnnotateAll(links, cs, idx, col).nodes;
      assert out[..|out| - 1] == r.nodes;
    }
  }

  // ---------------------------------------------------------------------
  // Where links are put

  /** A tree with no link elements, as the highlighter produces it. */
  predicate LinkFree(n: Node)
    decreases n
  {
    match n
    case Text(_) => true
    case Element(_, cs) => LinkFreeAll(cs)
    case Link(_, _) => false
  }

  predicate LinkFreeAll(cs: seq<Node>)
    decreases cs
  {
    cs == [] || (LinkFreeAll(cs[..|cs| - 1]) && LinkFree(cs[|cs| - 1]))
  }

  /** A run of `len` characters at column `col` lies inside a reference whose
      URL is `href`. */
  ghost predicate Covered(links: seq<Ref>, href: string, col: int, len: nat) {
    exists k :: 0 <= k < |links| && links[k].url == href
      && links[k].span.start.col <= col && col + len <= links[k].span.end.col
  }

  /** Every link in `n` (which starts at column `col`) has a non-empty URL,
      wraps a run of text inside a reference with that URL, and wraps a
      subtree that holds no further link. */
  ghost predicate WellLinked(links: seq<Ref>, n: Node, col: int)
    decreases n
  {
    match n
    case Text(_) => true
    case Element(_, cs) => WellLinkedAll(links, cs, col)
    case Link(href, c) => href != "" && Covered(links, href, col, |TextOf(c)|) && LinkFree(c)
  }

  ghost predicate WellLinkedAll(links: seq<Ref>, cs: seq<Node>, col: int)
    decreases cs
  {
    cs == [] || (WellLinkedAll(links, cs[..|cs| - 1], col)
      && WellLinked(links, cs[|cs| - 1], col + |TextOfAll(cs[..|cs| - 1])|))
  }

  lemma {:induction false} LinkFreeWellLinked(links: seq<Ref>, n: Node, col: int)
    requires LinkFree(n)
    ensures WellLinked(links, n, col)
    decreases n, 1
  {
    if n.Element? {
      LinkFreeAllWellLinked(links, n.children, col);
    }
  }

  lemma {:induction false} LinkFreeAllWellLinked(links: seq<Ref>, cs: seq<Node>, col: int)
    requires LinkFreeAll(cs)
    ensures WellLinkedAll(links, cs, col)
    decreases cs, 0
  {
    if cs != [] {
      var init := cs[..|cs| - 1];
      LinkFreeAllWellLinked(links, init, col);
      LinkFreeWellLinked(links, cs[|cs| - 1], col + |TextOfAll(init)|);
    }
  }

  /** On a line without links, every link the walk adds has a truthy URL and
      covers text that lies inside the span of a reference with that URL;
      a wrapped node is not entered, so no link is nested in another. */
  lemma {:induction false} AnnotateWellLinked(links: seq<Ref>, n: Node, idx: nat, col: int)
    requires idx <= |links| && LinkFree(n)
    ensures WellLinked(links, Annotate(links, n, idx, col).node, col)
    decreases n, 1
  {
    var j := Advance(links, idx, col);
    if Fits(links, j, col, TextOf(n)) {
      if links[j].url != "" {
        assert Covered(links, links[j].url, col, |TextOf(n)|);
      } else {
        LinkFreeWellLinked(links, n, col);
      }
    } else {
      match n
      case Text(_) =>
      case Element(_, cs) => AnnotateAllWellLinked(links, cs, j, col);
    }
  }

  lemma {:induction false} AnnotateAllWellLinked(links: seq<Ref>, cs: seq<Node>, idx: nat, col: int)
    requires idx <= |links| && LinkFreeAll(cs)
    ensures WellLinkedAll(links, AnnotateAll(links, cs, idx, col).nodes, col)
    decreases cs, 0
  {
    if cs != [] {
      var init := cs[..|cs| - 1];
      AnnotateAllWellLinked(links, init, idx, col);
      var r := AnnotateAll(links, init, idx, col);
      AnnotateAllColumn(links, init, idx, col);
      AnnotateAllText(links, init, idx, col);
      AnnotateWellLinked(links, cs[|cs| - 1], r.idx, r.col);
      var x := Annotate(links, cs[|cs| - 1], r.idx, r.col);
      var out := AnnotateAll(links, cs, idx, col).nodes;
      assert out == r.nodes + [x.node];
      assert out[..|out| - 1] == r.nodes && out[|out| - 1] == x.node;
      assert r.col == col + |TextOfAll(out[..|out| - 1])|;
    }
  }

  // ---------------------------------------------------------------------
  // One code block

  /** The annotated form of line `i` of a block whose first line is
      `startLine`: cursor at column 1, index 0, references of that line. */
  function AnnotatedLine(refs: seq<Ref>, startLine: int, line: Node, i: nat): Node {
    Annotate(ApplicableLinks(refs, startLine + i, startLine + i), line, 0, 1).node
  }

  /** Annotating a line never changes its visible text. */
  lemma AnnotatedLineText(refs: seq<Ref>, startLine: int, line: Node, i: nat)
    ensures TextOf(AnnotatedLine(refs, startLine, line, i)) == TextOf(line)
  {
    AnnotateText(ApplicableLinks(refs, startLine + i, startLine + i), line, 0, 1);
  }

  /** One iteration of the loop over the lines of a block: line `idx` is
      walked from column 1 with the references of line `startLine + idx`. */
  method AnnotateLine(refs: seq<Ref>, startLine: int, line: Node, idx: nat) returns (n: Node)
    ensures n == AnnotatedLine(refs, startLine, line, idx)
  {
    var curLine := startLine + idx;
    var w := Traverse(ApplicableLinks(refs, curLine, curLine), line, 0, 1);
    n := w.node;
  }

  /** The loop over the lines of one code block. */
  method AnnotateLines(refs: seq<Ref>, startLine: int, lines: seq<Node>) returns (out: seq<Node>)
    ensures |out| == |lines|
    ensures forall i :: 0 <= i < |lines| ==> out[i] == AnnotatedLine(refs, startLine, lines[i], i)
  {
    out := [];
    for idx := 0 to |lines|
      invariant |out| == idx
      invariant forall i :: 0 <= i < idx ==> out[i] == AnnotatedLine(refs, startLine, lines[i], i)
    {
      var n := AnnotateLine(refs, startLine, lines[idx], idx);
      out := out + [n];
    }
  }

  // ---------------------------------------------------------------------
  // parse and the cache

  /** What `resolution_cache()` loaded: no file, a JSON value that is not an
      object, or an object mapping file names to their references. */
  datatype DiskCache = Missing | NotAnObject | Entries(entries: map<string, seq<Ref>>)

  /** The entry `parse` may take from the loaded cache; an empty object is
      falsy and offers nothing. */
  function CachedEntry(cache: DiskCache, filename: string): (r: Option<seq<Ref>>)
    ensures r.Some? <==> cache.Entries? && filename in cache.entries
    ensures r.Some? ==> r.value == cache.entries[filename]
  {
    match cache
    case Entries(entries) => if filename in entries then Some(entries[filename]) else None
    case _ => None
  }

  /** The cache as the merge starts from it: `resolution_cache() or {}`, and
      `{}` again when it is not an object. */
  function BaseCache(cache: DiskCache): (m: map<string, seq<Ref>>)
    ensures cache.Entries? ==> m == cache.entries
    ensures !cache.Entries? ==> m == map[]
  {
    if cache.Entries? then cache.entries else map[]
  }

  class LinkResolver {
    /** `chpl_file_cache`: the references found for each file so far. */
    var memo: map<string, seq<Ref>>
    /** The files analysed from source, in order. */
    ghost var built: seq<string>
    /** `--regenerate-links`. */
    const regenerate: bool
    /** The result of `resolution_cache()`. */
    const diskCache: DiskCache
    /** `ParsedFile(filename).references`: the Chapel analysis, not modelled. */
    const analyse: string -> seq<Ref>

    /** What `parse` answers for a file the first time it is asked. */
    function Fresh(filename: string): (r: Option<seq<Ref>>)
      reads this
      ensures regenerate ==> r == Some(analyse(filename))
      ensures !regenerate ==> r == CachedEntry(diskCache, filename)
    {
      if regenerate then Some(analyse(filename)) else CachedEntry(diskCache, filename)
    }

    /** Every memoised answer is the answer `parse` would compute afresh;
        every analysed file is memoised, and none was analysed twice. */
    ghost predicate Valid()
      reads this
    {
      && (forall f :: f in memo ==> Fresh(f) == Some(memo[f]))
      && (forall k :: 0 <= k < |built| ==> built[k] in memo)
      && (forall i, j :: 0 <= i < j < |built| ==> built[i] != built[j])
      && (!regenerate ==> built == [])
    }

    constructor (regenerate: bool, diskCache: DiskCache, analyse: string -> seq<Ref>)
      ensures Valid() && memo == map[]
      ensures this.regenerate == regenerate && this.diskCache == diskCache && this.analyse == analyse
    {
      this.regenerate := regenerate;
      this.diskCache := diskCache;
      this.analyse := analyse;
      memo := map[];
      built := [];
    }

    /** `parse(filename)`: the memoised answer if there is one; otherwise,
        without `--regenerate-links`, the entry of the loaded cache (a
        missing entry is answered with None and not memoised); with it, a
        fresh analysis, memoised. The memo never changes the answer. */
    method Parse(filename: string) returns (r: Option<seq<Ref>>)
      requires Valid()
      modifies this
      ensures Valid()
      ensures r == Fresh(filename)
      ensures filename in old(memo) ==> memo == old(memo) && built == old(built)
      ensures filename !in old(memo) ==> memo == (if r.Some? then old(memo)[filename := r.value] else old(memo))
      ensures filename !in old(memo) && regenerate ==> built == old(built) + [filename]
      ensures !regenerate ==> built == old(built)
    {
      if filename in memo {
        return Some(memo[filename]);
      }
      if !regenerate {
        var cached := diskCache;
        if cached.Entries? && cached.entries != map[] && filename in cached.entries {
          var res := cached.entries[filename];
          memo := memo[filename := res];
          return Some(res);
        }
        return None;
      }
      var res := analyse(filename);
      built := built + [filename];
      memo := memo[filename := res];
      r := Some(res);
    }

    /** The cache written back with `--regenerate-links`: every memoised file
        overwrites its own key, every other key of the loaded cache is kept,
        and a cache that was not an object starts empty. Without the flag
        nothing is written. */
    method MergedCache() returns (written: Option<map<string, seq<Ref>>>)
      ensures !regenerate ==> written == None
      ensures regenerate ==>
        && written.Some?
        && written.value.Keys == BaseCache(diskCache).Keys + memo.Keys
        && (forall f :: f in memo ==> written.value[f] == memo[f])
        && (forall f :: f in BaseCache(diskCache) && f !in memo ==> written.value[f] == BaseCache(diskCache)[f])
    {
      if !regenerate {
        return None;
      }
      var cache: map<string, seq<Ref>>;
      match diskCache {
        case Entries(entries) => cache := entries;
        case Missing => cache := map[];
        case NotAnObject => cache := map[];
      }
      var todo := memo.Keys;
      while todo != {}
        invariant todo <= memo.Keys
        invariant cache.Keys == BaseCache(diskCache).Keys + (memo.Keys - todo)
        invariant forall f :: f in memo && f !in todo ==> cache[f] == memo[f]
        invariant forall f :: f in BaseCache(diskCache) && f !in memo ==> cache[f] == BaseCache(diskCache)[f]
        invariant forall f :: f in todo && f in BaseCache(diskCache) ==> cache[f] == BaseCache(diskCache)[f]
        decreases todo
      {
        var path :| path in todo;
        cache := cache[path := memo[path]];
        todo := todo - {path};
      }
      written := Some(cache);
    }
  }

  /** One `div` with a `data-code-path`: blocks whose path does not end in
      `.chpl`, and files `parse` has nothing for, are left as they are. */
  method AnnotateBlock(resolver: LinkResolver, codePath: string, filename: string, startLine: int, lines: seq<Node>)
    returns (out: seq<Node>)
    requires resolver.Valid()
    modifies resolver
    ensures resolver.Valid()
    ensures !EndsWith(codePath, ".chpl") ==>
      out == lines && resolver.memo == old(resolver.memo) && resolver.built == old(resolver.built)
    ensures EndsWith(codePath, ".chpl") && filename in old(resolver.memo) ==>
      resolver.memo == old(resolver.memo) && resolver.built == old(resolver.built)
    ensures EndsWith(codePath, ".chpl") && filename !in old(resolver.memo) ==>
      resolver.memo == (if resolver.Fresh(filename).Some? then old(resolver.memo)[filename := resolver.Fresh(filename).value]
                        else old(resolver.memo))
    ensures EndsWith(codePath, ".chpl") && filename !in old(resolver.memo) && resolver.regenerate ==>
      resolver.built == old(resolver.built) + [filename]
    ensures EndsWith(codePath, ".chpl") && resolver.Fresh(filename).None? ==> out == lines
    ensures EndsWith(codePath, ".chpl") && resolver.Fresh(filename).Some? ==>
      |out| == |lines|
      && forall i :: 0 <= i < |lines| ==> out[i] == AnnotatedLine(resolver.Fresh(filename).value, startLine, lines[i], i)
  {
    if !EndsWith(codePath, ".chpl") {
      return lines;
    }
    var parsed := resolver.Parse(filename);
    if parsed.None? {
      return lines;
    }
    out := AnnotateLines(parsed.value, startLine, lines);
  }
}
