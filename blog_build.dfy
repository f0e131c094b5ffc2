/** The build decisions of the blog driver (scripts/chpl_blog.py): the
    arguments passed to Hugo for each command, whether the output chunks of
    the sample programs are produced at all, and how one program's output is
    cut into chunk files at its `__BREAK__` lines. */
module BlogBuild {
  import opened Prelude
  import opened Strings
  import VariantOptions

  // ---------------------------------------------------------------------
  // get_hugo_options

  /** The sub-command given on the command line, if any. */
  datatype Command = Serve | Build | Link | NoCommand

  /** The parsed command line: the sub-command and the `-D`, `-F` and `-f`
      switches. */
  datatype Args = Args(command: Command, buildDrafts: bool, buildFuture: bool, fast: bool)

  /** The switches forwarded to Hugo: none for `link`, which renders with
      its own configuration. */
  function HugoFlags(args: Args): seq<string> {
    if args.command == Link then []
    else (if args.buildDrafts then ["-D"] else []) + (if args.buildFuture then ["-F"] else [])
  }

  /** The configuration files, in the order Hugo merges them. */
  function Configs(args: Args): seq<string> {
    ["config.toml"]
    + (if args.command == Link then ["config-hpe-dev.toml", "config-fast.toml"]
       else if args.fast then ["config-fast.toml"] else [])
    + (if args.command == Serve then ["config-server.toml"] else [])
  }

  /** `get_hugo_options`: the switches, then one `--config=` argument
      listing the configuration files separated by commas. */
  method GetHugoOptions(args: Args) returns (hugoArgs: seq<string>)
    ensures hugoArgs == HugoFlags(args) + ["--config=" + Join(Configs(args), ',')]
  {
    hugoArgs := [];
    var configs := ["config.toml"];
    if args.command != Link {
      if args.buildDrafts {
        hugoArgs := hugoArgs + ["-D"];
      }
      if args.buildFuture {
        hugoArgs := hugoArgs + ["-F"];
      }
      if args.fast {
        configs := configs + ["config-fast.toml"];
      }
    } else {
      configs := configs + ["config-hpe-dev.toml"];
      configs := configs + ["config-fast.toml"];
    }
    if args.command == Serve {
      configs := configs + ["config-server.toml"];
    }
    assert hugoArgs == HugoFlags(args);
    assert configs == Configs(args);
    hugoArgs := hugoArgs + ["--config=" + Join(configs, ',')];
  }

  /** The last argument names the configuration files, `config.toml`
      first, and Hugo reads back exactly that list when it splits the value
      at its commas; every argument before it is `-D` or `-F`. */
  lemma HugoOptionsShape(args: Args)
    ensures var configs := Configs(args);
      && configs[0] == "config.toml"
      && Split(Join(configs, ','), ',') == configs
    ensures var h := HugoFlags(args) + ["--config=" + Join(Configs(args), ',')];
      && h[|h| - 1] == "--config=" + Join(Configs(args), ',')
      && forall k :: 0 <= k < |h| - 1 ==> h[k] == "-D" || h[k] == "-F"
  {
    var configs := Configs(args);
    forall i | 0 <= i < |configs| ensures ',' !in configs[i] {
      assert configs[i] in {"config.toml", "config-hpe-dev.toml", "config-fast.toml", "config-server.toml"};
    }
    SplitJoin(configs, ',');
  }

  /** `link` forwards no switch and always renders with the external
      Markdown configuration and the fast configuration. */
  lemma LinkOptions(args: Args)
    requires args.command == Link
    ensures HugoFlags(args) == []
    ensures Configs(args) == ["config.toml", "config-hpe-dev.toml", "config-fast.toml"]
  {
  }

  /** Any other command forwards `-D` exactly when drafts are asked for,
      `-F` exactly when future pages are, and uses the fast configuration
      exactly in fast mode. */
  lemma OtherCommandOptions(args: Args)
    requires args.command != Link
    ensures "-D" in HugoFlags(args) <==> args.buildDrafts
    ensures "-F" in HugoFlags(args) <==> args.buildFuture
    ensures "config-fast.toml" in Configs(args) <==> args.fast
    ensures "config-hpe-dev.toml" !in Configs(args)
  {
    var configs := Configs(args);
    if args.command == Serve {
      assert configs[|configs| - 1] == "config-server.toml";
    }
  }

  /** The server configuration is added last, and only for `serve`. */
  lemma ServerConfigLast(args: Args)
    ensures var configs := Configs(args);
      configs[|configs| - 1] == "config-server.toml" <==> args.command == Serve
    ensures "config-server.toml" in Configs(args) <==> args.command == Serve
  {
  }

  // ---------------------------------------------------------------------
  // process_file

  /** The condition of line 85: output chunks are produced only for a full
      render of a command other than `link`. */
  predicate GeneratesChunks(args: Args) {
    !args.fast && args.command != Link
  }

  /** Chunks are produced exactly when Hugo renders without the fast
      configuration, the one that skips rendering them. */
  lemma ChunksIffFullRender(args: Args)
    ensures GeneratesChunks(args) <==> "config-fast.toml" !in Configs(args)
  {
    var configs := Configs(args);
    if args.command == Link {
      assert configs[2] == "config-fast.toml";
    } else if args.fast {
      assert configs[1] == "config-fast.toml";
    } else {
      assert configs == ["config.toml"] || configs == ["config.toml", "config-server.toml"];
    }
  }

  // ---------------------------------------------------------------------
  // re.split('^__BREAK__$', text, flags=re.MULTILINE)

  const Break: string := "__BREAK__"

  /** A whole line of `text` at position `p` is `__BREAK__`: it starts the
      text or follows a newline, and it ends the text or is followed by
      one. */
  predicate IsBreakAt(text: string, p: nat) {
    && OccursAt(text, Break, p)
    && (p == 0 || text[p - 1] == '\n')
    && (p + |Break| == |text| || text[p + |Break|] == '\n')
  }

  /** The leftmost break line at or after `from`. */
  function FindBreak(text: string, from: nat): (r: Option<nat>)
    requires from <= |text|
    ensures r.Some? ==> from <= r.value && IsBreakAt(text, r.value)
    ensures r.Some? ==> forall q :: from <= q < r.value ==> !IsBreakAt(text, q)
    ensures r.None? ==> forall q :: from <= q ==> !IsBreakAt(text, q)
    decreases |text| - from
  {
    if from + |Break| > |text| then None
    else if IsBreakAt(text, from) then Some(from)
    else FindBreak(text, from + 1)
  }

  /** The pieces of `text[from..]` between the break lines, searched from
      left to right. */
  function SplitBreaksFrom(text: string, from: nat): (chunks: seq<string>)
    requires from <= |text|
    ensures 1 <= |chunks|
    decreases |text| - from
  {
    match FindBreak(text, from)
    case None => [text[from..]]
    case Some(p) => [text[from..p]] + SplitBreaksFrom(text, p + |Break|)
  }

  function SplitBreaks(text: string): seq<string> {
    SplitBreaksFrom(text, 0)
  }

  /** `sep.join(parts)` for a separator of any length. */
  function JoinOn(parts: seq<string>, sep: string): string {
    if |parts| == 0 then ""
    else if |parts| == 1 then parts[0]
    else parts[0] + sep + JoinOn(parts[1..], sep)
  }

  /** Putting the break lines back between the chunks gives the text. */
  lemma {:induction false} SplitBreaksFromJoin(text: string, from: nat)
    requires from <= |text|
    ensures JoinOn(SplitBreaksFrom(text, from), Break) == text[from..]
    decreases |text| - from
  {
    match FindBreak(text, from)
    case None =>
    case Some(p) =>
      var rest := SplitBreaksFrom(text, p + |Break|);
      SplitBreaksFromJoin(text, p + |Break|);
      var chunks := [text[from..p]] + rest;
      assert chunks[1..] == rest;
      assert text[from..] == text[from..p] + Break + text[p + |Break|..];
  }

  lemma SplitBreaksJoin(text: string)
    ensures JoinOn(SplitBreaks(text), Break) == text
  {
    SplitBreaksFromJoin(text, 0);
  }

  /** A chunk that follows a break line: empty, or starting with the
      newline that ended the line. */
  predicate AfterBreak(chunk: string) {
    chunk == "" || chunk[0] == '\n'
  }

  /** A chunk that precedes a break line: empty, or ending with the newline
      before the line. */
  predicate BeforeBreak(chunk: string) {
    chunk == "" || chunk[|chunk| - 1] == '\n'
  }

  /** The first chunk from a position where a break line ended is empty or
      starts with the newline that ended it. */
  lemma FirstChunkAfterBreak(text: string, q: nat)
    requires q <= |text| && (q == |text| || text[q] == '\n')
    ensures AfterBreak(SplitBreaksFrom(text, q)[0])
  {
    match FindBreak(text, q)
    case None =>
    case Some(r) =>
      if r > q {
        assert SplitBreaksFrom(text, q)[0] == text[q..r];
      }
  }

  /** Every chunk after the first begins right after a break line, so it is
      empty or starts with the newline that ended that line. */
  lemma {:induction false} ChunksAfterBreaks(text: string, from: nat)
    requires from <= |text|
    ensures forall i :: 0 < i < |SplitBreaksFrom(text, from)| ==> AfterBreak(SplitBreaksFrom(text, from)[i])
    decreases |text| - from
  {
    match FindBreak(text, from)
    case None =>
    case Some(p) =>
      var q := p + |Break|;
      var rest := SplitBreaksFrom(text, q);
      ChunksAfterBreaks(text, q);
      FirstChunkAfterBreak(text, q);
      var chunks := [text[from..p]] + rest;
      assert SplitBreaksFrom(text, from) == chunks;
      forall i | 0 < i < |chunks| ensures AfterBreak(chunks[i]) {
        assert chunks[i] == rest[i - 1];
      }
  }

  /** Every chunk before the last ends right before a break line, so it is
      empty or ends with the newline that preceded that line. */
  lemma {:induction false} ChunksBeforeBreaks(text: string, from: nat)
    requires from <= |text|
    ensures forall i :: 0 <= i < |SplitBreaksFrom(text, from)| - 1 ==> BeforeBreak(SplitBreaksFrom(text, from)[i])
    decreases |text| - from
  {
    match FindBreak(text, from)
    case None =>
    case Some(p) =>
      var q := p + |Break|;
      var rest := SplitBreaksFrom(text, q);
      ChunksBeforeBreaks(text, q);
      var chunks := [text[from..p]] + rest;
      assert SplitBreaksFrom(text, from) == chunks;
      if p > from {
        assert chunks[0][|chunks[0]| - 1] == text[p - 1];
      }
      forall i | 0 < i < |chunks| - 1 ensures BeforeBreak(chunks[i]) {
        assert chunks[i] == rest[i - 1];
      }
  }

  /** Text without a break line is one chunk. */
  lemma NoBreakOneChunk(text: string)
    requires forall p :: !IsBreakAt(text, p)
    ensures SplitBreaks(text) == [text]
  {
    assert FindBreak(text, 0).None?;
  }

  // ---------------------------------------------------------------------
  // generate_chunks_for_option

  /** The suffix of a variant as it appears in file names: empty for the
      single variant, a dot and the suffix otherwise. */
  function DotSuffix(suffix: string): (r: string)
    ensures suffix == "" <==> r == ""
    ensures r != "" ==> r[0] == '.' && r[1..] == suffix
  {
    if suffix != "" then "." + suffix else suffix
  }

  /** The expected-output file of a variant, next to the program. */
  function GoodFile(dir: string, baseName: string, suffix: string): string {
    dir + "/" + baseName + DotSuffix(suffix) + ".good"
  }

  /** The program's output: the `.good.sample` file when there is one, then
      the `.good` file, and only failing both the output of compiling and
      running the program. */
  function OutputText(files: map<string, string>, good: string, runOutput: string): string {
    if good + ".sample" in files then files[good + ".sample"]
    else if good in files then files[good]
    else runOutput
  }

  /** Where chunk `i` is written. */
  function ChunkPath(outDir: string, dotSuffix: string, i: nat): string {
    outDir + "/output" + dotSuffix + "." + NatToString(i)
  }

  /** What chunk `i` holds: every chunk after the first loses its first
      character, the newline that followed the break line. */
  function ChunkText(chunk: string, i: nat): string {
    if i > 0 && chunk != "" then chunk[1..] else chunk
  }

  /** The chunk files, as `(path, contents)` pairs in the order they are
      written. */
  function ChunkFiles(outDir: string, dotSuffix: string, text: string): (r: seq<(string, string)>)
    ensures |r| == |SplitBreaks(text)|
  {
    var chunks := SplitBreaks(text);
    seq(|chunks|, i requires 0 <= i < |chunks| => (ChunkPath(outDir, dotSuffix, i), ChunkText(chunks[i], i)))
  }

  /** `generate_chunks_for_option` for the program `dir + "/" + fileName`
      whose text is `source`. `files` holds the files that exist and their
      contents, and `run` gives what the program prints when compiled with
      the first options and run with the second. `ran` tells whether the
      program was compiled and run, and `written` lists the chunk files
      written. */
  method GenerateChunksForOption(dir: string, fileName: string, source: string, outDir: string,
                                 files: map<string, string>, run: (string, string) -> string,
                                 option: VariantOptions.Variant)
    returns (ran: bool, written: seq<(string, string)>)
    ensures !Contains(source, Break) ==> !ran && written == []
    ensures Contains(source, Break) ==>
      var good := GoodFile(dir, RemoveSuffix(fileName, ".chpl"), option.suffix);
      && (ran <==> good + ".sample" !in files && good !in files)
      && written == ChunkFiles(outDir, DotSuffix(option.suffix), OutputText(files, good, run(option.compopt, option.execopt)))
  {
    var suffix := option.suffix;
    if suffix != "" {
      suffix := "." + suffix;
    }
    ran, written := false, [];
    var needsOutput := Contains(source, Break);
    if !needsOutput {
      return;
    }
    var baseName := RemoveSuffix(fileName, ".chpl");
    var goodFile := dir + "/" + baseName + suffix + ".good";
    var sampleFile := goodFile + ".sample";
    var text: string;
    if sampleFile in files {
      text := files[sampleFile];
    } else if goodFile in files {
      text := files[goodFile];
    } else {
      ran := true;
      text := run(option.compopt, option.execopt);
    }
    var chunks := SplitBreaks(text);
    for i := 0 to |chunks|
      invariant |written| == i
      invariant forall k :: 0 <= k < i ==> written[k] == (ChunkPath(outDir, suffix, k), ChunkText(chunks[k], k))
    {
      var chunk := chunks[i];
      var chunkPath := outDir + "/output" + suffix + "." + NatToString(i);
      if i > 0 && chunk != "" {
        chunk := chunk[1..];
      }
      written := written + [(chunkPath, chunk)];
    }
  }

  /** Two chunks of one variant never share a file. */
  lemma ChunkPathsDistinct(outDir: string, dotSuffix: string, i: nat, j: nat)
    requires i != j
    ensures ChunkPath(outDir, dotSuffix, i) != ChunkPath(outDir, dotSuffix, j)
  {
    var prefix := outDir + "/output" + dotSuffix + ".";
    if ChunkPath(outDir, dotSuffix, i) == ChunkPath(outDir, dotSuffix, j) {
      var a, b := NatToString(i), NatToString(j);
      assert prefix + a == prefix + b;
      assert a == (prefix + a)[|prefix|..] == (prefix + b)[|prefix|..] == b;
      NatToStringInjective(i, j);
    }
  }

  /** The chunk files hold the program's output: the first chunk as it is,
      every later one with at most its leading newline removed, and joining
      the original chunks with the break line gives the output back. An
      empty later file may stand for an empty chunk or for a lone newline
      (`ChunkFilesAmbiguous`). */
  lemma ChunkFilesRecover(outDir: string, dotSuffix: string, text: string)
    ensures var chunks := SplitBreaks(text);
      var files := ChunkFiles(outDir, dotSuffix, text);
      && JoinOn(chunks, Break) == text
      && files[0].1 == chunks[0]
      && forall i :: 0 < i < |chunks| ==> (chunks[i] == "" && files[i].1 == "") || chunks[i] == "\n" + files[i].1
  {
    var chunks := SplitBreaks(text);
    SplitBreaksJoin(text);
    ChunksAfterBreaks(text, 0);
    var files := ChunkFiles(outDir, dotSuffix, text);
    forall i | 0 < i < |chunks| ensures (chunks[i] == "" && files[i].1 == "") || chunks[i] == "\n" + files[i].1 {
      assert files[i].1 == ChunkText(chunks[i], i);
      if chunks[i] != "" {
        assert AfterBreak(chunks[i]);
        assert chunks[i] == [chunks[i][0]] + chunks[i][1..];
      }
    }
  }

  /** Removing the leading newline loses it when it is all the chunk holds:
      output ending in a break line, with or without a final newline,
      writes the same files. */
  lemma ChunkFilesAmbiguous()
    ensures ChunkFiles("d", "", "__BREAK__") == ChunkFiles("d", "", "__BREAK__\n")
  {
    var bare, ended := "__BREAK__", "__BREAK__\n";
    assert IsBreakAt(bare, 0) && IsBreakAt(ended, 0);
    assert bare[9..] == "" && ended[9..] == "\n";
    assert SplitBreaks(bare) == [""] + SplitBreaksFrom(bare, 9) == ["", ""];
    assert SplitBreaks(ended) == [""] + SplitBreaksFrom(ended, 9) == ["", "\n"];
    assert ChunkText("\n", 1) == "";
    var a, b := ChunkFiles("d", "", bare), ChunkFiles("d", "", ended);
    assert |a| == |b| == 2;
    assert a[0] == b[0] && a[1] == b[1];
  }
}
