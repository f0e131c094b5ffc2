# chapel-blog build scripts, modelled in Dafny

This project models the Python scripts that turn the Chapel blog's literate
Chapel programs into Hugo pages, and proves properties about the model:

- `chpl2md.py`:
  - `extract_line_anchor(s)` cuts `// hugo-tag="…"` markers out of code lines.
  - `gen_md` writes the Markdown page. It has a first pass that numbers code lines and emits anchor directives, then a second pass that renders front matter, prose, fenced code blocks and console-output menus (`print_good`).
  - `gen_code` writes the companion `.chpl` file.
- `common.py`: `read_options_file` and `compute_options` build the list of (suffix, compile options, execution options) variants from a program's `.compopts` and `.execopts` files.
- `insert_links.py`:
  - `applicable_links` selects references by binary search.
  - `rewrite_module_name` renames some modules.
  - The reference conversion keeps the references that have a documentation link and sorts them by span.
  - `parse` memoises per file, backed by an on-disk cache.
  - `check_position`/`traverse` walk one highlighted line and wrap the pieces of text that fit inside a link.
  - The cache merge at the end writes the cache back.
- `markdown_driver.py`: the line loop that collects the snippets of fenced blocks carrying a `file_name=` attribute into per-file contents.
- `chpl_blog.py`:
  - `get_hugo_options` builds Hugo's command line.
  - The gate decides whether output chunks are generated.
  - `generate_chunks_for_option` splits a program's output at `__BREAK__` lines into numbered chunk files.

Modules:

| file | module | models |
|---|---|---|
| `prelude.dfy` | `Prelude` | `Option`, `Result` |
| `strings.dfy` | `Strings` | `str(n)`, `str.split`/`str.join` on one character, `startswith`/`endswith`, `removeprefix`/`removesuffix`, `in` on strings |
| `variant_options.dfy` | `VariantOptions` | `common.py` |
| `line_anchors.dfy` | `LineAnchors` | `extract_line_anchor`, `extract_line_anchors` |
| `chpl2md.dfy` | `Chpl2Md` | `print_good`, `gen_md`, `gen_code` |
| `link_table.dfy` | `LinkTable` | `applicable_links`, `rewrite_module_name`, the conversion and sort of references |
| `link_annotator.dfy` | `LinkAnnotator` | `parse` with its memo and cache, `check_position`, `traverse`, the block and line loops, the cache merge |
| `embedded_files.dfy` | `EmbeddedFiles` | `markdown_driver.py` |
| `blog_build.dfy` | `BlogBuild` | `get_hugo_options`, the chunk gate, `generate_chunks_for_option` |

How the code is modelled:

- The loops become `method`s with invariants, each proved against a specification function:
  - `ExtractLineAnchors`, `PrintGood`, `MarkAnchors`, `GenMd`, `GenCode`
  - `ConvertReferences`, `CheckPosition`, `Traverse`, `AnnotateLines`
  - `ExtractFiles`, `ReadFileName`, `GetHugoOptions`, `GenerateChunksForOption`
- `gen_md` overwrites the contents of each code piece in place. Its model takes the pieces in an `array` and strips them in place.
- `parse`'s memo is a `class` whose `memo` map its `Parse` method updates.
- The regular expressions are written out as functions over characters. Ghost predicates state what the pattern matches, and lemmas prove that the functions find the leftmost match, and the longest where the pattern is greedy.

## Model

| member | source | states |
|---|---|---|
| VariantOptions.FileLines | scripts/common.py:12-13 | iterating over a file gives the empty list exactly for empty text, and the lines, each with its newline, concatenate back to the text |
| VariantOptions.StripAll | scripts/common.py:13 | stripping newlines from every line keeps the number of lines |
| VariantOptions.ReadOptionsFile | scripts/common.py:3-13 | an unreadable file gives `['']`; an executable one gives at least one option, and the options joined by newlines are its output without one trailing newline; a plain file gives one option per line; no option holds a newline |
| VariantOptions.StripWithoutNewline | scripts/common.py:13 | `strip("\n")` leaves a line without newlines unchanged |
| VariantOptions.StripOneNewline | scripts/common.py:13 | `strip("\n")` removes the line terminator of a line |
| VariantOptions.PlainOptionsAreLines | scripts/common.py:12-13 | a plain options file yields exactly the text, less one trailing newline, split at newlines (nothing for empty text) |
| VariantOptions.FirstLine | scripts/common.py:12-13 | the first option of a plain file is its first line, and the rest come from the text after it |
| VariantOptions.RemoveSuffixInTail | scripts/common.py:9 | dropping a trailing newline only touches the last line of the output |
| VariantOptions.OptionsFileName | scripts/common.py:16-18 | the options file is the program name with `.chpl` removed (when present) and the extension added |
| VariantOptions.SuffixInjective | scripts/common.py:23 | the suffix `i-j` determines `i` and `j` |
| VariantOptions.ComputeOptions | scripts/common.py:15-25 | one compile and one execution option give the single variant with an empty suffix; otherwise there is one variant per pair |
| VariantOptions.VariantsOf | scripts/common.py:15-21 | a program with neither options file has exactly one variant, `('', '', '')` |
| VariantOptions.RowAt | scripts/common.py:23-25 | row `i` of the product pairs the `i`-th compile option with every execution option in order, with suffix `i-j` |
| VariantOptions.ProductLength | scripts/common.py:23-25 | the product has `len(compopts) * len(execopts)` variants |
| VariantOptions.ProductAt | scripts/common.py:23-25 | the variant at row `a`, column `b` is compile option `a` with execution option `b` |
| VariantOptions.ProductSuffixAt | scripts/common.py:23-25 | every variant of the product carries the suffix of its row and column |
| VariantOptions.ProductSuffixesDiffer | scripts/common.py:23-25 | two different positions of the product carry different suffixes |
| VariantOptions.ProductSuffixesDistinct | scripts/common.py:23-25 | in the product case every suffix is non-empty and no two variants share a suffix, so chunk and `.good` names never collide |
| VariantOptions.VariantAt | scripts/common.py:23-25 | the variant at index `(i-1)*len(execopts) + (j-1)` is `(str(i)+'-'+str(j), compopts[i-1], execopts[j-1])` |
| VariantOptions.ReadTwoLines | scripts/common.py:12-13 | the plain file `-a\n-b\n` gives the options `-a`, `-b` |
| VariantOptions.SmallSuffix | scripts/common.py:23 | the suffixes of the first two rows of the first column are `1-1` and `2-1` |
| VariantOptions.TwoByOne | scripts/common.py:23-25 | two compile options and one execution option give the variants `1-1` and `2-1` |
| VariantOptions.TwoCompileOptions | scripts/common.py:15-25 | a program whose `.compopts` lists `-a` and `-b` and which has no `.execopts` gets the variants `('1-1', '-a', '')` and `('2-1', '-b', '')` |
| LineAnchors.SkipSpaces | scripts/chpl2md.py:92 | `\s*` consumes the longest run of white space |
| LineAnchors.LineEnd | scripts/chpl2md.py:92 | `.` stops at the first newline |
| LineAnchors.LastQuote | scripts/chpl2md.py:92 | the backtracking of greedy `(.+)"` settles on the last quote before the line end |
| LineAnchors.MarkerAt | scripts/chpl2md.py:92 | a match at `p` begins at `p`, and its tag is non-empty and ends before the end of the string |
| LineAnchors.MatchAtSkippedBlanks | scripts/chpl2md.py:92 | in every match the key follows the longest run of blanks after `//`, and the tag stays on one line |
| LineAnchors.MarkerAtSpec | scripts/chpl2md.py:92 | `MarkerAt` finds a match at `p` exactly when the pattern matches there, and then the one with the longest tag |
| LineAnchors.FindMarker | scripts/chpl2md.py:92 | the match found starts at or after the search position, with a non-empty tag |
| LineAnchors.FindMarkerSpec | scripts/chpl2md.py:92 | `re.search` returns the leftmost match, or none when no position matches |
| LineAnchors.ExtractLineAnchor | scripts/chpl2md.py:91-98 | when a tag is found it is non-empty and shorter than the line, and the stripped line is shorter than the line |
| LineAnchors.ExtractLineAnchorNone | scripts/chpl2md.py:93-98 | `None` exactly when the pattern matches nowhere in the line |
| LineAnchors.ExtractLineAnchorMatch | scripts/chpl2md.py:92-96 | the result cuts out the leftmost match with its longest tag, and the tag is group 1 |
| LineAnchors.TagWithoutNewline | scripts/chpl2md.py:92 | a tag never contains a newline |
| LineAnchors.ExtractLineAnchorSpec | scripts/chpl2md.py:91-98 | no result iff no match; otherwise the stripped line is the text before the leftmost match followed by the text after it, and the tag is its longest group 1, without newline |
| LineAnchors.StrippedLines | scripts/chpl2md.py:100-111 | stripping keeps the number of lines |
| LineAnchors.TagOf | scripts/chpl2md.py:104-106 | a line has a tag exactly when `extract_line_anchor` finds one, and it is that tag |
| LineAnchors.TagsOf | scripts/chpl2md.py:103-104 | one tag entry per line |
| LineAnchors.ExtendLines | scripts/chpl2md.py:103-110 | handling one more line appends its stripped line, and its anchor if it has one |
| LineAnchors.ExtractLineAnchors | scripts/chpl2md.py:100-111 | the loop returns the stripped lines and the anchors of the tagged lines, numbered from `line_no` |
| LineAnchors.AnchorsSound | scripts/chpl2md.py:105-107 | every anchor comes from a tagged line, numbered `line_no` plus its index, and carries that line's tag |
| LineAnchors.AnchorsComplete | scripts/chpl2md.py:105-107 | every tagged line contributes its anchor |
| LineAnchors.AnchorsOrdered | scripts/chpl2md.py:103-107 | anchors come in strictly increasing line order, at most one per line |
| LineAnchors.AnchorsOfSpec | scripts/chpl2md.py:100-111 | the anchors of a code piece are exactly its tagged lines, numbered from `line_no`, in increasing order |
| LineAnchors.NoQuoteAfterMatch | scripts/chpl2md.py:92 | after a greedy match on a line without newline no quote is left |
| LineAnchors.MatchInPrefix | scripts/chpl2md.py:92 | a match in the stripped line can only lie in the text before the cut |
| LineAnchors.StripIdempotent | scripts/chpl2md.py:91-98 | a stripped line without newline has no marker left |
| LineAnchors.StrippedLineIdempotent | scripts/chpl2md.py:126-129 | stripping a line without newline twice is stripping it once |
| Chpl2Md.PrintGood | scripts/chpl2md.py:69-89 | the lines appended to `output` are exactly the console block for the variants and chunk |
| Chpl2Md.OptionEntriesAt | scripts/chpl2md.py:80-87 | the menu has three lines per variant, the entry of variant `k` at `3k..3k+3` |
| Chpl2Md.ConsoleBlockSingle | scripts/chpl2md.py:72-89 | one variant gives a blank line, the output opener, `console_single suffix=""` with the chunk, and the closer |
| Chpl2Md.TripleInBlock | scripts/chpl2md.py:79-88 | a menu entry is found at its offset inside the whole block |
| Chpl2Md.ConsoleBlockFrame | scripts/chpl2md.py:72-89 | with zero or several variants the block is a blank line, the output and menu openers, the entries, and the two closers |
| Chpl2Md.ConsoleBlockMulti | scripts/chpl2md.py:72-89 | with zero or several variants the block has `3n+5` lines: the openers, then per variant an option line with suffix `.suffix` and label `compopt execopt`, a dummy and a closer, then the two closers |
| Chpl2Md.LineBase | scripts/chpl2md.py:120-137 | code lines are numbered from 1 |
| Chpl2Md.StripPieces | scripts/chpl2md.py:122-129 | stripping keeps the number of pieces |
| Chpl2Md.LineBaseStrip | scripts/chpl2md.py:137-162 | the numbering of the second pass over stripped pieces equals the numbering of the first pass |
| Chpl2Md.Directives | scripts/chpl2md.py:134-135 | one directive per anchor |
| Chpl2Md.CodeSection | scripts/chpl2md.py:149-152 | the section is `middle` iff the piece is neither the first nor the last code piece, `only` iff it is both |
| Chpl2Md.SectionAlwaysMiddle | scripts/chpl2md.py:118-152 | with first and last indices never assigned, every code block is in the `middle` section |
| Chpl2Md.FencePathAttrs | scripts/chpl2md.py:154-157 | a fence ends with the `data-code-path` and `data-start-line` attributes exactly when a code path is given |
| Chpl2Md.FenceAssembled | scripts/chpl2md.py:154-157 | the fence built from the attribute string is the modelled fence |
| Chpl2Md.StripStep | scripts/chpl2md.py:126-129 | overwriting the contents of code piece `i` with its stripped lines extends the stripped prefix by one piece |
| Chpl2Md.StripSkip | scripts/chpl2md.py:123-124 | a piece that is not code is left as it is |
| Chpl2Md.MarkAnchors | scripts/chpl2md.py:122-137 | the first pass strips every code piece in place and emits one directive per anchor of all pieces, in order |
| Chpl2Md.RenderStep | scripts/chpl2md.py:141-162 | one more piece appends its body lines and a blank line, its front-matter lines, and advances the line number by the code lines plus one |
| Chpl2Md.CodeFence | scripts/chpl2md.py:149-157 | the fence line of the loop is `Fence(line_number, code_path)` |
| Chpl2Md.RenderAdvance | scripts/chpl2md.py:141-162 | the loop's variables after piece `i` are the rendering of the first `i+1` pieces |
| Chpl2Md.RenderPiece | scripts/chpl2md.py:142-162 | one iteration of the second pass appends the piece's body and front matter and advances the line number |
| Chpl2Md.RenderPieces | scripts/chpl2md.py:140-165 | the second pass returns `---`, the joined front matter, `---`, then the directives and every piece's body |
| Chpl2Md.GenMd | scripts/chpl2md.py:113-165 | `gen_md` leaves every code piece stripped and returns the rendering of the original pieces |
| Chpl2Md.GenCode | scripts/chpl2md.py:167-183 | `gen_code` returns the stripped lines of every code piece, each block followed by an empty line, joined by newlines |
| Chpl2Md.CodeLinesBlocks | scripts/chpl2md.py:171-180 | the companion lines are the code blocks in order, each followed by an empty line |
| Chpl2Md.CodeBlockStep | scripts/chpl2md.py:178-183 | a code piece adds its lines and one empty line to the companion lines |
| Chpl2Md.TerminatedIsJoin | scripts/chpl2md.py:183 | ending each line with a newline is joining the lines plus one empty line with newlines |
| Chpl2Md.CodeTextIsJoin | scripts/chpl2md.py:183 | the nested join equals one join of all block lines |
| Chpl2Md.CodeLinesLength | scripts/chpl2md.py:137-183 | the pieces before piece `n` fill the first `LineBase(n) - 1` lines of the companion source |
| Chpl2Md.CodeLinesPrefix | scripts/chpl2md.py:171-183 | later pieces do not change earlier companion lines |
| Chpl2Md.CodeLineAt | scripts/chpl2md.py:126-183 | line `LineBase(j) + i` of the companion source is line `i` of code piece `j` |
| Chpl2Md.StrippedNoNewline | scripts/chpl2md.py:95-96 | stripping a line without newline introduces none |
| Chpl2Md.StripKeepsNoNewlines | scripts/chpl2md.py:179 | stripped pieces still have no newlines in their lines |
| Chpl2Md.CodeLinesNoNewline | scripts/chpl2md.py:171-183 | no companion line holds a newline |
| Chpl2Md.AllAnchorsFrom | scripts/chpl2md.py:122-135 | every emitted anchor comes from one code piece, numbered from that piece's base |
| Chpl2Md.CodeTextLine | scripts/chpl2md.py:167-183 | line `LineBase(j) + i` of the written companion text is line `i` of code piece `j` with its marker cut out |
| Chpl2Md.AnchorRoundTrip | scripts/chpl2md.py:122-183 | every anchor directive of the page names a line of the companion source, and that line is a line that carried the anchor's tag, marker cut out |
| Chpl2Md.AnchorIndex | scripts/chpl2md.py:107 | an anchor's line is its piece's base plus the index of the tagged line |
| Chpl2Md.CodeLineShown | scripts/chpl2md.py:154-159 | a code block is shown as a fence numbered from the same base as its anchors, then line `i` at offset `i + 1` stripped |
| Chpl2Md.CodeBlockShown | scripts/chpl2md.py:126-159 | an anchor at line `n` labels the displayed line at offset `n - linenostart` of its block, and that line is the tagged one |
| Chpl2Md.HelloPage | scripts/chpl2md.py:140-162 | a prose piece and a one-line code piece render as the prose, a blank line, the fence from line 1, the code, the closing fence and a blank line |
| LinkTable.SpanLessTransitive | scripts/insert_links.py:242 | the order of spans used by the sort is transitive |
| LinkTable.SpanLessTotal | scripts/insert_links.py:242 | two spans neither of which is smaller are equal |
| LinkTable.BisectRight | scripts/insert_links.py:18 | `bisect_right` returns an index within the searched range |
| LinkTable.BisectLeft | scripts/insert_links.py:21 | `bisect_left` returns an index within the searched range |
| LinkTable.KeysByStartLine | scripts/insert_links.py:17-21 | for spans with columns from 1, comparing with the start key and the end key is comparing the start line with the given line |
| LinkTable.SortedLines | scripts/insert_links.py:242 | sorted references have non-decreasing start lines |
| LinkTable.BisectRightSpec | scripts/insert_links.py:17-18 | the references before the start index start before `start_line`, the rest at or after it |
| LinkTable.BisectLeftSpec | scripts/insert_links.py:20-21 | the references before the end index start at or before `end_line`, the rest after it |
| LinkTable.ApplicableLinksSpec | scripts/insert_links.py:15-24 | on references sorted by span whose columns count from 1 (as Chapel positions do), the result is a contiguous slice holding exactly the references whose start line lies in `[start_line, end_line]` |
| LinkTable.RewriteModuleName | scripts/insert_links.py:42-46 | `ChapelIO` becomes `IO`, `AutoMath` becomes `Math` and `ChapelSysCTypes` becomes `CTypes`; every other name is unchanged, and the result is never one of the three |
| LinkTable.WithLinksSpec | scripts/insert_links.py:233-241 | the conversion keeps at most as many references, and a reference is kept iff some found reference has a link, the same span and that link |
| LinkTable.WithLinksInOrder | scripts/insert_links.py:233-241 | the conversion is `found` filtered in order: entry `i` comes from the `i`-th position with a link, the kept positions increase, and they are exactly the positions with a link |
| LinkTable.Insert | scripts/insert_links.py:242 | inserting adds exactly one element |
| LinkTable.SortBySpan | scripts/insert_links.py:242 | sorting is a permutation |
| LinkTable.InsertSorted | scripts/insert_links.py:242 | inserting into a sorted list keeps it sorted |
| LinkTable.SortBySpanSorted | scripts/insert_links.py:242 | the sorted references are in span order |
| LinkTable.WithSpanFront | scripts/insert_links.py:242 | the references with a given span, taken from a list, start with its head if that has the span |
| LinkTable.WithSpanNone | scripts/insert_links.py:242 | a list without the span has no references with it |
| LinkTable.SortedTail | scripts/insert_links.py:242 | the tail of a sorted list is sorted |
| LinkTable.BelowFirstAbsent | scripts/insert_links.py:242 | a span below the first of a sorted list does not occur in it |
| LinkTable.InsertFirstStable | scripts/insert_links.py:242 | inserting at the front puts the new element after the (absent) equal ones |
| LinkTable.InsertStable | scripts/insert_links.py:242 | inserting puts the new element after every element with the same span |
| LinkTable.SortBySpanStable | scripts/insert_links.py:242 | the sort is stable: references with equal spans keep their relative order |
| LinkTable.ConvertReferences | scripts/insert_links.py:231-242 | the loop and the sort give the stable sort of the references that have a link |
| LinkAnnotator.Advance | scripts/insert_links.py:308-310 | the cursor skips exactly the links that end before the column |
| LinkAnnotator.CheckPosition | scripts/insert_links.py:306-319 | the new link index is `Advance`, and the text fits iff a link remains, it starts at or before the column and the text ends within it |
| LinkAnnotator.Annotate | scripts/insert_links.py:321-343 | the walk never moves the link index backwards or past the end |
| LinkAnnotator.AnnotateAll | scripts/insert_links.py:342-343 | walking the children keeps one node per child |
| LinkAnnotator.Traverse | scripts/insert_links.py:321-347 | the recursive walk gives the annotated tree, cursor and link index of `Annotate` |
| LinkAnnotator.AnnotateColumn | scripts/insert_links.py:332-343 | a walk advances the column by the length of the node's text |
| LinkAnnotator.AnnotateAllColumn | scripts/insert_links.py:342-343 | walking the children advances the column by the length of their text |
| LinkAnnotator.AnnotateText | scripts/insert_links.py:329-330 | wrapping in links never changes the visible text of a node |
| LinkAnnotator.AnnotateAllText | scripts/insert_links.py:342-343 | nor that of a list of children |
| LinkAnnotator.LinkFreeWellLinked | scripts/insert_links.py:321-343 | a tree without links has no badly placed links |
| LinkAnnotator.LinkFreeAllWellLinked | scripts/insert_links.py:342-343 | likewise for a list of children |
| LinkAnnotator.AnnotateWellLinked | scripts/insert_links.py:326-333 | on a line without links, every link the walk inserts wraps text lying within a reference with that link |
| LinkAnnotator.AnnotateAllWellLinked | scripts/insert_links.py:342-343 | likewise for the children of a node |
| LinkAnnotator.AnnotatedLineText | scripts/insert_links.py:300-347 | annotating a line of a block never changes its visible text |
| LinkAnnotator.AnnotateLine | scripts/insert_links.py:300-347 | one iteration walks line `idx` with the links applicable to `start_line + idx`, link index 0, from column 1 |
| LinkAnnotator.AnnotateLines | scripts/insert_links.py:300-347 | one annotated line per line, line `i` walked with the links applicable to `start_line + i`, from column 1 |
| LinkAnnotator.CachedEntry | scripts/insert_links.py:272-276 | the loaded cache offers an entry iff it is a (non-empty) object holding the file name, and the entry is its value |
| LinkAnnotator.BaseCache | scripts/insert_links.py:355-357 | the cache merged into is the loaded object, or empty when there is none or it is not an object |
| LinkAnnotator.LinkResolver.Fresh | scripts/insert_links.py:271-281 | with `--regenerate-links` a file is analysed; otherwise its cache entry, if any, is used |
| LinkAnnotator.LinkResolver.constructor | scripts/insert_links.py:263 | the memo starts empty |
| LinkAnnotator.LinkResolver.Parse | scripts/insert_links.py:264-281 | the answer is always the fresh answer; the memo is consulted first, a missed cache entry is not memoised, and each file is analysed at most once |
| LinkAnnotator.LinkResolver.MergedCache | scripts/insert_links.py:353-360 | nothing is written without `--regenerate-links`; with it, the keys are the loaded keys plus the memoised files, memoised values win and other loaded values are kept |
| LinkAnnotator.AnnotateBlock | scripts/insert_links.py:292-304 | blocks whose code path does not end in `.chpl`, or for which `parse` returns None, are left alone; otherwise each line is annotated. The resolver's memo changes only as `parse` changes it: a `.chpl` file not yet memoised gains its fresh answer when it has one, and nothing else changes |
| EmbeddedFiles.LangEnd | scripts/markdown_driver.py:7 | `[a-zA-Z\-+_]+` takes the longest run of language characters |
| EmbeddedFiles.BracedBodyIff | scripts/markdown_driver.py:7 | `{(.+)}$` matches with group `attrs` iff `attrs` is non-empty and newline-free and is followed by `}` and at most one newline |
| EmbeddedFiles.MatchOpening | scripts/markdown_driver.py:7-23 | an opening fence's indentation is a white-space prefix of the line |
| EmbeddedFiles.MatchOpeningSound | scripts/markdown_driver.py:7 | every match is white space, three backticks, a non-empty language name, a blank and `{attrs}` with non-empty, newline-free `attrs`, then at most one newline |
| EmbeddedFiles.MatchOpeningComplete | scripts/markdown_driver.py:7 | every line of that form matches, with its white space and `attrs` as the groups |
| EmbeddedFiles.MatchOpeningIff | scripts/markdown_driver.py:7 | `FILE_REGEX` matches with groups `(indent, attrs)` iff the line has that form for some language name |
| EmbeddedFiles.MatchClosing | scripts/markdown_driver.py:8-24 | a closing fence is white space followed by three backticks and an optional newline |
| EmbeddedFiles.MatchClosingIff | scripts/markdown_driver.py:8 | `END_REGEX` matches with group `indent` iff the line is white space `indent`, three backticks and at most one newline |
| EmbeddedFiles.FileNameInSpec | scripts/markdown_driver.py:31-41 | the file is the value of the last `file_name=value` piece; none iff no piece names a file |
| EmbeddedFiles.Extend | scripts/markdown_driver.py:48 | extending a `defaultdict(list)` entry appends to it (from empty) and leaves other files unchanged |
| EmbeddedFiles.ErrorPersists | scripts/markdown_driver.py:13-46 | once an error is raised the remaining lines change nothing |
| EmbeddedFiles.ReadFileName | scripts/markdown_driver.py:30-41 | the attribute loop yields the file named by the attributes |
| EmbeddedFiles.ExtractFiles | scripts/markdown_driver.py:16-55 | the loop computes the modelled extraction, error included |
| EmbeddedFiles.ProcessConcat | scripts/markdown_driver.py:22 | processing two runs of lines is processing the first, then the second |
| EmbeddedFiles.Dedent | scripts/markdown_driver.py:55 | each line loses the opening fence's indentation when it has it |
| EmbeddedFiles.PlainLines | scripts/markdown_driver.py:54-55 | lines that are no fence, inside a block, are appended dedented to the snippet |
| EmbeddedFiles.StrayCloseIgnored | scripts/markdown_driver.py:22-56 | outside a block, a closing fence changes nothing |
| EmbeddedFiles.PlainLinesOutside | scripts/markdown_driver.py:22-55 | lines that are no fence, outside any block, change nothing |
| EmbeddedFiles.OpensBlock | scripts/markdown_driver.py:26-42 | an opening fence naming a file opens an empty snippet with its indentation |
| EmbeddedFiles.ClosesBlock | scripts/markdown_driver.py:43-53 | a closing fence with the same indentation appends the snippet to the file's contents and closes the block |
| EmbeddedFiles.BlockAppends | scripts/markdown_driver.py:22-55 | a complete block appends its dedented body to its file's contents |
| EmbeddedFiles.UnclosedBlockIgnored | scripts/markdown_driver.py:16-55 | a block never closed contributes nothing |
| EmbeddedFiles.FenceErrors | scripts/markdown_driver.py:26-46 | inside an open block, an opening fence or a closing fence with other indentation raises an error |
| BlogBuild.GetHugoOptions | scripts/chpl_blog.py:137-158 | the arguments are the flags followed by one `--config=` argument joining the configuration files with commas |
| BlogBuild.HugoOptionsShape | scripts/chpl_blog.py:137-158 | `config.toml` comes first and splitting the value at commas gives back the list; the last argument is the config argument and every earlier one is `-D` or `-F` |
| BlogBuild.LinkOptions | scripts/chpl_blog.py:139-154 | `link` passes no flags and the configs `config.toml`, `config-hpe-dev.toml`, `config-fast.toml` |
| BlogBuild.OtherCommandOptions | scripts/chpl_blog.py:141-150 | for other commands `-D` iff drafts, `-F` iff future, the fast config iff `--fast`, never the hpe-dev config |
| BlogBuild.ServerConfigLast | scripts/chpl_blog.py:155-156 | the server config is present, and last, iff the command is `serve` |
| BlogBuild.ChunksIffFullRender | scripts/chpl_blog.py:85-154 | chunks are generated exactly when Hugo is not given the fast config, which skips rendering them |
| BlogBuild.FindBreak | scripts/chpl_blog.py:68 | finds the leftmost `__BREAK__` line at or after a position, or proves there is none |
| BlogBuild.SplitBreaksFrom | scripts/chpl_blog.py:68 | `re.split` always gives at least one chunk |
| BlogBuild.SplitBreaksFromJoin | scripts/chpl_blog.py:68 | joining the chunks with `__BREAK__` gives back the text |
| BlogBuild.SplitBreaksJoin | scripts/chpl_blog.py:68 | the split at `^__BREAK__$` is undone by joining with `__BREAK__` |
| BlogBuild.FirstChunkAfterBreak | scripts/chpl_blog.py:68 | a chunk after a break line begins at the end of the text or with a newline |
| BlogBuild.ChunksAfterBreaks | scripts/chpl_blog.py:68-71 | every chunk but the first is empty or begins with the newline that `chunk[1:]` removes |
| BlogBuild.ChunksBeforeBreaks | scripts/chpl_blog.py:68 | every chunk but the last is empty or ends with a newline |
| BlogBuild.NoBreakOneChunk | scripts/chpl_blog.py:68 | a text without a break line is one chunk |
| BlogBuild.DotSuffix | scripts/chpl_blog.py:41 | the suffix stays empty, or gets a leading dot |
| BlogBuild.ChunkFiles | scripts/chpl_blog.py:69-73 | one chunk file per chunk |
| BlogBuild.GenerateChunksForOption | scripts/chpl_blog.py:38-73 | without `__BREAK__` in the source nothing runs and nothing is written; otherwise the program runs iff neither `.good.sample` nor `.good` exists, and the files written are the chunks of the text chosen in that order |
| BlogBuild.ChunkPathsDistinct | scripts/chpl_blog.py:70 | different chunks go to different paths |
| BlogBuild.ChunkFilesRecover | scripts/chpl_blog.py:68-73 | the first file holds the first chunk, every later file holds its chunk less the leading newline or is empty for an empty chunk, and joining the chunks with the break line gives the output |
| BlogBuild.ChunkFilesAmbiguous | scripts/chpl_blog.py:68-73 | the files do not always determine the output: output ending in a break line writes the same files with or without a final newline |

## Left out

- File and process I/O are not modelled:
  - Reading the `.chpl`, Markdown, HTML and JSON files, writing pages, chunk files and the cache, `os.system` and `subprocess` calls, and the file watcher.
  - The contents of files are parameters instead: `OptionsFile`, the `files` map and the `run` function of `GenerateChunksForOption`.
  - The values written are returned instead of written.
  - `os.path.dirname`/`basename` are given as the parameters `dir` and `fileName`.
  - `os.access` is folded into the `OptionsFile` cases.
- Chpl2Md.Piece: a title piece is taken to carry a list of lines, whose first line `content[0]` becomes the `title:` field. `to_pieces` is not part of this model, so whether it yields a list or a single string for a title is not fixed here. With a single string, `content[0]` would be only the first character of the title.
- The tokenizer `to_pieces`, argument parsing, `goodfiles` and `write` are not modelled. The last two are not called from the rest of `chpl2md.py`.
- The Chapel front-end analysis (`ParsedFile`, `find_doc_link`, `parent_module`) is left out. Its results are parameters: `analyse` and `findDocLink`.
- HTML parsing and serialisation with BeautifulSoup is left out. A line is a tree of `Node`s, and `node.wrap(...)` is modelled by rebuilding the tree with a link node in place, not by mutating a shared document.
- The JSON dump, the regular-expression compaction of the written cache, and the console messages are left out.
- A cache that is not a JSON object gives no entries. The source would index into it and fail for some non-object values.
- The Hugo invocation (`generate_html`), the sub-test scripts and the theme's JavaScript are left out.
- Universal-newline translation when reading files is left out: text is taken as read, with `\n` line ends.
- LinkTable.SortBySpan: Python's Timsort is modelled by a stable insertion sort. Both are stable sorts on the same key, so they give the same list.
- LineAnchors.StripIdempotent: requires a line without `\n`. With a newline inside, `\s*` can reach a second marker across it. The tokenizer's code lines carry no newline, so `Chpl2Md.AnchorRoundTrip` has the same requirement.
- Chpl2Md.CodeSection: the loop of `gen_md` never assigns `first_code_idx` or `last_code_idx`. As written, every block is in the `middle` section, so `CodeFence` and `RenderPiece` take those indices as `-1`, and the `first`/`last`/`only` labels are never produced.
- EmbeddedFiles.ExtractFiles: `error_and_exit` raises the undefined name `Error`, so the script stops with a `NameError` rather than a message. This is modelled as `Err` with the intended message.
- `insert_links.py`'s outer loop over HTML files and blocks is modelled per block (`AnnotateBlock`), sharing one `LinkResolver`.
- LinkAnnotator.AnnotateBlock: the Chapel file name is a parameter `filename`, not tied to `codePath`. The path computation `(html_folder / code_path).relative_to(cwd)` and the `ValueError` it raises for a file outside the working directory are not modelled.
- LinkAnnotator.AnnotateBlock: `int(block['data-start-line'])` is given as the integer `startLine`, so a start line that is not a number is not modelled.
