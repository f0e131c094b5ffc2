/** The variants a sample program is built and run under (scripts/common.py):
    the options files beside a program, how they are read, and the list of
    `(suffix, compile options, run options)` triples computed from them. */
module VariantOptions {
  import opened Strings

  /** One way to build and run a program: a suffix naming it, the compiler
      options and the execution options. */
  datatype Variant = Variant(suffix: string, compopt: string, execopt: string)

  /** What the file system says about one options file: it cannot be read
      (missing or no read permission), it is executable (and printed `stdout`
      when run), or it is a plain text file holding `text`. */
  datatype OptionsFile = Unreadable | Executable(stdout: string) | Plain(text: string)

  /** Iterating over a text file: each line keeps its `'\n'`, the last line
      may lack one, and an empty file has no lines. */
  function FileLines(text: string): (lines: seq<string>)
    ensures text == "" <==> lines == []
    ensures Concat(lines) == text
    decreases |text|
  {
    if text == "" then []
    else if '\n' !in text then [text]
    else
      var i := IndexOf(text, '\n');
      assert text == text[..i + 1] + text[i + 1..];
      [text[..i + 1]] + FileLines(text[i + 1..])
  }

  function StripLeadingNewlines(s: string): (r: string)
    decreases |s|
  {
    if s != "" && s[0] == '\n' then StripLeadingNewlines(s[1..]) else s
  }

  function StripTrailingNewlines(s: string): (r: string)
    decreases |s|
  {
    if s != "" && s[|s| - 1] == '\n' then StripTrailingNewlines(s[..|s| - 1]) else s
  }

  /** `s.strip("\n")`. */
  function StripNewlines(s: string): string {
    StripTrailingNewlines(StripLeadingNewlines(s))
  }

  /** `[line.strip("\n") for line in lines]`. */
  function StripAll(lines: seq<string>): (r: seq<string>)
    ensures |r| == |lines|
  {
    if lines == [] then [] else [StripNewlines(lines[0])] + StripAll(lines[1..])
  }

  /** `read_options_file`: an unreadable file gives one empty option, an
      executable gives its output (one trailing newline dropped) split into
      lines, and a plain file gives its lines without their newlines. */
  function ReadOptionsFile(f: OptionsFile): (opts: seq<string>)
    ensures f.Unreadable? ==> opts == [""]
    ensures f.Executable? ==> 1 <= |opts| && Join(opts, '\n') == RemoveSuffix(f.stdout, "\n")
    ensures f.Plain? ==> |opts| == |FileLines(f.text)|
    ensures forall i :: 0 <= i < |opts| ==> '\n' !in opts[i]
  {
    match f
    case Unreadable => [""]
    case Executable(out) =>
      var opts := Split(RemoveSuffix(out, "\n"), '\n');
      JoinSplit(RemoveSuffix(out, "\n"), '\n');
      opts
    case Plain(text) =>
      PlainOptionsAreLines(text);
      StripAll(FileLines(text))
  }

  /** A line of a file with no newline inside it is unchanged by stripping. */
  lemma StripWithoutNewline(s: string)
    requires '\n' !in s
    ensures StripNewlines(s) == s
  {
  }

  lemma StripOneNewline(s: string)
    requires '\n' !in s
    ensures StripNewlines(s + "\n") == s
  {
    var t := s + "\n";
    if s == "" {
      assert t[1..] == "";
      assert StripLeadingNewlines(t) == StripLeadingNewlines(t[1..]) == "";
    } else {
      assert t[0] == s[0] && s[0] in s;
      assert StripLeadingNewlines(t) == t;
      assert t[|t| - 1] == '\n' && t[..|t| - 1] == s;
      assert StripTrailingNewlines(t) == StripTrailingNewlines(s);
      assert s[|s| - 1] in s;
      assert StripTrailingNewlines(s) == s;
    }
  }

  /** A plain options file is read as the executable branch would read the same
      text, except that an empty file gives no option at all. */
  lemma {:induction false} PlainOptionsAreLines(text: string)
    ensures StripAll(FileLines(text))
         == (if text == "" then [] else Split(RemoveSuffix(text, "\n"), '\n'))
    decreases |text|
  {
    if text != "" {
      if '\n' !in text {
        StripWithoutNewline(text);
        assert text[|text| - 1] != '\n';
        assert RemoveSuffix(text, "\n") == text;
      } else {
        var i := IndexOf(text, '\n');
        var line, rest := text[..i], text[i + 1..];
        FirstLine(text, i);
        PlainOptionsAreLines(rest);
        if rest == "" {
          assert RemoveSuffix(text, "\n") == line;
        } else {
          RemoveSuffixInTail(line, rest);
          SplitAfter(line, '\n', RemoveSuffix(rest, "\n"));
        }
      }
    }
  }

  lemma FirstLine(text: string, i: nat)
    requires '\n' in text && i == IndexOf(text, '\n')
    ensures text == text[..i] + "\n" + text[i + 1..]
    ensures StripAll(FileLines(text)) == [text[..i]] + StripAll(FileLines(text[i + 1..]))
  {
    var line := text[..i];
    assert text[..i + 1] == line + "\n";
    StripOneNewline(line);
    assert FileLines(text) == [line + "\n"] + FileLines(text[i + 1..]);
  }

  lemma RemoveSuffixInTail(line: string, rest: string)
    requires rest != ""
    ensures RemoveSuffix(line + "\n" + rest, "\n") == line + "\n" + RemoveSuffix(rest, "\n")
  {
    var text := line + "\n" + rest;
    assert text[|text| - 1] == rest[|rest| - 1];
    if EndsWith(rest, "\n") {
      assert text[..|text| - 1] == line + "\n" + rest[..|rest| - 1];
    }
  }

  /** The names of the two options files of a program: `.chpl` is dropped
      and `.compopts` or `.execopts` added. */
  function OptionsFileName(program: string, extension: string): (name: string)
    ensures EndsWith(program, ".chpl") ==> name == program[..|program| - 5] + extension
    ensures !EndsWith(program, ".chpl") ==> name == program + extension
  {
    RemoveSuffix(program, ".chpl") + extension
  }

  /** The suffix of the variant built with compile option `i` and run
      option `j` (both counted from 1). */
  function Suffix(i: nat, j: nat): string {
    NatToString(i) + "-" + NatToString(j)
  }

  /** Two variants get the same suffix only if they come from the same pair
      of options. */
  lemma SuffixInjective(i1: nat, j1: nat, i2: nat, j2: nat)
    requires Suffix(i1, j1) == Suffix(i2, j2)
    ensures i1 == i2 && j1 == j2
  {
    var a1, b1, a2, b2 := NatToString(i1), NatToString(j1), NatToString(i2), NatToString(j2);
    assert !IsDigit('-');
    assert '-' !in a1 && '-' !in a2;
    assert Suffix(i1, j1) == a1 + ['-'] + b1;
    assert Suffix(i2, j2) == a2 + ['-'] + b2;
    IndexOfAfter(a1, '-', b1);
    IndexOfAfter(a2, '-', b2);
    var s := Suffix(i1, j1);
    assert a1 == s[..|a1|] == a2;
    assert b1 == s[|a1| + 1..] == b2;
    NatToStringInjective(i1, i2);
    NatToStringInjective(j1, j2);
  }

  /** The variants of compile option number `i` with every run option, run
      options numbered from `j`. */
  function Row(i: nat, compopt: string, execopts: seq<string>, j: nat): (row: seq<Variant>)
    decreases |execopts|
  {
    if execopts == [] then []
    else [Variant(Suffix(i, j), compopt, execopts[0])] + Row(i, compopt, execopts[1..], j + 1)
  }

  /** The nested comprehension: compile options (numbered from `i`) outside,
      run options inside. */
  function Product(compopts: seq<string>, execopts: seq<string>, i: nat): (vs: seq<Variant>)
    decreases |compopts|
  {
    if compopts == [] then []
    else Row(i, compopts[0], execopts, 1) + Product(compopts[1..], execopts, i + 1)
  }

  /** `compute_options` once both files are read. */
  function ComputeOptions(compopts: seq<string>, execopts: seq<string>): (vs: seq<Variant>)
    ensures |compopts| == 1 && |execopts| == 1 ==> vs == [Variant("", compopts[0], execopts[0])]
    ensures !(|compopts| == 1 && |execopts| == 1) ==> |vs| == |compopts| * |execopts|
  {
    if |compopts| == 1 && |execopts| == 1 then [Variant("", compopts[0], execopts[0])]
    else
      ProductLength(compopts, execopts, 1);
      Product(compopts, execopts, 1)
  }

  /** `compute_options(file)`, with the file system given by `lookup`. */
  function VariantsOf(program: string, lookup: string -> OptionsFile): (vs: seq<Variant>)
    ensures lookup(OptionsFileName(program, ".compopts")).Unreadable?
         && lookup(OptionsFileName(program, ".execopts")).Unreadable?
         ==> vs == [Variant("", "", "")]
  {
    ComputeOptions(ReadOptionsFile(lookup(OptionsFileName(program, ".compopts"))),
                   ReadOptionsFile(lookup(OptionsFileName(program, ".execopts"))))
  }

  lemma {:induction false} RowAt(i: nat, compopt: string, execopts: seq<string>, j: nat)
    ensures |Row(i, compopt, execopts, j)| == |execopts|
    ensures forall k :: 0 <= k < |execopts| ==>
      Row(i, compopt, execopts, j)[k] == Variant(Suffix(i, j + k), compopt, execopts[k])
    decreases |execopts|
  {
    if execopts != [] {
      RowAt(i, compopt, execopts[1..], j + 1);
    }
  }

  lemma MulSucc(a: nat, n: nat)
    ensures (a + 1) * n == a * n + n
  {
  }

  lemma MulBound(a: nat, b: nat, n: nat, m: nat)
    requires a < m && b < n
    ensures a * n + b < m * n
  {
    MulSucc(a, n);
    assert (a + 1) * n <= m * n;
  }

  lemma {:induction false} ProductLength(compopts: seq<string>, execopts: seq<string>, i: nat)
    ensures |Product(compopts, execopts, i)| == |compopts| * |execopts|
    decreases |compopts|
  {
    if compopts != [] {
      RowAt(i, compopts[0], execopts, 1);
      ProductLength(compopts[1..], execopts, i + 1);
      MulSucc(|compopts| - 1, |execopts|);
    }
  }

  /** `a * n`, built by repeated addition so that the proofs about the
      product need no non-linear arithmetic. */
  function RowStart(a: nat, n: nat): nat {
    if a == 0 then 0 else RowStart(a - 1, n) + n
  }

  lemma {:induction false} RowStartIsProduct(a: nat, n: nat)
    ensures RowStart(a, n) == a * n
  {
    if a > 0 {
      RowStartIsProduct(a - 1, n);
      MulSucc(a - 1, n);
    }
  }

  /** The variant at position `a * |execopts| + b` pairs compile option `a`
      with run option `b` and is named after them. */
  lemma {:induction false} ProductAt(compopts: seq<string>, execopts: seq<string>, i: nat, a: nat, b: nat)
    requires a < |compopts| && b < |execopts|
    ensures RowStart(a, |execopts|) + b < |Product(compopts, execopts, i)|
    ensures Product(compopts, execopts, i)[RowStart(a, |execopts|) + b]
         == Variant(Suffix(i + a, 1 + b), compopts[a], execopts[b])
    decreases a
  {
    var n := |execopts|;
    var vs := Product(compopts, execopts, i);
    var row := Row(i, compopts[0], execopts, 1);
    var rest := Product(compopts[1..], execopts, i + 1);
    assert vs == row + rest;
    RowAt(i, compopts[0], execopts, 1);
    if a == 0 {
      assert vs[b] == row[b];
    } else {
      var k := RowStart(a - 1, n) + b;
      ProductAt(compopts[1..], execopts, i + 1, a - 1, b);
      assert RowStart(a, n) + b == n + k;
      assert |row| == n;
      assert vs[n + k] == rest[k];
      assert compopts[1..][a - 1] == compopts[a];
    }
  }

  /** Every index of the product is `a * n + b` for one pair of options. */
  lemma Decompose(k: nat, n: nat, m: nat)
    requires k < m * n
    ensures 0 < n && k / n < m && k % n < n && k == (k / n) * n + k % n
  {
    assert n != 0;
    var q := k / n;
    assert k == q * n + k % n;
    if q >= m {
      MulMono(m, q, n);
    }
  }

  lemma MulMono(m: nat, q: nat, n: nat)
    requires m <= q
    ensures m * n <= q * n
  {
  }

  /** The suffix at index `k` of the product names the pair `(q, r)` with
      `k == q * n + r`. */
  lemma ProductSuffixAt(compopts: seq<string>, execopts: seq<string>, k: nat) returns (q: nat, r: nat)
    requires k < |Product(compopts, execopts, 1)|
    ensures r < |execopts| && k == RowStart(q, |execopts|) + r
    ensures Product(compopts, execopts, 1)[k].suffix == Suffix(1 + q, 1 + r)
  {
    var n := |execopts|;
    ProductLength(compopts, execopts, 1);
    Decompose(k, n, |compopts|);
    q, r := k / n, k % n;
    ProductAt(compopts, execopts, 1, q, r);
    RowStartIsProduct(q, n);
  }

  lemma ProductSuffixesDiffer(compopts: seq<string>, execopts: seq<string>, k1: nat, k2: nat)
    requires k1 < k2 < |Product(compopts, execopts, 1)|
    ensures Product(compopts, execopts, 1)[k1].suffix != Product(compopts, execopts, 1)[k2].suffix
  {
    var q1, r1 := ProductSuffixAt(compopts, execopts, k1);
    var q2, r2 := ProductSuffixAt(compopts, execopts, k2);
    if Suffix(1 + q1, 1 + r1) == Suffix(1 + q2, 1 + r2) {
      SuffixInjective(1 + q1, 1 + r1, 1 + q2, 1 + r2);
    }
  }

  /** In the product case every suffix is non-empty and no two variants
      share one. */
  lemma ProductSuffixesDistinct(compopts: seq<string>, execopts: seq<string>)
    requires !(|compopts| == 1 && |execopts| == 1)
    ensures forall k :: 0 <= k < |ComputeOptions(compopts, execopts)| ==>
      ComputeOptions(compopts, execopts)[k].suffix != ""
    ensures forall k1, k2 :: 0 <= k1 < k2 < |ComputeOptions(compopts, execopts)| ==>
      ComputeOptions(compopts, execopts)[k1].suffix != ComputeOptions(compopts, execopts)[k2].suffix
  {
    var vs := ComputeOptions(compopts, execopts);
    assert vs == Product(compopts, execopts, 1);
    forall k | 0 <= k < |vs| ensures vs[k].suffix != "" {
      var q, r := ProductSuffixAt(compopts, execopts, k);
    }
    forall k1, k2 | 0 <= k1 < k2 < |vs| ensures vs[k1].suffix != vs[k2].suffix {
      ProductSuffixesDiffer(compopts, execopts, k1, k2);
    }
  }

  /** The variant at 1-based position `(i, j)` of the product, as the
      comprehension numbers it. */
  lemma VariantAt(compopts: seq<string>, execopts: seq<string>, i: nat, j: nat)
    requires !(|compopts| == 1 && |execopts| == 1)
    requires 1 <= i <= |compopts| && 1 <= j <= |execopts|
    ensures (i - 1) * |execopts| + (j - 1) < |ComputeOptions(compopts, execopts)|
    ensures ComputeOptions(compopts, execopts)[(i - 1) * |execopts| + (j - 1)]
         == Variant(NatToString(i) + "-" + NatToString(j), compopts[i - 1], execopts[j - 1])
  {
    var n := |execopts|;
    var vs := ComputeOptions(compopts, execopts);
    assert vs == Product(compopts, execopts, 1);
    ProductAt(compopts, execopts, 1, i - 1, j - 1);
    RowStartIsProduct(i - 1, n);
    var k := RowStart(i - 1, n) + (j - 1);
    assert (i - 1) * n + (j - 1) == k;
    assert vs[k] == Variant(Suffix(i, j), compopts[i - 1], execopts[j - 1]);
  }

  lemma ReadTwoLines(text: string)
    requires text == "-a\n-b\n"
    ensures ReadOptionsFile(Plain(text)) == ["-a", "-b"]
  {
    var body := RemoveSuffix(text, "\n");
    assert EndsWith(text, "\n");
    assert body == text[..5] == "-a" + "\n" + "-b";
    SplitAfter("-a", '\n', "-b");
    assert Split(body, '\n') == ["-a"] + Split("-b", '\n');
    PlainOptionsAreLines(text);
    assert ReadOptionsFile(Plain(text)) == StripAll(FileLines(text));
  }

  lemma SmallSuffix(i: nat, j: nat)
    requires 1 <= i <= 2 && j == 1
    ensures Suffix(i, j) == (if i == 1 then "1-1" else "2-1")
  {
    assert NatToString(i) == [Digit(i)];
    assert NatToString(j) == [Digit(j)];
  }

  /** Two compile options and one empty run option give the variants `1-1` and `2-1`. */
  lemma TwoByOne(a: string, b: string)
    ensures Product([a, b], [""], 1) == [Variant("1-1", a, ""), Variant("2-1", b, "")]
  {
    var c, e := [a, b], [""];
    assert c[1..] == [b] && [b][1..] == [];
    assert Product([b], e, 2) == Row(2, b, e, 1) + Product([], e, 3);
    assert Product(c, e, 1) == Row(1, a, e, 1) + Product([b], e, 2);
    assert Row(1, a, e, 1) == [Variant("1-1", a, "")] by {
      SmallSuffix(1, 1);
    }
    assert Row(2, b, e, 1) == [Variant("2-1", b, "")] by {
      SmallSuffix(2, 1);
    }
  }

  /** A program whose `.compopts` holds the lines `-a` and `-b` and which has
      no `.execopts` gets the variants `1-1` and `2-1`. */
  lemma TwoCompileOptions(compoptsFile: OptionsFile, execoptsFile: OptionsFile)
    requires compoptsFile == Plain("-a\n-b\n") && execoptsFile == Unreadable
    ensures ComputeOptions(ReadOptionsFile(compoptsFile), ReadOptionsFile(execoptsFile))
         == [Variant("1-1", "-a", ""), Variant("2-1", "-b", "")]
  {
    ReadTwoLines(compoptsFile.text);
    assert ReadOptionsFile(execoptsFile) == [""];
    TwoByOne("-a", "-b");
  }
}
