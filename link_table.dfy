/** The reference table of the link annotator (scripts/insert_links.py): a
    list of `[[start, end], url]` entries, where `start` and `end` are
    `[line, column]` positions in a Chapel source file.

    Python compares lists lexicographically; `SpanLess` is that comparison
    on `[start, end]`. The table is built by dropping the references that
    have no documentation link and sorting the rest by span
    (`ConvertReferences`); `ApplicableLinks` then finds, by two binary
    searches, the entries that start on a given range of lines. */
module LinkTable {
  import opened Prelude

  datatype Pos = Pos(line: int, col: int)

  datatype Span = Span(start: Pos, end: Pos)

  /** One entry of the table: `[[start, end], url]`. */
  datatype Ref = Ref(span: Span, url: string)

  /** `[l1, c1] < [l2, c2]` on Python lists. */
  predicate PosLess(a: Pos, b: Pos) {
    a.line < b.line || (a.line == b.line && a.col < b.col)
  }

  /** `[start1, end1] < [start2, end2]` on Python lists. */
  predicate SpanLess(a: Span, b: Span) {
    PosLess(a.start, b.start) || (a.start == b.start && PosLess(a.end, b.end))
  }

  lemma SpanLessTransitive(a: Span, b: Span, c: Span)
    requires SpanLess(a, b) && SpanLess(b, c)
    ensures SpanLess(a, c)
  {
  }

  /** Two spans neither of which is below the other are equal. */
  lemma SpanLessTotal(a: Span, b: Span)
    requires !SpanLess(a, b) && !SpanLess(b, a)
    ensures a == b
  {
  }

  /** What `list.sort(key=lambda x: x[0])` guarantees: no entry's span is
      below the span of an entry before it. */
  ghost predicate Sorted(refs: seq<Ref>) {
    forall i, j :: 0 <= i < j < |refs| ==> !SpanLess(refs[j].span, refs[i].span)
  }

  /** Chapel source positions count columns from 1. */
  ghost predicate ColumnsFromOne(refs: seq<Ref>) {
    forall k :: 0 <= k < |refs| ==> 1 <= refs[k].span.start.col
  }

  // ---------------------------------------------------------------------
  // applicable_links

  /** `start_key < key(entry)` for `start_key = [[s, 0], [-1, -1]]`. The
      search key is not passed through `key=`; it is compared with the span
      as it stands. */
  predicate AfterStartKey(s: int, span: Span) {
    PosLess(Pos(s, 0), span.start) || (Pos(s, 0) == span.start && PosLess(Pos(-1, -1), span.end))
  }

  /** `key(entry) < end_key` for `end_key = [[e, inf], [-1, -1]]`: an integer
      column is always below the float infinity, so the comparison is decided
      by the start line, and the two start positions are never equal. */
  predicate BeforeEndKey(span: Span, e: int) {
    span.start.line < e || span.start.line == e
  }

  /** `bisect.bisect_right(refs, start_key, lo, hi, key=lambda x: x[0])`. */
  function BisectRight(refs: seq<Ref>, s: int, lo: nat, hi: nat): (r: nat)
    requires lo <= hi <= |refs|
    ensures lo <= r <= hi
    decreases hi - lo
  {
    if lo < hi then
      var mid := (lo + hi) / 2;
      if AfterStartKey(s, refs[mid].span) then BisectRight(refs, s, lo, mid)
      else BisectRight(refs, s, mid + 1, hi)
    else lo
  }

  /** `bisect.bisect_left(refs, end_key, lo, hi, key=lambda x: x[0])`. */
  function BisectLeft(refs: seq<Ref>, e: int, lo: nat, hi: nat): (r: nat)
    requires lo <= hi <= |refs|
    ensures lo <= r <= hi
    decreases hi - lo
  {
    if lo < hi then
      var mid := (lo + hi) / 2;
      if BeforeEndKey(refs[mid].span, e) then BisectLeft(refs, e, mid + 1, hi)
      else BisectLeft(refs, e, lo, mid)
    else lo
  }

  /** `applicable_links(start_line, end_line)`: the slice between the two
      search results (empty when the first lies beyond the second). */
  function ApplicableLinks(refs: seq<Ref>, s: int, e: int): seq<Ref> {
    var i := BisectRight(refs, s, 0, |refs|);
    var j := BisectLeft(refs, e, 0, |refs|);
    if i <= j then refs[i..j] else []
  }

  /** On the table, being after the start key means starting on line `s` or
      later, and being before the end key means starting on line `e` or
      earlier. */
  lemma KeysByStartLine(refs: seq<Ref>, s: int, e: int, k: nat)
    requires ColumnsFromOne(refs) && k < |refs|
    ensures AfterStartKey(s, refs[k].span) <==> s <= refs[k].span.start.line
    ensures BeforeEndKey(refs[k].span, e) <==> refs[k].span.start.line <= e
  {
  }

  /** In a sorted table the start lines never decrease. */
  lemma SortedLines(refs: seq<Ref>, i: nat, j: nat)
    requires Sorted(refs) && i <= j < |refs|
    ensures refs[i].span.start.line <= refs[j].span.start.line
  {
    if i < j {
      assert !SpanLess(refs[j].span, refs[i].span);
    }
  }

  /** `bisect_right` returns the first entry after the start key, when the
      entries after it form a suffix of `refs[lo..hi]`. */
  lemma {:induction false} BisectRightSpec(refs: seq<Ref>, s: int, lo: nat, hi: nat)
    requires lo <= hi <= |refs| && Sorted(refs) && ColumnsFromOne(refs)
    ensures forall k :: lo <= k < BisectRight(refs, s, lo, hi) ==> refs[k].span.start.line < s
    ensures forall k :: BisectRight(refs, s, lo, hi) <= k < hi ==> s <= refs[k].span.start.line
    decreases hi - lo
  {
    if lo < hi {
      var mid := (lo + hi) / 2;
      KeysByStartLine(refs, s, s, mid);
      if AfterStartKey(s, refs[mid].span) {
        BisectRightSpec(refs, s, lo, mid);
        forall k | mid <= k < hi ensures s <= refs[k].span.start.line {
          SortedLines(refs, mid, k);
        }
      } else {
        BisectRightSpec(refs, s, mid + 1, hi);
        forall k | lo <= k <= mid ensures refs[k].span.start.line < s {
          SortedLines(refs, k, mid);
        }
      }
    }
  }

  /** `bisect_left` returns the first entry not before the end key. */
  lemma {:induction false} BisectLeftSpec(refs: seq<Ref>, e: int, lo: nat, hi: nat)
    requires lo <= hi <= |refs| && Sorted(refs) && ColumnsFromOne(refs)
    ensures forall k :: lo <= k < BisectLeft(refs, e, lo, hi) ==> refs[k].span.start.line <= e
    ensures forall k :: BisectLeft(refs, e, lo, hi) <= k < hi ==> e < refs[k].span.start.line
    decreases hi - lo
  {
    if lo < hi {
      var mid := (lo + hi) / 2;
      KeysByStartLine(refs, e, e, mid);
      if BeforeEndKey(refs[mid].span, e) {
        BisectLeftSpec(refs, e, mid + 1, hi);
        forall k | lo <= k <= mid ensures refs[k].span.start.line <= e {
          SortedLines(refs, k, mid);
        }
      } else {
        BisectLeftSpec(refs, e, lo, mid);
        forall k | mid <= k < hi ensures e < refs[k].span.start.line {
          SortedLines(refs, mid, k);
        }
      }
    }
  }

  /** On a sorted table, `applicable_links(s, e)` is a contiguous slice
      holding exactly the entries whose start line lies in `[s, e]`; a span
      that starts on an earlier line is left out even when it reaches into
      the range. */
  lemma ApplicableLinksSpec(refs: seq<Ref>, s: int, e: int)
    requires Sorted(refs) && ColumnsFromOne(refs)
    ensures exists lo: nat, hi: nat ::
      && lo <= hi <= |refs|
      && ApplicableLinks(refs, s, e) == refs[lo..hi]
      && forall k :: 0 <= k < |refs| ==> (lo <= k < hi <==> s <= refs[k].span.start.line <= e)
  {
    var i := BisectRight(refs, s, 0, |refs|);
    var j := BisectLeft(refs, e, 0, |refs|);
    BisectRightSpec(refs, s, 0, |refs|);
    BisectLeftSpec(refs, e, 0, |refs|);
    if i <= j {
      assert ApplicableLinks(refs, s, e) == refs[i..j];
      assert forall k :: 0 <= k < |refs| ==> (i <= k < j <==> s <= refs[k].span.start.line <= e);
    } else {
      assert ApplicableLinks(refs, s, e) == refs[i..i];
      assert forall k :: 0 <= k < |refs| ==> (i <= k < i <==> s <= refs[k].span.start.line <= e);
    }
  }

  // ---------------------------------------------------------------------
  // rewrite_module_name

  /** `rewrite_module_name`: three internal module names are shown under the
      name the documentation uses; every other name is kept. The result is
      never one of the renamed names, so renaming twice changes nothing. */
  function RewriteModuleName(name: string): (r: string)
    ensures name == "ChapelIO" ==> r == "IO"
    ensures name == "AutoMath" ==> r == "Math"
    ensures name == "ChapelSysCTypes" ==> r == "CTypes"
    ensures r != "ChapelIO" && r != "AutoMath" && r != "ChapelSysCTypes"
    ensures name !="ChapelIO" && name != "AutoMath" && name != "ChapelSysCTypes" <==> r == name
  {
    if name == "ChapelIO" then "IO"
    else if name == "AutoMath" then "Math"
    else if name == "ChapelSysCTypes" then "CTypes"
    else name
  }

  // ---------------------------------------------------------------------
  // Building the table: lines 233-242 of scripts/insert_links.py

  /** The entries kept for the references found in a file: those whose node
      has a documentation link, in the order they were found. */
  function WithLinks<N>(found: seq<(Span, N)>, findDocLink: N -> Option<string>): seq<Ref> {
    if found == [] then []
    else
      var init := WithLinks(found[..|found| - 1], findDocLink);
      var (span, node) := found[|found| - 1];
      match findDocLink(node)
      case None => init
      case Some(url) => init + [Ref(span, url)]
  }

  /** Entry `k` of `found` has a documentation link, and `r` is the table
      entry made from it. */
  predicate KeptAs<N>(found: seq<(Span, N)>, findDocLink: N -> Option<string>, k: int, r: Ref) {
    0 <= k < |found| && found[k].0 == r.span && findDocLink(found[k].1) == Some(r.url)
  }

  /** The positions in `found` whose node has a documentation link, in
      increasing order. */
  function KeptIndices<N>(found: seq<(Span, N)>, findDocLink: N -> Option<string>): seq<nat> {
    if found == [] then []
    else
      KeptIndices(found[..|found| - 1], findDocLink)
        + (if findDocLink(found[|found| - 1].1).Some? then [|found| - 1] else [])
  }

  /** The table is `found` filtered in place: its `i`-th entry is made from
      the `i`-th kept position, the kept positions increase, and they are
      exactly the positions with a link. Order and repetitions of `found`
      are therefore preserved. */
  lemma {:induction false} WithLinksInOrder<N>(found: seq<(Span, N)>, findDocLink: N -> Option<string>)
    ensures |KeptIndices(found, findDocLink)| == |WithLinks(found, findDocLink)|
    ensures forall i, j :: 0 <= i < j < |KeptIndices(found, findDocLink)| ==>
      KeptIndices(found, findDocLink)[i] < KeptIndices(found, findDocLink)[j]
    ensures forall k: nat :: k in KeptIndices(found, findDocLink) <==> k < |found| && findDocLink(found[k].1).Some?
    ensures forall i :: 0 <= i < |KeptIndices(found, findDocLink)| ==>
      var k := KeptIndices(found, findDocLink)[i];
      k < |found| && findDocLink(found[k].1).Some? &&
      WithLinks(found, findDocLink)[i] == Ref(found[k].0, findDocLink(found[k].1).value)
  {
    if found != [] {
      var init := found[..|found| - 1];
      var n := |found| - 1;
      WithLinksInOrder(init, findDocLink);
      var ks0 := KeptIndices(init, findDocLink);
      var ks := KeptIndices(found, findDocLink);
      forall k | k in ks0 ensures k < n { }
      forall i | 0 <= i < |ks0| ensures ks[i] == ks0[i] && found[ks0[i]] == init[ks0[i]] { }
      if findDocLink(found[n].1).Some? {
        assert ks == ks0 + [n];
        assert WithLinks(found, findDocLink) == WithLinks(init, findDocLink) + [Ref(found[n].0, findDocLink(found[n].1).value)];
      } else {
        assert ks == ks0;
        assert WithLinks(found, findDocLink) == WithLinks(init, findDocLink);
      }
      forall k: nat ensures k in ks <==> k < |found| && findDocLink(found[k].1).Some? {
        if k < n {
          assert found[k] == init[k];
        }
      }
    }
  }

  /** `found` with every entry whose link is missing removed. */
  lemma {:induction false} WithLinksSpec<N>(found: seq<(Span, N)>, findDocLink: N -> Option<string>)
    ensures |WithLinks(found, findDocLink)| <= |found|
    ensures forall r :: r in WithLinks(found, findDocLink) <==> exists k :: KeptAs(found, findDocLink, k, r)
  {
    if found != [] {
      var init := found[..|found| - 1];
      var last := found[|found| - 1];
      WithLinksSpec(init, findDocLink);
      var tail := if findDocLink(last.1).Some? then [Ref(last.0, findDocLink(last.1).value)] else [];
      assert WithLinks(found, findDocLink) == WithLinks(init, findDocLink) + tail;
      forall r ensures r in WithLinks(found, findDocLink) <==> exists k :: KeptAs(found, findDocLink, k, r) {
        if r in WithLinks(init, findDocLink) {
          var k :| KeptAs(init, findDocLink, k, r);
          assert KeptAs(found, findDocLink, k, r);
        }
        if r in tail {
          assert KeptAs(found, findDocLink, |found| - 1, r);
        }
        if exists k :: KeptAs(found, findDocLink, k, r) {
          var k :| KeptAs(found, findDocLink, k, r);
          if k < |init| {
            assert KeptAs(init, findDocLink, k, r);
          } else {
            assert r in tail;
          }
        }
      }
    }
  }

  /** Inserts `x` before the first entry whose span is above its own, so that
      it comes after every entry with the same span. */
  function Insert(x: Ref, sorted: seq<Ref>): (r: seq<Ref>)
    ensures multiset(r) == multiset(sorted) + multiset{x}
  {
    if sorted == [] then [x]
    else if SpanLess(x.span, sorted[0].span) then [x] + sorted
    else
      assert sorted == [sorted[0]] + sorted[1..];
      [sorted[0]] + Insert(x, sorted[1..])
  }

  /** `list.sort(key=lambda x: x[0])`, which is stable: an insertion sort that
      inserts the entries in their original order. */
  function SortBySpan(refs: seq<Ref>): (r: seq<Ref>)
    ensures multiset(r) == multiset(refs)
  {
    if refs == [] then []
    else
      assert refs == refs[..|refs| - 1] + [refs[|refs| - 1]];
      Insert(refs[|refs| - 1], SortBySpan(refs[..|refs| - 1]))
  }

  lemma {:induction false} InsertSorted(x: Ref, sorted: seq<Ref>)
    requires Sorted(sorted)
    ensures Sorted(Insert(x, sorted))
  {
    if sorted != [] && !SpanLess(x.span, sorted[0].span) {
      var rest := sorted[1..];
      InsertSorted(x, rest);
      var r := Insert(x, sorted);
      assert r == [sorted[0]] + Insert(x, rest);
      assert multiset(Insert(x, rest)) == multiset(rest) + multiset{x};
      forall j | 0 < j < |r| ensures !SpanLess(r[j].span, r[0].span) {
        assert r[j] in multiset(Insert(x, rest));
        if r[j] != x {
          assert r[j] in multiset(rest);
          var k :| 0 <= k < |rest| && rest[k] == r[j];
          assert sorted[k + 1] == r[j];
        }
      }
    } else if sorted != [] {
      var r := Insert(x, sorted);
      forall j | 0 < j < |r| ensures !SpanLess(r[j].span, r[0].span) {
        assert r[j] == sorted[j - 1];
        if j > 1 {
          assert !SpanLess(sorted[j - 1].span, sorted[0].span);
        }
        if SpanLess(r[j].span, x.span) {
          SpanLessTransitive(r[j].span, x.span, sorted[0].span);
        }
      }
    }
  }

  /** The sorted table is ordered by span. */
  lemma {:induction false} SortBySpanSorted(refs: seq<Ref>)
    ensures Sorted(SortBySpan(refs))
  {
    if refs != [] {
      SortBySpanSorted(refs[..|refs| - 1]);
      InsertSorted(refs[|refs| - 1], SortBySpan(refs[..|refs| - 1]));
    }
  }

  /** The entries of `refs` whose span is `span`, in order. */
  function WithSpan(refs: seq<Ref>, span: Span): seq<Ref> {
    if refs == [] then []
    else WithSpan(refs[..|refs| - 1], span) + (if refs[|refs| - 1].span == span then [refs[|refs| - 1]] else [])
  }

  lemma {:induction false} WithSpanFront(x: Ref, rest: seq<Ref>, span: Span)
    ensures WithSpan([x] + rest, span) == (if x.span == span then [x] else []) + WithSpan(rest, span)
    decreases |rest|
  {
    if rest == [] {
      assert [x][..0] == [];
    } else {
      var all := [x] + rest;
      assert all[..|all| - 1] == [x] + rest[..|rest| - 1];
      WithSpanFront(x, rest[..|rest| - 1], span);
    }
  }

  lemma {:induction false} WithSpanNone(refs: seq<Ref>, span: Span)
    requires forall k :: 0 <= k < |refs| ==> refs[k].span != span
    ensures WithSpan(refs, span) == []
  {
    if refs != [] {
      WithSpanNone(refs[..|refs| - 1], span);
    }
  }

  lemma SortedTail(sorted: seq<Ref>)
    requires Sorted(sorted) && sorted != []
    ensures Sorted(sorted[1..])
  {
  }

  /** No entry of a sorted list has a span below that of its first entry. */
  lemma {:induction false} BelowFirstAbsent(sorted: seq<Ref>, span: Span)
    requires Sorted(sorted) && sorted != [] && SpanLess(span, sorted[0].span)
    ensures WithSpan(sorted, span) == []
  {
    forall k | 0 <= k < |sorted| ensures sorted[k].span != span {
      if k > 0 {
        assert !SpanLess(sorted[k].span, sorted[0].span);
      }
    }
    WithSpanNone(sorted, span);
  }

  /** An entry inserted at the front of a sorted list has no equal span
      after it. */
  lemma InsertFirstStable(x: Ref, sorted: seq<Ref>, span: Span)
    requires Sorted(sorted) && sorted != [] && SpanLess(x.span, sorted[0].span)
    ensures WithSpan(Insert(x, sorted), span)
         == WithSpan(sorted, span) + (if x.span == span then [x] else [])
  {
    assert Insert(x, sorted) == [x] + sorted;
    WithSpanFront(x, sorted, span);
    if x.span == span {
      BelowFirstAbsent(sorted, span);
      assert WithSpan(Insert(x, sorted), span) == [x] + [] == [] + [x];
    } else {
      assert WithSpan(Insert(x, sorted), span) == [] + WithSpan(sorted, span) == WithSpan(sorted, span) + [];
    }
  }

  /** Inserting `x` into a sorted list puts it after every entry with the
      same span. */
  lemma {:induction false} InsertStable(x: Ref, sorted: seq<Ref>, span: Span)
    requires Sorted(sorted)
    ensures WithSpan(Insert(x, sorted), span)
         == WithSpan(sorted, span) + (if x.span == span then [x] else [])
    decreases |sorted|
  {
    if sorted == [] {
      assert Insert(x, sorted) == [] + [x];
    } else if SpanLess(x.span, sorted[0].span) {
      InsertFirstStable(x, sorted, span);
    } else {
      var rest := sorted[1..];
      var head := if sorted[0].span == span then [sorted[0]] else [];
      var tail := if x.span == span then [x] else [];
      assert sorted == [sorted[0]] + rest;
      SortedTail(sorted);
      calc {
        WithSpan(Insert(x, sorted), span);
        { assert Insert(x, sorted) == [sorted[0]] + Insert(x, rest); }
        WithSpan([sorted[0]] + Insert(x, rest), span);
        { WithSpanFront(sorted[0], Insert(x, rest), span); }
        head + WithSpan(Insert(x, rest), span);
        { InsertStable(x, rest, span); }
        head + (WithSpan(rest, span) + tail);
        (head + WithSpan(rest, span)) + tail;
        { WithSpanFront(sorted[0], rest, span); }
        WithSpan(sorted, span) + tail;
      }
    }
  }

  /** Sorting keeps the relative order of entries with equal spans. */
  lemma {:induction false} SortBySpanStable(refs: seq<Ref>, span: Span)
    ensures WithSpan(SortBySpan(refs), span) == WithSpan(refs, span)
  {
    if refs != [] {
      var init := refs[..|refs| - 1];
      SortBySpanStable(init, span);
      SortBySpanSorted(init);
      InsertStable(refs[|refs| - 1], SortBySpan(init), span);
    }
  }

  /** The conversion loop of lines 233-242: keep the references that have a
      documentation link, then sort them by span. The result is sorted, a
      permutation of the kept references, and stable. */
  method ConvertReferences<N>(found: seq<(Span, N)>, findDocLink: N -> Option<string>)
    returns (converted: seq<Ref>)
    ensures converted == SortBySpan(WithLinks(found, findDocLink))
  {
    converted := [];
    for k := 0 to |found|
      invariant converted == WithLinks(found[..k], findDocLink)
    {
      assert found[..k + 1][..k] == found[..k];
      var (span, node) := found[k];
      var foundLink := findDocLink(node);
      if foundLink.None? {
        continue;
      }
      converted := converted + [Ref(span, foundLink.value)];
    }
    assert found[..|found|] == found;
    converted := SortBySpan(converted);
  }
}
