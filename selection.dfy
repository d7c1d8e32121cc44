/**
 * Example selection on a detail page (main.go, the "#main-content"
 * callback): walking the "div.example-cont" blocks in document order, the
 * scraper keeps the first three whose id attribute is non-empty. Blocks
 * without an id are skipped and do not count toward the three.
 */
module Selection {
  import opened Notes

  /** The most examples one pass of the callback keeps. */
  const MaxExamples: nat := 3

  function ToExample(b: ExampleBlock): Example {
    Example(b.Id, b.Sentence, b.Reading, b.Meaning)
  }

  /** The examples of all blocks with a non-empty id, in document order. */
  function Kept(blocks: seq<ExampleBlock>): (r: seq<Example>)
    ensures |r| <= |blocks|
    ensures forall k :: 0 <= k < |r| ==> r[k].Id != ""
  {
    if blocks == [] then []
    else (if blocks[0].Id != "" then [ToExample(blocks[0])] else []) + Kept(blocks[1..])
  }

  /** At most the first n elements of s. */
  function Take(s: seq<Example>, n: nat): seq<Example> {
    if |s| <= n then s else s[..n]
  }

  /** The examples a detail page yields: the first three blocks with an id. */
  function Select(blocks: seq<ExampleBlock>): (r: seq<Example>)
    ensures |r| <= MaxExamples && |r| <= |Kept(blocks)| && r == Kept(blocks)[..|r|]
    ensures |r| < MaxExamples ==> r == Kept(blocks)
    ensures forall k :: 0 <= k < |r| ==> r[k].Id != ""
  {
    Take(Kept(blocks), MaxExamples)
  }

  /** Keeping distributes over concatenation of block sequences. */
  lemma {:induction false} KeptAppend(a: seq<ExampleBlock>, b: seq<ExampleBlock>)
    ensures Kept(a + b) == Kept(a) + Kept(b)
  {
    if a == [] {
      assert a + b == b;
    } else {
      var ab := a + b;
      var head := if a[0].Id != "" then [ToExample(a[0])] else [];
      assert ab != [] && ab[0] == a[0] && ab[1..] == a[1..] + b;
      KeptAppend(a[1..], b);
      calc {
        Kept(ab);
        head + Kept(a[1..] + b);
        head + (Kept(a[1..]) + Kept(b));
        (head + Kept(a[1..])) + Kept(b);
        Kept(a) + Kept(b);
      }
    }
  }

  function Shift(s: seq<nat>): (r: seq<nat>)
    ensures |r| == |s| && forall k :: 0 <= k < |s| ==> r[k] == s[k] + 1
  {
    seq(|s|, k requires 0 <= k < |s| => s[k] + 1)
  }

  /** The positions of the blocks with a non-empty id, in increasing order. */
  function KeptPositions(blocks: seq<ExampleBlock>): seq<nat> {
    if blocks == [] then []
    else (if blocks[0].Id != "" then [0] else []) + Shift(KeptPositions(blocks[1..]))
  }

  /** The k-th position names the block the k-th kept example comes from. */
  lemma {:induction false} KeptPositionsSound(blocks: seq<ExampleBlock>)
    ensures |KeptPositions(blocks)| == |Kept(blocks)|
    ensures forall k :: 0 <= k < |Kept(blocks)| ==>
      KeptPositions(blocks)[k] < |blocks| && blocks[KeptPositions(blocks)[k]].Id != "" &&
      Kept(blocks)[k] == ToExample(blocks[KeptPositions(blocks)[k]])
  {
    if blocks != [] {
      var tail := blocks[1..];
      KeptPositionsSound(tail);
      var pt0, kt := KeptPositions(tail), Kept(tail);
      var ps, kb := KeptPositions(blocks), Kept(blocks);
      var n: nat := if blocks[0].Id != "" then 1 else 0;
      assert ps == (if n == 1 then [0] else []) + Shift(pt0);
      assert kb == (if n == 1 then [ToExample(blocks[0])] else []) + kt;
      forall k | n <= k < |kb|
        ensures ps[k] < |blocks| && blocks[ps[k]].Id != "" && kb[k] == ToExample(blocks[ps[k]])
      {
        var p0 := pt0[k - n];
        assert ps[k] == p0 + 1;
        assert kb[k] == kt[k - n];
        assert p0 < |tail| && tail[p0].Id != "" && kt[k - n] == ToExample(tail[p0]);
        assert blocks[p0 + 1] == tail[p0];
      }
    }
  }

  /** Positions are listed in increasing document order. */
  lemma {:induction false} KeptPositionsIncreasing(blocks: seq<ExampleBlock>)
    ensures forall j, k :: 0 <= j < k < |KeptPositions(blocks)| ==> KeptPositions(blocks)[j] < KeptPositions(blocks)[k]
  {
    if blocks != [] {
      var pt0 := KeptPositions(blocks[1..]);
      KeptPositionsIncreasing(blocks[1..]);
      var ps, pt := KeptPositions(blocks), Shift(pt0);
      var head: seq<nat> := if blocks[0].Id != "" then [0] else [];
      assert ps == head + pt;
      forall j, k | 0 <= j < k < |ps|
        ensures ps[j] < ps[k]
      {
        if |head| == 1 {
          assert ps[k] == pt[k - 1] == pt0[k - 1] + 1;
          if j > 0 {
            assert ps[j] == pt[j - 1] == pt0[j - 1] + 1;
          }
        } else {
          assert ps[j] == pt0[j] + 1 && ps[k] == pt0[k] + 1;
        }
      }
    }
  }

  /** Every block with a non-empty id is kept: none is skipped. */
  lemma {:induction false} KeptPositionsComplete(blocks: seq<ExampleBlock>, i: nat)
    requires i < |blocks| && blocks[i].Id != ""
    ensures i in KeptPositions(blocks)
  {
    var ps := KeptPositions(blocks);
    var head := if blocks[0].Id != "" then [0] else [];
    var pt := Shift(KeptPositions(blocks[1..]));
    assert ps == head + pt;
    if i == 0 {
      assert ps[0] == 0;
    } else {
      KeptPositionsComplete(blocks[1..], i - 1);
      var k :| 0 <= k < |KeptPositions(blocks[1..])| && KeptPositions(blocks[1..])[k] == i - 1;
      assert ps[|head| + k] == i;
    }
  }

  /** Once three blocks with an id have been seen, later blocks change nothing. */
  lemma SelectIgnoresTail(blocks: seq<ExampleBlock>, rest: seq<ExampleBlock>)
    requires |Kept(blocks)| >= MaxExamples
    ensures Select(blocks + rest) == Select(blocks)
  {
    KeptAppend(blocks, rest);
    assert (Kept(blocks) + Kept(rest))[..MaxExamples] == Kept(blocks)[..MaxExamples];
  }

  /** A block without an id may be inserted anywhere without changing the selection. */
  lemma SelectSkipsEmptyId(before: seq<ExampleBlock>, b: ExampleBlock, after: seq<ExampleBlock>)
    requires b.Id == ""
    ensures Select(before + [b] + after) == Select(before + after)
  {
    KeptAppend(before + [b], after);
    KeptAppend(before, [b]);
    KeptAppend(before, after);
    assert Kept([b]) == [] by { assert [b][1..] == []; }
  }

  /** Taking n from a concatenation: all of the first part that fits, then the rest from the second. */
  lemma TakeAppend(a: seq<Example>, b: seq<Example>, n: nat)
    ensures Take(a + b, n) == Take(a, n) + Take(b, n - |Take(a, n)|)
  {
    if |a| >= n {
      assert (a + b)[..n] == a[..n];
    } else if |a + b| > n {
      assert (a + b)[..n] == a + b[..n - |a|];
    }
  }

  /** Kept on one more block. */
  lemma KeptSnoc(blocks: seq<ExampleBlock>, b: ExampleBlock)
    ensures Kept(blocks + [b]) == Kept(blocks) + if b.Id != "" then [ToExample(b)] else []
  {
    KeptAppend(blocks, [b]);
    assert [b][1..] == [];
  }

  /**
   * One pass of the "div.example-cont" ForEach: `examples` and `count` are
   * the callback's captured slice and counter on entry. A block is taken
   * while fewer than three were counted and only when its id is non-empty.
   */
  method CollectExamples(blocks: seq<ExampleBlock>, examples0: seq<Example>, count0: nat)
    returns (examples: seq<Example>, count: nat)
    requires count0 <= MaxExamples
    ensures examples == examples0 + Take(Kept(blocks), MaxExamples - count0)
    ensures count == count0 + |Take(Kept(blocks), MaxExamples - count0)| <= MaxExamples
  {
    examples, count := examples0, count0;
    for i := 0 to |blocks|
      invariant examples == examples0 + Take(Kept(blocks[..i]), MaxExamples - count0)
      invariant count == count0 + |Take(Kept(blocks[..i]), MaxExamples - count0)| <= MaxExamples
    {
      var b := blocks[i];
      assert blocks[..i + 1] == blocks[..i] + [b];
      KeptSnoc(blocks[..i], b);
      TakeAppend(Kept(blocks[..i]), if b.Id != "" then [ToExample(b)] else [], MaxExamples - count0);
      if count < MaxExamples {
        if b.Id != "" {
          examples := examples + [Example(b.Id, b.Sentence, b.Reading, b.Meaning)];
          count := count + 1;
        }
      }
    }
    assert blocks[..|blocks|] == blocks;
  }

  /** The selection of one "#main-content" element, with the counter starting at zero. */
  method SelectExamples(blocks: seq<ExampleBlock>) returns (examples: seq<Example>)
    ensures examples == Select(blocks)
    ensures |examples| <= MaxExamples
    ensures forall k :: 0 <= k < |examples| ==> examples[k].Id != ""
  {
    var count;
    examples, count := CollectExamples(blocks, [], 0);
  }

  /** The image a detail page gives: the last "#main-content" match's, or "" when none matched. */
  function LastImage(matches: seq<MainContent>): string {
    if matches == [] then "" else matches[|matches| - 1].Image
  }

  /** The example blocks of all "#main-content" matches, in document order. */
  function AllBlocks(matches: seq<MainContent>): seq<ExampleBlock> {
    if matches == [] then [] else AllBlocks(matches[..|matches| - 1]) + matches[|matches| - 1].Blocks
  }

  /** As written: each match selects up to three examples afresh, and all are appended. */
  function AsWrittenExamples(matches: seq<MainContent>): (r: seq<Example>)
    ensures |r| <= MaxExamples * |matches|
    ensures forall k :: 0 <= k < |r| ==> r[k].Id != ""
  {
    if matches == [] then []
    else AsWrittenExamples(matches[..|matches| - 1]) + Select(matches[|matches| - 1].Blocks)
  }

  /** The note a listing row and its detail page give, with one counter for the whole page. */
  function NoteOf(row: ListingRow, matches: seq<MainContent>): (n: Note)
    ensures n.Id == row.Id && n.Url == row.Url && n.Grammar == row.Grammar
    ensures n.Reading == row.Reading && n.Meaning == row.Meaning && n.Image == LastImage(matches)
    ensures |n.Examples| <= MaxExamples
    ensures forall k :: 0 <= k < |n.Examples| ==> n.Examples[k].Id != ""
  {
    Note(row.Id, row.Url, row.Grammar, row.Reading, row.Meaning, LastImage(matches), Select(AllBlocks(matches)))
  }

  /**
   * Note assembly as main.go writes it: the callback runs once per
   * "#main-content" match, resets its counter each time, and appends to
   * the one examples slice of the row.
   */
  method BuildNoteAsWritten(row: ListingRow, matches: seq<MainContent>) returns (note: Note)
    ensures note == Note(row.Id, row.Url, row.Grammar, row.Reading, row.Meaning, LastImage(matches), AsWrittenExamples(matches))
    ensures |note.Examples| <= MaxExamples * |matches|
  {
    var image := "";
    var examples := [];
    for j := 0 to |matches|
      invariant image == LastImage(matches[..j])
      invariant examples == AsWrittenExamples(matches[..j])
      invariant |examples| <= MaxExamples * j
    {
      assert matches[..j + 1][..j] == matches[..j];
      image := matches[j].Image;
      var count := 0;
      examples, count := CollectExamples(matches[j].Blocks, examples, count);
    }
    assert matches[..|matches|] == matches;
    note := Note(row.Id, row.Url, row.Grammar, row.Reading, row.Meaning, image, examples);
  }

  /**
   * Note assembly with the counter declared beside the examples slice, so
   * that it is shared by all "#main-content" matches of the page.
   */
  method BuildNote(row: ListingRow, matches: seq<MainContent>) returns (note: Note)
    ensures note == NoteOf(row, matches)
    ensures |note.Examples| <= MaxExamples
    ensures forall k :: 0 <= k < |note.Examples| ==> note.Examples[k].Id != ""
  {
    var image := "";
    var examples := [];
    var count := 0;
    for j := 0 to |matches|
      invariant image == LastImage(matches[..j])
      invariant examples == Select(AllBlocks(matches[..j]))
      invariant count == |examples| <= MaxExamples
    {
      var m := matches[j];
      assert matches[..j + 1][..j] == matches[..j];
      KeptAppend(AllBlocks(matches[..j]), m.Blocks);
      TakeAppend(Kept(AllBlocks(matches[..j])), Kept(m.Blocks), MaxExamples);
      image := m.Image;
      examples, count := CollectExamples(m.Blocks, examples, count);
    }
    assert matches[..|matches|] == matches;
    note := Note(row.Id, row.Url, row.Grammar, row.Reading, row.Meaning, image, examples);
  }

  /** On a page with at most one "#main-content" element the two assemblies agree. */
  lemma SingleMatchAgrees(matches: seq<MainContent>)
    requires |matches| <= 1
    ensures AsWrittenExamples(matches) == Select(AllBlocks(matches))
  {
    if |matches| == 1 {
      var m := matches[0];
      assert matches[..0] == [];
      calc {
        AsWrittenExamples(matches);
        AsWrittenExamples([]) + Select(m.Blocks);
        { assert [] + Select(m.Blocks) == Select(m.Blocks); }
        Select(m.Blocks);
        { assert AllBlocks(matches) == [] + m.Blocks == m.Blocks; }
        Select(AllBlocks(matches));
      }
    }
  }

  /**
   * A detail page with two "#main-content" elements, each holding three
   * blocks with an id, yields six examples as written.
   */
  lemma DuplicateMainContentOverflows()
    ensures var b := ExampleBlock("ex1", "s", "r", "m");
            var m := MainContent("img", [b, b, b]);
            |AsWrittenExamples([m, m])| == 6
  {
    var b := ExampleBlock("ex1", "s", "r", "m");
    var m := MainContent("img", [b, b, b]);
    assert [m, m][..1] == [m] && [m][..0] == [];
    assert Kept([b]) == [ToExample(b)] by { assert [b][1..] == []; }
    assert Kept([b, b, b]) == [ToExample(b), ToExample(b), ToExample(b)] by {
      assert [b, b, b][1..] == [b, b];
      assert [b, b][1..] == [b];
    }
    assert |Select(m.Blocks)| == 3;
    assert AsWrittenExamples([m]) == AsWrittenExamples([]) + Select(m.Blocks);
    assert AsWrittenExamples([m, m]) == AsWrittenExamples([m]) + Select(m.Blocks);
  }
}
