/** The greedy text chunker of the research-report pipeline (`chunk_data`).
    Scraped page texts are packed, in order, into chunks; each text enters a
    chunk as `text + " "`, and a new chunk is opened whenever the current
    chunk's length plus the next text's length is not strictly below the
    threshold. Oversized texts are never split.

    The reference definition works on groups of input texts: `Pack` is the
    fold over the inputs, `Groups` the finished partition, and `Chunks` the
    padded text of each group. `GreedyPacking` describes the same partition
    declaratively, and `GreedyPackingUnique` shows the two agree.
    `ChunkData` is the loop itself. */
module Chunker {
  import opened Text

  /** The threshold used when the caller gives none. */
  const DefaultChunkSize: nat := 3000

  /** State of the packing after a prefix of the input: the groups already
      closed and the group still being filled. */
  datatype Packing = Packing(closed: seq<seq<string>>, open: seq<string>)

  /** Packs the texts from left to right; the open group accepts the next
      text only while its padded length plus the text's length stays below
      `size`. */
  function Pack(data: seq<string>, size: nat): Packing
  {
    if data == [] then Packing([], [])
    else
      var p := Pack(data[..|data| - 1], size);
      var item := data[|data| - 1];
      if |Padded(p.open)| + |item| < size then Packing(p.closed, p.open + [item])
      else Packing(p.closed + [p.open], [item])
  }

  /** Which input texts end up in which chunk: the closed groups, then the
      open one unless it is empty. */
  function Groups(data: seq<string>, size: nat): seq<seq<string>>
  {
    var p := Pack(data, size);
    if p.open != [] then p.closed + [p.open] else p.closed
  }

  /** The chunk strings the chunker returns. */
  function Chunks(data: seq<string>, size: nat): seq<string>
  {
    PaddedEach(Groups(data, size))
  }

  /** Every text after the first in a group was admitted because the group
      so far, plus that text, stayed strictly below `size`. */
  ghost predicate Fits(group: seq<string>, size: nat)
  {
    forall j :: 1 <= j < |group| ==> |Padded(group[..j])| + |group[j]| < size
  }

  /** Every group fits. */
  ghost predicate AllFit(groups: seq<seq<string>>, size: nat)
  {
    forall k :: 0 <= k < |groups| ==> Fits(groups[k], size)
  }

  /** Every group after the first is non-empty, and no group could have
      taken the first text of the next group. */
  ghost predicate Greedy(groups: seq<seq<string>>, size: nat)
  {
    forall k :: 1 <= k < |groups| ==>
      groups[k] != [] && |Padded(groups[k - 1])| + |groups[k][0]| >= size
  }

  /** A declarative description of the chunker's grouping, independent of
      the fold: the groups partition the input in order, there are none for
      an empty input, the first group is empty exactly when the first text
      is oversized, every group fits and the packing is greedy. */
  ghost predicate GreedyPacking(data: seq<string>, size: nat, gs: seq<seq<string>>)
  {
    Flatten(gs) == data &&
    (data == [] ==> gs == []) &&
    (data != [] ==> |gs| > 0 && (gs[0] == [] <==> |data[0]| >= size)) &&
    AllFit(gs, size) &&
    Greedy(gs, size)
  }

  /** What holds of the fold after a non-empty input: the closed groups and
      the (non-empty) open group form a greedy packing, with at most one
      group per text plus one for an empty first group. */
  ghost predicate Packed(data: seq<string>, size: nat, p: Packing)
  {
    data != [] &&
    p.open != [] &&
    GreedyPacking(data, size, p.closed + [p.open]) &&
    |p.closed| + 1 <= |data| + (if |data[0]| >= size then 1 else 0)
  }

  // Facts about groups that fit and greedy group sequences.

  /** A fitting group stays fitting when a text that fits is added. */
  lemma FitsGrow(g: seq<string>, x: string, size: nat)
    requires Fits(g, size) && |Padded(g)| + |x| < size
    ensures Fits(g + [x], size)
  {
    var g' := g + [x];
    forall j | 1 <= j < |g'|
      ensures |Padded(g'[..j])| + |g'[j]| < size
    {
      if j == |g| {
        assert g'[..j] == g;
      } else {
        assert g'[..j] == g[..j];
      }
    }
  }

  /** A prefix of a fitting group fits. */
  lemma FitsPrefix(g: seq<string>, m: nat, size: nat)
    requires Fits(g, size) && m <= |g|
    ensures Fits(g[..m], size)
  {
    var g' := g[..m];
    forall j | 1 <= j < |g'|
      ensures |Padded(g'[..j])| + |g'[j]| < size
    {
      assert g'[..j] == g[..j];
    }
  }

  /** Replacing the last group by a fitting group with the same first text
      keeps the sequence fitting and greedy. */
  lemma ReplaceLast(gs: seq<seq<string>>, g: seq<string>, size: nat)
    requires |gs| > 0 && AllFit(gs, size) && Greedy(gs, size) && Fits(g, size)
    requires |gs| > 1 ==> g != [] && g[0] == gs[|gs| - 1][0]
    ensures AllFit(gs[..|gs| - 1] + [g], size) && Greedy(gs[..|gs| - 1] + [g], size)
  {
    var gs' := gs[..|gs| - 1] + [g];
    forall k | 0 <= k < |gs'|
      ensures Fits(gs'[k], size)
    {
      if k < |gs| - 1 { assert gs'[k] == gs[k]; }
    }
    forall k | 1 <= k < |gs'|
      ensures gs'[k] != [] && |Padded(gs'[k - 1])| + |gs'[k][0]| >= size
    {
      assert gs'[k - 1] == gs[k - 1];
      if k < |gs| - 1 { assert gs'[k] == gs[k]; }
    }
  }

  /** Appending a non-empty fitting group whose first text did not fit into
      the last group keeps the sequence fitting and greedy. */
  lemma AppendGroup(gs: seq<seq<string>>, g: seq<string>, size: nat)
    requires |gs| > 0 && AllFit(gs, size) && Greedy(gs, size) && Fits(g, size)
    requires g != [] && |Padded(gs[|gs| - 1])| + |g[0]| >= size
    ensures AllFit(gs + [g], size) && Greedy(gs + [g], size)
  {
    var gs' := gs + [g];
    forall k | 0 <= k < |gs'|
      ensures Fits(gs'[k], size)
    {
      if k < |gs| { assert gs'[k] == gs[k]; }
    }
    forall k | 1 <= k < |gs'|
      ensures gs'[k] != [] && |Padded(gs'[k - 1])| + |gs'[k][0]| >= size
    {
      assert gs'[k - 1] == gs[k - 1];
      if k < |gs| { assert gs'[k] == gs[k]; }
    }
  }

  /** Dropping the last group keeps the sequence fitting and greedy. */
  lemma DropLast(gs: seq<seq<string>>, size: nat)
    requires |gs| > 0 && AllFit(gs, size) && Greedy(gs, size)
    ensures AllFit(gs[..|gs| - 1], size) && Greedy(gs[..|gs| - 1], size)
  {
    var gs' := gs[..|gs| - 1];
    forall k | 0 <= k < |gs'|
      ensures Fits(gs'[k], size)
    {
      assert gs'[k] == gs[k];
    }
    forall k | 1 <= k < |gs'|
      ensures gs'[k] != [] && |Padded(gs'[k - 1])| + |gs'[k][0]| >= size
    {
      assert gs'[k - 1] == gs[k - 1] && gs'[k] == gs[k];
    }
  }

  // The fold.

  /** A single text that fits forms the only group. */
  lemma PackFirstFits(data: seq<string>, size: nat)
    requires |data| == 1 && |data[0]| < size
    ensures Packed(data, size, Packing([], data))
  {
    var x := data[0];
    var g := [[x]];
    assert data == [x];
    assert [] + [data] == g && g[..0] == [];
    assert Flatten(g) == Flatten(g[..0]) + [x];
    assert Fits([x], size);
    assert AllFit(g, size);
    assert Greedy(g, size);
    assert GreedyPacking(data, size, g);
  }

  /** A single text that reaches the threshold on its own follows an empty
      first group. */
  lemma PackFirstAlone(data: seq<string>, size: nat)
    requires |data| == 1 && |data[0]| >= size
    ensures Packed(data, size, Packing([[]], data))
  {
    var x := data[0];
    var g := [[], [x]];
    assert data == [x];
    assert [[]] + [data] == g && g[..1] == [[]] && g[..1][..0] == [];
    assert Flatten(g[..1]) == [];
    assert Flatten(g) == Flatten(g[..1]) + [x];
    assert Fits([], size) && Fits([x], size);
    assert AllFit(g, size);
    assert Padded(g[0]) == "";
    assert Greedy(g, size);
    assert GreedyPacking(data, size, g);
  }

  /** The last text fits into the open group of the shorter input. */
  lemma PackGrow(data: seq<string>, size: nat, p: Packing)
    requires |data| >= 2 && Packed(data[..|data| - 1], size, p)
    requires |Padded(p.open)| + |data[|data| - 1]| < size
    ensures Packed(data, size, Packing(p.closed, p.open + [data[|data| - 1]]))
  {
    var init, item := data[..|data| - 1], data[|data| - 1];
    assert data == init + [item];
    var g := p.closed + [p.open];
    var o := p.open + [item];
    var g' := p.closed + [o];
    assert g[..|g| - 1] == p.closed && g[|g| - 1] == p.open;
    assert g'[..|g'| - 1] == p.closed && g'[|g'| - 1] == o;
    assert Flatten(g') == Flatten(p.closed) + o;
    assert Flatten(g) == Flatten(p.closed) + p.open;
    assert g' == g[..|g| - 1] + [o];
    FitsGrow(p.open, item, size);
    ReplaceLast(g, o, size);
    assert data[0] == init[0];
    assert g'[0] == [] <==> g[0] == [];
  }

  /** The last text does not fit: the open group of the shorter input is
      closed and the text opens a new one. */
  lemma PackFlush(data: seq<string>, size: nat, p: Packing)
    requires |data| >= 2 && Packed(data[..|data| - 1], size, p)
    requires |Padded(p.open)| + |data[|data| - 1]| >= size
    ensures Packed(data, size, Packing(p.closed + [p.open], [data[|data| - 1]]))
  {
    var init, item := data[..|data| - 1], data[|data| - 1];
    assert data == init + [item];
    var g := p.closed + [p.open];
    FlattenAppend(g, [[item]]);
    assert Flatten([[item]]) == [item] by {
      assert [[item]][..0] == [];
    }
    assert Fits([item], size);
    AppendGroup(g, [item], size);
    assert data[0] == init[0];
    assert (g + [[item]])[0] == g[0];
  }

  /** The fold invariant: after any non-empty input, the closed groups and
      the non-empty open group form a greedy packing of that input. */
  lemma {:induction false} PackInvariant(data: seq<string>, size: nat)
    requires data != []
    ensures Packed(data, size, Pack(data, size))
  {
    var init, last := data[..|data| - 1], data[|data| - 1];
    if |data| == 1 {
      assert init == [];
      assert Pack(init, size) == Packing([], []) && Padded([]) == "";
      assert [] + [last] == data;
      if |last| < size {
        assert Pack(data, size) == Packing([], data);
        PackFirstFits(data, size);
      } else {
        assert Pack(data, size) == Packing([[]], data);
        PackFirstAlone(data, size);
      }
    } else {
      PackInvariant(init, size);
      var p := Pack(init, size);
      if |Padded(p.open)| + |last| < size {
        assert Pack(data, size) == Packing(p.closed, p.open + [last]);
        PackGrow(data, size, p);
      } else {
        assert Pack(data, size) == Packing(p.closed + [p.open], [last]);
        PackFlush(data, size, p);
      }
    }
  }

  /** For a non-empty input the open group is never empty (the last text
      always ends up in it), so the final flush always emits it and the
      groups are the closed ones followed by the open one. */
  lemma GroupsSplit(data: seq<string>, size: nat)
    requires data != []
    ensures Pack(data, size).open != []
    ensures Groups(data, size) == Pack(data, size).closed + [Pack(data, size).open]
  {
  }

  // What the chunker's result satisfies.

  /** The fold's groups are a greedy packing. */
  lemma GroupsAreGreedyPacking(data: seq<string>, size: nat)
    ensures GreedyPacking(data, size, Groups(data, size))
  {
    if data != [] {
      GroupsSplit(data, size);
      PackInvariant(data, size);
    }
  }

  /** The groups partition the input: flattening them gives back exactly the
      input texts, in order, none split, dropped or repeated. */
  lemma GroupsPartition(data: seq<string>, size: nat)
    ensures Flatten(Groups(data, size)) == data
  {
    if data != [] {
      GroupsSplit(data, size);
      PackInvariant(data, size);
    }
  }

  /** Concatenating all chunks gives exactly every input text followed by a
      space, in input order. */
  lemma ChunksConcat(data: seq<string>, size: nat)
    ensures Flatten(Chunks(data, size)) == Padded(data)
  {
    GroupsPartition(data, size);
    ConcatPaddedEach(Groups(data, size));
  }

  /** There are no chunks exactly when there are no input texts. */
  lemma ChunksEmpty(data: seq<string>, size: nat)
    ensures Chunks(data, size) == [] <==> data == []
  {
    if data != [] {
      GroupsSplit(data, size);
    }
  }

  /** Every chunk is within the threshold (at most `size`, since the space
      is added after the strict test) or is a single input text plus its
      trailing space. */
  lemma ChunkBound(data: seq<string>, size: nat)
    ensures var cs := Chunks(data, size);
            forall k :: 0 <= k < |cs| ==>
              |cs[k]| <= size || exists i :: 0 <= i < |data| && cs[k] == data[i] + " "
  {
    var cs := Chunks(data, size);
    var gs := Groups(data, size);
    GroupsAreGreedyPacking(data, size);
    forall k | 0 <= k < |cs|
      ensures |cs[k]| <= size || exists i :: 0 <= i < |data| && cs[k] == data[i] + " "
    {
      assert Fits(gs[k], size);
      if |gs[k]| == 1 {
        SingletonChunk(gs, k);
      } else if |gs[k]| >= 2 {
        FitsBound(gs[k], size);
      } else {
        assert cs[k] == "";
      }
    }
  }

  /** A group of two or more texts that fits is within the threshold. */
  lemma FitsBound(g: seq<string>, size: nat)
    requires |g| >= 2 && Fits(g, size)
    ensures |Padded(g)| <= size
  {
    var n := |g| - 1;
    assert g[..n] == g[..|g| - 1];
    assert |Padded(g[..n])| + |g[n]| < size;
  }

  /** A one-text group's chunk is that input text plus a space. */
  lemma SingletonChunk(gs: seq<seq<string>>, k: nat)
    requires k < |gs| && |gs[k]| == 1
    ensures var i := |Flatten(gs[..k])|;
            i < |Flatten(gs)| && Padded(gs[k]) == Flatten(gs)[i] + " "
  {
    FlattenAt(gs, k, 0);
    var g := gs[k];
    assert g == [g[0]] && g[..0] == [];
    assert Padded(g) == Padded([]) + g[0] + " ";
  }

  /** Only the first group can be empty, and it is empty exactly when the
      first input text alone reaches the threshold. */
  lemma GroupsShape(data: seq<string>, size: nat)
    ensures var gs := Groups(data, size);
            (|gs| > 0 && gs[0] == [] <==> |data| > 0 && |data[0]| >= size) &&
            (forall k :: 1 <= k < |gs| ==> gs[k] != [])
  {
    GroupsAreGreedyPacking(data, size);
  }

  /** A non-empty padded text ends with a space. */
  lemma PaddedEndsWithSpace(items: seq<string>)
    requires items != []
    ensures Padded(items) != "" && Padded(items)[|Padded(items)| - 1] == ' '
  {
  }

  /** Only the first chunk can be empty, and it is empty exactly when the
      first input text alone reaches the threshold; every non-empty chunk
      ends with a space. */
  lemma ChunkShape(data: seq<string>, size: nat)
    ensures var cs := Chunks(data, size);
            (|cs| > 0 && cs[0] == "" <==> |data| > 0 && |data[0]| >= size) &&
            (forall k :: 1 <= k < |cs| ==> cs[k] != "") &&
            (forall k :: 0 <= k < |cs| && cs[k] != "" ==> cs[k][|cs[k]| - 1] == ' ')
  {
    var cs := Chunks(data, size);
    var gs := Groups(data, size);
    GroupsShape(data, size);
    forall k | 0 <= k < |cs|
      ensures cs[k] == "" <==> gs[k] == []
      ensures cs[k] != "" ==> cs[k][|cs[k]| - 1] == ' '
    {
      PaddedLength(gs[k]);
      if gs[k] != [] {
        PaddedEndsWithSpace(gs[k]);
      }
    }
  }

  /** At most one chunk per input text, plus one when the first text is
      oversized and leaves an empty first chunk. */
  lemma ChunkCount(data: seq<string>, size: nat)
    ensures |Chunks(data, size)| <= |data| + 1
    ensures data == [] || |data[0]| < size ==> |Chunks(data, size)| <= |data|
  {
    if data != [] {
      GroupsSplit(data, size);
      PackInvariant(data, size);
    }
  }

  /** The packing is greedy: each chunk's length plus the length of the text
      that opens the next chunk reaches the threshold, and the next chunk
      starts with that text and a space. */
  lemma ChunksGreedy(data: seq<string>, size: nat)
    ensures var cs := Chunks(data, size);
            var gs := Groups(data, size);
            forall k :: 1 <= k < |cs| ==>
              gs[k] != [] &&
              |cs[k - 1]| + |gs[k][0]| >= size &&
              gs[k][0] + " " <= cs[k]
  {
    var cs := Chunks(data, size);
    var gs := Groups(data, size);
    GroupsAreGreedyPacking(data, size);
    forall k | 1 <= k < |cs|
      ensures gs[k] != [] && |cs[k - 1]| + |gs[k][0]| >= size
      ensures gs[k][0] + " " <= cs[k]
    {
      PaddedHead(gs[k]);
    }
  }

  /** Within a chunk, every text after the first was admitted because the
      chunk so far plus that text stayed strictly below the threshold. */
  lemma ChunksFit(data: seq<string>, size: nat)
    ensures var gs := Groups(data, size);
            forall k, j :: 0 <= k < |gs| && 1 <= j < |gs[k]| ==>
              |Padded(gs[k][..j])| + |gs[k][j]| < size
  {
    var gs := Groups(data, size);
    GroupsAreGreedyPacking(data, size);
    forall k, j | 0 <= k < |gs| && 1 <= j < |gs[k]|
      ensures |Padded(gs[k][..j])| + |gs[k][j]| < size
    {
      assert Fits(gs[k], size);
    }
  }

  // Uniqueness of the greedy packing.

  /** In a greedy packing of a non-empty input the last group is not empty. */
  lemma LastGroupNonEmpty(data: seq<string>, size: nat, gs: seq<seq<string>>)
    requires data != [] && GreedyPacking(data, size, gs)
    ensures gs[|gs| - 1] != []
  {
    if |gs| == 1 {
      assert Flatten(gs) == Flatten(gs[..0]) + gs[0];
    }
  }

  /** A grouping of an input whose last group is a group of the input
      without its last text, grown by that text because it fits, is the
      chunker's grouping. */
  lemma GroupsGrow(data: seq<string>, gs: seq<seq<string>>, size: nat)
    requires |data| >= 2 && |gs| > 0
    requires var last := gs[|gs| - 1];
             last != [] && last[|last| - 1] == data[|data| - 1] &&
             gs[..|gs| - 1] + [last[..|last| - 1]] == Groups(data[..|data| - 1], size) &&
             |Padded(last[..|last| - 1])| + |data[|data| - 1]| < size
    ensures gs == Groups(data, size)
  {
    var init, x := data[..|data| - 1], data[|data| - 1];
    var front, last := gs[..|gs| - 1], gs[|gs| - 1];
    var shorter := last[..|last| - 1];
    var p := Pack(init, size);
    GroupsSplit(init, size);
    assert front + [shorter] == p.closed + [p.open];
    assert |p.closed| == |front|;
    assert p.closed == (front + [shorter])[..|front|] == front;
    assert p.open == shorter;
    assert Pack(data, size) == Packing(front, shorter + [x]);
    assert Groups(data, size) == front + [shorter + [x]];
    assert last == shorter + [x];
    assert gs == front + [last];
  }

  /** A grouping of an input that ends with a new group holding only the
      last text, which did not fit, after a grouping of the rest of the
      input, is the chunker's grouping. */
  lemma GroupsFlush(data: seq<string>, gs: seq<seq<string>>, size: nat)
    requires |data| >= 2 && |gs| >= 2
    requires gs[..|gs| - 1] == Groups(data[..|data| - 1], size) && gs[|gs| - 1] == [data[|data| - 1]]
    requires |Padded(gs[|gs| - 2])| + |data[|data| - 1]| >= size
    ensures gs == Groups(data, size)
  {
    var init, x := data[..|data| - 1], data[|data| - 1];
    var front := gs[..|gs| - 1];
    var p := Pack(init, size);
    GroupsSplit(init, size);
    assert front == p.closed + [p.open];
    assert gs[|gs| - 2] == front[|front| - 1] == p.open;
    assert Pack(data, size) == Packing(front, [x]);
    assert Groups(data, size) == front + [[x]];
    assert gs == front + [[x]];
  }

  /** A grouping of one text whose later groups are non-empty is that text
      alone, or that text after one empty group. */
  lemma GroupingsOfOne(data: seq<string>, gs: seq<seq<string>>)
    requires |data| == 1 && |gs| > 0 && Flatten(gs) == data
    requires forall k :: 1 <= k < |gs| ==> gs[k] != []
    ensures gs == [data] || gs == [[], data]
  {
    var n := |gs|;
    var front := gs[..n - 1];
    assert Flatten(gs) == Flatten(front) + gs[n - 1];
    if n == 1 {
      assert front == [] && Flatten(front) == [];
      assert gs[0] == data;
      assert gs == [gs[0]];
    } else {
      assert |gs[n - 1]| >= 1;
      assert Flatten(front) == [];
      FlattenEmpty(front);
      assert front[n - 2] == [];
      assert n == 2;
      assert gs[0] == [] && gs[1] == data;
      assert gs == [gs[0], gs[1]];
    }
  }

  /** The chunker's grouping of one text. */
  lemma GroupsOfOne(data: seq<string>, size: nat)
    requires |data| == 1
    ensures Groups(data, size) == if |data[0]| < size then [data] else [[], data]
  {
    assert data[..0] == [];
    assert Pack([], size) == Packing([], []) && Padded([]) == "";
    assert [] + [data[0]] == data;
  }

  /** Uniqueness for a single text. */
  lemma UniqueSingle(data: seq<string>, size: nat, gs: seq<seq<string>>)
    requires |data| == 1 && GreedyPacking(data, size, gs)
    ensures gs == Groups(data, size)
  {
    assert forall k :: 1 <= k < |gs| ==> gs[k] != [];
    GroupingsOfOne(data, gs);
    GroupsOfOne(data, size);
  }

  /** Dropping the last text of a greedy packing whose last group holds
      several texts leaves a greedy packing of the shorter input. */
  lemma ShrinkLastGroup(data: seq<string>, size: nat, gs: seq<seq<string>>)
    requires data != [] && GreedyPacking(data, size, gs)
    requires |gs[|gs| - 1]| >= 2
    ensures var last := gs[|gs| - 1];
            var shorter := last[..|last| - 1];
            GreedyPacking(data[..|data| - 1], size, gs[..|gs| - 1] + [shorter]) &&
            last == shorter + [data[|data| - 1]] &&
            last[|last| - 1] == data[|data| - 1] &&
            |Padded(shorter)| + |data[|data| - 1]| < size
  {
    var n := |gs|;
    var last := gs[n - 1];
    var shorter := last[..|last| - 1];
    var gs' := gs[..n - 1] + [shorter];
    var init := data[..|data| - 1];
    assert gs'[..n - 1] == gs[..n - 1];
    assert Flatten(gs) == Flatten(gs[..n - 1]) + last;
    assert Flatten(gs') == Flatten(gs[..n - 1]) + shorter;
    assert last == shorter + [last[|last| - 1]];
    assert Flatten(gs') == init;
    assert init[0] == data[0];
    assert Fits(last, size);
    FitsPrefix(last, |last| - 1, size);
    ReplaceLast(gs, shorter, size);
  }

  /** Dropping a last group that holds only the last text leaves a greedy
      packing of the shorter input. */
  lemma DropLastGroup(data: seq<string>, size: nat, gs: seq<seq<string>>)
    requires |data| >= 2 && GreedyPacking(data, size, gs)
    requires |gs[|gs| - 1]| == 1
    ensures GreedyPacking(data[..|data| - 1], size, gs[..|gs| - 1])
    ensures gs[|gs| - 1] == [data[|data| - 1]]
    ensures |gs| >= 2 && |Padded(gs[|gs| - 2])| + |data[|data| - 1]| >= size
  {
    var n := |gs|;
    var gs' := gs[..n - 1];
    var init := data[..|data| - 1];
    assert Flatten(gs) == Flatten(gs') + gs[n - 1];
    assert data == init + [data[|data| - 1]];
    assert Flatten(gs') == init;
    assert init[0] == data[0];
    assert Greedy(gs, size);
    DropLast(gs, size);
  }

  /** The greedy packing of an input is unique: any grouping with the
      properties of `GreedyPacking` is the one the chunker computes. */
  lemma {:induction false} GreedyPackingUnique(data: seq<string>, size: nat, gs: seq<seq<string>>)
    requires GreedyPacking(data, size, gs)
    ensures gs == Groups(data, size)
    decreases |data|, 1
  {
    if data == [] {
      assert Pack(data, size) == Packing([], []);
    } else if |data| == 1 {
      UniqueSingle(data, size, gs);
    } else {
      LastGroupNonEmpty(data, size, gs);
      if |gs[|gs| - 1]| >= 2 {
        UniqueGrow(data, size, gs);
      } else {
        UniqueFlush(data, size, gs);
      }
    }
  }

  /** Uniqueness when the last text joined the group before it. */
  lemma {:induction false} UniqueGrow(data: seq<string>, size: nat, gs: seq<seq<string>>)
    requires |data| >= 2 && |gs| > 0 && GreedyPacking(data, size, gs)
    requires |gs[|gs| - 1]| >= 2
    ensures gs == Groups(data, size)
    decreases |data|, 0
  {
    var last := gs[|gs| - 1];
    ShrinkLastGroup(data, size, gs);
    GreedyPackingUnique(data[..|data| - 1], size, gs[..|gs| - 1] + [last[..|last| - 1]]);
    GroupsGrow(data, gs, size);
  }

  /** Uniqueness when the last text opened a group of its own. */
  lemma {:induction false} UniqueFlush(data: seq<string>, size: nat, gs: seq<seq<string>>)
    requires |data| >= 2 && |gs| > 0 && GreedyPacking(data, size, gs)
    requires |gs[|gs| - 1]| == 1
    ensures gs == Groups(data, size)
    decreases |data|, 0
  {
    DropLastGroup(data, size, gs);
    GreedyPackingUnique(data[..|data| - 1], size, gs[..|gs| - 1]);
    GroupsFlush(data, gs, size);
  }

  // The loop.

  /** `chunk_data`: the loop that grows `current` or flushes it into
      `chunks`, followed by the final flush of a non-empty `current`. */
  method ChunkData(data: seq<string>, chunkSize: nat) returns (chunks: seq<string>)
    ensures chunks == Chunks(data, chunkSize)
  {
    chunks := [];
    var current := "";
    ghost var closed: seq<seq<string>>, open: seq<string> := [], [];
    for i := 0 to |data|
      invariant Pack(data[..i], chunkSize) == Packing(closed, open)
      invariant chunks == PaddedEach(closed)
      invariant current == Padded(open)
    {
      var item := data[i];
      PackPrefixStep(data, i, chunkSize);
      if |current| + |item| < chunkSize {
        current := current + item + " ";
        open := open + [item];
      } else {
        PaddedEachAppend(closed, open);
        chunks := chunks + [current];
        current := item + " ";
        closed, open := closed + [open], [item];
        PaddedSingle(item);
      }
    }
    assert data[..|data|] == data;
    PaddedLength(open);
    if current != "" {
      PaddedEachAppend(closed, open);
      chunks := chunks + [current];
    }
  }

  /** The fold over a prefix one text longer takes one grow or flush step. */
  lemma PackPrefixStep(data: seq<string>, i: nat, size: nat)
    requires i < |data|
    ensures var p := Pack(data[..i], size);
            Pack(data[..i + 1], size) ==
              if |Padded(p.open)| + |data[i]| < size then Packing(p.closed, p.open + [data[i]])
              else Packing(p.closed + [p.open], [data[i]])
  {
    assert data[..i + 1][..i] == data[..i];
  }

  /** Chunking one text gives that text plus a space, preceded by an empty
      chunk when the text reaches the threshold; so re-chunking a chunk never
      gives the same chunk back. */
  lemma SingleTextChunks(c: string, size: nat)
    ensures Chunks([c], size) == if |c| < size then [c + " "] else ["", c + " "]
  {
    GroupsOfOne([c], size);
    PaddedSingle(c);
    assert Padded([]) == "";
  }

  /** Text made of `n` copies of `c`. */
  function Repeat(c: char, n: nat): string
  {
    seq(n, i => c)
  }

  /** A hundred a's and a hundred b's share the first chunk; five thousand
      c's exceed the default threshold and form a second chunk alone. */
  lemma ChunkExample()
    ensures var a, b, c := Repeat('a', 100), Repeat('b', 100), Repeat('c', 5000);
            Chunks([a, b, c], DefaultChunkSize) == [a + " " + b + " ", c + " "]
  {
    var a, b, c := Repeat('a', 100), Repeat('b', 100), Repeat('c', 5000);
    var d := [a, b, c];
    assert d[..2] == [a, b] && d[..2][..1] == [a] && d[..1] == [a] && [a][..0] == [];
    assert Pack([a], DefaultChunkSize) == Packing([], [a]);
    assert Padded([a]) == a + " ";
    assert Pack([a, b], DefaultChunkSize) == Packing([], [a, b]);
    assert Padded([a, b]) == a + " " + b + " ";
    assert Pack(d, DefaultChunkSize) == Packing([[a, b]], [c]);
    assert [c][..0] == [] && Padded([c]) == c + " ";
    assert Groups(d, DefaultChunkSize) == [[a, b], [c]];
    var cs := Chunks(d, DefaultChunkSize);
    assert |cs| == 2 && cs[0] == Padded([a, b]) && cs[1] == Padded([c]);
  }
}
