/** Sequence and string helpers shared by both pipelines: Python's `" ".join`,
    the "each item followed by a space" packing the chunker uses, and
    flattening of nested sequences. */
module Text {

  /** Every item followed by one space, concatenated in order
      (the text `current_chunk += item + " "` accumulates). */
  function Padded(items: seq<string>): string
  {
    if items == [] then "" else Padded(items[..|items| - 1]) + items[|items| - 1] + " "
  }

  /** Python's `" ".join(items)`. */
  function JoinSpaced(items: seq<string>): string
  {
    if |items| == 0 then ""
    else if |items| == 1 then items[0]
    else JoinSpaced(items[..|items| - 1]) + " " + items[|items| - 1]
  }

  /** The elements of every inner sequence, in outer then inner order; on a
      sequence of strings, their concatenation (Python's `"".join(parts)`). */
  function Flatten<T>(xss: seq<seq<T>>): seq<T>
  {
    if xss == [] then [] else Flatten(xss[..|xss| - 1]) + xss[|xss| - 1]
  }

  /** The padded text of each group, one string per group. */
  function PaddedEach(groups: seq<seq<string>>): seq<string>
  {
    seq(|groups|, k requires 0 <= k < |groups| => Padded(groups[k]))
  }

  /** One item padded is the item and a space. */
  lemma PaddedSingle(item: string)
    ensures Padded([item]) == item + " "
  {
    assert [item][..0] == [];
  }

  /** Padding one more group adds its padded text at the end. */
  lemma PaddedEachAppend(groups: seq<seq<string>>, g: seq<string>)
    ensures PaddedEach(groups + [g]) == PaddedEach(groups) + [Padded(g)]
  {
    assert forall k :: 0 <= k < |groups| ==> (groups + [g])[k] == groups[k];
  }

  /** Padding adds exactly one character per item, so the padded text is
      empty exactly when there are no items. */
  lemma {:induction false} PaddedLength(items: seq<string>)
    ensures |Padded(items)| >= |items|
    ensures Padded(items) == "" <==> items == []
  {
    if items != [] {
      PaddedLength(items[..|items| - 1]);
    }
  }

  /** Padding distributes over concatenation of item lists. */
  lemma {:induction false} PaddedAppend(a: seq<string>, b: seq<string>)
    ensures Padded(a + b) == Padded(a) + Padded(b)
  {
    if b == [] {
      assert a + b == a;
    } else {
      assert (a + b)[..|a + b| - 1] == a + b[..|b| - 1];
      PaddedAppend(a, b[..|b| - 1]);
    }
  }

  /** A non-empty padded text starts with its first item and a space. */
  lemma PaddedHead(items: seq<string>)
    requires items != []
    ensures Padded(items) == items[0] + " " + Padded(items[1..])
  {
    assert items == [items[0]] + items[1..];
    PaddedAppend([items[0]], items[1..]);
    assert Padded([items[0]]) == Padded([]) + items[0] + " ";
  }

  /** `" ".join(items)` plus one trailing space is exactly the padded text:
      the joined text puts one space between consecutive items and none
      after the last. */
  lemma {:induction false} JoinPadded(items: seq<string>)
    requires items != []
    ensures JoinSpaced(items) + " " == Padded(items)
  {
    var init := items[..|items| - 1];
    if |items| == 1 {
      assert init == [];
    } else {
      JoinPadded(init);
    }
  }

  /** A joined text is empty exactly when there is nothing to join or the
      only item is itself empty. */
  lemma JoinEmpty(items: seq<string>)
    ensures JoinSpaced(items) == "" <==> (items == [] || items == [""])
  {
    if |items| >= 2 {
      JoinPadded(items);
      PaddedLength(items);
    }
  }

  /** Splitting a joined text before item `p`: everything earlier appears
      padded, so item `p` starts at offset `|Padded(items[..p])|`. */
  lemma {:induction false} JoinSplit(items: seq<string>, p: nat)
    requires p < |items|
    ensures JoinSpaced(items) == Padded(items[..p]) + JoinSpaced(items[p..])
  {
    var n := |items|;
    var init := items[..n - 1];
    if p == n - 1 {
      if n == 1 {
        assert items[..p] == [];
      } else {
        assert items[..p] == init;
        JoinPadded(init);
        assert items[p..] == [items[n - 1]];
      }
    } else {
      JoinSplit(init, p);
      assert init[..p] == items[..p];
      assert items[p..][..|items[p..]| - 1] == init[p..];
      assert items[p..][|items[p..]| - 1] == items[n - 1];
    }
  }

  /** In a joined text of at least two items the first item is followed by
      exactly one space and the join of the rest. */
  lemma {:induction false} JoinHead(items: seq<string>)
    requires |items| >= 2
    ensures JoinSpaced(items) == items[0] + " " + JoinSpaced(items[1..])
  {
    JoinSplit(items, 1);
    assert items[..1] == [items[0]];
    assert Padded([items[0]]) == Padded([]) + items[0] + " ";
  }

  /** Item `p` occurs in the joined text at offset `|Padded(items[..p])|`,
      followed by a single space unless it is the last item. */
  lemma JoinAt(items: seq<string>, p: nat)
    requires p < |items|
    ensures var o := |Padded(items[..p])|;
            var s := JoinSpaced(items);
            o + |items[p]| <= |s| &&
            s[o..o + |items[p]|] == items[p] &&
            (p + 1 < |items| ==> o + |items[p]| < |s| && s[o + |items[p]|] == ' ')
  {
    JoinSplit(items, p);
    var rest := items[p..];
    if |rest| >= 2 {
      JoinHead(rest);
    } else {
      assert rest == [items[p]];
    }
  }

  /** Flattening distributes over concatenation. */
  lemma {:induction false} FlattenAppend<T>(a: seq<seq<T>>, b: seq<seq<T>>)
    ensures Flatten(a + b) == Flatten(a) + Flatten(b)
  {
    if b == [] {
      assert a + b == a;
    } else {
      var init, last := b[..|b| - 1], b[|b| - 1];
      var ab := a + b;
      assert ab[..|ab| - 1] == a + init && ab[|ab| - 1] == last;
      FlattenAppend(a, init);
      calc {
        Flatten(ab);
        Flatten(a + init) + last;
        (Flatten(a) + Flatten(init)) + last;
        Flatten(a) + (Flatten(init) + last);
        Flatten(a) + Flatten(b);
      }
    }
  }

  /** Element `j` of inner sequence `k` sits in the flattened sequence right
      after everything in the inner sequences before `k`. */
  lemma {:induction false} FlattenAt<T>(xss: seq<seq<T>>, k: nat, j: nat)
    requires k < |xss| && j < |xss[k]|
    ensures |Flatten(xss[..k])| + j < |Flatten(xss)|
    ensures Flatten(xss)[|Flatten(xss[..k])| + j] == xss[k][j]
  {
    var init := xss[..|xss| - 1];
    if k == |xss| - 1 {
      assert xss[..k] == init;
    } else {
      FlattenAt(init, k, j);
      assert init[..k] == xss[..k];
    }
  }

  /** A flattened sequence is empty exactly when every inner sequence is. */
  lemma {:induction false} FlattenEmpty<T>(xss: seq<seq<T>>)
    ensures Flatten(xss) == [] <==> forall k :: 0 <= k < |xss| ==> xss[k] == []
  {
    if xss != [] {
      var init := xss[..|xss| - 1];
      FlattenEmpty(init);
      assert forall k :: 0 <= k < |init| ==> init[k] == xss[k];
    }
  }

  /** Concatenating the padded groups gives the padded flattened items:
      grouping neither adds, drops nor reorders text. */
  lemma {:induction false} ConcatPaddedEach(groups: seq<seq<string>>)
    ensures Flatten(PaddedEach(groups)) == Padded(Flatten(groups))
  {
    if groups != [] {
      var init := groups[..|groups| - 1];
      var last := groups[|groups| - 1];
      ConcatPaddedEach(init);
      assert PaddedEach(groups)[..|groups| - 1] == PaddedEach(init);
      PaddedAppend(Flatten(init), last);
    }
  }
}
