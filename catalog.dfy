/** The catalog side of the question-answering pipeline: capping the loaded
    catalog to its first items and turning each catalog item into the one
    document text that gets embedded. */
module Catalog {
  import opened Text

  /** One attribute mapping of a catalog item: its (key, value) pairs in
      insertion order. */
  type Attribute = seq<(string, string)>

  /** A catalog item as read from the catalog file. */
  datatype Item = Item(title: string, brand: string, description: string, attributes: seq<Attribute>)

  /** The cap used when no `MAX_CATALOG_SIZE` setting is present. */
  const DefaultCap: int := 100

  /** A configuration setting that may be absent. */
  datatype Option<T> = None | Some(value: T)

  /** The cap in effect: the setting when present, otherwise the default. */
  function CapSetting(setting: Option<int>): int
  {
    match setting
    case Some(cap) => cap
    case None => DefaultCap
  }

  /** Python's `data[:cap]`: a non-negative cap keeps the first `cap` items
      (all of them when there are fewer); a negative cap drops `-cap` items
      from the end. */
  function Truncate<T>(data: seq<T>, cap: int): (r: seq<T>)
    ensures cap >= 0 ==> |r| == (if cap < |data| then cap else |data|)
    ensures cap < 0 ==> |r| == (if |data| + cap > 0 then |data| + cap else 0)
    ensures forall k :: 0 <= k < |r| ==> r[k] == data[k]
    ensures cap >= |data| ==> r == data
  {
    var stop := if cap >= 0 then (if cap < |data| then cap else |data|)
                else (if |data| + cap > 0 then |data| + cap else 0);
    data[..stop]
  }

  /** Every (key, value) pair of every attribute mapping, in attribute-list
      order and then mapping order. */
  function Pairs(attributes: seq<Attribute>): seq<(string, string)>
  {
    Flatten(attributes)
  }

  /** The `"{key} {value}"` text of one pair. */
  function PairText(pair: (string, string)): string
  {
    pair.0 + " " + pair.1
  }

  /** The pair texts of a list of pairs: each is its pair's key, exactly
      one space, then its value. */
  function PairTexts(pairs: seq<(string, string)>): (texts: seq<string>)
    ensures |texts| == |pairs|
    ensures forall p :: 0 <= p < |pairs| ==>
              var (key, value) := pairs[p];
              |texts[p]| == |key| + 1 + |value| &&
              texts[p][..|key|] == key && texts[p][|key|] == ' ' && texts[p][|key| + 1..] == value
  {
    seq(|pairs|, p requires 0 <= p < |pairs| => PairText(pairs[p]))
  }

  /** `attribute_text`: the pair texts joined with single spaces. */
  function AttributeText(attributes: seq<Attribute>): string
  {
    JoinSpaced(PairTexts(Pairs(attributes)))
  }

  /** The page content of an item's document. */
  function DocumentText(item: Item): string
  {
    item.title + " " + item.brand + " " + item.description + " " + AttributeText(item.attributes)
  }

  /** The document loop: one text per catalog item, in catalog order. */
  method BuildDocuments(data: seq<Item>) returns (texts: seq<string>)
    ensures |texts| == |data|
    ensures forall k :: 0 <= k < |data| ==> texts[k] == DocumentText(data[k])
  {
    texts := [];
    for i := 0 to |data|
      invariant |texts| == i
      invariant forall k :: 0 <= k < i ==> texts[k] == DocumentText(data[k])
    {
      var text := DocumentText(data[i]);
      texts := texts + [text];
    }
  }

  /** The catalog stage of `main`: cap the loaded catalog by the setting
      (or the default) and build one document text per remaining item. */
  method PrepareCatalog(data: seq<Item>, setting: Option<int>) returns (texts: seq<string>)
    ensures var kept := Truncate(data, CapSetting(setting));
            |texts| == |kept| &&
            forall k :: 0 <= k < |texts| ==> texts[k] == DocumentText(data[k])
  {
    var kept := Truncate(data, CapSetting(setting));
    texts := BuildDocuments(kept);
  }

  /** Without a setting the first hundred items are kept, or the whole
      catalog when it is smaller. */
  lemma DefaultCatalogCap<T>(data: seq<T>)
    ensures var kept := Truncate(data, CapSetting(None));
            (|data| <= 100 ==> kept == data) &&
            (|data| > 100 ==> kept == data[..100])
  {
  }

  /** The pairs appear in attribute-list order and then mapping order: the
      `j`-th pair of mapping `m` comes right after all pairs of the earlier
      mappings. */
  lemma PairOrder(attributes: seq<Attribute>, m: nat, j: nat)
    requires m < |attributes| && j < |attributes[m]|
    ensures var p := |Pairs(attributes[..m])| + j;
            p < |Pairs(attributes)| && Pairs(attributes)[p] == attributes[m][j]
  {
    FlattenAt(attributes, m, j);
  }

  /** The attribute text is empty exactly when no mapping holds a pair, and
      then the document text ends with the space after the description. */
  lemma AttributeTextEmpty(item: Item)
    ensures AttributeText(item.attributes) == "" <==>
            forall m :: 0 <= m < |item.attributes| ==> item.attributes[m] == []
    ensures AttributeText(item.attributes) == "" ==>
            DocumentText(item) == item.title + " " + item.brand + " " + item.description + " "
  {
    var attributes := item.attributes;
    var pairs := Pairs(attributes);
    var texts := PairTexts(pairs);
    FlattenEmpty(attributes);
    JoinEmpty(texts);
    assert texts == [] <==> pairs == [];
    if |texts| == 1 {
      assert |texts[0]| == |pairs[0].0| + 1 + |pairs[0].1|;
      assert texts != [""];
    }
    var head := item.title + " " + item.brand + " " + item.description + " ";
    assert DocumentText(item) == head + AttributeText(attributes);
    if AttributeText(attributes) == "" {
      assert head + "" == head;
    }
  }

  /** The key and value of pair `p` stand next to each other in the
      attribute text, separated by exactly one space, at the offset given by
      the padded pair texts before it; the pair text is followed by a space
      unless it is the last one. */
  lemma PairAdjacent(attributes: seq<Attribute>, p: nat)
    requires p < |Pairs(attributes)|
    ensures var (key, value) := Pairs(attributes)[p];
            var texts := PairTexts(Pairs(attributes));
            var s := AttributeText(attributes);
            var o := |Padded(texts[..p])|;
            o + |key| + 1 + |value| <= |s| &&
            s[o..o + |key|] == key && s[o + |key|] == ' ' &&
            s[o + |key| + 1..o + |key| + 1 + |value|] == value &&
            (p + 1 < |texts| ==> o + |key| + 1 + |value| < |s| && s[o + |key| + 1 + |value|] == ' ')
  {
    var texts := PairTexts(Pairs(attributes));
    var pair := Pairs(attributes)[p];
    JoinAt(texts, p);
    var s := AttributeText(attributes);
    var o := |Padded(texts[..p])|;
    assert texts[p] == pair.0 + " " + pair.1;
    SpacedParts(s, o, pair.0, pair.1);
  }

  /** A slice holding `a + " " + b` holds `a`, then a space, then `b`. */
  lemma SpacedParts(s: string, o: nat, a: string, b: string)
    requires o + |a| + 1 + |b| <= |s| && s[o..o + |a| + 1 + |b|] == a + " " + b
    ensures s[o..o + |a|] == a && s[o + |a|] == ' ' && s[o + |a| + 1..o + |a| + 1 + |b|] == b
  {
    var t := s[o..o + |a| + 1 + |b|];
    assert s[o..o + |a|] == t[..|a|];
    assert s[o + |a|] == t[|a|];
    assert s[o + |a| + 1..o + |a| + 1 + |b|] == t[|a| + 1..];
  }

  /** The document text is the title, brand, description and every pair
      text joined with single spaces; when the item has no pairs, the join
      of the three fields is followed by one space and nothing else. */
  lemma DocumentAsJoin(item: Item)
    ensures var fields := [item.title, item.brand, item.description];
            var texts := PairTexts(Pairs(item.attributes));
            DocumentText(item) ==
              if texts == [] then JoinSpaced(fields) + " " else JoinSpaced(fields + texts)
  {
    var fields := [item.title, item.brand, item.description];
    var texts := PairTexts(Pairs(item.attributes));
    var t, b, d := item.title, item.brand, item.description;
    assert fields[..2] == [t, b] && [t, b][..1] == [t] && [t][..0] == [];
    assert Padded([t]) == t + " ";
    assert Padded([t, b]) == t + " " + b + " ";
    assert JoinSpaced([t, b]) == t + " " + b;
    assert Padded(fields) == item.title + " " + item.brand + " " + item.description + " ";
    assert JoinSpaced(fields) == item.title + " " + item.brand + " " + item.description;
    if texts != [] {
      JoinSplit(fields + texts, |fields|);
      assert (fields + texts)[..|fields|] == fields;
      assert (fields + texts)[|fields|..] == texts;
    }
  }
}
