/** The numbered legend of the biplot (analise_correspondencia.py, lines
    85-93 and 129-132): row category number i (from 0) is drawn as the label
    `str(i + 1)`, `legend_map` sends each label back to its category, and the
    legend text lists one line per label. */
module Legend {
  import opened Strings

  /** A Python `dict` from strings to strings: its keys in insertion order and the mapping. */
  datatype Dict = Dict(keys: seq<string>, entries: map<string, string>)

  predicate ValidDict(d: Dict)
  {
    && (forall i, j :: 0 <= i < j < |d.keys| ==> d.keys[i] != d.keys[j])
    && d.entries.Keys == set k | k in d.keys
  }

  const EmptyDict: Dict := Dict([], map[])

  /** `d[k] = v`: a new key goes to the end of the order, an existing key keeps its place. */
  function Put(d: Dict, k: string, v: string): (r: Dict)
    requires ValidDict(d)
    ensures ValidDict(r)
    ensures r.entries == d.entries[k := v]
    ensures r.keys == if k in d.entries then d.keys else d.keys + [k]
  {
    if k in d.entries then Dict(d.keys, d.entries[k := v]) else Dict(d.keys + [k], d.entries[k := v])
  }

  /** `d.items()`, in insertion order. */
  function DictItems(d: Dict): (r: seq<(string, string)>)
    requires ValidDict(d)
    ensures |r| == |d.keys|
  {
    seq(|d.keys|, i requires 0 <= i < |d.keys| => (d.keys[i], d.entries[d.keys[i]]))
  }

  /** The label of the row category at position `i`: `str(i + 1)`. */
  function Label(i: nat): (r: string)
    ensures forall k :: 0 <= k < |r| ==> IsDigit(r[k])
  {
    NatToString(i + 1)
  }

  /** Reading a label back as a number gives the position plus one. */
  lemma LabelRoundTrip(i: nat)
    ensures ParseDecimal(Label(i)) == i + 1
  {
    ParseNatToString(i + 1);
  }

  /** Different positions get different labels. */
  lemma LabelsDistinct(i: nat, j: nat)
    requires i != j
    ensures Label(i) != Label(j)
  {
    if Label(i) == Label(j) {
      NatToStringInjective(i + 1, j + 1);
    }
  }

  /** Lines 85-93: `point_labels` gets the label of every row category, in
      order, and `legend_map` sends each label to its category. The labels are
      pairwise distinct, so no entry of `legend_map` is ever overwritten and
      its items come out in index order. */
  method NumberCategories(index: seq<string>) returns (pointLabels: seq<string>, legendMap: Dict)
    ensures |pointLabels| == |index|
    ensures forall i :: 0 <= i < |index| ==> pointLabels[i] == Label(i)
    ensures forall i, j :: 0 <= i < j < |pointLabels| ==> pointLabels[i] != pointLabels[j]
    ensures ValidDict(legendMap) && legendMap.keys == pointLabels
    ensures forall i :: 0 <= i < |index| ==> legendMap.entries[pointLabels[i]] == index[i]
    ensures DictItems(legendMap) == seq(|index|, i requires 0 <= i < |index| => (Label(i), index[i]))
  {
    pointLabels := [];
    legendMap := EmptyDict;
    for i := 0 to |index|
      invariant |pointLabels| == i
      invariant forall j :: 0 <= j < i ==> pointLabels[j] == Label(j)
      invariant ValidDict(legendMap) && legendMap.keys == pointLabels
      invariant forall j :: 0 <= j < i ==> legendMap.entries[pointLabels[j]] == index[j]
    {
      var numLabel := Label(i);
      forall j | 0 <= j < i ensures pointLabels[j] != numLabel {
        LabelsDistinct(j, i);
      }
      legendMap := Put(legendMap, numLabel, index[i]);
      pointLabels := pointLabels + [numLabel];
    }
  }

  /** Line 130: the heading of the legend for the first question `col1`: a
      newline, the heading line naming `col1`, and an empty line. */
  function Header(col1: string): (r: string)
    ensures |r| == |col1| + 37 && r[0] == '\n' && r[|r| - 2..] == "\n\n"
    ensures r[32..32 + |col1|] == col1
  {
    "\nLegenda das Categorias de $\\bf{" + col1 + "}$:\n\n"
  }

  /** Line 132 without its newline: the label in bold, then the category.
      The line holds a newline only when the label or the category does. */
  function LineOf(entry: (string, string)): (r: string)
    ensures |r| == |entry.0| + |entry.1| + 9
    ensures r[5..5 + |entry.0|] == entry.0 && r[|r| - |entry.1|..] == entry.1
    ensures '\n' in r <==> '\n' in entry.0 || '\n' in entry.1
  {
    "$\\bf{" + entry.0 + "}$: " + entry.1
  }

  /** The lines of the legend, each ended by a newline: empty exactly when
      there are no entries, otherwise ending with a newline. */
  function Body(items: seq<(string, string)>): (r: string)
    ensures r == "" <==> items == []
    ensures r != "" ==> r[|r| - 1] == '\n'
  {
    if items == [] then "" else LineOf(items[0]) + "\n" + Body(items[1..])
  }

  lemma {:induction false} BodyAppend(items: seq<(string, string)>, x: (string, string))
    ensures Body(items + [x]) == Body(items) + LineOf(x) + "\n"
  {
    if items != [] {
      assert (items + [x])[1..] == items[1..] + [x];
      BodyAppend(items[1..], x);
    }
  }

  /** Lines 130-132: the heading followed by one line per legend entry. */
  method BuildLegendText(col1: string, items: seq<(string, string)>) returns (text: string)
    ensures text == Header(col1) + Body(items)
  {
    text := Header(col1);
    for i := 0 to |items|
      invariant text == Header(col1) + Body(items[..i])
    {
      BodyAppend(items[..i], items[i]);
      assert items[..i + 1] == items[..i] + [items[i]];
      text := text + LineOf(items[i]) + "\n";
    }
    assert items[..|items|] == items;
  }

  /** When no label or category holds a newline, the body of the legend
      splits into exactly one line per entry, in order, after which only the
      empty remainder of the final newline is left. */
  lemma {:induction false} BodyLines(items: seq<(string, string)>)
    requires forall i :: 0 <= i < |items| ==> '\n' !in LineOf(items[i])
    ensures Split(Body(items), '\n') == seq(|items|, i requires 0 <= i < |items| => LineOf(items[i])) + [""]
  {
    if items == [] {
    } else {
      BodyLines(items[1..]);
      SplitCons(LineOf(items[0]), '\n', Body(items[1..]));
      assert LineOf(items[0]) + "\n" + Body(items[1..]) == LineOf(items[0]) + ['\n'] + Body(items[1..]);
    }
  }

  /** The legend lines of the numbered categories: entry i reads
      "$\bf{<i + 1>}$: <category i>", one per line, in index order. */
  lemma NumberedLegendLines(index: seq<string>)
    requires forall i :: 0 <= i < |index| ==> '\n' !in index[i]
    ensures var items := seq(|index|, i requires 0 <= i < |index| => (Label(i), index[i]));
      Split(Body(items), '\n') == seq(|index|, i requires 0 <= i < |index| => LineOf((Label(i), index[i]))) + [""]
  {
    var items := seq(|index|, i requires 0 <= i < |index| => (Label(i), index[i]));
    forall i | 0 <= i < |items| ensures '\n' !in LineOf(items[i]) {
      assert '\n' !in Label(i);
    }
    BodyLines(items);
  }
}
