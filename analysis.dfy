/** The data preparation of `analise_correspondencia(df, col1, col2, title_text)`
    (analise_correspondencia.py, lines 47-132): everything the function
    computes before and around the correspondence-analysis fit and the
    plotting, which are not part of this model. */
module Analysis {
  import opened Multiselect
  import opened Columns
  import opened Contingency
  import opened Legend

  /** How a call ends. */
  datatype Outcome =
    /** `df[col]` raises `KeyError` for a column the table does not have. */
    | MissingColumn(name: string)
    /** Lines 55-59: the warning is printed with the shape and the function returns. */
    | Degenerate(shape: (nat, nat))
    /** Lines 64-67: too few components; never produced. */
    | NoComponents(shape: (nat, nat))
    /** The table handed to the CA fit, the component count, the numbered
        labels, the legend map and the legend text. */
    | Ready(table: Table, components: int, pointLabels: seq<string>, legendMap: Dict, legendText: string)

  /** The answer pairs `(df[col1][r], df[col2][r])`, one per respondent. */
  function AnswerPairs(columns: seq<string>, rows: seq<seq<Cell>>, c1: nat, c2: nat): (ps: seq<(Cell, Cell)>)
    requires Rectangular(columns, rows) && c1 < |columns| && c2 < |columns|
    ensures |ps| == |rows|
  {
    seq(|rows|, r requires 0 <= r < |rows| => (rows[r][c1], rows[r][c2]))
  }

  /** `df[col1]` and `df[col2]` side by side: respondent `r` contributes the
      cells under the first headers called `col1` and `col2`. */
  function PairsOf(columns: seq<string>, rows: seq<seq<Cell>>, col1: string, col2: string): (ps: seq<(Cell, Cell)>)
    requires Rectangular(columns, rows) && col1 in columns && col2 in columns
    ensures |ps| == |rows|
    ensures forall r :: 0 <= r < |rows| ==>
      ps[r] == (rows[r][IndexOf(columns, col1)], rows[r][IndexOf(columns, col2)])
  {
    AnswerPairs(columns, rows, IndexOf(columns, col1), IndexOf(columns, col2))
  }

  /** Lines 49-53: the crosstab with its all-zero rows and columns removed. */
  function PreparedTable(columns: seq<string>, rows: seq<seq<Cell>>, col1: string, col2: string): (t: Table)
    requires Rectangular(columns, rows) && col1 in columns && col2 in columns
    ensures WellFormed(t)
  {
    Prune(Crosstab(PairsOf(columns, rows, col1, col2)))
  }

  /** `analise_correspondencia` up to the legend text. A missing column ends
      it with `KeyError`; a degenerate table ends it with the warning of lines
      55-59; otherwise the table has at least two categories on each axis, no
      all-zero line, all answered pairs in its total, one or two components,
      the labels "1", "2", ... for its rows and a legend listing them in order. */
  method PrepareAnalysis(columns: seq<string>, rows: seq<seq<Cell>>, col1: string, col2: string)
    returns (outcome: Outcome)
    requires Rectangular(columns, rows)
    ensures col1 !in columns ==> outcome == MissingColumn(col1)
    ensures col1 in columns && col2 !in columns ==> outcome == MissingColumn(col2)
    ensures !outcome.NoComponents?
    ensures col1 in columns && col2 in columns ==>
      var t := PreparedTable(columns, rows, col1, col2);
      && (outcome.Degenerate? <==> IsDegenerate(t))
      && (outcome.Degenerate? ==> outcome.shape == Shape(t))
      && (outcome.Degenerate? <==> !outcome.Ready?)
    ensures outcome.Ready? ==>
      && col1 in columns && col2 in columns
      && var pairs := PairsOf(columns, rows, col1, col2);
      && var t := outcome.table;
      && t == PreparedTable(columns, rows, col1, col2)
      && t == Crosstab(pairs)
      && WellFormed(t) && NoZeroLines(t)
      && Total(t) == NumAnswered(pairs)
      && |t.rowLabels| >= 2 && |t.colLabels| >= 2
      && outcome.components == NumComponents(|t.rowLabels|, |t.colLabels|)
      && 1 <= outcome.components <= 2
      && |outcome.pointLabels| == |t.rowLabels|
      && (forall i :: 0 <= i < |t.rowLabels| ==> outcome.pointLabels[i] == Label(i))
      && (forall i, j :: 0 <= i < j < |t.rowLabels| ==> outcome.pointLabels[i] != outcome.pointLabels[j])
      && ValidDict(outcome.legendMap)
      && DictItems(outcome.legendMap) == seq(|t.rowLabels|, i requires 0 <= i < |t.rowLabels| => (Label(i), t.rowLabels[i]))
      && outcome.legendText == Header(col1) + Body(DictItems(outcome.legendMap))
  {
    if col1 !in columns {
      return MissingColumn(col1);
    }
    if col2 !in columns {
      return MissingColumn(col2);
    }
    var pairs := PairsOf(columns, rows, col1, col2);
    var tabela := Crosstab(pairs);
    PruneCrosstab(pairs);
    CrosstabTotal(pairs);
    tabela := PruneRows(tabela);
    tabela := PruneCols(tabela);
    if IsDegenerate(tabela) {
      outcome := Degenerate(Shape(tabela));
      return;
    }
    var numComponents := NumComponents(|tabela.rowLabels|, |tabela.colLabels|);
    if numComponents < 1 {
      assert false;
      outcome := NoComponents(Shape(tabela));
      return;
    }
    var pointLabels, legendMap := NumberCategories(tabela.rowLabels);
    var legendText := BuildLegendText(col1, DictItems(legendMap));
    outcome := Ready(tabela, numComponents, pointLabels, legendMap, legendText);
  }
}
