/** The contingency table of `analise_correspondencia` (analise_correspondencia.py,
    lines 49-67): `pd.crosstab` of two answer columns, removal of all-zero rows
    and columns, the degeneracy guard and the number of CA components. */
module Contingency {
  import opened Strings
  import opened Sequences
  import opened Multiselect

  /** A contingency table: row categories, column categories and one count per pair. */
  datatype Table = Table(rowLabels: seq<string>, colLabels: seq<string>, counts: seq<seq<nat>>)

  predicate WellFormed(t: Table)
  {
    |t.counts| == |t.rowLabels| && forall i :: 0 <= i < |t.counts| ==> |t.counts[i]| == |t.colLabels|
  }

  predicate Distinct(s: seq<string>)
  {
    forall i, j :: 0 <= i < j < |s| ==> s[i] != s[j]
  }

  function Elems(s: seq<string>): set<string>
  {
    set x | x in s
  }

  /** The distinct elements of `s`, each at the place of its last occurrence. */
  function Unique(s: seq<string>): (r: seq<string>)
    ensures Distinct(r)
    ensures forall x :: x in r <==> x in s
  {
    if s == [] then []
    else if s[0] in s[1..] then Unique(s[1..])
    else
      var r := Unique(s[1..]);
      assert forall j :: 0 <= j < |r| ==> r[j] != s[0];
      [s[0]] + r
  }

  lemma {:induction false} UniqueSorted(s: seq<string>)
    requires Sorted(s)
    ensures Sorted(Unique(s))
  {
    if s != [] {
      UniqueSorted(s[1..]);
      var r := Unique(s[1..]);
      if s[0] !in s[1..] {
        forall j | 0 <= j < |r| ensures LexLe(s[0], r[j]) {
          assert r[j] in s[1..];
          var k :| 0 <= k < |s[1..]| && s[1..][k] == r[j];
          assert s[k + 1] == r[j];
        }
        var u := [s[0]] + r;
        forall i, j | 0 <= i < j < |u| ensures LexLe(u[i], u[j]) {
          if i > 0 {
            assert u[i] == r[i - 1] && u[j] == r[j - 1];
          }
        }
      }
    }
  }

  /** The categories of one axis as `pd.crosstab` lists them: the distinct
      answers, in ascending order. */
  function Categories(xs: seq<string>): (r: seq<string>)
    ensures Sorted(r) && Distinct(r)
    ensures forall x :: x in r <==> x in xs
  {
    SortSorted(xs);
    UniqueSorted(Sort(xs));
    assert forall x :: x in Sort(xs) <==> x in xs by {
      forall x ensures x in Sort(xs) <==> x in xs {
        assert x in Sort(xs) <==> x in multiset(Sort(xs));
      }
    }
    Unique(Sort(xs))
  }

  /** A respondent counts in the table only when both answers are present:
      `pd.crosstab` drops pairs with a missing value. */
  predicate Answered(p: (Cell, Cell))
  {
    p.0.Text? && p.1.Text?
  }

  function NumAnswered(resp: seq<(Cell, Cell)>): nat
  {
    if resp == [] then 0 else (if Answered(resp[0]) then 1 else 0) + NumAnswered(resp[1..])
  }

  /** The first answers of the respondents who answered both questions. */
  function RowAnswers(resp: seq<(Cell, Cell)>): seq<string>
  {
    if resp == [] then []
    else (if Answered(resp[0]) then [resp[0].0.value] else []) + RowAnswers(resp[1..])
  }

  /** The second answers of the respondents who answered both questions. */
  function ColAnswers(resp: seq<(Cell, Cell)>): seq<string>
  {
    if resp == [] then []
    else (if Answered(resp[0]) then [resp[0].1.value] else []) + ColAnswers(resp[1..])
  }

  /** The number of respondents who answered `a` to the first question and `b` to the second. */
  function Count(resp: seq<(Cell, Cell)>, a: string, b: string): (n: nat)
    ensures n <= NumAnswered(resp)
  {
    if resp == [] then 0
    else (if resp[0] == (Text(a), Text(b)) then 1 else 0) + Count(resp[1..], a, b)
  }

  /** The number of respondents whose answer pair lies in `A` x `B`. */
  function InSet(resp: seq<(Cell, Cell)>, A: set<string>, B: set<string>): nat
  {
    if resp == [] then 0
    else
      var p := resp[0];
      (if Answered(p) && p.0.value in A && p.1.value in B then 1 else 0) + InSet(resp[1..], A, B)
  }

  /** One row of the crosstab: the counts of `a` against every column category. */
  function RowOf(resp: seq<(Cell, Cell)>, a: string, C: seq<string>): (r: seq<nat>)
    ensures |r| == |C|
  {
    seq(|C|, j requires 0 <= j < |C| => Count(resp, a, C[j]))
  }

  /** `pd.crosstab(df[col1], df[col2])` for the answer pairs `resp`. */
  function Crosstab(resp: seq<(Cell, Cell)>): (t: Table)
    ensures WellFormed(t)
    ensures Sorted(t.rowLabels) && Distinct(t.rowLabels)
    ensures Sorted(t.colLabels) && Distinct(t.colLabels)
  {
    var R := Categories(RowAnswers(resp));
    var C := Categories(ColAnswers(resp));
    Table(R, C, seq(|R|, i requires 0 <= i < |R| => RowOf(resp, R[i], C)))
  }

  function SumAll(rows: seq<seq<nat>>): nat
  {
    if rows == [] then 0 else Sum(rows[0]) + SumAll(rows[1..])
  }

  /** The grand total of a table. */
  function Total(t: Table): nat
  {
    SumAll(t.counts)
  }

  lemma {:induction false} RowAnswersHas(resp: seq<(Cell, Cell)>, k: nat)
    requires k < |resp| && Answered(resp[k])
    ensures resp[k].0.value in RowAnswers(resp) && resp[k].1.value in ColAnswers(resp)
  {
    if k > 0 {
      RowAnswersHas(resp[1..], k - 1);
    }
  }

  lemma {:induction false} RowAnswerWitness(resp: seq<(Cell, Cell)>, x: string) returns (k: nat)
    requires x in RowAnswers(resp)
    ensures k < |resp| && Answered(resp[k]) && resp[k].0.value == x
  {
    if Answered(resp[0]) && resp[0].0.value == x {
      k := 0;
    } else {
      var k' := RowAnswerWitness(resp[1..], x);
      k := k' + 1;
    }
  }

  lemma {:induction false} ColAnswerWitness(resp: seq<(Cell, Cell)>, y: string) returns (k: nat)
    requires y in ColAnswers(resp)
    ensures k < |resp| && Answered(resp[k]) && resp[k].1.value == y
  {
    if Answered(resp[0]) && resp[0].1.value == y {
      k := 0;
    } else {
      var k' := ColAnswerWitness(resp[1..], y);
      k := k' + 1;
    }
  }

  /** The row categories are exactly the first answers of the respondents who answered both questions. */
  lemma CrosstabRows(resp: seq<(Cell, Cell)>, x: string)
    ensures x in Crosstab(resp).rowLabels <==>
      exists k :: 0 <= k < |resp| && Answered(resp[k]) && resp[k].0 == Text(x)
  {
    if x in Crosstab(resp).rowLabels {
      var k := RowAnswerWitness(resp, x);
    }
    if exists k :: 0 <= k < |resp| && Answered(resp[k]) && resp[k].0 == Text(x) {
      var k :| 0 <= k < |resp| && Answered(resp[k]) && resp[k].0 == Text(x);
      RowAnswersHas(resp, k);
    }
  }

  /** The column categories are exactly the second answers of the respondents who answered both questions. */
  lemma CrosstabColumns(resp: seq<(Cell, Cell)>, y: string)
    ensures y in Crosstab(resp).colLabels <==>
      exists k :: 0 <= k < |resp| && Answered(resp[k]) && resp[k].1 == Text(y)
  {
    if y in Crosstab(resp).colLabels {
      var k := ColAnswerWitness(resp, y);
    }
    if exists k :: 0 <= k < |resp| && Answered(resp[k]) && resp[k].1 == Text(y) {
      var k :| 0 <= k < |resp| && Answered(resp[k]) && resp[k].1 == Text(y);
      RowAnswersHas(resp, k);
    }
  }

  lemma {:induction false} CountAsInSet(resp: seq<(Cell, Cell)>, a: string, b: string)
    ensures Count(resp, a, b) == InSet(resp, {a}, {b})
  {
    if resp != [] {
      CountAsInSet(resp[1..], a, b);
    }
  }

  lemma {:induction false} InSetEmpty(resp: seq<(Cell, Cell)>, A: set<string>, B: set<string>)
    requires A == {} || B == {}
    ensures InSet(resp, A, B) == 0
  {
    if resp != [] {
      InSetEmpty(resp[1..], A, B);
    }
  }

  lemma {:induction false} InSetAddColumn(resp: seq<(Cell, Cell)>, A: set<string>, B: set<string>, b: string)
    requires b !in B
    ensures InSet(resp, A, B + {b}) == InSet(resp, A, B) + InSet(resp, A, {b})
  {
    if resp != [] {
      InSetAddColumn(resp[1..], A, B, b);
    }
  }

  lemma {:induction false} InSetAddRow(resp: seq<(Cell, Cell)>, A: set<string>, a: string, B: set<string>)
    requires a !in A
    ensures InSet(resp, A + {a}, B) == InSet(resp, A, B) + InSet(resp, {a}, B)
  {
    if resp != [] {
      InSetAddRow(resp[1..], A, a, B);
    }
  }

  /** A row of the crosstab sums to the respondents with that first answer and a second answer among the columns. */
  lemma {:induction false} RowSum(resp: seq<(Cell, Cell)>, a: string, C: seq<string>)
    requires Distinct(C)
    ensures Sum(RowOf(resp, a, C)) == InSet(resp, {a}, Elems(C))
  {
    if C == [] {
      assert Elems(C) == {};
      InSetEmpty(resp, {a}, {});
    } else {
      assert RowOf(resp, a, C)[1..] == RowOf(resp, a, C[1..]);
      RowSum(resp, a, C[1..]);
      CountAsInSet(resp, a, C[0]);
      assert Elems(C) == Elems(C[1..]) + {C[0]};
      assert C[0] !in Elems(C[1..]);
      InSetAddColumn(resp, {a}, Elems(C[1..]), C[0]);
    }
  }

  function Rows(resp: seq<(Cell, Cell)>, R: seq<string>, C: seq<string>): seq<seq<nat>>
  {
    seq(|R|, i requires 0 <= i < |R| => RowOf(resp, R[i], C))
  }

  lemma {:induction false} TableSum(resp: seq<(Cell, Cell)>, R: seq<string>, C: seq<string>)
    requires Distinct(R) && Distinct(C)
    ensures SumAll(Rows(resp, R, C)) == InSet(resp, Elems(R), Elems(C))
  {
    if R == [] {
      assert Elems(R) == {};
      InSetEmpty(resp, {}, Elems(C));
    } else {
      assert Rows(resp, R, C)[1..] == Rows(resp, R[1..], C);
      TableSum(resp, R[1..], C);
      RowSum(resp, R[0], C);
      assert Elems(R) == Elems(R[1..]) + {R[0]};
      assert R[0] !in Elems(R[1..]);
      InSetAddRow(resp, Elems(R[1..]), R[0], Elems(C));
    }
  }

  lemma {:induction false} InSetCoversAll(resp: seq<(Cell, Cell)>, A: set<string>, B: set<string>)
    requires forall k :: 0 <= k < |resp| && Answered(resp[k]) ==> resp[k].0.value in A && resp[k].1.value in B
    ensures InSet(resp, A, B) == NumAnswered(resp)
  {
    if resp != [] {
      assert forall k :: 0 <= k < |resp[1..]| ==> resp[1..][k] == resp[k + 1];
      InSetCoversAll(resp[1..], A, B);
    }
  }

  /** The grand total of the crosstab is the number of respondents who answered both questions. */
  lemma CrosstabTotal(resp: seq<(Cell, Cell)>)
    ensures Total(Crosstab(resp)) == NumAnswered(resp)
  {
    var t := Crosstab(resp);
    TableSum(resp, t.rowLabels, t.colLabels);
    forall k | 0 <= k < |resp| && Answered(resp[k])
      ensures resp[k].0.value in Elems(t.rowLabels) && resp[k].1.value in Elems(t.colLabels)
    {
      RowAnswersHas(resp, k);
    }
    InSetCoversAll(resp, Elems(t.rowLabels), Elems(t.colLabels));
  }

  predicate NonZero(row: seq<nat>)
  {
    exists j :: 0 <= j < |row| && row[j] != 0
  }

  predicate ColumnNonZero(t: Table, j: nat)
    requires WellFormed(t) && j < |t.colLabels|
  {
    exists i :: 0 <= i < |t.counts| && t.counts[i][j] != 0
  }

  /** Every row and every column has a nonzero count. */
  predicate NoZeroLines(t: Table)
    requires WellFormed(t)
  {
    && (forall i :: 0 <= i < |t.counts| ==> NonZero(t.counts[i]))
    && (forall j :: 0 <= j < |t.colLabels| ==> ColumnNonZero(t, j))
  }

  lemma {:induction false} CountPositive(resp: seq<(Cell, Cell)>, k: nat, a: string, b: string)
    requires k < |resp| && resp[k] == (Text(a), Text(b))
    ensures Count(resp, a, b) > 0
  {
    if k > 0 {
      CountPositive(resp[1..], k - 1, a, b);
    }
  }

  lemma CrosstabRowsNonZero(resp: seq<(Cell, Cell)>, i: nat)
    requires i < |Crosstab(resp).rowLabels|
    ensures NonZero(Crosstab(resp).counts[i])
  {
    var t := Crosstab(resp);
    var R, C := t.rowLabels, t.colLabels;
    var k := RowAnswerWitness(resp, R[i]);
    RowAnswersHas(resp, k);
    var j :| 0 <= j < |C| && C[j] == resp[k].1.value;
    CountPositive(resp, k, R[i], C[j]);
    assert t.counts[i][j] == Count(resp, R[i], C[j]);
  }

  lemma CrosstabColumnNonZero(resp: seq<(Cell, Cell)>, j: nat)
    requires j < |Crosstab(resp).colLabels|
    ensures ColumnNonZero(Crosstab(resp), j)
  {
    var t := Crosstab(resp);
    var R, C := t.rowLabels, t.colLabels;
    var k := ColAnswerWitness(resp, C[j]);
    RowAnswersHas(resp, k);
    var i :| 0 <= i < |R| && R[i] == resp[k].0.value;
    CountPositive(resp, k, R[i], C[j]);
    assert t.counts[i][j] == Count(resp, R[i], C[j]);
  }

  /** Every category of a crosstab occurs with some answer: a crosstab never has an all-zero line. */
  lemma CrosstabNoZeroLines(resp: seq<(Cell, Cell)>)
    ensures NoZeroLines(Crosstab(resp))
  {
    var t := Crosstab(resp);
    forall i | 0 <= i < |t.rowLabels| ensures NonZero(t.counts[i]) {
      CrosstabRowsNonZero(resp, i);
    }
    forall j | 0 <= j < |t.colLabels| ensures ColumnNonZero(t, j) {
      CrosstabColumnNonZero(resp, j);
    }
  }

  function RowMask(t: Table): seq<bool>
  {
    seq(|t.counts|, i requires 0 <= i < |t.counts| => NonZero(t.counts[i]))
  }

  function ColMask(t: Table): seq<bool>
    requires WellFormed(t)
  {
    seq(|t.colLabels|, j requires 0 <= j < |t.colLabels| => ColumnNonZero(t, j))
  }

  /** `tabela.loc[(tabela != 0).any(axis=1)]`: keep the rows with a nonzero count. */
  function PruneRows(t: Table): (r: Table)
    requires WellFormed(t)
    ensures WellFormed(r) && r.colLabels == t.colLabels
    ensures forall i :: 0 <= i < |r.counts| ==> NonZero(r.counts[i])
  {
    var m := RowMask(t);
    var counts := Select(t.counts, m);
    forall i | 0 <= i < |counts| ensures |counts[i]| == |t.colLabels| && NonZero(counts[i]) {
      SelectAt(t.counts, m, i);
    }
    Table(Select(t.rowLabels, m), t.colLabels, counts)
  }

  /** `tabela.loc[:, (tabela != 0).any(axis=0)]`: keep the columns with a nonzero count. */
  function PruneCols(t: Table): (r: Table)
    requires WellFormed(t)
    ensures WellFormed(r) && r.rowLabels == t.rowLabels
    ensures forall j :: 0 <= j < |r.colLabels| ==> ColumnNonZero(r, j)
    ensures forall i :: 0 <= i < |t.counts| && NonZero(t.counts[i]) ==> NonZero(r.counts[i])
  {
    var m := ColMask(t);
    var counts := seq(|t.counts|, i requires 0 <= i < |t.counts| => Select(t.counts[i], m));
    var r := Table(t.rowLabels, Select(t.colLabels, m), counts);
    forall j | 0 <= j < |r.colLabels| ensures ColumnNonZero(r, j) {
      var c := Nth(m, j);
      assert ColumnNonZero(t, c);
      var i :| 0 <= i < |t.counts| && t.counts[i][c] != 0;
      SelectAt(t.counts[i], m, j);
      assert r.counts[i][j] != 0;
    }
    forall i | 0 <= i < |t.counts| && NonZero(t.counts[i]) ensures NonZero(r.counts[i]) {
      var c :| 0 <= c < |t.counts[i]| && t.counts[i][c] != 0;
      assert m[c];
      SelectKeeps(t.counts[i], m, c);
    }
    r
  }

  /** Row `k` of the row-pruned table is the `k`-th nonzero row of `t`, with
      its label and its counts; `NthIncreasing` says these come in order. */
  lemma PruneRowsAt(t: Table, k: nat)
    requires WellFormed(t) && k < |PruneRows(t).rowLabels|
    ensures var i := Nth(RowMask(t), k);
      && i < |t.rowLabels| && NonZero(t.counts[i])
      && PruneRows(t).rowLabels[k] == t.rowLabels[i]
      && PruneRows(t).counts[k] == t.counts[i]
  {
    var m := RowMask(t);
    SelectAt(t.rowLabels, m, k);
    SelectAt(t.counts, m, k);
  }

  /** Every nonzero row of `t` survives the row filter, with its label and counts. */
  lemma PruneRowsKeeps(t: Table, i: nat) returns (k: nat)
    requires WellFormed(t) && i < |t.rowLabels| && NonZero(t.counts[i])
    ensures k < |PruneRows(t).rowLabels| && Nth(RowMask(t), k) == i
    ensures PruneRows(t).rowLabels[k] == t.rowLabels[i] && PruneRows(t).counts[k] == t.counts[i]
  {
    var m := RowMask(t);
    k := Rank(m, i);
    SelectAt(t.rowLabels, m, k);
    SelectAt(t.counts, m, k);
  }

  /** Column `k` of the column-pruned table is the `k`-th nonzero column of
      `t`, with its label and its count in every row. */
  lemma PruneColsAt(t: Table, k: nat)
    requires WellFormed(t) && k < |PruneCols(t).colLabels|
    ensures var c := Nth(ColMask(t), k);
      && c < |t.colLabels| && ColumnNonZero(t, c)
      && PruneCols(t).colLabels[k] == t.colLabels[c]
      && forall i :: 0 <= i < |t.counts| ==> PruneCols(t).counts[i][k] == t.counts[i][c]
  {
    var m := ColMask(t);
    SelectAt(t.colLabels, m, k);
    forall i | 0 <= i < |t.counts| ensures PruneCols(t).counts[i][k] == t.counts[i][Nth(m, k)] {
      SelectAt(t.counts[i], m, k);
    }
  }

  /** Every nonzero column of `t` survives the column filter, with its label
      and its count in every row. */
  lemma PruneColsKeeps(t: Table, c: nat) returns (k: nat)
    requires WellFormed(t) && c < |t.colLabels| && ColumnNonZero(t, c)
    ensures k < |PruneCols(t).colLabels| && Nth(ColMask(t), k) == c
    ensures PruneCols(t).colLabels[k] == t.colLabels[c]
    ensures forall i :: 0 <= i < |t.counts| ==> PruneCols(t).counts[i][k] == t.counts[i][c]
  {
    var m := ColMask(t);
    k := Rank(m, c);
    SelectAt(t.colLabels, m, k);
    forall i | 0 <= i < |t.counts| ensures PruneCols(t).counts[i][k] == t.counts[i][c] {
      SelectAt(t.counts[i], m, k);
    }
  }

  /** Lines 52-53: rows first, then columns. The result has no all-zero line. */
  function Prune(t: Table): (r: Table)
    requires WellFormed(t)
    ensures WellFormed(r) && NoZeroLines(r)
  {
    PruneCols(PruneRows(t))
  }

  lemma {:induction false} SelectRowsTotal(rows: seq<seq<nat>>, m: seq<bool>)
    requires |rows| == |m| && forall k :: 0 <= k < |m| && !m[k] ==> Sum(rows[k]) == 0
    ensures SumAll(Select(rows, m)) == SumAll(rows)
  {
    if rows != [] {
      SelectRowsTotal(rows[1..], m[1..]);
      var rest := Select(rows[1..], m[1..]);
      if m[0] {
        assert ([rows[0]] + rest)[1..] == rest;
      } else {
        assert [] + rest == rest;
      }
    }
  }

  lemma {:induction false} SumAllPointwise(a: seq<seq<nat>>, b: seq<seq<nat>>)
    requires |a| == |b| && forall i :: 0 <= i < |a| ==> Sum(a[i]) == Sum(b[i])
    ensures SumAll(a) == SumAll(b)
  {
    if a != [] {
      SumAllPointwise(a[1..], b[1..]);
    }
  }

  lemma PruneRowsTotal(t: Table)
    requires WellFormed(t)
    ensures Total(PruneRows(t)) == Total(t)
  {
    var m := RowMask(t);
    forall k | 0 <= k < |m| && !m[k] ensures Sum(t.counts[k]) == 0 {
      SumZero(t.counts[k]);
    }
    SelectRowsTotal(t.counts, m);
  }

  lemma PruneColsTotal(t: Table)
    requires WellFormed(t)
    ensures Total(PruneCols(t)) == Total(t)
  {
    var m := ColMask(t);
    var r := PruneCols(t);
    forall i | 0 <= i < |t.counts| ensures Sum(r.counts[i]) == Sum(t.counts[i]) {
      SelectSum(t.counts[i], m);
    }
    SumAllPointwise(r.counts, t.counts);
  }

  /** Pruning removes only zero counts: the grand total is unchanged. */
  lemma PruneTotal(t: Table)
    requires WellFormed(t)
    ensures Total(Prune(t)) == Total(t)
  {
    PruneRowsTotal(t);
    PruneColsTotal(PruneRows(t));
  }

  /** Pruning leaves a table alone exactly when it has no all-zero line. */
  lemma PruneFixpoint(t: Table)
    requires WellFormed(t)
    ensures Prune(t) == t <==> NoZeroLines(t)
  {
    if NoZeroLines(t) {
      var m := RowMask(t);
      SelectAll(t.counts, m);
      SelectAll(t.rowLabels, m);
      assert PruneRows(t) == t;
      var cm := ColMask(t);
      SelectAll(t.colLabels, cm);
      forall i | 0 <= i < |t.counts| ensures Select(t.counts[i], cm) == t.counts[i] {
        SelectAll(t.counts[i], cm);
      }
      assert PruneCols(t).counts == t.counts;
    }
  }

  /** Pruning a second time changes nothing. */
  lemma PruneIdempotent(t: Table)
    requires WellFormed(t)
    ensures Prune(Prune(t)) == Prune(t)
  {
    PruneFixpoint(Prune(t));
  }

  /** On a freshly built crosstab the pruning of lines 52-53 is a no-op. */
  lemma PruneCrosstab(resp: seq<(Cell, Cell)>)
    ensures Prune(Crosstab(resp)) == Crosstab(resp)
  {
    CrosstabNoZeroLines(resp);
    PruneFixpoint(Crosstab(resp));
  }

  function Min(a: int, b: int): int
  {
    if a <= b then a else b
  }

  /** `tabela.shape`. */
  function Shape(t: Table): (nat, nat)
  {
    (|t.rowLabels|, |t.colLabels|)
  }

  /** Line 55: `tabela.empty or min(tabela.shape) < 2`. A degenerate table is
      one with fewer than two rows or fewer than two columns. */
  predicate IsDegenerate(t: Table)
    ensures IsDegenerate(t) <==> |t.rowLabels| < 2 || |t.colLabels| < 2
  {
    |t.rowLabels| == 0 || |t.colLabels| == 0 || Min(|t.rowLabels|, |t.colLabels|) < 2
  }

  /** Line 63: `min(2, min(tabela.shape) - 1)`. It is below 1 exactly for a
      table with fewer than two rows or columns, and it is 2 exactly from three on. */
  function NumComponents(rows: nat, cols: nat): (k: int)
    ensures k < 1 <==> Min(rows, cols) < 2
    ensures k <= 2 && (k == 2 <==> Min(rows, cols) >= 3)
  {
    Min(2, Min(rows, cols) - 1)
  }

  /** Past the guard of line 55 the component count is 1 or 2, so the branch of lines 64-67 is dead. */
  lemma GuardedComponents(t: Table)
    requires !IsDegenerate(t)
    ensures 1 <= NumComponents(|t.rowLabels|, |t.colLabels|) <= 2
  {
  }
}
