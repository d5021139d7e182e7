/** The questionnaire table as the correspondence-analysis script prepares it
    (analise_correspondencia.py, lines 10-45): header cleanup, the fixed
    rename map, removal of the timestamp column and the normalisation of the
    multi-select column. */
module Columns {
  import opened Strings
  import opened Sequences
  import opened Multiselect

  /** `columns.str.strip()` followed by `columns.str.replace('\n', ' ')` on one
      header. A cleaned header has no newline, no surrounding whitespace, and
      the length of the stripped header. */
  function CleanHeader(h: string): (c: string)
    ensures '\n' !in c && IsStripped(c) && |c| == |Strip(h)|
  {
    var s := Strip(h);
    var c := Replace(s, '\n', ' ');
    ReplaceShape(s, '\n', ' ');
    assert IsSpace('\n');
    assert s != [] ==> s[0] != '\n' && s[|s| - 1] != '\n';
    c
  }

  /** Cleaning a cleaned header changes nothing. */
  lemma CleanHeaderIdempotent(h: string)
    ensures CleanHeader(CleanHeader(h)) == CleanHeader(h)
  {
    var c := CleanHeader(h);
    StripFixpoint(c);
    assert Strip(c) == c;
    ReplaceAbsent(c, '\n', ' ');
    assert CleanHeader(c) == Replace(Strip(c), '\n', ' ');
  }

  /** The cleanup applied to every header. */
  function CleanHeaders(cols: seq<string>): (r: seq<string>)
    ensures |r| == |cols|
    ensures forall i :: 0 <= i < |r| ==> '\n' !in r[i] && IsStripped(r[i])
  {
    seq(|cols|, i requires 0 <= i < |cols| => CleanHeader(cols[i]))
  }

  /** The fixed map from survey questions to short column names. */
  const RenameMap: map<string, string> := map[
    "Gênero" := "Genero",
    "Faixa Etária" := "FaixaEtaria",
    "Escolaridade" := "Escolaridade",
    "A qual ou quais grupo(s) minoritário(s) você pertence?" := "GrupoMinoritario",
    "Tempo de experiência em equipes ágeis" := "ExperienciaAgil",
    "Nas equipes ágeis em que você atuou/atua, a diversidade foi/é valorizada?" := "Diversidade",
    "Nas equipes ágeis em que você atuou/atua, havia/há representatividade de grupos minoritários?" := "Representatividade",
    "Em alguma das equipes ágeis em que você atuou/atua, você já sofreu algum tipo de discriminação?" := "Discriminacao",
    "Nas equipes em que você atuou/atua, você sentiu/sente liberdade para expressar opiniões e dúvidas sem medo de julgamento?" := "SegurancaPsicologica",
    "Como você avalia seu bem-estar emocional nos ambientes ágeis em que atuou/atua?" := "BemEstarEmocional",
    "Você já se sentiu inseguro(a) em alguma equipe ágil devido a estereótipos ou discriminação?" := "Inseguranca",
    "Essas inseguranças afetaram/afetam sua confiança profissional ou desempenho na equipe?" := "ImpactoDesempenho",
    "Nas equipes ágeis em que você atuou/atua, a liderança promoveu/promove um ambiente seguro e acolhedor para os membros de grupos minoritários?" := "LiderancaSegura",
    "A liderança dessas equipes contribuiu/contribui para lidar com situações que impactam a segurança psicológica dos membros?" := "LiderancaSuporte",
    "A liderança dessas equipes promoveu/promove práticas inclusivas?" := "LiderancaInclusiva",
    "Havia/há representatividade de pessoas como você em cargos de liderança nessas equipes?" := "RepresentatividadeNaLideranca"
  ]

  /** The timestamp column the script drops. */
  const Timestamp: string := "Carimbo de data/hora"

  /** The multi-select column the script normalises. */
  const MultiselectColumn: string := "GrupoMinoritario"

  /** `DataFrame.rename(columns=RenameMap)` on one header: a key of the map is
      replaced by its value, any other header is kept. Renaming changes
      exactly the headers that are keys of the map, except "Escolaridade",
      which the map sends to itself. */
  function Rename(h: string): (r: string)
    ensures r != h <==> h in RenameMap && h != "Escolaridade"
  {
    if h in RenameMap then RenameMap[h] else h
  }

  /** A renamed header is not renamed again: no new name is a question that the map renames. */
  lemma RenameIdempotent(h: string)
    ensures Rename(Rename(h)) == Rename(h)
  {
    if h in RenameMap {
      assert RenameMap[h] !in RenameMap || RenameMap[h] == "Escolaridade";
    }
  }

  /** Renaming applied to every header. */
  function RenameAll(cols: seq<string>): (r: seq<string>)
    ensures |r| == |cols|
    ensures forall i :: 0 <= i < |r| && cols[i] !in RenameMap ==> r[i] == cols[i]
    ensures forall i :: 0 <= i < |r| && cols[i] in RenameMap ==> r[i] == RenameMap[cols[i]]
  {
    seq(|cols|, i requires 0 <= i < |cols| => Rename(cols[i]))
  }

  /** The position of the first column called `name`, the one `df[name]` reads. */
  function IndexOf(cols: seq<string>, name: string): (i: nat)
    requires name in cols
    ensures i < |cols| && cols[i] == name
    ensures forall j :: 0 <= j < i ==> cols[j] != name
  {
    if cols[0] == name then 0 else 1 + IndexOf(cols[1..], name)
  }

  /** The columns `DataFrame.drop(columns=[name])` keeps. */
  function KeepMask(cols: seq<string>, name: string): seq<bool>
  {
    seq(|cols|, i requires 0 <= i < |cols| => cols[i] != name)
  }

  /** The headers after dropping every column called `name`: all other
      headers and no `name`; `DropAligned` and `DropKeeps` give the position
      of each kept header. */
  function DropHeaders(cols: seq<string>, name: string): (r: seq<string>)
    ensures name !in r
    ensures forall x :: x in r <==> x in cols && x != name
  {
    var m := KeepMask(cols, name);
    var r := Select(cols, m);
    assert name !in r by {
      if name in r {
        var j :| 0 <= j < |r| && r[j] == name;
        SelectAt(cols, m, j);
      }
    }
    forall x | x in cols && x != name ensures x in r {
      var k :| 0 <= k < |cols| && cols[k] == x;
      SelectKeeps(cols, m, k);
    }
    r
  }

  /** The same drop applied to one row of answers. */
  function DropCells(row: seq<Cell>, cols: seq<string>, name: string): (r: seq<Cell>)
    requires |row| == |cols|
    ensures |r| == |DropHeaders(cols, name)|
  {
    Select(row, KeepMask(cols, name))
  }

  /** The `j`-th kept header and the `j`-th kept cell of a row both come from
      the `j`-th column not called `name`, so headers and cells stay aligned;
      `NthIncreasing` says the kept columns keep their order. */
  lemma DropAligned(cols: seq<string>, row: seq<Cell>, name: string, j: nat)
    requires |row| == |cols| && j < |DropHeaders(cols, name)|
    ensures var k := Nth(KeepMask(cols, name), j);
      && k < |cols| && cols[k] != name
      && DropHeaders(cols, name)[j] == cols[k]
      && DropCells(row, cols, name)[j] == row[k]
  {
    var m := KeepMask(cols, name);
    SelectAt(cols, m, j);
    SelectAt(row, m, j);
  }

  /** Every column not called `name` survives the drop, header and cell together. */
  lemma DropKeeps(cols: seq<string>, row: seq<Cell>, name: string, k: nat) returns (j: nat)
    requires |row| == |cols| && k < |cols| && cols[k] != name
    ensures j < |DropHeaders(cols, name)| && Nth(KeepMask(cols, name), j) == k
    ensures DropHeaders(cols, name)[j] == cols[k] && DropCells(row, cols, name)[j] == row[k]
  {
    var m := KeepMask(cols, name);
    j := Rank(m, k);
    SelectAt(cols, m, j);
    SelectAt(row, m, j);
  }

  predicate Rectangular(cols: seq<string>, rows: seq<seq<Cell>>)
  {
    forall r :: 0 <= r < |rows| ==> |rows[r]| == |cols|
  }

  /** The questionnaire table (`df_questionario`): headers and one row of
      answer cells per respondent. */
  class Questionnaire {
    var columns: seq<string>
    var rows: seq<seq<Cell>>

    ghost predicate Valid()
      reads this
    {
      Rectangular(columns, rows)
    }

    constructor (columns: seq<string>, rows: seq<seq<Cell>>)
      requires Rectangular(columns, rows)
      ensures Valid() && this.columns == columns && this.rows == rows
    {
      this.columns := columns;
      this.rows := rows;
    }

    /** Lines 10-11: strip every header, then turn its newlines into spaces. */
    method CleanColumnNames()
      requires Valid()
      modifies this
      ensures Valid()
      ensures columns == CleanHeaders(old(columns)) && rows == old(rows)
    {
      columns := CleanHeaders(columns);
    }

    /** Lines 14-31: rename the questions to short names. */
    method RenameColumns()
      requires Valid()
      modifies this
      ensures Valid()
      ensures columns == RenameAll(old(columns)) && rows == old(rows)
    {
      columns := RenameAll(columns);
    }

    /** Line 34: drop the column `name`. pandas raises `KeyError` when there is
        no such column; then `found` is false and nothing changes. */
    method DropColumn(name: string) returns (found: bool)
      requires Valid()
      modifies this
      ensures Valid()
      ensures found == (name in old(columns))
      ensures !found ==> columns == old(columns) && rows == old(rows)
      ensures found ==> columns == DropHeaders(old(columns), name)
      ensures found ==> (|rows| == |old(rows)| &&
        forall r :: 0 <= r < |rows| ==> rows[r] == DropCells(old(rows)[r], old(columns), name))
    {
      found := name in columns;
      if !found {
        return;
      }
      var cols, rs := columns, rows;
      rows := seq(|rs|, r requires 0 <= r < |rs| => DropCells(rs[r], cols, name));
      columns := DropHeaders(cols, name);
    }

    /** Lines 36-45: when the multi-select column exists, every cell of it is
        replaced by its normal form; everything else is left alone. */
    method StandardizeMultiselectColumn()
      requires Valid()
      modifies this
      ensures Valid() && columns == old(columns) && |rows| == |old(rows)|
      ensures MultiselectColumn !in columns ==> rows == old(rows)
      ensures MultiselectColumn in columns ==>
        var c := IndexOf(columns, MultiselectColumn);
        forall r :: 0 <= r < |rows| ==>
          rows[r] == old(rows)[r][c := Standardize(old(rows)[r][c])]
    {
      if MultiselectColumn in columns {
        var c := IndexOf(columns, MultiselectColumn);
        var old_rows := rows;
        rows := seq(|old_rows|, r requires 0 <= r < |old_rows| => old_rows[r][c := Standardize(old_rows[r][c])]);
      }
    }

    /** Lines 10-45 in order. `ok` is false when the timestamp column is
        missing: the script stops with `KeyError` before the normalisation. */
    method Prepare() returns (ok: bool)
      requires Valid()
      modifies this
      ensures Valid()
      ensures ok == (Timestamp in RenameAll(CleanHeaders(old(columns))))
      ensures ok ==> columns == DropHeaders(RenameAll(CleanHeaders(old(columns))), Timestamp)
      ensures ok ==> Timestamp !in columns
    {
      CleanColumnNames();
      RenameColumns();
      ok := DropColumn(Timestamp);
      if ok {
        StandardizeMultiselectColumn();
      }
    }
  }
}
