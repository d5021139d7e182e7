/** `standardize_multiselect`, the normaliser of the multi-select answer
    "which minority group(s) do you belong to?": commas become semicolons,
    the text is split on ';', every item is trimmed, blank items are dropped,
    the items are sorted and joined again with ';'. */
module Multiselect {
  import opened Strings
  import opened Sequences

  /** One answer cell of the survey table: pandas' missing value (NaN) or a string. */
  datatype Cell = Missing | Text(value: string)

  predicate IsSep(c: char)
  {
    c == ',' || c == ';'
  }

  /** What a normalised item looks like: non-blank, trimmed, free of both separators. */
  predicate IsItem(x: string)
  {
    x != "" && IsStripped(x) && ',' !in x && ';' !in x
  }

  predicate AllItems(xs: seq<string>)
  {
    forall i :: 0 <= i < |xs| ==> IsItem(xs[i])
  }

  /** The list comprehension `[s.strip() for s in pieces if s.strip()]`: only
      stripped non-blank strings, and no more of them than pieces. */
  function KeepNonBlank(pieces: seq<string>): (r: seq<string>)
    ensures |r| <= |pieces|
    ensures forall x :: x in r ==> x != "" && IsStripped(x)
  {
    if pieces == [] then []
    else (if Strip(pieces[0]) != "" then [Strip(pieces[0])] else []) + KeepNonBlank(pieces[1..])
  }

  /** Which pieces the comprehension keeps: those that do not strip to "". */
  function NonBlankMask(pieces: seq<string>): seq<bool>
  {
    seq(|pieces|, i requires 0 <= i < |pieces| => Strip(pieces[i]) != "")
  }

  /** Every piece, stripped. */
  function StripAll(pieces: seq<string>): (r: seq<string>)
    ensures |r| == |pieces|
  {
    seq(|pieces|, i requires 0 <= i < |pieces| => Strip(pieces[i]))
  }

  /** The comprehension is a mask selection: the stripped pieces whose
      stripped form is not "", in order, duplicates included. */
  lemma {:induction false} KeepNonBlankSelect(pieces: seq<string>)
    ensures KeepNonBlank(pieces) == Select(StripAll(pieces), NonBlankMask(pieces))
  {
    if pieces != [] {
      assert StripAll(pieces)[1..] == StripAll(pieces[1..]);
      assert NonBlankMask(pieces)[1..] == NonBlankMask(pieces[1..]);
      KeepNonBlankSelect(pieces[1..]);
    }
  }

  /** One item per non-blank piece: duplicates are kept, nothing is added. */
  lemma KeepNonBlankLength(pieces: seq<string>)
    ensures |KeepNonBlank(pieces)| == CountTrue(NonBlankMask(pieces))
  {
    KeepNonBlankSelect(pieces);
  }

  /** Item `j` is the stripped form of the `j`-th non-blank piece, so the
      items follow the pieces one for one and in order. */
  lemma KeepNonBlankAt(pieces: seq<string>, j: nat)
    requires j < CountTrue(NonBlankMask(pieces))
    ensures j < |KeepNonBlank(pieces)|
    ensures KeepNonBlank(pieces)[j] == Strip(pieces[Nth(NonBlankMask(pieces), j)])
  {
    KeepNonBlankSelect(pieces);
    SelectAt(StripAll(pieces), NonBlankMask(pieces), j);
  }

  /** The stripped form of every non-blank piece is kept. */
  lemma {:induction false} KeepNonBlankKeeps(pieces: seq<string>, i: nat)
    requires i < |pieces| && Strip(pieces[i]) != ""
    ensures Strip(pieces[i]) in KeepNonBlank(pieces)
  {
    if i > 0 {
      KeepNonBlankKeeps(pieces[1..], i - 1);
      assert pieces[1..][i - 1] == pieces[i];
    }
  }

  /** The items of an answer: `text.replace(',', ';').split(';')`, trimmed,
      blanks dropped. Every item is non-empty, trimmed and free of both separators. */
  function Items(text: string): (r: seq<string>)
    ensures AllItems(r)
  {
    var pieces := Split(Replace(text, ',', ';'), ';');
    assert forall i :: 0 <= i < |pieces| ==> ',' !in pieces[i] && ';' !in pieces[i];
    KeepNonBlankItems(pieces);
    KeepNonBlank(pieces)
  }

  /** `';'.join(sorted(items))` for a string cell: a normal form without
      ',', and "" exactly when the answer has no non-blank item. */
  function StandardizeText(text: string): (r: string)
    ensures IsNormal(r) && ',' !in r
    ensures r == "" <==> Items(text) == []
  {
    var xs := Sort(Items(text));
    SortedItems(Items(text));
    JoinChars(xs, ';', ',');
    assert xs != [] ==> Join(xs, ';') != "" && Split(Join(xs, ';'), ';') == xs by {
      if xs != [] {
        JoinItemsNonEmpty(xs);
        SplitJoin(xs, ';');
      }
    }
    assert xs == [] <==> Items(text) == [] by {
      assert |multiset(xs)| == |multiset(Items(text))|;
    }
    Join(xs, ';')
  }

  /** The normal form: "" or a `;`-join of sorted items. */
  predicate IsNormal(s: string)
  {
    s == "" || (AllItems(Split(s, ';')) && Sorted(Split(s, ';')))
  }

  /** `standardize_multiselect(text)`: a missing cell is returned as it is,
      a string cell becomes its normal form. */
  function Standardize(c: Cell): (r: Cell)
    ensures c.Missing? <==> r.Missing?
    ensures r.Text? ==> IsNormal(r.value)
  {
    match c
    case Missing => Missing
    case Text(s) => Text(StandardizeText(s))
  }

  lemma {:induction false} StripChars(p: string, c: char)
    requires c in Strip(p)
    ensures c in p
  {
    var t := TrimLeft(p);
    assert c in t[..|Strip(p)|];
    assert c in p[|p| - |t|..];
  }

  /** Every item that survives is trimmed and non-blank, and keeps only characters of its piece. */
  lemma KeepNonBlankItems(pieces: seq<string>)
    requires forall i :: 0 <= i < |pieces| ==> ',' !in pieces[i] && ';' !in pieces[i]
    ensures AllItems(KeepNonBlank(pieces))
  {
    var m := NonBlankMask(pieces);
    var r := KeepNonBlank(pieces);
    KeepNonBlankLength(pieces);
    forall j | 0 <= j < |r| ensures IsItem(r[j]) {
      KeepNonBlankAt(pieces, j);
      var p := pieces[Nth(m, j)];
      if ',' in Strip(p) { StripChars(p, ','); }
      if ';' in Strip(p) { StripChars(p, ';'); }
    }
  }

  /** Nothing survives exactly when every piece is blank. */
  lemma {:induction false} KeepNonBlankEmpty(pieces: seq<string>)
    ensures KeepNonBlank(pieces) == [] <==> forall i :: 0 <= i < |pieces| ==> Strip(pieces[i]) == ""
  {
    if pieces != [] {
      KeepNonBlankEmpty(pieces[1..]);
      if forall i :: 0 <= i < |pieces[1..]| ==> Strip(pieces[1..][i]) == "" {
        assert forall i :: 1 <= i < |pieces| ==> Strip(pieces[i]) == "" by {
          forall i | 1 <= i < |pieces| ensures Strip(pieces[i]) == "" {
            assert pieces[i] == pieces[1..][i - 1];
          }
        }
      }
    }
  }

  /** Pieces that are already items pass through unchanged. */
  lemma {:induction false} KeepNonBlankOfItems(xs: seq<string>)
    requires AllItems(xs)
    ensures KeepNonBlank(xs) == xs
  {
    if xs != [] {
      StripFixpoint(xs[0]);
      KeepNonBlankOfItems(xs[1..]);
    }
  }

  lemma ReplaceAbsent(s: string, from: char, to: char)
    requires from !in s
    ensures Replace(s, from, to) == s
  {
  }

  lemma {:induction false} JoinItemsNonEmpty(xs: seq<string>)
    requires AllItems(xs) && xs != []
    ensures Join(xs, ';') != ""
  {
  }

  lemma ItemsOfEmpty()
    ensures Items("") == []
  {
    assert Replace("", ',', ';') == "";
    assert Split("", ';') == [""];
    assert Strip("") == "";
  }

  /** Splitting the join of some items and re-reading them gives the same items. */
  lemma ItemsOfJoin(xs: seq<string>)
    requires AllItems(xs)
    ensures Items(Join(xs, ';')) == xs
  {
    var s := Join(xs, ';');
    if xs == [] {
      ItemsOfEmpty();
    } else {
      assert ',' !in s by { JoinChars(xs, ';', ','); }
      ReplaceAbsent(s, ',', ';');
      assert Split(s, ';') == xs by { SplitJoin(xs, ';'); }
      KeepNonBlankOfItems(xs);
    }
  }

  lemma SortedItems(xs: seq<string>)
    requires AllItems(xs)
    ensures AllItems(Sort(xs)) && Sorted(Sort(xs))
  {
    SortSorted(xs);
    forall i | 0 <= i < |Sort(xs)| ensures IsItem(Sort(xs)[i]) {
      assert Sort(xs)[i] in multiset(Sort(xs));
    }
  }

  /** The output is the `;`-join of the sorted items of the input: it holds
      no ',', re-splitting it gives exactly those items (duplicates kept),
      and it is "" exactly when the input has no non-blank item. */
  lemma StandardizeShape(text: string)
    ensures var out := StandardizeText(text);
      && IsNormal(out)
      && ',' !in out
      && (out == "" <==> Items(text) == [])
      && (out != "" ==> Split(out, ';') == Sort(Items(text)))
      && multiset(Items(StandardizeText(text))) == multiset(Items(text))
  {
    var xs := Sort(Items(text));
    SortedItems(Items(text));
    JoinChars(xs, ';', ',');
    ItemsOfJoin(xs);
    if xs != [] {
      JoinItemsNonEmpty(xs);
      SplitJoin(xs, ';');
    }
  }

  /** The strings left alone are exactly the normal forms. */
  lemma NormalFixpoint(s: string)
    ensures StandardizeText(s) == s <==> IsNormal(s)
  {
    if IsNormal(s) {
      if s == "" {
        ItemsOfEmpty();
      } else {
        var parts := Split(s, ';');
        assert Join(parts, ';') == s by { JoinSplit(s, ';'); }
        assert Items(s) == parts by { ItemsOfJoin(parts); }
        assert Sort(parts) == parts by { SortOfSorted(parts); }
      }
    } else {
      StandardizeShape(s);
    }
  }

  /** `standardize_multiselect` is idempotent. */
  lemma StandardizeIdempotent(c: Cell)
    ensures Standardize(Standardize(c)) == Standardize(c)
  {
    if c.Text? {
      StandardizeShape(c.value);
      NormalFixpoint(StandardizeText(c.value));
    }
  }

  /** The output depends only on the multiset of trimmed non-blank items. */
  lemma SameItemsSameOutput(a: string, b: string)
    requires multiset(Items(a)) == multiset(Items(b))
    ensures StandardizeText(a) == StandardizeText(b)
  {
    SortSorted(Items(a));
    SortSorted(Items(b));
    SortedUnique(Sort(Items(a)), Sort(Items(b)));
  }

  /** Listing the same items in another order gives the same output. */
  lemma ReorderInvariant(xs: seq<string>, ys: seq<string>)
    requires AllItems(xs) && AllItems(ys) && multiset(xs) == multiset(ys)
    ensures StandardizeText(Join(xs, ';')) == StandardizeText(Join(ys, ';'))
  {
    ItemsOfJoin(xs);
    ItemsOfJoin(ys);
    SameItemsSameOutput(Join(xs, ';'), Join(ys, ';'));
  }

  /** Writing ',' or ';' at any separator position gives the same output. */
  lemma SeparatorsInterchangeable(a: string, b: string)
    requires |a| == |b|
    requires forall k :: 0 <= k < |a| ==> a[k] == b[k] || (IsSep(a[k]) && IsSep(b[k]))
    ensures StandardizeText(a) == StandardizeText(b)
  {
    assert Replace(a, ',', ';') == Replace(b, ',', ';');
  }

  predicate BlankOrSep(text: string)
  {
    forall k :: 0 <= k < |text| ==> IsSpace(text[k]) || IsSep(text[k])
  }

  lemma BlankPieces(text: string)
    requires BlankOrSep(text)
    ensures Items(text) == []
  {
    var r := Replace(text, ',', ';');
    var pieces := Split(r, ';');
    assert forall j :: 0 <= j < |r| ==> IsSpace(r[j]) || r[j] == ';';
    forall i | 0 <= i < |pieces| ensures Strip(pieces[i]) == "" {
      forall k | 0 <= k < |pieces[i]| ensures IsSpace(pieces[i][k]) {
        var j :| 0 <= j < |r| && r[j] == pieces[i][k];
      }
      StripEmpty(pieces[i]);
    }
    KeepNonBlankEmpty(pieces);
  }

  lemma NonBlankPiece(text: string, k: nat)
    requires k < |text| && !IsSpace(text[k]) && !IsSep(text[k])
    ensures Items(text) != []
  {
    var r := Replace(text, ',', ';');
    var pieces := Split(r, ';');
    var c := text[k];
    assert c == r[k];
    JoinSplit(r, ';');
    JoinChars(pieces, ';', c);
    var i :| 0 <= i < |pieces| && c in pieces[i];
    StripEmpty(pieces[i]);
    KeepNonBlankEmpty(pieces);
  }

  /** The output is "" exactly when the input holds only spaces, commas and semicolons. */
  lemma BlankInput(text: string)
    ensures StandardizeText(text) == "" <==> BlankOrSep(text)
  {
    StandardizeShape(text);
    if BlankOrSep(text) {
      BlankPieces(text);
    } else {
      var k :| 0 <= k < |text| && !IsSpace(text[k]) && !IsSep(text[k]);
      NonBlankPiece(text, k);
    }
  }
}
