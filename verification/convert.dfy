/** `PDFtoCSVExtractor.clean_and_convert`: the first table becomes a frame
    whose first row is the header and whose body cells are stripped, with
    blanks turned into missing values; without tables, the first text is
    split into lines and whitespace-separated tokens. pandas' DataFrame is
    modelled by its column labels and its rows. */
module Convert {
  import opened Wrappers
  import opened Text
  import opened Extractor

  /** Column labels: a promoted header row, or pandas' default 0..count-1. */
  datatype Columns = Labels(names: Row) | Positional(count: nat)

  datatype Frame = Frame(columns: Columns, rows: seq<Row>)

  /** Number of columns pandas gives a list of rows: the longest row. */
  function Width<T>(rows: seq<seq<T>>): (w: nat)
    ensures forall k :: 0 <= k < |rows| ==> |rows[k]| <= w
    ensures rows != [] ==> exists k :: 0 <= k < |rows| && |rows[k]| == w
    ensures rows == [] ==> w == 0
  {
    if |rows| == 0 then 0
    else
      var w := Width(rows[1..]);
      assert forall k :: 0 < k < |rows| ==> rows[k] == rows[1..][k - 1];
      if |rows[0]| >= w then |rows[0]| else w
  }

  /** All rows have the same length. */
  predicate Rectangular<T>(rows: seq<seq<T>>) {
    forall k :: 0 <= k < |rows| ==> |rows[k]| == |rows[0]|
  }

  /** pandas fills the cells a short row lacks with missing values. */
  function Pad(row: Row, w: nat): (r: Row)
    requires |row| <= w
    ensures |r| == w
    ensures forall j :: 0 <= j < w ==> r[j] == (if j < |row| then row[j] else None)
  {
    row + seq(w - |row|, _ => None)
  }

  // ---------------------------------------------------------------- cleaning

  /** `x.str.strip()` on one cell; a missing cell stays missing. */
  function StripCell(c: Cell): Cell {
    match c
    case None => None
    case Some(s) => Some(Strip(s))
  }

  /** `df.replace('', pd.NA)` on one cell. */
  function BlankToMissing(c: Cell): Cell {
    if c == Some("") then None else c
  }

  /** Cleaning of one body cell: strip, then blank to missing. */
  function CleanCell(c: Cell): (r: Cell)
    ensures r.None? <==> c.None? || AllSpace(c.value)
    ensures r.Some? ==> r.value != "" && Trimmed(r.value)
    ensures r.Some? ==> exists i :: 0 <= i <= |c.value| - |r.value|
                          && c.value[i..i + |r.value|] == r.value
                          && AllSpace(c.value[..i]) && AllSpace(c.value[i + |r.value|..])
  {
    assert c.Some? ==> (Strip(c.value) == [] <==> AllSpace(c.value)) by {
      if c.Some? { StripEmptyIff(c.value); }
    }
    BlankToMissing(StripCell(c))
  }

  function CleanRow(row: Row): (r: Row)
    ensures |r| == |row|
    ensures forall j :: 0 <= j < |r| ==> r[j] == CleanCell(row[j])
  {
    seq(|row|, j requires 0 <= j < |row| => CleanCell(row[j]))
  }

  /** Cleaning a cell twice gives the same as cleaning it once. */
  lemma CleanCellIdempotent(c: Cell)
    ensures CleanCell(CleanCell(c)) == CleanCell(c)
  {
    if c.Some? {
      StripIdempotent(c.value);
      StripEmptyIff(Strip(c.value));
    }
  }

  lemma CleanRowIdempotent(row: Row)
    ensures CleanRow(CleanRow(row)) == CleanRow(row)
  {
    forall j | 0 <= j < |row| ensures CleanCell(CleanCell(row[j])) == CleanCell(row[j]) {
      CleanCellIdempotent(row[j]);
    }
  }

  // ---------------------------------------------------------------- tables

  /** `pd.DataFrame(table)`, header promotion and cleaning. A non-empty table
      yields its first row, padded, as header and the rest, padded and
      cleaned, as body; an empty one yields an empty frame. */
  function TableFrame(t: RawTable): (f: Frame)
    ensures t == [] ==> f == Frame(Positional(0), [])
    ensures t != [] ==> f.columns.Labels? && |f.rows| == |t| - 1
    ensures t != [] ==> f.columns.names == Pad(t[0], Width(t))
    ensures t != [] && Rectangular(t) ==> f.columns.names == t[0]
    ensures forall k :: 0 <= k < |f.rows| ==> |f.rows[k]| == Width(t)
    ensures forall k, j :: 0 <= k < |f.rows| && 0 <= j < |f.rows[k]| ==>
      f.rows[k][j] == (if j < |t[k + 1]| then CleanCell(t[k + 1][j]) else None)
  {
    if |t| == 0 then Frame(Positional(0), [])
    else
      var w := Width(t);
      var header := Pad(t[0], w);
      assert Rectangular(t) ==> header == t[0];
      Frame(Labels(header), seq(|t| - 1, k requires 0 <= k < |t| - 1 => CleanRow(Pad(t[k + 1], w))))
  }

  /** The body of a table frame is already clean. */
  lemma TableBodyClean(t: RawTable)
    ensures forall k :: 0 <= k < |TableFrame(t).rows| ==>
      CleanRow(TableFrame(t).rows[k]) == TableFrame(t).rows[k]
  {
    var f := TableFrame(t);
    forall k | 0 <= k < |f.rows| ensures CleanRow(f.rows[k]) == f.rows[k] {
      var w := Width(t);
      assert f.rows[k] == CleanRow(Pad(t[k + 1], w));
      CleanRowIdempotent(Pad(t[k + 1], w));
    }
  }

  // ---------------------------------------------------------------- text fallback

  /** `[l for l in lines if l.strip()]`. */
  function NonBlank(ls: seq<string>): (r: seq<string>)
    ensures |r| <= |ls|
    ensures forall l :: l in r <==> l in ls && !AllSpace(l)
  {
    if |ls| == 0 then []
    else
      StripEmptyIff(ls[0]);
      (if Strip(ls[0]) != "" then [ls[0]] else []) + NonBlank(ls[1..])
  }

  lemma {:induction false} NonBlankAppend(a: seq<string>, b: seq<string>)
    ensures NonBlank(a + b) == NonBlank(a) + NonBlank(b)
    decreases |a|
  {
    if |a| == 0 {
      assert a + b == b;
    } else {
      assert (a + b)[1..] == a[1..] + b;
      NonBlankAppend(a[1..], b);
    }
  }

  /** `[line.split() for line in lines if line.strip()]`: no row is empty,
      no token is empty or holds whitespace. */
  function TokenRows(ls: seq<string>): (rows: seq<seq<string>>)
    ensures |rows| <= |ls|
    ensures forall k :: 0 <= k < |rows| ==> rows[k] != []
    ensures forall k, m :: 0 <= k < |rows| && 0 <= m < |rows[k]| ==>
      rows[k][m] != [] && NoSpace(rows[k][m])
  {
    if |ls| == 0 then []
    else
      StripEmptyIff(ls[0]);
      TokensEmptyIff(ls[0]);
      var rest := TokenRows(ls[1..]);
      (if Strip(ls[0]) != "" then [Tokens(ls[0])] else []) + rest
  }

  /** Row `k` of the fallback holds the tokens of the `k`-th non-blank line,
      and concatenating them gives that line without its whitespace. */
  lemma {:induction false} TokenRowsOfNonBlank(ls: seq<string>)
    ensures |TokenRows(ls)| == |NonBlank(ls)|
    ensures forall k :: 0 <= k < |TokenRows(ls)| ==>
      TokenRows(ls)[k] == Tokens(NonBlank(ls)[k])
      && Concat(TokenRows(ls)[k]) == RemoveSpace(NonBlank(ls)[k])
  {
    if |ls| > 0 {
      TokenRowsOfNonBlank(ls[1..]);
      var rest, nbRest := TokenRows(ls[1..]), NonBlank(ls[1..]);
      var rows, nb := TokenRows(ls), NonBlank(ls);
      if Strip(ls[0]) != "" {
        assert rows == [Tokens(ls[0])] + rest;
        assert nb == [ls[0]] + nbRest;
        ConcatTokens(ls[0]);
        forall k | 0 <= k < |rows|
          ensures rows[k] == Tokens(nb[k]) && Concat(rows[k]) == RemoveSpace(nb[k])
        {
          if k > 0 {
            assert rows[k] == rest[k - 1];
            assert nb[k] == nbRest[k - 1];
          }
        }
      } else {
        assert rows == rest;
        assert nb == nbRest;
      }
    }
  }

  function ToCells(tokens: seq<string>): (r: Row)
    ensures |r| == |tokens|
    ensures forall m :: 0 <= m < |r| ==> r[m] == Some(tokens[m])
  {
    seq(|tokens|, m requires 0 <= m < |tokens| => Some(tokens[m]))
  }

  /** `pd.DataFrame(rows)` for rows of tokens: default labels, one row per
      token list, short rows padded with missing cells. */
  function TokenFrame(rows: seq<seq<string>>): (f: Frame)
    ensures f.columns == Positional(Width(rows))
    ensures |f.rows| == |rows|
    ensures forall k :: 0 <= k < |f.rows| ==> |f.rows[k]| == Width(rows)
    ensures forall k, j :: 0 <= k < |f.rows| && 0 <= j < |f.rows[k]| ==>
      f.rows[k][j] == (if j < |rows[k]| then Some(rows[k][j]) else None)
  {
    var w := Width(rows);
    Frame(Positional(w), seq(|rows|, k requires 0 <= k < |rows| => Pad(ToCells(rows[k]), w)))
  }

  /** The text fallback of `clean_and_convert`. */
  function FallbackFrame(text: string): Frame {
    TokenFrame(TokenRows(Lines(text)))
  }

  /** The fallback has one row per non-blank line, in order; each row starts
      with a present cell, and its present cells spell the line without
      whitespace. */
  lemma FallbackRows(text: string)
    ensures |FallbackFrame(text).rows| == |NonBlank(Lines(text))|
    ensures forall k :: 0 <= k < |FallbackFrame(text).rows| ==>
      FallbackFrame(text).rows[k] != [] && FallbackFrame(text).rows[k][0].Some?
    ensures forall k :: 0 <= k < |FallbackFrame(text).rows| ==>
      Concat(TokenRows(Lines(text))[k]) == RemoveSpace(NonBlank(Lines(text))[k])
  {
    TokenRowsOfNonBlank(Lines(text));
    var f := FallbackFrame(text);
    var rows := TokenRows(Lines(text));
    forall k | 0 <= k < |f.rows| ensures f.rows[k] != [] && f.rows[k][0].Some? {
      assert |rows[k]| <= Width(rows);
    }
  }

  // ---------------------------------------------------------------- dispatch

  /** `clean_and_convert(tables, text_data)`: the first table if there is
      one, otherwise the first text, otherwise None. */
  function CleanAndConvert(tables: seq<RawTable>, texts: seq<string>): (r: Option<Frame>)
    ensures r.None? <==> tables == [] && texts == []
    ensures tables != [] ==> r == Some(TableFrame(tables[0]))
    ensures tables == [] && texts != [] ==> r == Some(FallbackFrame(texts[0]))
  {
    if tables != [] then Some(TableFrame(tables[0]))
    else if texts != [] then Some(FallbackFrame(texts[0]))
    else None
  }

  /** Extraction followed by conversion: None exactly when no page has a
      non-empty table or text; otherwise the frame of the first table in
      page order, or failing that the fallback of the first page text. */
  lemma ExtractThenConvert(pages: seq<Page>)
    ensures CleanAndConvert(Tables(pages), Texts(pages)).None? <==>
      forall i :: 0 <= i < |pages| ==> NoTables(pages[i]) && !HasText(pages[i].text)
    ensures Tables(pages) != [] ==> exists i, j ::
      FirstTableAt(pages, i, j)
      && CleanAndConvert(Tables(pages), Texts(pages)) == Some(TableFrame(pages[i].tables[j]))
    ensures Tables(pages) == [] && Texts(pages) != [] ==> exists i ::
      FirstTextAt(pages, i)
      && CleanAndConvert(Tables(pages), Texts(pages)) == Some(FallbackFrame(pages[i].text.value))
  {
    TablesEmptyIff(pages);
    TextsEmptyIff(pages);
    if Tables(pages) != [] {
      FirstTable(pages);
    } else if Texts(pages) != [] {
      FirstText(pages);
    }
  }
}
