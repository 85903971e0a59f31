/** The two worked examples of the extractor: a small table and a short
    text without tables. Each example takes its input as a parameter fixed
    by `requires x == <literal>`: with the literal written straight into the
    call the solver unfolds `Strip` and `Tokens` character by character,
    while the generic helper lemmas below reach the same result cheaply. */
module Scenarios {
  import opened Wrappers
  import opened Text
  import opened Extractor
  import opened Convert

  /** A non-blank cell that is already trimmed survives cleaning unchanged. */
  lemma CleanTrimmedCell(w: string)
    requires w != [] && Trimmed(w)
    ensures CleanCell(Some(w)) == Some(w)
  {
    StripUnique([], w, []);
    assert [] + w + [] == w;
  }

  /** A cell of whitespace only is cleaned to missing. */
  lemma BlankCell(w: string)
    requires AllSpace(w)
    ensures CleanCell(Some(w)) == None
  {
  }

  /** Cleaning a two-cell row cleans each of its cells. */
  lemma CleanPair(a: Cell, b: Cell)
    ensures CleanRow([a, b]) == [CleanCell(a), CleanCell(b)]
  {
    var c := CleanRow([a, b]);
    assert c == [c[0], c[1]];
  }

  /** A rectangular table of three two-cell rows: header kept, body cleaned. */
  lemma ThreeByTwo(h: Row, r1: Row, r2: Row)
    requires |h| == 2 && |r1| == 2 && |r2| == 2
    ensures TableFrame([h, r1, r2]) == Frame(Labels(h), [CleanRow(r1), CleanRow(r2)])
  {
    var t := [h, r1, r2];
    var f := TableFrame(t);
    assert Rectangular(t);
    assert Width(t) == 2;
    assert f.rows[0] == CleanRow(r1);
    assert f.rows[1] == CleanRow(r2);
  }

  lemma AnnRow(r: Row)
    requires r == [Some("Ann"), Some("30")]
    ensures CleanRow(r) == r
  {
    CleanTrimmedCell("Ann");
    CleanTrimmedCell("30");
  }

  lemma BoRow(r: Row)
    requires r == [Some("Bo"), Some(" ")]
    ensures CleanRow(r) == [Some("Bo"), None]
  {
    CleanTrimmedCell("Bo");
    BlankCell(r[1].value);
    CleanPair(r[0], r[1]);
  }

  /** Header `Name,Age`; body `Ann,30` and `Bo` with a missing second cell,
      the lone space having been stripped to blank and then to missing. */
  lemma ScenarioTable(t: RawTable)
    requires t == [[Some("Name"), Some("Age")], [Some("Ann"), Some("30")], [Some("Bo"), Some(" ")]]
    ensures TableFrame(t) == Frame(Labels([Some("Name"), Some("Age")]),
                                   [[Some("Ann"), Some("30")], [Some("Bo"), None]])
  {
    assert t == [t[0], t[1], t[2]];
    ThreeByTwo(t[0], t[1], t[2]);
    AnnRow(t[1]);
    BoRow(t[2]);
  }

  lemma TwoLines(text: string)
    requires text == "x y\nz"
    ensures Lines(text) == ["x y", "z"]
  {
    assert JoinLines(["x y", "z"]) == "x y\nz";
    LinesOfJoinLines(["x y", "z"]);
  }

  /** A single non-space character is one token and not blank. */
  lemma OneWord(c: char)
    requires !IsSpace(c)
    ensures Tokens([c]) == [[c]] && Strip([c]) != ""
  {
    TokensOfJoinWords([[c]]);
    StripEmptyIff([c]);
  }

  /** Two non-space characters around a space are two tokens, not blank. */
  lemma TwoWords(a: char, b: char)
    requires !IsSpace(a) && !IsSpace(b)
    ensures Tokens([a, ' ', b]) == [[a], [b]] && Strip([a, ' ', b]) != ""
  {
    assert JoinWords([[a], [b]]) == [a, ' ', b];
    TokensOfJoinWords([[a], [b]]);
    StripEmptyIff([a, ' ', b]);
    assert [a, ' ', b][0] == a;
  }

  lemma RowsXYZ(ls: seq<string>)
    requires ls == ["x y", "z"]
    ensures TokenRows(ls) == [["x", "y"], ["z"]]
  {
    assert ls[0] == ['x', ' ', 'y'] && ls[1] == ['z'];
    TwoWords('x', 'y');
    OneWord('z');
    assert ls[1..][1..] == [];
  }

  /** Two token rows of widths two and one make a two-column frame. */
  lemma TwoRowFrame(x: string, y: string, z: string)
    ensures TokenFrame([[x, y], [z]]) == Frame(Positional(2), [[Some(x), Some(y)], [Some(z), None]])
  {
    var rows := [[x, y], [z]];
    assert Width(rows) == 2;
    var f := TokenFrame(rows);
    assert f.rows[0] == [Some(x), Some(y)];
    assert f.rows[1] == [Some(z), None];
  }

  /** Text `x y` newline `z`: two rows under default labels 0 and 1; the
      one-token row is padded with a missing cell. */
  lemma ScenarioText(text: string)
    requires text == "x y\nz"
    ensures FallbackFrame(text) == Frame(Positional(2), [[Some("x"), Some("y")], [Some("z"), None]])
  {
    TwoLines(text);
    RowsXYZ(Lines(text));
    TwoRowFrame("x", "y", "z");
  }
}
