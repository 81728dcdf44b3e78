// The renderer: text becomes logical lines (after the two-character escape
// `\n` is turned into a line break), each non-empty logical line becomes up to
// eight scanlines built from the glyph rows of its characters, and blank lines
// separate the blocks and end the output.

module Render {
  import opened Banner
  import opened Strs

  /** The glyph drawn for c: its own, or the space glyph when the table has
      none for c. */
  function GlyphFor(table: GlyphTable, c: char): (g: Glyph)
    requires WellFormed(table)
    ensures |g| >= CharHeight
  {
    if c in table then table[c] else table[' ']
  }

  /** Composite row j of a logical line: row j of each character's glyph,
      concatenated in the order of the characters. */
  function CompositeRow(line: string, table: GlyphTable, j: nat): (r: string)
    requires WellFormed(table) && j < CharHeight
    ensures line == "" ==> r == ""
    ensures |line| == 1 ==> r == GlyphFor(table, line[0])[j]
    decreases |line|
  {
    if |line| == 0 then ""
    else CompositeRow(line[..|line| - 1], table, j) + GlyphFor(table, line[|line| - 1])[j]
  }

  /** The nine slots of the scanline buffer once a logical line is drawn: the
      CharHeight composite rows and one slot that is never written. */
  function Scanlines(line: string, table: GlyphTable): (rows: seq<string>)
    requires WellFormed(table)
    ensures |rows| == CharHeight + 1
    ensures forall j :: 0 <= j < CharHeight ==> rows[j] == CompositeRow(line, table, j)
    ensures rows[CharHeight] == ""
  {
    seq(CharHeight, j requires 0 <= j < CharHeight => CompositeRow(line, table, j)) + [""]
  }

  /** The output line a scanline gives: the scanline without trailing spaces,
      or nothing when that leaves it empty. */
  function Emit(row: string): (out: seq<string>)
    ensures |out| <= 1
    ensures out == [] <==> forall i :: 0 <= i < |row| ==> row[i] == ' '
    ensures out != [] ==> out[0] != "" && out[0] <= row && out[0][|out[0]| - 1] != ' '
  {
    var t := TrimTrailingSpaces(row);
    if t == "" then [] else [t]
  }

  /** The output lines the scanlines give, in order. */
  function EmitRows(rows: seq<string>): (out: seq<string>)
    ensures |out| <= |rows|
    ensures forall k :: 0 <= k < |out| ==> out[k] != "" && out[k][|out[k]| - 1] != ' '
    decreases |rows|
  {
    if |rows| == 0 then []
    else EmitRows(rows[..|rows| - 1]) + Emit(rows[|rows| - 1])
  }

  /** The output lines of one logical line: one blank line for an empty one;
      otherwise its scanlines, then a blank separator unless it is the last. */
  function Block(line: string, table: GlyphTable, isLast: bool): (out: seq<string>)
    requires WellFormed(table)
    ensures line == "" ==> out == [""]
    ensures 1 <= |out| || (line != "" && isLast)
    ensures |out| <= CharHeight + 2
    ensures !isLast ==> out[|out| - 1] == ""
    ensures isLast && line != "" ==> forall k :: 0 <= k < |out| ==> out[k] != ""
  {
    if line == "" then [""]
    else EmitRows(Scanlines(line, table)) + (if isLast then [] else [""])
  }

  /** The blocks of logical lines none of which is the last. */
  function Interior(ls: seq<string>, table: GlyphTable): (out: seq<string>)
    requires WellFormed(table)
    ensures |ls| <= |out| <= (CharHeight + 2) * |ls|
    ensures |ls| > 0 ==> out[|out| - 1] == ""
    decreases |ls|
  {
    if |ls| == 0 then []
    else Interior(ls[..|ls| - 1], table) + Block(ls[|ls| - 1], table, false)
  }

  /** The blocks of all logical lines. */
  function Blocks(ls: seq<string>, table: GlyphTable): (out: seq<string>)
    requires WellFormed(table) && |ls| >= 1
    ensures |ls| - 1 <= |out| <= (CharHeight + 2) * |ls|
  {
    Interior(ls[..|ls| - 1], table) + Block(ls[|ls| - 1], table, true)
  }

  /** The logical lines of the input text. */
  function LogicalLines(input: string): (ls: seq<string>)
    ensures |ls| >= 1
  {
    SplitLines(ReplaceEscapes(input))
  }

  /** The lines PrintAsciiArt writes, each followed by a line break. */
  function RenderLines(input: string, table: GlyphTable): (out: seq<string>)
    requires WellFormed(table)
    ensures |LogicalLines(input)| + 1 <= |out|
    ensures EndsTwice(out, "")
  {
    Blocks(LogicalLines(input), table) + ["", ""]
  }

  /** s ends with two copies of x. */
  predicate EndsTwice<T(==)>(s: seq<T>, x: T)
  {
    |s| >= 2 && s[|s| - 2] == x && s[|s| - 1] == x
  }

  /** Lines, each followed by a line break (what fmt.Fprintln writes). */
  function Unlines(ls: seq<string>): (s: string)
    ensures |ls| <= |s|
    ensures |ls| > 0 ==> s[|s| - 1] == '\n'
    decreases |ls|
  {
    if |ls| == 0 then "" else Unlines(ls[..|ls| - 1]) + ls[|ls| - 1] + "\n"
  }

  /** The text PrintAsciiArt appends to the builder. */
  function RenderText(input: string, table: GlyphTable): (out: string)
    requires WellFormed(table)
    ensures EndsTwice(out, '\n')
  {
    var ls := RenderLines(input, table);
    UnlinesBlankLast(ls);
    Unlines(ls)
  }

  lemma {:induction false} UnlinesConcat(a: seq<string>, b: seq<string>)
    ensures Unlines(a + b) == Unlines(a) + Unlines(b)
    decreases |b|
  {
    if |b| == 0 {
      assert a + b == a;
    } else {
      var b' := b[..|b| - 1];
      var last := b[|b| - 1] + "\n";
      UnlinesConcat(a, b');
      DropLastConcat(a, b);
      assert Unlines(a + b) == Unlines(a + b') + b[|b| - 1] + "\n";
      ConcatAssoc(Unlines(a + b'), b[|b| - 1], "\n");
      assert Unlines(b) == Unlines(b') + b[|b| - 1] + "\n";
      ConcatAssoc(Unlines(b'), b[|b| - 1], "\n");
      ConcatAssoc(Unlines(a), Unlines(b'), last);
    }
  }

  /** The output of one more scanline. */
  lemma EmitRowsSnoc(rows: seq<string>, t: nat)
    requires t < |rows|
    ensures Unlines(EmitRows(rows[..t + 1])) == Unlines(EmitRows(rows[..t])) + Unlines(Emit(rows[t]))
  {
    assert rows[..t + 1][..t] == rows[..t];
    assert EmitRows(rows[..t + 1]) == EmitRows(rows[..t]) + Emit(rows[t]);
    UnlinesConcat(EmitRows(rows[..t]), Emit(rows[t]));
  }

  /** The scanline buffer of PrintAsciiArt for one non-empty logical line:
      nine empty slots, then row j of each character's glyph (the space glyph
      for a character the table lacks) appended to slot j, for j below
      CharHeight. */
  method DrawLine(line: string, table: GlyphTable) returns (rows: seq<string>)
    requires WellFormed(table)
    ensures rows == Scanlines(line, table)
  {
    var asciiLines := new string[CharHeight + 1](_ => "");
    for k := 0 to |line|
      invariant forall j :: 0 <= j < CharHeight ==> asciiLines[j] == CompositeRow(line[..k], table, j)
      invariant asciiLines[CharHeight] == ""
    {
      var asciiArt := if line[k] in table then table[line[k]] else table[' '];
      AppendGlyph(asciiLines, asciiArt);
      forall j | 0 <= j < CharHeight
        ensures asciiLines[j] == CompositeRow(line[..k + 1], table, j)
      {
        CompositeRowSnoc(line, table, k, j);
      }
    }
    assert line[..|line|] == line;
    rows := asciiLines[..];
  }

  /** The inner loop of the drawing: row j of a glyph is appended to slot j,
      for each j below CharHeight; the ninth slot is left alone. */
  method AppendGlyph(asciiLines: array<string>, asciiArt: Glyph)
    requires asciiLines.Length == CharHeight + 1 && |asciiArt| >= CharHeight
    modifies asciiLines
    ensures forall j :: 0 <= j < CharHeight ==> asciiLines[j] == old(asciiLines[j]) + asciiArt[j]
    ensures asciiLines[CharHeight] == old(asciiLines[CharHeight])
  {
    for j := 0 to CharHeight
      invariant forall j' :: 0 <= j' < j ==> asciiLines[j'] == old(asciiLines[j']) + asciiArt[j']
      invariant forall j' :: j <= j' < CharHeight + 1 ==> asciiLines[j'] == old(asciiLines[j'])
    {
      asciiLines[j] := asciiLines[j] + asciiArt[j];
    }
  }

  /** One more character appends row j of its glyph to composite row j. */
  lemma CompositeRowSnoc(line: string, table: GlyphTable, k: nat, j: nat)
    requires WellFormed(table) && k < |line| && j < CharHeight
    ensures CompositeRow(line[..k + 1], table, j)
         == CompositeRow(line[..k], table, j) + GlyphFor(table, line[k])[j]
  {
    assert line[..k + 1][..k] == line[..k];
  }

  /** The emitting loop of PrintAsciiArt: each slot, right-trimmed of spaces,
      is written as a line unless that leaves it empty. */
  method EmitScanlines(rows: seq<string>) returns (block: string)
    ensures block == Unlines(EmitRows(rows))
  {
    block := "";
    for t := 0 to |rows|
      invariant block == Unlines(EmitRows(rows[..t]))
    {
      EmitRowsSnoc(rows, t);
      var trimmed := TrimTrailingSpaces(rows[t]);
      if trimmed != "" {
        UnlinesOne(trimmed);
        ConcatAssoc(block, trimmed, "\n");
        block := block + trimmed + "\n";
      } else {
        assert block + Unlines([]) == block;
      }
    }
    assert rows[..|rows|] == rows;
  }

  lemma UnlinesOne(s: string)
    ensures Unlines([s]) == s + "\n"
  {
    assert [s][..0] == [];
  }

  /** The text of one block. */
  lemma {:induction false} BlockText(line: string, table: GlyphTable, isLast: bool)
    requires WellFormed(table)
    ensures Unlines(Block(line, table, isLast))
         == if line == "" then "\n"
            else Unlines(EmitRows(Scanlines(line, table))) + (if isLast then "" else "\n")
  {
    if line == "" {
      UnlinesOne("");
    } else {
      UnlinesThenBlank(EmitRows(Scanlines(line, table)), isLast);
    }
  }

  lemma UnlinesThenBlank(rows: seq<string>, isLast: bool)
    ensures Unlines(rows + (if isLast then [] else [""])) == Unlines(rows) + (if isLast then "" else "\n")
  {
    if isLast {
      assert rows + [] == rows;
    } else {
      UnlinesConcat(rows, [""]);
      UnlinesOne("");
    }
  }

  /** The text written so far grows by one block per logical line. */
  lemma BlocksStep(ls: seq<string>, table: GlyphTable, i: nat)
    requires WellFormed(table) && i < |ls|
    ensures i < |ls| - 1 ==>
              Unlines(Interior(ls[..i + 1], table))
              == Unlines(Interior(ls[..i], table)) + Unlines(Block(ls[i], table, false))
    ensures i == |ls| - 1 ==>
              Unlines(Blocks(ls, table))
              == Unlines(Interior(ls[..i], table)) + Unlines(Block(ls[i], table, true))
  {
    assert ls[..i + 1][..i] == ls[..i];
    UnlinesConcat(Interior(ls[..i], table), Block(ls[i], table, i == |ls| - 1));
  }

  /** The two blank lines that end every rendering. */
  lemma {:induction false} TerminatorText(sb: string, ls: seq<string>)
    ensures sb + Unlines(ls + ["", ""]) == sb + Unlines(ls) + "\n" + "\n"
  {
    UnlinesConcat(ls, ["", ""]);
    UnlinesTerminator();
    ConcatAssoc(sb, Unlines(ls), "\n\n");
    ConcatAssoc(sb + Unlines(ls), "\n", "\n");
  }

  lemma UnlinesTerminator()
    ensures Unlines(["", ""]) == "\n\n"
  {
    assert ["", ""][..1] == [""];
    UnlinesOne("");
  }

  /** Text whose last line is blank ends in two line breaks. */
  lemma {:induction false} UnlinesBlankLast(ls: seq<string>)
    requires |ls| >= 2 && ls[|ls| - 1] == ""
    ensures EndsTwice(Unlines(ls), '\n')
  {
    var p := Unlines(ls[..|ls| - 1]);
    assert Unlines(ls) == p + "" + "\n";
    assert p[|p| - 1] == '\n';
  }

  /** The body of PrintAsciiArt's loop for one logical line: appends to sb a
      single line break for an empty line; otherwise the drawn and trimmed
      scanlines and, unless the line is the last, a blank separator line. */
  method WriteLogicalLine(sb: string, line: string, table: GlyphTable, isLast: bool) returns (out: string)
    requires WellFormed(table)
    ensures out == sb + Unlines(Block(line, table, isLast))
  {
    BlockText(line, table, isLast);
    if line == "" {
      out := sb + "\n";
      return;
    }
    var asciiLines := DrawLine(line, table);
    var block := EmitScanlines(asciiLines);
    out := sb + block;
    if !isLast {
      ConcatAssoc(sb, block, "\n");
      out := out + "\n";
    }
  }

  /** PrintAsciiArt: appends to sb the rendering of input. */
  method PrintAsciiArt(input: string, table: GlyphTable, sb: string) returns (out: string)
    requires WellFormed(table)
    ensures out == sb + RenderText(input, table)
  {
    var inputLines := SplitLines(ReplaceEscapes(input));
    var n := |inputLines|;
    out := sb;
    for i := 0 to n
      invariant i < n ==> out == sb + Unlines(Interior(inputLines[..i], table))
      invariant i == n ==> out == sb + Unlines(Blocks(inputLines, table))
    {
      out := WriteLogicalLine(out, inputLines[i], table, !(i < n - 1));
      BlocksStep(inputLines, table, i);
      ConcatAssoc(sb, Unlines(Interior(inputLines[..i], table)), Unlines(Block(inputLines[i], table, i == n - 1)));
    }
    out := out + "\n";
    out := out + "\n";
    TerminatorText(sb, Blocks(inputLines, table));
  }
}

// Properties of the rendering.
module RenderProperties {
  import opened Banner
  import opened Strs
  import opened Render

  /** Empty input is one empty logical line: one line break, then the two of
      the terminator. */
  lemma RenderEmptyInput(table: GlyphTable)
    requires WellFormed(table)
    ensures RenderText("", table) == "\n\n\n"
  {
    assert ReplaceEscapes("") == "";
    assert LogicalLines("") == [""];
    BlocksSingle("", table);
    assert RenderLines("", table) == [""] + ["", ""];
    TerminatorText("", [""]);
    UnlinesOne("");
    assert "" + RenderText("", table) == RenderText("", table);
  }

  /** A literal two-character escape renders exactly as a real line break in
      its place. */
  lemma RenderEscapeIsNewline(a: string, b: string, table: GlyphTable)
    requires WellFormed(table)
    ensures RenderText(a + "\\n" + b, table) == RenderText(a + "\n" + b, table)
  {
    EscapeBecomesNewline(a, b);
    assert a + "\n" + b == a + ['\n'] + b;
    ReplaceEscapesAround(a, '\n', b);
  }

  /** Rendering text whose escapes are already replaced changes nothing. */
  lemma RenderReplacedInput(t: string, table: GlyphTable)
    requires WellFormed(table)
    ensures RenderText(ReplaceEscapes(t), table) == RenderText(t, table)
  {
    ReplaceEscapesIdempotent(t);
  }

  /** Composite rows distribute over a concatenation of characters. */
  lemma {:induction false} CompositeRowConcat(a: string, b: string, table: GlyphTable, j: nat)
    requires WellFormed(table) && j < CharHeight
    ensures CompositeRow(a + b, table, j) == CompositeRow(a, table, j) + CompositeRow(b, table, j)
    decreases |b|
  {
    if |b| == 0 {
      assert a + b == a;
    } else {
      var b' := b[..|b| - 1];
      CompositeRowConcat(a, b', table, j);
      DropLastConcat(a, b);
      ConcatAssoc(CompositeRow(a, table, j), CompositeRow(b', table, j), GlyphFor(table, b[|b| - 1])[j]);
    }
  }

  /** Composite row j of one character is row j of its glyph, or of the space
      glyph when the table has none for it. */
  lemma CompositeRowSingle(c: char, table: GlyphTable, j: nat)
    requires WellFormed(table) && j < CharHeight
    ensures CompositeRow([c], table, j) == if c in table then table[c][j] else table[' '][j]
  {
    assert [c][..0] == [];
  }

  /** A character the table lacks draws as a space: replacing it by a space
      leaves the block of its logical line unchanged. */
  lemma MissingGlyphDrawsAsSpace(a: string, c: char, b: string, table: GlyphTable, isLast: bool)
    requires WellFormed(table) && c !in table
    ensures Block(a + [c] + b, table, isLast) == Block(a + [' '] + b, table, isLast)
  {
    var l1, l2 := a + [c] + b, a + [' '] + b;
    forall j | 0 <= j < CharHeight
      ensures CompositeRow(l1, table, j) == CompositeRow(l2, table, j)
    {
      CompositeRowConcat(a + [c], b, table, j);
      CompositeRowConcat(a, [c], table, j);
      CompositeRowConcat(a + [' '], b, table, j);
      CompositeRowConcat(a, [' '], table, j);
      CompositeRowSingle(c, table, j);
      CompositeRowSingle(' ', table, j);
    }
    assert Scanlines(l1, table) == Scanlines(l2, table);
    assert l1 != "" && l2 != "" by {
      assert |l1| > 0 && |l2| > 0;
    }
  }

  /** The blocks of logical lines whose blocks agree one by one agree. */
  lemma {:induction false} InteriorAgree(l1: seq<string>, l2: seq<string>, table: GlyphTable)
    requires WellFormed(table) && |l1| == |l2|
    requires forall k :: 0 <= k < |l1| ==> Block(l1[k], table, false) == Block(l2[k], table, false)
    ensures Interior(l1, table) == Interior(l2, table)
    decreases |l1|
  {
    if |l1| > 0 {
      InteriorAgree(l1[..|l1| - 1], l2[..|l2| - 1], table);
    }
  }

  /** The pieces glued around a character m, one by one. */
  lemma GlueAround(xs: seq<string>, m: char, ys: seq<string>)
    requires |xs| >= 1 && |ys| >= 1
    ensures var g := Glue(xs, [[m] + ys[0]] + ys[1..]);
            && |g| == |xs| + |ys| - 1
            && g[|xs| - 1] == xs[|xs| - 1] + [m] + ys[0]
            && (forall k :: 0 <= k < |xs| - 1 ==> g[k] == xs[k])
            && (forall k :: |xs| <= k < |g| ==> g[k] == ys[k - |xs| + 1])
  {
    assert xs[|xs| - 1] + ([m] + ys[0]) == xs[|xs| - 1] + [m] + ys[0];
  }

  /** Substituting a space for a character that is no line break and cannot
      take part in the escape `\n` substitutes it in exactly one logical
      line. */
  lemma SubstituteInLogicalLine(a: string, c: char, b: string) returns (p: nat, u: string, v: string)
    requires c != '\n' && c != '\\' && c != 'n'
    ensures var l1, l2 := LogicalLines(a + [c] + b), LogicalLines(a + [' '] + b);
            && |l1| == |l2| && p < |l1|
            && l1[p] == u + [c] + v && l2[p] == u + [' '] + v
            && forall k :: 0 <= k < |l1| && k != p ==> l1[k] == l2[k]
  {
    var A, B := ReplaceEscapes(a), ReplaceEscapes(b);
    ReplaceEscapesAround(a, c, b);
    ReplaceEscapesAround(a, ' ', b);
    SplitLinesAtChar(A, c, B);
    SplitLinesAtChar(A, ' ', B);
    var X, Y := SplitLines(A), SplitLines(B);
    GlueAround(X, c, Y);
    GlueAround(X, ' ', Y);
    p, u, v := |X| - 1, X[|X| - 1], Y[0];
  }

  /** Replacing a character the table lacks by a space leaves the whole
      rendering unchanged, provided the character is no line break and cannot
      take part in the escape `\n`. */
  lemma RenderMissingGlyph(a: string, c: char, b: string, table: GlyphTable)
    requires WellFormed(table) && c !in table
    requires c != '\n' && c != '\\' && c != 'n'
    ensures RenderText(a + [c] + b, table) == RenderText(a + [' '] + b, table)
  {
    var p, u, v := SubstituteInLogicalLine(a, c, b);
    var l1, l2 := LogicalLines(a + [c] + b), LogicalLines(a + [' '] + b);
    MissingGlyphDrawsAsSpace(u, c, v, table, false);
    MissingGlyphDrawsAsSpace(u, c, v, table, true);
    var n := |l1|;
    forall k | 0 <= k < n ensures Block(l1[k], table, false) == Block(l2[k], table, false)
                                 && Block(l1[k], table, true) == Block(l2[k], table, true)
    {
      if k != p {
        assert l1[k] == l2[k];
      }
    }
    InteriorAgree(l1[..n - 1], l2[..n - 1], table);
    assert Blocks(l1, table) == Blocks(l2, table);
  }

  /** Every output line of a run of scanlines is one of them, right-trimmed. */
  lemma {:induction false} EmitRowsFrom(rows: seq<string>)
    ensures forall k :: 0 <= k < |EmitRows(rows)| ==>
              exists j :: 0 <= j < |rows| && EmitRows(rows)[k] == TrimTrailingSpaces(rows[j])
    decreases |rows|
  {
    if |rows| == 0 {
      assert EmitRows(rows) == [];
    } else {
      var init := rows[..|rows| - 1];
      var last := rows[|rows| - 1];
      EmitRowsFrom(init);
      var out := EmitRows(rows);
      assert out == EmitRows(init) + Emit(last);
      forall k | 0 <= k < |out|
        ensures exists j :: 0 <= j < |rows| && out[k] == TrimTrailingSpaces(rows[j])
      {
        if k < |EmitRows(init)| {
          var j :| 0 <= j < |init| && EmitRows(init)[k] == TrimTrailingSpaces(init[j]);
          assert out[k] == EmitRows(init)[k];
          assert rows[j] == init[j];
        } else {
          assert Emit(last) == [TrimTrailingSpaces(last)];
          assert out[k] == TrimTrailingSpaces(rows[|rows| - 1]);
        }
      }
    }
  }

  /** The number of scanlines that still hold a visible character once their
      trailing spaces are trimmed. */
  function KeptCount(rows: seq<string>): (n: nat)
    ensures n <= |rows|
    decreases |rows|
  {
    if |rows| == 0 then 0
    else KeptCount(rows[..|rows| - 1]) + (if TrimTrailingSpaces(rows[|rows| - 1]) == "" then 0 else 1)
  }

  /** Exactly the scanlines that keep a visible character are written. */
  lemma {:induction false} EmitRowsLength(rows: seq<string>)
    ensures |EmitRows(rows)| == KeptCount(rows)
    decreases |rows|
  {
    if |rows| > 0 {
      EmitRowsLength(rows[..|rows| - 1]);
    }
  }

  /** A scanline that keeps a visible character is written, right-trimmed,
      after exactly the kept scanlines before it: nothing is dropped and the
      order of the slots is kept. */
  lemma {:induction false} EmitRowsAt(rows: seq<string>, j: nat)
    requires j < |rows| && TrimTrailingSpaces(rows[j]) != ""
    ensures KeptCount(rows[..j]) < |EmitRows(rows)|
    ensures EmitRows(rows)[KeptCount(rows[..j])] == TrimTrailingSpaces(rows[j])
    decreases |rows|
  {
    var init := rows[..|rows| - 1];
    assert EmitRows(rows) == EmitRows(init) + Emit(rows[|rows| - 1]);
    if j == |rows| - 1 {
      assert init == rows[..j];
      EmitRowsLength(init);
    } else {
      assert init[..j] == rows[..j] && init[j] == rows[j];
      EmitRowsAt(init, j);
    }
  }

  /** Every scanline that keeps a visible character appears in the output. */
  lemma EmitRowsKeeps(rows: seq<string>, j: nat)
    requires j < |rows| && TrimTrailingSpaces(rows[j]) != ""
    ensures TrimTrailingSpaces(rows[j]) in EmitRows(rows)
  {
    EmitRowsAt(rows, j);
  }

  /** A kept scanline is counted before every later slot: the positions of
      kept scanlines in the output strictly increase with their slot. */
  lemma {:induction false} KeptCountIncreases(rows: seq<string>, j1: nat, j2: nat)
    requires j1 < j2 <= |rows| && TrimTrailingSpaces(rows[j1]) != ""
    ensures KeptCount(rows[..j1]) < KeptCount(rows[..j2])
    decreases j2
  {
    assert rows[..j2][..j2 - 1] == rows[..j2 - 1];
    if j2 > j1 + 1 {
      KeptCountIncreases(rows, j1, j2 - 1);
    }
  }

  /** r is composite row j of line, right-trimmed, for some row j. */
  predicate IsTrimmedCompositeRow(r: string, line: string, table: GlyphTable)
    requires WellFormed(table)
  {
    exists j :: 0 <= j < CharHeight && r == TrimTrailingSpaces(CompositeRow(line, table, j))
  }

  /** The scanlines of a logical line: at most CharHeight output lines, none
      empty and none ending in a space, each a right-trimmed composite row;
      the ninth slot of the buffer never adds a line. */
  lemma ScanlinesShape(line: string, table: GlyphTable)
    requires WellFormed(table)
    ensures |EmitRows(Scanlines(line, table))| <= CharHeight
    ensures forall r :: r in EmitRows(Scanlines(line, table)) ==> r != "" && r[|r| - 1] != ' '
    ensures forall r :: r in EmitRows(Scanlines(line, table)) ==> IsTrimmedCompositeRow(r, line, table)
  {
    var init := Scanlines(line, table)[..CharHeight];
    ScanlinesDropLast(line, table);
    var out := EmitRows(init);
    EmitRowsFrom(init);
    forall r | r in out
      ensures IsTrimmedCompositeRow(r, line, table)
    {
      var k :| 0 <= k < |out| && out[k] == r;
      var j :| 0 <= j < |init| && out[k] == TrimTrailingSpaces(init[j]);
      ScanlinesAt(line, table, j);
    }
  }

  /** Conversely, every composite row that keeps a visible character once
      right-trimmed is written, after exactly the kept rows above it; the
      output holds one line per such row and nothing else. */
  lemma ScanlinesKeep(line: string, table: GlyphTable, j: nat)
    requires WellFormed(table) && j < CharHeight
    requires TrimTrailingSpaces(CompositeRow(line, table, j)) != ""
    ensures var out, rows := EmitRows(Scanlines(line, table)), Scanlines(line, table);
            && |out| == KeptCount(rows[..CharHeight])
            && KeptCount(rows[..j]) < |out|
            && out[KeptCount(rows[..j])] == TrimTrailingSpaces(CompositeRow(line, table, j))
  {
    var rows := Scanlines(line, table);
    var init := rows[..CharHeight];
    ScanlinesDropLast(line, table);
    ScanlinesAt(line, table, j);
    EmitRowsLength(init);
    EmitRowsAt(init, j);
    assert init[..j] == rows[..j];
  }

  /** Slot j of the buffer, for j below CharHeight, is composite row j. */
  lemma ScanlinesAt(line: string, table: GlyphTable, j: nat)
    requires WellFormed(table) && j < CharHeight
    ensures Scanlines(line, table)[..CharHeight][j] == CompositeRow(line, table, j)
  {
  }

  /** The ninth slot of the buffer adds no output line. */
  lemma ScanlinesDropLast(line: string, table: GlyphTable)
    requires WellFormed(table)
    ensures EmitRows(Scanlines(line, table)) == EmitRows(Scanlines(line, table)[..CharHeight])
  {
    var rows := Scanlines(line, table);
    assert rows[CharHeight] == "";
    assert TrimTrailingSpaces("") == "";
    assert Emit(rows[CharHeight]) == [];
    assert EmitRows(rows) == EmitRows(rows[..CharHeight]) + Emit(rows[CharHeight]);
    assert EmitRows(rows[..CharHeight]) + [] == EmitRows(rows[..CharHeight]);
  }

  /** The blocks of a concatenation of logical lines. */
  lemma {:induction false} InteriorConcat(xs: seq<string>, ys: seq<string>, table: GlyphTable)
    requires WellFormed(table)
    ensures Interior(xs + ys, table) == Interior(xs, table) + Interior(ys, table)
    decreases |ys|
  {
    if |ys| == 0 {
      assert xs + ys == xs;
      assert Interior(ys, table) == [];
    } else {
      var ys' := ys[..|ys| - 1];
      var b := Block(ys[|ys| - 1], table, false);
      InteriorConcat(xs, ys', table);
      DropLastConcat(xs, ys);
      assert Interior(xs + ys, table) == Interior(xs + ys', table) + b;
      assert Interior(ys, table) == Interior(ys', table) + b;
      ConcatAssoc(Interior(xs, table), Interior(ys', table), b);
    }
  }

  /** The blocks of logical lines followed by more logical lines. */
  lemma BlocksConcat(xs: seq<string>, ys: seq<string>, table: GlyphTable)
    requires WellFormed(table) && |ys| >= 1
    ensures Blocks(xs + ys, table) == Interior(xs, table) + Blocks(ys, table)
  {
    var ys' := ys[..|ys| - 1];
    var b := Block(ys[|ys| - 1], table, true);
    DropLastConcat(xs, ys);
    assert Blocks(xs + ys, table) == Interior(xs + ys', table) + b;
    InteriorConcat(xs, ys', table);
    ConcatAssoc(Interior(xs, table), Interior(ys', table), b);
  }

  /** A line break in the input ends a logical line. */
  lemma LogicalLinesAtNewline(x: string, y: string)
    ensures LogicalLines(x + "\n" + y) == LogicalLines(x) + LogicalLines(y)
  {
    assert x + "\n" + y == x + ['\n'] + y;
    ReplaceEscapesAround(x, '\n', y);
    SplitLinesAtNewline(ReplaceEscapes(x), ReplaceEscapes(y));
  }

  /** A line break in the input: every logical line before it renders as an
      inner line, then the text after it renders on its own. */
  lemma RenderAfterNewline(x: string, y: string, table: GlyphTable)
    requires WellFormed(table)
    ensures RenderLines(x + "\n" + y, table) == Interior(LogicalLines(x), table) + RenderLines(y, table)
  {
    var X, Y := LogicalLines(x), LogicalLines(y);
    LogicalLinesAtNewline(x, y);
    BlocksConcat(X, Y, table);
    ConcatAssoc(Interior(X, table), Blocks(Y, table), ["", ""]);
  }

  /** Text that forms one logical line followed by a line break: an empty
      line gives one blank line and no separator; a non-empty one gives its
      scanlines and one blank separator line. */
  lemma RenderSeparatedLine(x: string, y: string, table: GlyphTable)
    requires WellFormed(table) && '\n' !in ReplaceEscapes(x)
    ensures ReplaceEscapes(x) == "" ==>
              RenderLines(x + "\n" + y, table) == [""] + RenderLines(y, table)
    ensures ReplaceEscapes(x) != "" ==>
              RenderLines(x + "\n" + y, table)
              == EmitRows(Scanlines(ReplaceEscapes(x), table)) + [""] + RenderLines(y, table)
  {
    RenderAfterNewline(x, y, table);
    SplitLinesSingle(ReplaceEscapes(x));
    var ls: seq<string> := [ReplaceEscapes(x)];
    assert ls[..0] == [];
    assert Interior(ls, table) == Block(ReplaceEscapes(x), table, false);
  }

  /** Text that forms one logical line: its scanlines (one blank line if it
      is empty), then the two blank lines of the terminator. */
  lemma RenderSingleLine(t: string, table: GlyphTable)
    requires WellFormed(table) && '\n' !in ReplaceEscapes(t)
    ensures ReplaceEscapes(t) == "" ==> RenderLines(t, table) == ["", "", ""]
    ensures ReplaceEscapes(t) != "" ==>
              RenderLines(t, table) == EmitRows(Scanlines(ReplaceEscapes(t), table)) + ["", ""]
  {
    var s := ReplaceEscapes(t);
    SplitLinesSingle(s);
    assert LogicalLines(t) == [s];
    SingleLineBlocks(s, table);
  }

  /** The lines of a single logical line, with the terminator. */
  lemma SingleLineBlocks(s: string, table: GlyphTable)
    requires WellFormed(table)
    ensures s == "" ==> Blocks([s], table) + ["", ""] == ["", "", ""]
    ensures s != "" ==> Blocks([s], table) + ["", ""] == EmitRows(Scanlines(s, table)) + ["", ""]
  {
    BlocksSingle(s, table);
    if s != "" {
      var e := EmitRows(Scanlines(s, table));
      assert Block(s, table, true) == e + [];
      assert e + [] == e;
    }
  }

  /** The blocks of a single logical line: that line's block as the last. */
  lemma BlocksSingle(s: string, table: GlyphTable)
    requires WellFormed(table)
    ensures Blocks([s], table) == Block(s, table, true)
  {
    var ls: seq<string> := [s];
    assert ls[..0] == [];
    assert Interior([], table) == [];
    assert [] + Block(s, table, true) == Block(s, table, true);
  }
}
