// The font loader: a banner file is a list of lines; after an integrity check
// on the number of lines it is cut into blocks of eight glyph rows and one
// separator row, and the blocks are keyed by consecutive code points from the
// space character on.

module Banner {

  /** The rows of one character, top to bottom. */
  type Glyph = seq<string>

  /** The glyphs of one style, by code point. */
  type GlyphTable = map<char, Glyph>

  /** Rows per glyph. */
  const CharHeight: nat := 8

  /** Code point of the first glyph in the file: the space character. */
  const StartChar: nat := 32

  /** The only line count a banner file may have. */
  const BannerLineCount: nat := 854

  /** How a banner file can fail to load. */
  datatype LoadError = LineCountMismatch(actual: nat, expected: nat)

  datatype CheckResult = CountOk | CountError(error: LoadError)

  datatype LoadResult = Loaded(table: GlyphTable) | Failed(error: LoadError)

  /** What the renderer needs of a table: every glyph has its eight rows, and
      there is a glyph for the space character to fall back on. */
  predicate WellFormed(table: GlyphTable)
  {
    && ' ' in table
    && forall c :: c in table ==> |table[c]| >= CharHeight
  }

  /** Number of blocks the partition loop cuts from n lines: it takes a block
      at every multiple i of CharHeight + 1 with i + CharHeight <= n. */
  function BlockCount(n: nat): nat
  {
    if n < CharHeight then 0 else (n - CharHeight) / (CharHeight + 1) + 1
  }

  /** The code point of block k. */
  function KeyOf(k: nat): (c: char)
    requires StartChar + k < 0xD800
    ensures c as int == StartChar + k
  {
    (StartChar + k) as char
  }

  /** Block k of lines without its separator row: its first CharHeight rows. */
  function BlockRows(lines: seq<string>, k: nat): (rows: Glyph)
    requires (CharHeight + 1) * k + CharHeight <= |lines|
    ensures |rows| == CharHeight
  {
    lines[(CharHeight + 1) * k .. (CharHeight + 1) * k + CharHeight]
  }

  /** c is the code point of one of the first count blocks. */
  predicate IsKey(c: char, count: nat)
  {
    StartChar <= c as int < StartChar + count
  }

  /** The glyph table made of the first count blocks of lines: block k under
      code point StartChar + k. */
  function GlyphsUpTo(lines: seq<string>, count: nat): (table: GlyphTable)
    requires count <= BlockCount(|lines|) && StartChar + count < 0xD800
    ensures forall c :: c in table <==> IsKey(c, count)
    ensures forall c :: c in table ==> |table[c]| == CharHeight
  {
    map c: char | IsKey(c, count) ::
      BlockRows(lines, c as int - StartChar)
  }

  /** The glyph table that a banner file of the expected length yields. */
  function BannerGlyphs(lines: seq<string>): (table: GlyphTable)
    requires |lines| == BannerLineCount
    ensures forall c :: c in table <==> StartChar <= c as int <= 126
    ensures forall c :: c in table ==> |table[c]| == CharHeight
  {
    GlyphsUpTo(lines, BlockCount(|lines|))
  }

  /** checkBannerLineCount: counts the lines and fails, carrying the actual
      and expected counts, unless they agree. */
  method CheckBannerLineCount(lines: seq<string>, expectedLineCount: nat) returns (r: CheckResult)
    ensures r.CountOk? <==> |lines| == expectedLineCount
    ensures r.CountError? ==> r.error == LineCountMismatch(|lines|, expectedLineCount)
  {
    var lineCount := 0;
    var i := 0;
    while i < |lines|
      invariant 0 <= i <= |lines|
      invariant lineCount == i
    {
      lineCount := lineCount + 1;
      i := i + 1;
    }
    if lineCount != expectedLineCount {
      return CountError(LineCountMismatch(lineCount, expectedLineCount));
    }
    return CountOk;
  }

  /** One more block adds one new key to the table. */
  lemma GlyphsUpToStep(lines: seq<string>, count: nat)
    requires count + 1 <= BlockCount(|lines|) && StartChar + count + 1 < 0xD800
    ensures KeyOf(count) !in GlyphsUpTo(lines, count)
    ensures GlyphsUpTo(lines, count + 1)
         == GlyphsUpTo(lines, count)[KeyOf(count) := BlockRows(lines, count)]
  {
  }

  /** The first count blocks give count distinct keys. */
  lemma {:induction false} GlyphsUpToSize(lines: seq<string>, count: nat)
    requires count <= BlockCount(|lines|) && StartChar + count < 0xD800
    ensures |GlyphsUpTo(lines, count)| == count
  {
    if count == 0 {
      assert GlyphsUpTo(lines, 0).Keys == {};
    } else {
      GlyphsUpToSize(lines, count - 1);
      GlyphsUpToStep(lines, count - 1);
    }
  }

  /** LoadBanner: checks the line count, then cuts the lines into blocks of
      CharHeight rows plus one separator, keyed from StartChar on. */
  method LoadBanner(lines: seq<string>) returns (r: LoadResult)
    ensures r.Failed? <==> |lines| != BannerLineCount
    ensures r.Failed? ==> r.error == LineCountMismatch(|lines|, BannerLineCount)
    ensures r.Loaded? ==> r.table == BannerGlyphs(lines)
    ensures r.Loaded? ==> |r.table| == 95 && WellFormed(r.table)
  {
    var check := CheckBannerLineCount(lines, BannerLineCount);
    if check.CountError? {
      return Failed(check.error);
    }
    var bannerMap := PartitionBlocks(lines);
    BannerGlyphsShape(lines);
    BannerGlyphsWellFormed(lines);
    return Loaded(bannerMap);
  }

  /** The partition loop of LoadBanner: a block is taken at every multiple i
      of CharHeight + 1 that leaves room for CharHeight rows, and keyed by
      StartChar + i / (CharHeight + 1). */
  method PartitionBlocks(lines: seq<string>) returns (bannerMap: GlyphTable)
    requires |lines| == BannerLineCount
    ensures bannerMap == BannerGlyphs(lines)
  {
    bannerMap := map[];
    var i := 0;
    ghost var k := 0;  // the number of blocks taken so far
    while i + CharHeight <= |lines|
      invariant k <= 95 && i == 9 * k
      invariant bannerMap == GlyphsUpTo(lines, k)
      decreases |lines| - i
    {
      BlockIndex(k);
      GlyphsUpToStep(lines, k);
      bannerMap := bannerMap[(StartChar + i / (CharHeight + 1)) as char := lines[i .. i + CharHeight]];
      i := i + CharHeight + 1;
      k := k + 1;
    }
    assert k == 95 && BlockCount(|lines|) == 95;
  }

  /** The key computation of the partition loop recovers the block number. */
  lemma BlockIndex(k: nat)
    ensures (9 * k) / (CharHeight + 1) == k
  {
  }

  /** A banner file of the expected length yields 95 glyphs, for the code
      points 32 to 126, each of CharHeight rows taken from its block. */
  lemma BannerGlyphsShape(lines: seq<string>)
    requires |lines| == BannerLineCount
    ensures |BannerGlyphs(lines)| == 95
    ensures forall c: char :: c in BannerGlyphs(lines) <==> 32 <= c as int <= 126
    ensures forall k :: 0 <= k < 95 ==>
              BannerGlyphs(lines)[KeyOf(k)] == lines[9 * k .. 9 * k + 8]
  {
    assert BlockCount(|lines|) == 95;
    GlyphsUpToSize(lines, 95);
    forall k | 0 <= k < 95
      ensures BannerGlyphs(lines)[KeyOf(k)] == lines[9 * k .. 9 * k + 8]
    {
      assert IsKey(KeyOf(k), 95);
      assert BlockRows(lines, k) == lines[9 * k .. 9 * k + 8];
    }
  }

  /** Every line that is not a separator (the ninth line of each block) is
      row i % 9 of the glyph for code point 32 + i / 9. */
  lemma BannerGlyphsCoverLines(lines: seq<string>)
    requires |lines| == BannerLineCount
    ensures forall i :: 0 <= i < |lines| && i % 9 != 8 ==>
              && KeyOf(i / 9) in BannerGlyphs(lines)
              && BannerGlyphs(lines)[KeyOf(i / 9)][i % 9] == lines[i]
  {
    BannerGlyphsShape(lines);
    forall i | 0 <= i < |lines| && i % 9 != 8
      ensures KeyOf(i / 9) in BannerGlyphs(lines)
      ensures BannerGlyphs(lines)[KeyOf(i / 9)][i % 9] == lines[i]
    {
      var k := i / 9;
      assert 9 * k + i % 9 == i;
      assert k < 95;
    }
  }

  /** A loaded table is one the renderer can use. */
  lemma BannerGlyphsWellFormed(lines: seq<string>)
    requires |lines| == BannerLineCount
    ensures WellFormed(BannerGlyphs(lines))
  {
    BannerGlyphsShape(lines);
    assert KeyOf(0) == ' ';
    forall c | c in BannerGlyphs(lines) ensures |BannerGlyphs(lines)[c]| >= CharHeight {
      assert KeyOf(c as int - 32) == c;
    }
  }
}
