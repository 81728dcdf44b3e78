# ascii-art-web engine, modelled in Dafny

This project models the ASCII-art engine of the `ascii-art-web` backend
(`backend/main.go`). It is a model of that engine, not a build of it.
The engine has three parts:

- **The font loader** (`checkBannerLineCount`, `LoadBanner`). A banner
  file is a list of lines. It must have exactly 854 of them. The loader cuts
  the lines into blocks of eight glyph rows and one separator row, and it keys
  block *k* under code point 32 + *k*. The last block has no separator row:
  854 = 94 × 9 + 8. The result is a glyph table: 95 glyphs, for the code
  points 32 to 126.
- **The renderer** (`PrintAsciiArt`). It first turns every two-character
  escape `\n` (a backslash, then the letter n) into a real line break. It then
  splits the text into logical lines. An empty logical line is written as one
  blank line. For a non-empty logical line, eight composite rows are built.
  Row *j* is row *j* of every character's glyph, joined in order. A character
  missing from the table uses the space glyph. Each row is right-trimmed of
  spaces and written only if something is left. Every non-empty logical line
  except the last is followed by a blank separator line. Two blank lines end
  the output.
- **Request validation** (the decision part of `handleGenerate`). A text
  made only of whitespace is rejected first. An unknown style is rejected
  next. Only then is the text rendered, with the table registered under the
  requested style.

Files:

- `strs.dfy` (module `Strs`): the Go `strings` operations the engine uses.
  These are the replacement of the escape (`strings.ReplaceAll`), splitting on
  line breaks (`strings.Split`), `strings.TrimRight(s, " ")` and
  `strings.TrimSpace` with the whitespace set of `unicode.IsSpace`.
- `banner.dfy` (module `Banner`): the glyph types, the loader's constants,
  `CheckBannerLineCount` and `LoadBanner`. Both are methods with the
  source's loops. The partition loop of `LoadBanner` is the method
  `PartitionBlocks`. `BannerGlyphs` is the table they are proved to build.
- `render.dfy` (modules `Render` and `RenderProperties`): the
  specification of the output as functions (`RenderLines`, `RenderText`). It
  also holds the imperative renderer. `DrawLine` fills a 9-slot array in
  place. Its inner loop over the glyph rows is `AppendGlyph`. `EmitScanlines` trims and writes
  the slots. `WriteLogicalLine` is one pass of the outer loop.
  `PrintAsciiArt` is the whole function. The builder is a string that each
  method extends. The properties of the rendering are lemmas in
  `RenderProperties`.
- `handler.dfy` (module `Handler`): the validation decision as the
  function `Generate` over the text, the style name and the registry.

A comment in the source (`backend/main.go:139`) says the file must have 856
lines. The code checks 854 (`backend/main.go:140`). The model follows the
code.

## Model

| member | source | states |
|---|---|---|
| `Banner.CheckBannerLineCount` | backend/main.go:112-135 | counts the lines in a loop; succeeds exactly when the count equals the expected one, otherwise fails carrying the actual and expected counts |
| `Banner.LoadBanner` | backend/main.go:138-173 | fails, with the mismatch error, exactly when the file does not have 854 lines; otherwise returns the table the partition loop builds (`BannerGlyphs`), which has 95 glyphs and is usable by the renderer |
| `Banner.PartitionBlocks` | backend/main.go:162-170 | the partition loop over an 854-line file builds exactly the table `BannerGlyphs` describes |
| `Banner.GlyphsUpToSize` | backend/main.go:167-170 | after *n* passes of the partition loop the table has exactly *n* keys: the loop never overwrites a glyph |
| `Banner.GlyphsUpTo` | backend/main.go:162-170 | the table after *n* passes of the partition loop: its keys are exactly the code points 32 .. 32+*n*−1, and every glyph has exactly 8 rows |
| `Banner.BannerGlyphs` | backend/main.go:162-170 | the table an 854-line file yields: its keys are exactly the code points 32 .. 126, and every glyph has exactly 8 rows |
| `Banner.BannerGlyphsShape` | backend/main.go:162-170 | an 854-line file gives exactly 95 glyphs, keyed by exactly the code points 32..126, and the glyph for 32+*k* is lines 9*k* .. 9*k*+8 (8 rows, separator excluded) |
| `Banner.BannerGlyphsCoverLines` | backend/main.go:167-170 | every line whose index *i* is not a separator (*i* mod 9 ≠ 8) is row *i* mod 9 of the glyph for code point 32 + *i* / 9 |
| `Banner.BannerGlyphsWellFormed` | backend/main.go:162-170 | a loaded table has a space glyph and every glyph has 8 rows, which is what the renderer's indexing and fallback need |
| `Strs.ReplaceEscapes` | backend/main.go:177 | the result holds no escape `\n`, is never longer than the input, is empty only for empty input, and starts with `n` exactly when the input does |
| `Strs.ReplaceEscapesIdentity` | backend/main.go:177 | text without the escape is left unchanged |
| `Strs.ReplaceEscapesIdempotent` | backend/main.go:177 | replacing twice is the same as replacing once |
| `Strs.ReplaceEscapesConcat` | backend/main.go:177 | the replacement of a concatenation is the concatenation of the replacements unless the cut splits an escape |
| `Strs.EscapeBecomesNewline` | backend/main.go:177 | a literal escape between two texts becomes one line break, and each side is replaced on its own |
| `Strs.ReplaceEscapesAround` | backend/main.go:177 | a character that is neither a backslash nor `n` separates the replacement of its two sides |
| `Strs.SplitLines` | backend/main.go:177 | splitting gives at least one piece, and no piece contains a line break |
| `Strs.JoinSplitLines` | backend/main.go:177 | joining the pieces with line breaks gives back the text |
| `Strs.SplitJoinLines` | backend/main.go:177 | splitting the join of pieces without line breaks gives back those pieces |
| `Strs.SplitLinesCount` | backend/main.go:177 | there is one more piece than there are line breaks |
| `Strs.SplitLinesConcat` | backend/main.go:177 | the pieces of a concatenation are those of the two sides, the last left piece merged with the first right one |
| `Strs.SplitLinesAtNewline` | backend/main.go:177 | a line break between two texts gives the pieces of the first, then those of the second |
| `Strs.SplitLinesAtChar` | backend/main.go:177 | any other character between two texts joins the last piece of the first and the first piece of the second |
| `Strs.SplitLinesSingle` | backend/main.go:177 | a text without line breaks is a single logical line |
| `Strs.TrimTrailingSpaces` | backend/main.go:199 | the result is a prefix of the row, does not end in a space, and everything removed is spaces |
| `Strs.IsWhitespace` | backend/main.go:79 | among the code points up to 0xFF, exactly tab, line feed, vertical tab, form feed, carriage return, space, U+0085 and U+00A0 are whitespace; no code point above U+3000 is |
| `Strs.TrimSpace` | backend/main.go:79 | the result is a contiguous piece of the text, everything cut from either end is whitespace, and a non-empty result neither starts nor ends with whitespace |
| `Strs.TrimBothEmpty` | backend/main.go:79 | trimming both ends gives the empty string exactly when every character satisfies the trimming test |
| `Strs.TrimLeftFunc` | backend/main.go:79 | the result is a suffix of the text, does not start with whitespace, and everything removed is whitespace |
| `Strs.TrimRightFunc` | backend/main.go:79 | the result is a prefix of the text, does not end with whitespace, and everything removed is whitespace |
| `Strs.TrimSpaceEmpty` | backend/main.go:79 | `TrimSpace` gives the empty string exactly when every character is whitespace |
| `Render.GlyphFor` | backend/main.go:188-191 | the glyph used for a character, its own or the space glyph, always has the 8 rows the drawing loop reads |
| `Render.CompositeRow` | backend/main.go:187-195 | composite row *j* of the empty line is empty, and that of a one-character line is row *j* of that character's glyph (or of the space glyph); `CompositeRowConcat` gives the rest |
| `Render.Scanlines` | backend/main.go:185-196 | the nine slots after drawing: slot *j* below 8 is composite row *j*, and the ninth slot is empty |
| `Render.Emit` | backend/main.go:199-201 | a slot gives at most one output line; it gives none exactly when it is all spaces; the line it gives is a non-empty prefix of the slot without a trailing space |
| `Render.Block` | backend/main.go:180-206 | an empty logical line gives exactly one blank line; a block has at most 10 lines; a non-final block ends with a blank line; a final non-empty block has no blank line |
| `Render.Interior` | backend/main.go:179-207 | *n* non-final logical lines give between *n* and 10*n* lines, the last of them blank |
| `Render.Blocks` | backend/main.go:179-207 | *n* logical lines give between *n*−1 and 10*n* lines |
| `Render.Unlines` | backend/main.go:181-210 | each line contributes its own line break (`fmt.Fprintln`): the text is at least as long as the number of lines and, when there is a line, ends with a line break |
| `Render.RenderLines` | backend/main.go:176-211 | the output has more lines than the input has logical lines, and its last two lines are blank |
| `Render.RenderText` | backend/main.go:176-211 | the output always ends with two line breaks |
| `Render.EmitRows` | backend/main.go:198-202 | no more output lines than slots, and every output line is non-empty and has no trailing space |
| `Render.LogicalLines` | backend/main.go:177 | every input, the empty one included, has at least one logical line |
| `Render.DrawLine` | backend/main.go:185-196 | after the character loop the 9-slot buffer holds composite rows 0..7 and an empty ninth slot (`Scanlines`) |
| `Render.AppendGlyph` | backend/main.go:193-195 | appends row j of the glyph to slot j of the buffer for every j below 8, and leaves the ninth slot alone |
| `Render.EmitScanlines` | backend/main.go:198-202 | writes exactly the right-trimmed, non-empty slots, each followed by a line break (`EmitRows`) |
| `Render.WriteLogicalLine` | backend/main.go:180-206 | appends one line break for an empty logical line; otherwise its scanlines and, unless it is the last, one blank separator (`Block`) |
| `Render.PrintAsciiArt` | backend/main.go:176-211 | appends to the builder exactly `RenderText(input, table)` |
| `RenderProperties.RenderEmptyInput` | backend/main.go:177-211 | rendering the empty text gives exactly three line breaks |
| `RenderProperties.RenderEscapeIsNewline` | backend/main.go:177 | text with a literal escape renders exactly as the same text with a real line break in its place |
| `RenderProperties.RenderReplacedInput` | backend/main.go:177 | rendering text whose escapes have all been replaced gives the same output as rendering the original text |
| `RenderProperties.CompositeRowConcat` | backend/main.go:187-196 | composite row *j* of a concatenation is the concatenation of the two sides' row *j* |
| `RenderProperties.CompositeRowSingle` | backend/main.go:187-196 | composite row *j* of one character is row *j* of its glyph, or of the space glyph when it has none |
| `RenderProperties.MissingGlyphDrawsAsSpace` | backend/main.go:188-191 | in a logical line, replacing a character the table lacks by a space leaves its output unchanged |
| `RenderProperties.SubstituteInLogicalLine` | backend/main.go:177 | replacing such a character by a space changes exactly one logical line, at the same position, and no others |
| `RenderProperties.RenderMissingGlyph` | backend/main.go:177-196 | replacing a character the table lacks by a space anywhere in the text leaves the whole output unchanged, as long as that character is not a line break, a backslash or `n` |
| `RenderProperties.EmitRowsFrom` | backend/main.go:198-202 | every output line is one of the slots, right-trimmed |
| `RenderProperties.KeptCount` | backend/main.go:198-202 | the number of slots that survive trimming, never more than the slots |
| `RenderProperties.EmitRowsLength` | backend/main.go:198-202 | exactly one output line per slot that is not all spaces |
| `RenderProperties.EmitRowsAt` | backend/main.go:198-202 | a slot that is not all spaces is written, right-trimmed, at the position given by the number of kept slots before it |
| `RenderProperties.EmitRowsKeeps` | backend/main.go:198-202 | every slot that is not all spaces appears, right-trimmed, in the output (the converse of `EmitRowsFrom`) |
| `RenderProperties.KeptCountIncreases` | backend/main.go:198-202 | a kept slot comes before every later kept slot in the output: the slots keep their order |
| `RenderProperties.ScanlinesKeep` | backend/main.go:185-202 | for a logical line, every composite row 0..7 that is not all spaces is written, right-trimmed, at the position of the kept rows before it, and the output has exactly as many lines as kept rows 0..7 |
| `RenderProperties.ScanlinesShape` | backend/main.go:185-202 | a logical line gives at most 8 output lines, each non-empty, without a trailing space and equal to some right-trimmed composite row 0..7; the ninth slot never gives a line |
| `RenderProperties.InteriorConcat` | backend/main.go:179-207 | the output of consecutive non-final logical lines is the output of each group in turn |
| `RenderProperties.BlocksConcat` | backend/main.go:179-207 | logical lines followed by more logical lines: the first group renders as non-final lines, then the rest renders as usual |
| `RenderProperties.LogicalLinesAtNewline` | backend/main.go:177 | a line break in the input ends a logical line: the logical lines before it, then those after it |
| `RenderProperties.RenderAfterNewline` | backend/main.go:179-210 | the output for `x + "\n" + y` is the output of `x`'s logical lines, each followed by its separator, then the whole output for `y` |
| `RenderProperties.RenderSeparatedLine` | backend/main.go:180-206 | one logical line followed by more text: an empty line gives exactly one blank line and no separator; a non-empty one gives its scanlines and then exactly one blank line |
| `RenderProperties.RenderSingleLine` | backend/main.go:180-211 | text that forms one logical line gives its scanlines, or one blank line if it is empty, followed by exactly the two terminator lines |
| `Handler.Generate` | backend/main.go:79-94 | a whitespace-only text is rejected with "Text cannot be empty" whatever the style; otherwise an unknown style is rejected with "Invalid style selected"; art is produced exactly when both checks pass, and it is the rendering with the requested style's table |
| `Handler.GenerateUsesOnlyRequestedStyle` | backend/main.go:85-94 | the answer depends on the registry only through the requested style's entry |
| `Handler.LoadedRegistryWellFormed` | backend/main.go:30-36 | a registry built from 854-line banner files holds only tables the renderer can use |

## Left out

- HTTP serving, the CORS middleware, the method check, JSON decoding and
  encoding, and `sendError` (`backend/main.go:40-109`). These are transport.
  `Generate` returns the response as a value instead.
- File opening and reading with `bufio.Scanner`, including its token-size
  limit and read errors (`backend/main.go:113-128`, `144-160`). A banner file
  is given as its list of lines. `LoadBanner` reads the file twice, once to
  count and once to partition. The model assumes both reads see the same
  lines.
- The startup loop over the style names, `filepath.Join` and `log.Fatalf`
  (`backend/main.go:27-38`). The registry is a map parameter.
  `Handler.LoadedRegistryWellFormed` states what the loop guarantees about it.
- UTF-8 decoding: text is a sequence of code points, so invalid byte
  sequences are not modelled.
- The unused `color` parameter of `PrintAsciiArt`.
- `frontend/script.js`: browser UI, animation, network calls and download.
  It has no logic of the engine.
- The Go renderer panics only when it draws a glyph with fewer than 8 rows,
  or when the text holds a character the table lacks and the table has no
  space glyph. The model's renderer instead requires `WellFormed`: a space
  glyph and 8 rows in every glyph. That rules such tables out for every
  input, including inputs Go would render without touching the short glyph.
  Every loaded table meets it (`Banner.BannerGlyphsWellFormed`), so the
  difference never shows through `LoadBanner`.
- RenderProperties.RenderMissingGlyph: stated at the level of the whole
  text only for characters other than a line break, a backslash and `n`.
  Those three characters change how the text is split into logical lines.
  Within a logical line, `RenderProperties.MissingGlyphDrawsAsSpace` holds
  for every missing character.
