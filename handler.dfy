// The decision part of the request handler: a request carries a text and a
// style name; it is rejected when the text is blank, then when the style is
// not registered, and only otherwise rendered with that style's table.

module Handler {
  import opened Banner
  import opened Strs
  import opened Render

  /** The glyph tables loaded at startup, by style name. */
  type Registry = map<string, GlyphTable>

  /** What the handler answers: the rendered art or an error message. */
  datatype Response = Art(art: string) | Error(message: string)

  const EmptyTextMessage: string := "Text cannot be empty"

  const InvalidStyleMessage: string := "Invalid style selected"

  /** Every registered table can be rendered with: what the startup loading
      guarantees. */
  predicate RegistryWellFormed(registry: Registry)
  {
    forall style :: style in registry ==> WellFormed(registry[style])
  }

  /** The text holds nothing but whitespace (or nothing at all). */
  predicate IsBlank(text: string)
  {
    forall i :: 0 <= i < |text| ==> IsWhitespace(text[i])
  }

  /** handleGenerate after the request is decoded: the blank-text check comes
      first, the style lookup second, and the art is rendered with the table
      registered under the requested style. */
  function Generate(text: string, style: string, registry: Registry): (r: Response)
    requires RegistryWellFormed(registry)
    ensures r == Error(EmptyTextMessage) <==> IsBlank(text)
    ensures r == Error(InvalidStyleMessage) <==> !IsBlank(text) && style !in registry
    ensures r.Art? <==> !IsBlank(text) && style in registry
    ensures r.Art? ==> r.art == RenderText(text, registry[style])
  {
    TrimSpaceEmpty(text);
    if TrimSpace(text) == "" then Error(EmptyTextMessage)
    else if style !in registry then Error(InvalidStyleMessage)
    else Art(RenderText(text, registry[style]))
  }

  /** The answer depends on the registry only through the entry of the
      requested style: no other style's glyphs are ever used. */
  lemma GenerateUsesOnlyRequestedStyle(text: string, style: string, r1: Registry, r2: Registry)
    requires RegistryWellFormed(r1) && RegistryWellFormed(r2)
    requires style in r1 <==> style in r2
    requires style in r1 ==> r1[style] == r2[style]
    ensures Generate(text, style, r1) == Generate(text, style, r2)
  {
  }

  /** A registry made of successfully loaded banner files can be used. */
  lemma LoadedRegistryWellFormed(files: map<string, seq<string>>, registry: Registry)
    requires forall style :: style in files ==> |files[style]| == BannerLineCount
    requires registry.Keys == files.Keys
    requires forall style :: style in registry ==> registry[style] == BannerGlyphs(files[style])
    ensures RegistryWellFormed(registry)
  {
    forall style | style in registry ensures WellFormed(registry[style]) {
      BannerGlyphsWellFormed(files[style]);
    }
  }
}
