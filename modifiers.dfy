/**
 * Decoding of the AXMenuItemModifiers bitmask into a glyph string
 * (AppShortcutsHandler.getModifierStringFromCmdModifiers).
 *
 * Bits are examined in the fixed order 1, 2, 4, 8, 16, 32 and the matching
 * glyphs ⌘, ⇧, ⌥, ^, • and fn are joined with no separator. Every other bit
 * is ignored.
 */
module Modifiers {
  import opened Wrappers

  /** The raw modifier attribute; the only caller passes a UInt32 widened to Int. */
  type Mask = bv32

  /** The glyph for each modifier bit, in the order the bits are examined. */
  const Glyphs: seq<string> := ["⌘", "⇧", "⌥", "^", "•", "fn"]

  /**
   * The modifier string as the source builds it: one test per bit, in bit
   * order, the glyphs joined with no separator. Concatenation is associative;
   * it is grouped from the right here, as the rendering below is.
   */
  function ModifierString(mods: Mask): string
  {
    (if mods & 1 != 0 then "⌘" else "")
    + ((if mods & 2 != 0 then "⇧" else "")
    + ((if mods & 4 != 0 then "⌥" else "")
    + ((if mods & 8 != 0 then "^" else "")
    + ((if mods & 16 != 0 then "•" else "")
    + (if mods & 32 != 0 then "fn" else "")))))
  }

  /** The six modifier bits of a mask, lowest first: Flags(mods)[i] selects Glyphs[i]. */
  function Flags(mods: Mask): (f: seq<bool>)
    ensures |f| == 6
  {
    [mods & 1 != 0, mods & 2 != 0, mods & 4 != 0, mods & 8 != 0, mods & 16 != 0, mods & 32 != 0]
  }

  /** The mask whose modifier bits are the given flags and whose other bits are clear. */
  function ToMask(f: seq<bool>): Mask
    requires |f| == 6
  {
    (if f[0] then 1 else 0) | (if f[1] then 2 else 0) | (if f[2] then 4 else 0)
    | (if f[3] then 8 else 0) | (if f[4] then 16 else 0) | (if f[5] then 32 else 0)
  }

  /**
   * Reference rendering driven by the glyph table: g holds the flags of
   * glyphs i..5, and each set flag contributes its glyph, in table order.
   */
  function Render(g: seq<bool>, i: nat): string
    requires i <= 6 && |g| == 6 - i
    decreases 6 - i
  {
    if i == 6 then ""
    else (if g[0] then Glyphs[i] else "") + Render(g[1..], i + 1)
  }

  /**
   * Inverse of the rendering: reads glyphs of index i or higher, each at most
   * once and in table order, and returns their flags. Anything else is rejected.
   */
  function ParseFrom(s: string, i: nat): (r: Option<seq<bool>>)
    requires i <= 6
    ensures r.Some? ==> |r.value| == 6 - i
    decreases 6 - i
  {
    if i == 6 then (if s == [] then Some([]) else None)
    else if Glyphs[i] <= s then
      match ParseFrom(s[|Glyphs[i]|..], i + 1)
      case Some(g) => Some([true] + g)
      case None => None
    else
      match ParseFrom(s, i + 1)
      case Some(g) => Some([false] + g)
      case None => None
  }

  /** Reads a modifier string back into the mask it renders. */
  function ParseModifiers(s: string): Option<Mask>
  {
    match ParseFrom(s, 0)
    case Some(g) => Some(ToMask(g))
    case None => None
  }

  /** The characters that glyphs i..5 are made of. */
  function CharsFrom(i: nat): set<char>
    requires i <= 6
    decreases 6 - i
  {
    if i == 6 then {} else (set c | c in Glyphs[i]) + CharsFrom(i + 1)
  }

  lemma RenderChars(g: seq<bool>, i: nat)
    requires i <= 6 && |g| == 6 - i
    ensures forall c :: c in Render(g, i) ==> c in CharsFrom(i)
  {
  }

  /** The first character of glyph i occurs in no later glyph. */
  lemma FirstCharNotLater(i: nat)
    requires i < 6
    ensures Glyphs[i][0] !in CharsFrom(i + 1)
  {
    assert CharsFrom(6) == {};
    assert CharsFrom(5) == {'f', 'n'};
    assert CharsFrom(4) == {'•', 'f', 'n'};
    assert CharsFrom(3) == {'^', '•', 'f', 'n'};
    assert CharsFrom(2) == {'⌥', '^', '•', 'f', 'n'};
    assert CharsFrom(1) == {'⇧', '⌥', '^', '•', 'f', 'n'};
  }

  /** One step of reading: a glyph at the front of the input sets its flag. */
  lemma ParseGlyph(rest: string, i: nat)
    requires i < 6
    ensures ParseFrom(Glyphs[i] + rest, i) ==
      match ParseFrom(rest, i + 1)
      case Some(g) => Some([true] + g)
      case None => None
  {
    var s := Glyphs[i] + rest;
    assert Glyphs[i] <= s;
    assert s[|Glyphs[i]|..] == rest;
  }

  /** One step of reading: input that starts with a later glyph leaves the flag clear. */
  lemma ParseNoGlyph(rest: string, i: nat)
    requires i < 6
    requires forall c :: c in rest ==> c in CharsFrom(i + 1)
    ensures ParseFrom(rest, i) ==
      match ParseFrom(rest, i + 1)
      case Some(g) => Some([false] + g)
      case None => None
  {
    if rest != [] {
      FirstCharNotLater(i);
      assert rest[0] in rest;
    }
    assert !(Glyphs[i] <= rest);
  }

  lemma {:induction false} ParseRender(g: seq<bool>, i: nat)
    requires i <= 6 && |g| == 6 - i
    ensures ParseFrom(Render(g, i), i) == Some(g)
    decreases 6 - i
  {
    if i == 6 {
      assert g == [];
    } else {
      ParseRender(g[1..], i + 1);
      var rest := Render(g[1..], i + 1);
      assert g == [g[0]] + g[1..];
      if g[0] {
        assert Render(g, i) == Glyphs[i] + rest;
        ParseGlyph(rest, i);
      } else {
        assert Render(g, i) == rest;
        RenderChars(g[1..], i + 1);
        ParseNoGlyph(rest, i);
      }
    }
  }

  lemma {:induction false} RenderParse(s: string, i: nat, g: seq<bool>)
    requires i <= 6
    requires ParseFrom(s, i) == Some(g)
    ensures |g| == 6 - i && Render(g, i) == s
    decreases 6 - i
  {
    if i < 6 {
      if Glyphs[i] <= s {
        var rest := s[|Glyphs[i]|..];
        var g' := ParseFrom(rest, i + 1).value;
        assert g == [true] + g';
        RenderParse(rest, i + 1, g');
        assert g[1..] == g';
        assert s == Glyphs[i] + rest;
      } else {
        var g' := ParseFrom(s, i + 1).value;
        assert g == [false] + g';
        RenderParse(s, i + 1, g');
        assert g[1..] == g';
      }
    }
  }

  /** The source's bit-by-bit string is the table-driven rendering of the mask's flags. */
  lemma ModifierStringIsRender(mods: Mask)
    ensures ModifierString(mods) == Render(Flags(mods), 0)
  {
    var f := Flags(mods);
    assert Render(f[6..], 6) == "";
    assert Render(f[5..], 5) == (if f[5] then "fn" else "");
    assert Render(f[4..], 4) == (if f[4] then "•" else "") + Render(f[5..], 5);
    assert Render(f[3..], 3) == (if f[3] then "^" else "") + Render(f[4..], 4);
    assert Render(f[2..], 2) == (if f[2] then "⌥" else "") + Render(f[3..], 3);
    assert Render(f[1..], 1) == (if f[1] then "⇧" else "") + Render(f[2..], 2);
    assert Render(f, 0) == (if f[0] then "⌘" else "") + Render(f[1..], 1);
  }

  lemma FlagsToMask(mods: Mask)
    ensures ToMask(Flags(mods)) == mods & 63
  {
  }

  lemma ToMaskFlags(f: seq<bool>)
    requires |f| == 6
    ensures Flags(ToMask(f)) == f
  {
  }

  /** Reading a rendered modifier string gives back the modifier bits of the mask. */
  lemma ParseModifierString(mods: Mask)
    ensures ParseModifiers(ModifierString(mods)) == Some(mods & 63)
  {
    ModifierStringIsRender(mods);
    ParseRender(Flags(mods), 0);
    FlagsToMask(mods);
  }

  /** A string that reads back as a mask is exactly that mask's rendering, and the mask uses only the modifier bits. */
  lemma ModifierStringOfParsed(s: string, mods: Mask)
    requires ParseModifiers(s) == Some(mods)
    ensures mods & 63 == mods
    ensures ModifierString(mods) == s
  {
    var g := ParseFrom(s, 0).value;
    RenderParse(s, 0, g);
    ToMaskFlags(g);
    ModifierStringIsRender(mods);
  }

  /** Only the six modifier bits matter, and distinct six-bit masks render distinctly. */
  lemma ModifierStringDeterminedByLowBits(a: Mask, b: Mask)
    ensures ModifierString(a) == ModifierString(b) <==> a & 63 == b & 63
  {
    ParseModifierString(a);
    ParseModifierString(b);
    if a & 63 == b & 63 {
      FlagsToMask(a);
      FlagsToMask(b);
      ToMaskFlags(Flags(a));
      ToMaskFlags(Flags(b));
      ModifierStringIsRender(a);
      ModifierStringIsRender(b);
    }
  }

  /** The characters of glyph i occur in no later glyph. */
  lemma GlyphNotLater(i: nat)
    requires i < 6
    ensures forall c :: c in Glyphs[i] ==> c !in CharsFrom(i + 1)
  {
    FirstCharNotLater(i);
    if i == 5 {
      assert CharsFrom(6) == {};
    }
  }

  /** The first character of glyph j belongs to glyphs i..5 whenever i <= j. */
  lemma GlyphInCharsFrom(i: nat, j: nat)
    requires i <= j < 6
    ensures Glyphs[j][0] in CharsFrom(i)
  {
  }

  /** The rendering of glyphs i..5 shows glyph j exactly when its flag is set. */
  lemma {:induction false} RenderShowsGlyph(g: seq<bool>, i: nat, j: nat)
    requires i <= j < 6 && |g| == 6 - i
    ensures Glyphs[j][0] in Render(g, i) <==> g[j - i]
    decreases 6 - i
  {
    var rest := Render(g[1..], i + 1);
    var piece := if g[0] then Glyphs[i] else "";
    assert Render(g, i) == piece + rest;
    RenderChars(g[1..], i + 1);
    GlyphNotLater(i);
    if i == j {
      assert Glyphs[i][0] in Glyphs[i];
    } else {
      RenderShowsGlyph(g[1..], i + 1, j);
      GlyphInCharsFrom(i + 1, j);
    }
  }

  /** Glyphs i..5 take at most 7 - i characters: "fn" is the only two-character glyph. */
  lemma RenderLength(g: seq<bool>, i: nat)
    requires i <= 6 && |g| == 6 - i
    ensures |Render(g, i)| <= 7 - i
  {
  }

  /** Each glyph appears exactly when its bit is set, and the string is at most seven characters long. */
  lemma GlyphPresence(mods: Mask)
    ensures '⌘' in ModifierString(mods) <==> mods & 1 != 0
    ensures '⇧' in ModifierString(mods) <==> mods & 2 != 0
    ensures '⌥' in ModifierString(mods) <==> mods & 4 != 0
    ensures '^' in ModifierString(mods) <==> mods & 8 != 0
    ensures '•' in ModifierString(mods) <==> mods & 16 != 0
    ensures 'f' in ModifierString(mods) <==> mods & 32 != 0
    ensures |ModifierString(mods)| <= 7
  {
    ModifierStringIsRender(mods);
    ShowsGlyph(mods, 0);
    ShowsGlyph(mods, 1);
    ShowsGlyph(mods, 2);
    ShowsGlyph(mods, 3);
    ShowsGlyph(mods, 4);
    ShowsGlyph(mods, 5);
    RenderLength(Flags(mods), 0);
  }

  lemma ShowsGlyph(mods: Mask, j: nat)
    requires j < 6
    ensures Glyphs[j][0] in Render(Flags(mods), 0) <==> Flags(mods)[j]
  {
    RenderShowsGlyph(Flags(mods), 0, j);
  }

  /** Values quoted in the source's comments: 0 has no glyph, 2 is Shift, 28 = 16 + 8 + 4. */
  lemma ModifierStringExamples()
    ensures ModifierString(0) == ""
    ensures ModifierString(2) == "⇧"
    ensures ModifierString(28) == "⌥^•"
    ensures ModifierString(63) == "⌘⇧⌥^•fn"
  {
  }
}
