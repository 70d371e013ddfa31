/** The palette and rule tables that langtonsant.go builds in its init
    function, and the reverse palette lookup findColorInPalette. */
module Tables {
  import opened Headings

  /** Number of cell states (colours). */
  const PaletteSize: nat := 256

  newtype Byte = x: int | 0 <= x < 256

  /** A non-premultiplied RGBA colour with 8-bit channels, as stored in the image. */
  datatype Color = NRGBA(r: Byte, g: Byte, b: Byte, a: Byte)

  /** The grey level of colour index i: 0xff - uint8(i * 0xff / (paletteSize - 1)),
      with Go's truncation to uint8 and its wrapping uint8 subtraction written out.
      With 256 colours the formula is exactly 255 - i. */
  function Grey(i: int): (g: Byte)
    requires 0 <= i < PaletteSize
    ensures g as int == 255 - i
  {
    ((0xff - (i * 0xff / (PaletteSize - 1)) % 256) % 256) as Byte
  }

  /** The palette entry of colour index i: an opaque grey. */
  function PaletteColor(i: int): (c: Color)
    requires 0 <= i < PaletteSize
    ensures c.r == c.g == c.b && c.a == 0xff
    ensures c.g as int == 255 - i
  {
    var g := Grey(i);
    NRGBA(g, g, g, 0xff)
  }

  /** The turn rule of colour index i. Indices congruent to 0 or 3 modulo 4
      turn right, the others left: the pattern R, L, L, R, R, L, L, R, ... */
  function RuleFor(i: int): (t: Turn)
    requires 0 <= i < PaletteSize
    ensures t == Right || t == Left
    ensures t == Right <==> i % 4 == 0 || i % 4 == 3
  {
    if ((i + 1) / 2) % 2 == 0 then Right else Left
  }

  /** Distinct colour indices have distinct palette colours, so a colour read
      back from the image determines the index that was written. */
  lemma PaletteInjective(i: int, j: int)
    requires 0 <= i < PaletteSize && 0 <= j < PaletteSize
    requires PaletteColor(i) == PaletteColor(j)
    ensures i == j
  {
  }

  /** The first eight rules, as the comment on the rule formula announces. */
  lemma FirstEightRules()
    ensures seq(8, i requires 0 <= i < 8 => RuleFor(i))
            == [Right, Left, Left, Right, Right, Left, Left, Right]
  {
  }

  /** The rule table repeats with period four. */
  lemma RulesPeriodic(i: int)
    requires 0 <= i && i + 4 < PaletteSize
    ensures RuleFor(i + 4) == RuleFor(i)
  {
  }

  /** The tables as init leaves them: one palette colour and one turn rule
      per colour index. */
  ghost predicate TablesReady(palette: array<Color>, turns: array<Turn>)
    reads palette, turns
  {
    && palette.Length == PaletteSize
    && turns.Length == PaletteSize
    && (forall i :: 0 <= i < PaletteSize ==> palette[i] == PaletteColor(i))
    && (forall i :: 0 <= i < PaletteSize ==> turns[i] == RuleFor(i))
  }

  /** The init function: allocates both tables and fills them entry by entry. */
  method BuildTables() returns (palette: array<Color>, turns: array<Turn>)
    ensures TablesReady(palette, turns)
  {
    palette := new Color[PaletteSize];
    turns := new Turn[PaletteSize];
    for i := 0 to PaletteSize
      invariant forall j :: 0 <= j < i ==> palette[j] == PaletteColor(j)
      invariant forall j :: 0 <= j < i ==> turns[j] == RuleFor(j)
    {
      var g := (0xff - (i * 0xff / (PaletteSize - 1)) % 256) % 256;
      palette[i] := NRGBA(g as Byte, g as Byte, g as Byte, 0xff);
      if ((i + 1) / 2) % 2 == 0 {
        turns[i] := Right;
      } else {
        turns[i] := Left;
      }
    }
  }

  /** findColorInPalette: a linear search for the first palette entry equal
      to c. The Go function aborts the process when there is none; callers
      must therefore only pass a colour the palette contains. */
  method FindColorInPalette(palette: array<Color>, c: Color) returns (i: int)
    requires palette.Length == PaletteSize
    requires exists j :: 0 <= j < PaletteSize && palette[j] == c
    ensures 0 <= i < PaletteSize && palette[i] == c
    ensures forall j :: 0 <= j < i ==> palette[j] != c
  {
    i := 0;
    while i < PaletteSize
      invariant 0 <= i <= PaletteSize
      invariant forall j :: 0 <= j < i ==> palette[j] != c
    {
      if palette[i] == c {
        return;
      }
      i := i + 1;
    }
    assert false;
  }
}
