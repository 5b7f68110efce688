/** Pixel colours: 32-bit unsigned values laid out as 0x00RRGGBB, the darken
    mask the wall rasteriser applies, and the conversion into the buffers'
    `int` cells. */
module Color {

  type Rgb = bv32

  /** 8355711 == 0x7F7F7F: the top bit of every colour channel cleared. */
  const DarkenMask: bv32 := 8355711

  const TwoTo31: int := 0x8000_0000
  const TwoTo32: int := 0x1_0000_0000

  function Blue(c: Rgb): bv32 { c & 0xFF }
  function Green(c: Rgb): bv32 { (c >> 8) & 0xFF }
  function Red(c: Rgb): bv32 { (c >> 16) & 0xFF }
  function TopByte(c: Rgb): bv32 { c >> 24 }

  /** The shaded colour of a wall face seen side-on: each RGB channel is
      halved on its own (no bit of one channel leaks into the next) and the
      top byte is cleared. */
  function Darken(c: Rgb): (r: Rgb)
    ensures TopByte(r) == 0
    ensures Red(r) == Red(c) >> 1
    ensures Green(r) == Green(c) >> 1
    ensures Blue(r) == Blue(c) >> 1
  {
    (c >> 1) & DarkenMask
  }

  /** A colour is determined by its four bytes. */
  lemma ChannelsDetermineColor(a: Rgb, b: Rgb)
    requires TopByte(a) == TopByte(b) && Red(a) == Red(b)
    requires Green(a) == Green(b) && Blue(a) == Blue(b)
    ensures a == b
  {
  }

  /** The colour a pixel gets: the sampled colour, darkened when asked. */
  function Shade(c: Rgb, darken: bool): (r: Rgb)
    ensures !darken ==> r == c
    ensures darken ==> TopByte(r) == 0 && Red(r) == Red(c) >> 1
    ensures darken ==> Green(r) == Green(c) >> 1 && Blue(r) == Blue(c) >> 1
  {
    if darken then Darken(c) else c
  }

  predicate IsInt32(v: int) { -TwoTo31 <= v < TwoTo31 }

  /** The `int` a reader of a buffer cell sees. A cell keeps the 32 bits of the
      `unsigned int` colour assigned to it; read as `int`, those bits are the
      two's-complement value, which agrees with the colour modulo 2^32. */
  function CellValue(c: Rgb): (v: int)
    ensures IsInt32(v)
    ensures (v - c as int) % TwoTo32 == 0
    ensures c as int < TwoTo31 ==> v == c as int
    ensures c as int >= TwoTo31 ==> v < 0
  {
    if c as int < TwoTo31 then c as int else c as int - TwoTo32
  }

  /** Darkened colours read back as their own non-negative value. */
  lemma DarkenedCellIsNonNegative(c: Rgb)
    ensures 0 <= CellValue(Darken(c)) == Darken(c) as int
  {
    var r := Darken(c);
    assert r < 0x8000_0000;
  }
}
