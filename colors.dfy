/** Colours as the canvas stores them: four 8-bit channels.
    orbclient keeps a colour as one packed 32-bit word (alpha in the top byte,
    then red, green, blue); the canvas compares those packed words, which is
    the same as comparing all four channels because packing is injective. */
module Colors {

  type Byte = bv8

  datatype Color = Color(r: Byte, g: Byte, b: Byte, a: Byte)

  /** Opaque white, the colour `clear` paints. */
  const White := Color(255, 255, 255, 255)

  /** The translucent red marker the mask is filled with. */
  const MaskMarker := Color(255, 0, 0, 50)

  /** The colour of a freshly created image (all channels zero). */
  const Blank := Color(0, 0, 0, 0)

  /** The packed word orbclient stores: 0xAARRGGBB. */
  function Pack(c: Color): (w: bv32)
    ensures Unpack(w) == c
    ensures (w >> 24) as Byte == c.a
  {
    (c.a as bv32 << 24) | (c.r as bv32 << 16) | (c.g as bv32 << 8) | c.b as bv32
  }

  function Unpack(w: bv32): Color
  {
    Color(((w >> 16) & 0xFF) as Byte, ((w >> 8) & 0xFF) as Byte, (w & 0xFF) as Byte, (w >> 24) as Byte)
  }

  /** Comparing packed words is comparing colours. */
  lemma PackInjective(c1: Color, c2: Color)
    ensures Pack(c1) == Pack(c2) <==> c1 == c2
  {
    if Pack(c1) == Pack(c2) {
      assert Unpack(Pack(c1)) == Unpack(Pack(c2));
    }
  }

  /** The mask's gate: the mask's red channel ANDed bitwise with the alpha. */
  function Gate(m: Byte, a: Byte): (g: Byte)
    ensures g <= a && g <= m
    ensures m == 0xFF ==> g == a
    ensures m == 0 ==> g == 0
    ensures a == 0 ==> g == 0
  {
    m & a
  }

  /** The colour handed to the surface when the mask gates a write:
      red, green and blue pass through, alpha is gated. */
  function Masked(c: Color, gate: Byte): (h: Color)
    ensures h.r == c.r && h.g == c.g && h.b == c.b
    ensures h.a == Gate(gate, c.a) && h.a <= c.a
    ensures gate == 0xFF ==> h == c
  {
    Color(c.r, c.g, c.b, Gate(gate, c.a))
  }
}
