/** The byte reorders at the canvas's buffer boundary.
    In memory a packed 0xAARRGGBB colour is the four bytes b, g, r, a
    (little-endian).  `save` hands the image crate r, g, b, a bytes by swapping
    bytes 0 and 2 of every quad; `trans_from_slice` turns the crate's bytes back
    into colours with the same swap. */
module Swizzle {
  import opened Colors

  /** The buffer `save` builds: one output quad [b2, b1, b0, b3] per
      complete input quad [b0, b1, b2, b3]; a trailing partial quad is dropped. */
  function Reordered(buf: seq<Byte>): (out: seq<Byte>)
    ensures |out| == 4 * (|buf| / 4) && |out| <= |buf|
    ensures |buf| >= 4 ==> out[..4] == [buf[2], buf[1], buf[0], buf[3]]
    decreases |buf|
  {
    if |buf| < 4 then [] else [buf[2], buf[1], buf[0], buf[3]] + Reordered(buf[4..])
  }

  /** The export loop of `save`. */
  method SaveReorder(buf: seq<Byte>) returns (out: seq<Byte>)
    requires |buf| >= 4
    ensures out == Reordered(buf)
  {
    out := [];
    var i := 0;
    while i <= |buf| - 4
      invariant 0 <= i <= |buf|
      invariant out + Reordered(buf[i..]) == Reordered(buf)
    {
      assert buf[i..][4..] == buf[i + 4..];
      out := out + [buf[i + 2], buf[i + 1], buf[i], buf[i + 3]];
      i := i + 4;
    }
  }

  /** Reordering twice gives back every complete quad. */
  lemma {:induction false} ReorderInvolutive(buf: seq<Byte>)
    ensures Reordered(Reordered(buf)) == buf[..4 * (|buf| / 4)]
    decreases |buf|
  {
    if |buf| >= 4 {
      var once := Reordered(buf);
      ReorderInvolutive(buf[4..]);
      assert once[4..] == Reordered(buf[4..]);
      assert buf[..4 * (|buf| / 4)] == buf[..4] + buf[4..][..4 * (|buf[4..]| / 4)];
    }
  }

  /** The colours `trans_from_slice` reads back from a buffer, one per
      complete quad: r is byte 2, g byte 1, b byte 0, a byte 3. */
  function Imported(buf: seq<Byte>): (cs: seq<Color>)
    ensures |cs| == |buf| / 4
    ensures |buf| >= 4 ==> cs[0] == Color(buf[2], buf[1], buf[0], buf[3])
    decreases |buf|
  {
    if |buf| < 4 then [] else [Color(buf[2], buf[1], buf[0], buf[3])] + Imported(buf[4..])
  }

  /** The import loop of `trans_from_slice`. */
  method ImportColors(buf: seq<Byte>) returns (cs: seq<Color>)
    requires |buf| >= 4
    ensures cs == Imported(buf)
  {
    cs := [];
    var i := 0;
    while i <= |buf| - 4
      invariant 0 <= i <= |buf|
      invariant cs + Imported(buf[i..]) == Imported(buf)
    {
      assert buf[i..][4..] == buf[i + 4..];
      var r, g, b, a := buf[i], buf[i + 1], buf[i + 2], buf[i + 3];
      cs := cs + [Color(b, g, r, a)];
      i := i + 4;
    }
  }

  /** The in-memory bytes of a colour slice: b, g, r, a per colour. */
  function LayoutBytes(cs: seq<Color>): (buf: seq<Byte>)
    ensures |buf| == 4 * |cs|
    ensures cs != [] ==> buf[..4] == [cs[0].b, cs[0].g, cs[0].r, cs[0].a]
  {
    if cs == [] then [] else [cs[0].b, cs[0].g, cs[0].r, cs[0].a] + LayoutBytes(cs[1..])
  }

  /** The bytes an RGBA encoder expects: r, g, b, a per colour. */
  function RgbaBytes(cs: seq<Color>): (buf: seq<Byte>)
    ensures |buf| == 4 * |cs|
    ensures cs != [] ==> buf[..4] == [cs[0].r, cs[0].g, cs[0].b, cs[0].a]
  {
    if cs == [] then [] else [cs[0].r, cs[0].g, cs[0].b, cs[0].a] + RgbaBytes(cs[1..])
  }

  /** The layout is the little-endian byte order of the packed word. */
  lemma LayoutIsLittleEndian(c: Color)
    ensures LayoutBytes([c]) == [(Pack(c) & 0xFF) as Byte, ((Pack(c) >> 8) & 0xFF) as Byte,
                                 ((Pack(c) >> 16) & 0xFF) as Byte, (Pack(c) >> 24) as Byte]
  {
    var w := Pack(c);
    assert Unpack(w) == c;
  }

  /** `save` exports exactly the RGBA bytes of the image. */
  lemma {:induction false} ExportIsRgba(cs: seq<Color>)
    ensures Reordered(LayoutBytes(cs)) == RgbaBytes(cs)
  {
    if cs != [] {
      var buf := LayoutBytes(cs);
      ExportIsRgba(cs[1..]);
      assert buf[4..] == LayoutBytes(cs[1..]);
    }
  }

  /** Reading the in-memory bytes back yields the same colours, so a transform
      that leaves the crate's buffer alone leaves the image alone. */
  lemma {:induction false} ImportInvertsLayout(cs: seq<Color>)
    ensures Imported(LayoutBytes(cs)) == cs
  {
    if cs != [] {
      var buf := LayoutBytes(cs);
      ImportInvertsLayout(cs[1..]);
      assert buf[4..] == LayoutBytes(cs[1..]);
      assert cs == [cs[0]] + cs[1..];
    }
  }

  /** Each colour with its red and blue channels exchanged. */
  function RedBlueSwapped(cs: seq<Color>): (out: seq<Color>)
    ensures |out| == |cs|
    ensures forall k :: 0 <= k < |cs| ==> out[k] == Color(cs[k].b, cs[k].g, cs[k].r, cs[k].a)
  {
    seq(|cs|, k requires 0 <= k < |cs| => Color(cs[k].b, cs[k].g, cs[k].r, cs[k].a))
  }

  /** The import expects the in-memory b, g, r, a order, not the r, g, b, a
      order `save` writes: importing RGBA bytes exchanges red and blue. */
  lemma {:induction false} ImportOfRgba(cs: seq<Color>)
    ensures Imported(RgbaBytes(cs)) == RedBlueSwapped(cs)
  {
    if cs != [] {
      var buf := RgbaBytes(cs);
      ImportOfRgba(cs[1..]);
      assert buf[4..] == RgbaBytes(cs[1..]);
    }
  }
}
