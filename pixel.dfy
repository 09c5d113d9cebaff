// The 16-bit RGBA pixel and its compositing operations
// (lib_ktg/ktg/gentexture.cpp, "Pixel"). Each C++ member updates the
// pixel in place; since a Pixel is a plain value, each is modelled here
// as a function returning the new pixel. Every store into a uint16_t
// field goes through Trunc16, and the lemmas show when it loses nothing.
module Pixels {
  import opened Helpers

  type Byte = v: int | 0 <= v < 256
  type Channel = c: int | 0 <= c < 0x1_0000

  /** 0 stands for 0.0 and 65535 for 1.0 in every channel. */
  datatype Pixel = Pixel(r: Channel, g: Channel, b: Channel, a: Channel)

  const Black: Pixel := Pixel(0, 0, 0, 0)
  const White: Pixel := Pixel(65535, 65535, 65535, 65535)

  /** Colour channels never exceed alpha: the pixel stores alpha-premultiplied colour. */
  predicate Premultiplied(p: Pixel) {
    p.r <= p.a && p.g <= p.a && p.b <= p.a
  }

  // ---------------------------------------------------------------------
  // Init (gentexture.cpp:28-47)

  /** `(v << 8) | v`: the two bytes of the result do not overlap, so the OR is a sum. */
  function Widen(v: Byte): (c: Channel)
    ensures c / 256 == v && c % 256 == v
    ensures v == 0 <==> c == 0
    ensures v == 255 <==> c == 65535
  {
    DivModUnique(256 * v + v, 256, v, v);
    256 * v + v
  }

  /** Pixel::Init(r, g, b, a): each byte is replicated into both halves of its channel. */
  function InitBytes(r: Byte, g: Byte, b: Byte, a: Byte): Pixel {
    Pixel(Widen(r), Widen(g), Widen(b), Widen(a))
  }

  /** Channel bytes of a packed 0xaarrggbb colour: `(rgba >> shift) & 0xff`. */
  function PackedByte(rgba: U32, scale: nat): Byte
    requires scale > 0
  {
    (rgba / scale) % 256
  }

  function AlphaByte(rgba: U32): Byte { PackedByte(rgba, TWO24) }
  function RedByte(rgba: U32): Byte { PackedByte(rgba, TWO16) }
  function GreenByte(rgba: U32): Byte { PackedByte(rgba, 256) }
  function BlueByte(rgba: U32): Byte { PackedByte(rgba, 1) }

  /** Straight colour channels scaled by alpha, each stored into a uint16_t. */
  function Premultiply(r: Channel, g: Channel, b: Channel, a: Channel): Pixel {
    Pixel(Trunc16(MulIntens(r, a)), Trunc16(MulIntens(g, a)), Trunc16(MulIntens(b, a)), a)
  }

  /** Pixel::Init(rgba): alpha is widened, colour is widened and premultiplied by it. */
  function InitPacked(rgba: U32): Pixel {
    Premultiply(Widen(RedByte(rgba)), Widen(GreenByte(rgba)), Widen(BlueByte(rgba)), Widen(AlphaByte(rgba)))
  }

  /** A channel scaled by an intensity keeps its value through the uint16_t store. */
  lemma MulIntensStored(c: Channel, a: Channel)
    ensures Trunc16(MulIntens(c, a)) == MulIntens(c, a)
    ensures MulIntens(c, a) <= a && MulIntens(c, a) <= c
  {
    MulIntensBelow(c, a);
  }

  /** Premultiplying gives a premultiplied pixel; alpha 1.0 keeps the colour and alpha 0 gives black. */
  lemma PremultiplySpec(r: Channel, g: Channel, b: Channel, a: Channel)
    ensures Premultiply(r, g, b, a).a == a && Premultiplied(Premultiply(r, g, b, a))
    ensures a == 65535 ==> Premultiply(r, g, b, a) == Pixel(r, g, b, a)
    ensures a == 0 ==> Premultiply(r, g, b, a) == Black
  {
    MulIntensStored(r, a);
    MulIntensStored(g, a);
    MulIntensStored(b, a);
    MulIntensUnit(r);
    MulIntensUnit(g);
    MulIntensUnit(b);
  }

  /** The packed colour decodes to a premultiplied pixel whose alpha is the alpha byte. */
  lemma InitPackedPremultiplied(rgba: U32)
    ensures InitPacked(rgba).a == Widen(AlphaByte(rgba))
    ensures Premultiplied(InitPacked(rgba))
  {
    PremultiplySpec(Widen(RedByte(rgba)), Widen(GreenByte(rgba)), Widen(BlueByte(rgba)), Widen(AlphaByte(rgba)));
  }

  /** An opaque packed colour decodes exactly as the four bytes do. */
  lemma InitPackedOpaque(rgba: U32)
    requires AlphaByte(rgba) == 255
    ensures InitPacked(rgba) == InitBytes(RedByte(rgba), GreenByte(rgba), BlueByte(rgba), 255)
  {
    PremultiplySpec(Widen(RedByte(rgba)), Widen(GreenByte(rgba)), Widen(BlueByte(rgba)), Widen(AlphaByte(rgba)));
  }

  /** A fully transparent packed colour decodes to transparent black, whatever its colour bytes. */
  lemma InitPackedTransparent(rgba: U32)
    requires AlphaByte(rgba) == 0
    ensures InitPacked(rgba) == Black
  {
    PremultiplySpec(Widen(RedByte(rgba)), Widen(GreenByte(rgba)), Widen(BlueByte(rgba)), Widen(AlphaByte(rgba)));
  }

  // ---------------------------------------------------------------------
  // Lerp (gentexture.cpp:49-55)

  /** Pixel::Lerp(t, x, y), channel by channel, as stored. */
  function Lerp(t: int, x: Pixel, y: Pixel): Pixel {
    Pixel(LerpAsStored(t, x.r, y.r), LerpAsStored(t, x.g, y.g),
          LerpAsStored(t, x.b, y.b), LerpAsStored(t, x.a, y.a))
  }

  predicate ChannelBetween(c: int, lo: int, hi: int) {
    (lo <= hi && lo <= c <= hi) || (hi <= lo && hi <= c <= lo)
  }

  lemma LerpChannel(t: int, c0: Channel, c1: Channel)
    requires 0 <= t <= 0x10000
    ensures LerpAsStored(t, c0, c1) == Helpers.Lerp(t, c0, c1)
    ensures ChannelBetween(LerpAsStored(t, c0, c1), c0, c1)
  {
    LerpWrapHarmless(t, c0, c1);
    LerpBetween(t, c0, c1);
  }

  /** With t in 0..65536 each channel is the exact Helpers.Lerp of its endpoints and lies between them. */
  lemma LerpChannels(t: int, x: Pixel, y: Pixel)
    requires 0 <= t <= 0x10000
    ensures Lerp(t, x, y).r == Helpers.Lerp(t, x.r, y.r) && Lerp(t, x, y).g == Helpers.Lerp(t, x.g, y.g)
    ensures Lerp(t, x, y).b == Helpers.Lerp(t, x.b, y.b) && Lerp(t, x, y).a == Helpers.Lerp(t, x.a, y.a)
    ensures ChannelBetween(Lerp(t, x, y).r, x.r, y.r) && ChannelBetween(Lerp(t, x, y).g, x.g, y.g)
    ensures ChannelBetween(Lerp(t, x, y).b, x.b, y.b) && ChannelBetween(Lerp(t, x, y).a, x.a, y.a)
  {
    LerpChannel(t, x.r, y.r);
    LerpChannel(t, x.g, y.g);
    LerpChannel(t, x.b, y.b);
    LerpChannel(t, x.a, y.a);
  }

  /** t = 0 gives the first pixel and t = 65536 the second. */
  lemma LerpEndpoints(x: Pixel, y: Pixel)
    ensures Lerp(0, x, y) == x && Lerp(0x10000, x, y) == y
  {
    LerpChannels(0, x, y);
    LerpChannels(0x10000, x, y);
  }

  /** c lies between the smallest and the largest of a, b, d and e. */
  predicate Within4(c: int, a: int, b: int, d: int, e: int) {
    (a <= c || b <= c || d <= c || e <= c) && (c <= a || c <= b || c <= d || c <= e)
  }

  lemma BilinearChannel(s: int, t: int, a: Channel, b: Channel, d: Channel, e: Channel)
    requires 0 <= s <= 0x10000 && 0 <= t <= 0x10000
    ensures Within4(LerpAsStored(t, LerpAsStored(s, a, b), LerpAsStored(s, d, e)), a, b, d, e)
  {
    LerpChannel(s, a, b);
    LerpChannel(s, d, e);
    LerpChannel(t, LerpAsStored(s, a, b), LerpAsStored(s, d, e));
  }

  /** Two lerps along one axis and one along the other (bilinear filtering) keep every
      channel inside the range of the four corner pixels. */
  lemma BilinearWithin(s: int, t: int, p00: Pixel, p01: Pixel, p10: Pixel, p11: Pixel)
    requires 0 <= s <= 0x10000 && 0 <= t <= 0x10000
    ensures Within4(Lerp(t, Lerp(s, p00, p01), Lerp(s, p10, p11)).r, p00.r, p01.r, p10.r, p11.r)
    ensures Within4(Lerp(t, Lerp(s, p00, p01), Lerp(s, p10, p11)).g, p00.g, p01.g, p10.g, p11.g)
    ensures Within4(Lerp(t, Lerp(s, p00, p01), Lerp(s, p10, p11)).b, p00.b, p01.b, p10.b, p11.b)
    ensures Within4(Lerp(t, Lerp(s, p00, p01), Lerp(s, p10, p11)).a, p00.a, p01.a, p10.a, p11.a)
  {
    BilinearChannel(s, t, p00.r, p01.r, p10.r, p11.r);
    BilinearChannel(s, t, p00.g, p01.g, p10.g, p11.g);
    BilinearChannel(s, t, p00.b, p01.b, p10.b, p11.b);
    BilinearChannel(s, t, p00.a, p01.a, p10.a, p11.a);
  }

  // ---------------------------------------------------------------------
  // CompositeAdd (gentexture.cpp:57-63)

  function AddChannel(d: Channel, s: Channel): Channel {
    Clamp(d + s, 0, 65535)
  }

  /** Pixel::CompositeAdd: saturating channel-wise sum. */
  function CompositeAdd(p: Pixel, x: Pixel): Pixel {
    Pixel(AddChannel(p.r, x.r), AddChannel(p.g, x.g), AddChannel(p.b, x.b), AddChannel(p.a, x.a))
  }

  /** The sum saturates at 1.0: each channel is min(p + x, 65535); adding is symmetric and black adds nothing. */
  lemma CompositeAddSaturates(p: Pixel, x: Pixel)
    ensures var q := CompositeAdd(p, x);
      (q.r == if p.r + x.r > 65535 then 65535 else p.r + x.r) &&
      (q.g == if p.g + x.g > 65535 then 65535 else p.g + x.g) &&
      (q.b == if p.b + x.b > 65535 then 65535 else p.b + x.b) &&
      (q.a == if p.a + x.a > 65535 then 65535 else p.a + x.a)
    ensures CompositeAdd(p, x) == CompositeAdd(x, p)
    ensures CompositeAdd(p, Black) == p
  {
  }

  // ---------------------------------------------------------------------
  // CompositeMulC (gentexture.cpp:65-71)

  function MulChannel(d: Channel, s: Channel): Channel {
    Trunc16(MulIntens(d, s))
  }

  /** Pixel::CompositeMulC: channel-wise product of intensities. */
  function CompositeMulC(p: Pixel, x: Pixel): Pixel {
    Pixel(MulChannel(p.r, x.r), MulChannel(p.g, x.g), MulChannel(p.b, x.b), MulChannel(p.a, x.a))
  }

  /** A channel product is the integer nearest to d*s/65535 and is no larger than either factor. */
  lemma MulChannelRounds(d: Channel, s: Channel)
    ensures -32767 <= d * s - 65535 * MulChannel(d, s) <= 32767
    ensures MulChannel(d, s) <= d && MulChannel(d, s) <= s
  {
    MulIntensStored(d, s);
    MulIntensRounds(d, s);
  }

  /** Multiplication is symmetric, white is its unit and it never brightens. */
  lemma CompositeMulCProps(p: Pixel, x: Pixel)
    ensures CompositeMulC(p, x) == CompositeMulC(x, p)
    ensures CompositeMulC(p, White) == p
    ensures var q := CompositeMulC(p, x); q.r <= p.r && q.g <= p.g && q.b <= p.b && q.a <= p.a
  {
    MulIntensCommutes(p.r, x.r);
    MulIntensCommutes(p.g, x.g);
    MulIntensCommutes(p.b, x.b);
    MulIntensCommutes(p.a, x.a);
    MulIntensUnit(p.r);
    MulIntensUnit(p.g);
    MulIntensUnit(p.b);
    MulIntensUnit(p.a);
    MulChannelRounds(p.r, x.r);
    MulChannelRounds(p.g, x.g);
    MulChannelRounds(p.b, x.b);
    MulChannelRounds(p.a, x.a);
  }

  // ---------------------------------------------------------------------
  // CompositeROver (gentexture.cpp:73-80): x over this.

  function ROverChannel(d: Channel, s: Channel, sa: Channel): Channel {
    Trunc16(MulIntens(65535 - sa, d) + s)
  }

  /** Pixel::CompositeROver(x): the new pixel is x composited over this one. */
  function CompositeROver(p: Pixel, x: Pixel): Pixel {
    Pixel(ROverChannel(p.r, x.r, x.a), ROverChannel(p.g, x.g, x.a),
          ROverChannel(p.b, x.b, x.a), ROverChannel(p.a, x.a, x.a))
  }

  /** Over a premultiplied source channel (s <= sa) the sum fits and nothing wraps;
      a destination channel below its alpha stays below the new alpha. */
  lemma ROverChannelExact(d: Channel, da: Channel, s: Channel, sa: Channel)
    requires s <= sa
    ensures MulIntens(65535 - sa, d) + s <= 65535
    ensures ROverChannel(d, s, sa) == MulIntens(65535 - sa, d) + s
    ensures d <= da ==> ROverChannel(d, s, sa) <= ROverChannel(da, sa, sa)
  {
    MulIntensBelow(65535 - sa, d);
    MulIntensBelow(65535 - sa, da);
    if d <= da {
      MulIntensMonotone(65535 - sa, d, da);
    }
  }

  /** Over of two premultiplied pixels is the exact premultiplied "over" and is premultiplied again. */
  lemma CompositeROverPremultiplied(p: Pixel, x: Pixel)
    requires Premultiplied(p) && Premultiplied(x)
    ensures var q := CompositeROver(p, x);
      q.r == MulIntens(65535 - x.a, p.r) + x.r && q.g == MulIntens(65535 - x.a, p.g) + x.g &&
      q.b == MulIntens(65535 - x.a, p.b) + x.b && q.a == MulIntens(65535 - x.a, p.a) + x.a
    ensures Premultiplied(CompositeROver(p, x))
  {
    ROverChannelExact(p.r, p.a, x.r, x.a);
    ROverChannelExact(p.g, p.a, x.g, x.a);
    ROverChannelExact(p.b, p.a, x.b, x.a);
    ROverChannelExact(p.a, p.a, x.a, x.a);
  }

  /** An opaque source hides the destination; a transparent black one leaves it unchanged. */
  lemma CompositeROverLimits(p: Pixel, x: Pixel)
    ensures x.a == 65535 ==> CompositeROver(p, x) == x
    ensures CompositeROver(p, Black) == p
  {
    MulIntensUnit(p.r);
    MulIntensUnit(p.g);
    MulIntensUnit(p.b);
    MulIntensUnit(p.a);
  }

  // ---------------------------------------------------------------------
  // CompositeScreen (gentexture.cpp:82-88)

  function ScreenChannel(d: Channel, s: Channel): Channel {
    Trunc16(d + MulIntens(s, 65535 - d))
  }

  /** Pixel::CompositeScreen: 1 - (1 - d)(1 - s), channel by channel. */
  function CompositeScreen(p: Pixel, x: Pixel): Pixel {
    Pixel(ScreenChannel(p.r, x.r), ScreenChannel(p.g, x.g), ScreenChannel(p.b, x.b), ScreenChannel(p.a, x.a))
  }

  lemma ScreenChannelFormula(d: Channel, s: Channel)
    ensures ScreenChannel(d, s) == d + s - MulIntens(d, s)
  {
    MulIntensBelow(s, 65535 - d);
    MulIntensComplement(d, s);
    MulIntensCommutes(s, 65535 - d);
  }

  /** Screen is d + s - d*s: it never wraps, is symmetric and never darkens either operand. */
  lemma ScreenChannelSpec(d: Channel, s: Channel)
    ensures ScreenChannel(d, s) == d + s - MulIntens(d, s)
    ensures ScreenChannel(d, s) == ScreenChannel(s, d)
    ensures d <= ScreenChannel(d, s) && s <= ScreenChannel(d, s)
  {
    ScreenChannelFormula(d, s);
    ScreenChannelFormula(s, d);
    MulIntensCommutes(d, s);
    MulIntensBelow(d, s);
  }

  /** Screening is symmetric and never darkens the destination. */
  lemma CompositeScreenProps(p: Pixel, x: Pixel)
    ensures CompositeScreen(p, x) == CompositeScreen(x, p)
    ensures var q := CompositeScreen(p, x);
      p.r <= q.r && p.g <= q.g && p.b <= q.b && p.a <= q.a &&
      x.r <= q.r && x.g <= q.g && x.b <= q.b && x.a <= q.a
  {
    ScreenChannelSpec(p.r, x.r);
    ScreenChannelSpec(p.g, x.g);
    ScreenChannelSpec(p.b, x.b);
    ScreenChannelSpec(p.a, x.a);
  }
}
