/** The gamma-correct gradient that the blend cache stores for one (background,
    foreground) pair: every shade is computed in linear light through the two
    gamma tables and rounded back to an 8-bit sample. */
module Shades {
  import opened Bits

  /** Number of shades per gradient (GBLENDER_SHADE_COUNT, at least 2). */
  const SHADE_COUNT: nat := 16
  /** Extra fixed-point bits of the linear-light scale (GBLENDER_GAMMA_SHIFT). */
  const GAMMA_SHIFT: nat := 2
  /** Largest linear-light value, `(256 << GBLENDER_GAMMA_SHIFT) - 1`. */
  const GAMMA_MAX: nat := 256 * Pow2(GAMMA_SHIFT) - 1

  /** The two transfer tables: `ramp` (gamma_ramp) maps an 8-bit sample to linear
      light, `inv` (gamma_ramp_inv) maps linear light back to an 8-bit sample. */
  datatype Gamma = Gamma(ramp: seq<int>, inv: seq<int>)

  /** Sizes and ranges of the tables the table builder produces. */
  predicate ValidGamma(g: Gamma)
  {
    && |g.ramp| == 256
    && |g.inv| == GAMMA_MAX + 1
    && (forall c :: 0 <= c < 256 ==> 0 <= g.ramp[c] <= GAMMA_MAX)
    && (forall l :: 0 <= l <= GAMMA_MAX ==> 0 <= g.inv[l] < 256)
  }

  /** A table that never decreases along its index. */
  predicate NonDecreasing(t: seq<int>)
  {
    forall i, j :: 0 <= i <= j < |t| ==> t[i] <= t[j]
  }

  /** Blend weight of shade n: `255 * n / (SHADE_COUNT - 1)`, an alpha in [0, 255]
      that is 0 only for the first shade and 255 only for the last. */
  function Weight(n: nat): (a: nat)
    requires n < SHADE_COUNT
    ensures a <= 255
    ensures a == 0 <==> n == 0
    ensures a == 255 <==> n == SHADE_COUNT - 1
  {
    255 * n / (SHADE_COUNT - 1)
  }

  lemma WeightMonotone(m: nat, n: nat)
    requires m <= n < SHADE_COUNT
    ensures Weight(m) <= Weight(n)
  {
  }

  /** `(l2*a + l1*(255-a) + 127) / 255`: linear interpolation with rounding. The
      result lies between the two operands, so it indexes the inverse table. */
  function Blend(l1: nat, l2: nat, a: nat): (l: nat)
    requires a <= 255
    ensures l1 <= l2 ==> l1 <= l <= l2
    ensures l2 <= l1 ==> l2 <= l <= l1
    ensures a == 0 ==> l == l1
    ensures a == 255 ==> l == l2
  {
    var num := l2 * a + l1 * (255 - a) + 127;
    BlendBounds(l1, l2, a);
    num / 255
  }

  lemma BlendBounds(l1: nat, l2: nat, a: nat)
    requires a <= 255
    ensures var l := (l2 * a + l1 * (255 - a) + 127) / 255;
      && (l1 <= l2 ==> l1 <= l <= l2)
      && (l2 <= l1 ==> l2 <= l <= l1)
      && (a == 0 ==> l == l1)
      && (a == 255 ==> l == l2)
  {
    var lo, hi := if l1 <= l2 then l1 else l2, if l1 <= l2 then l2 else l1;
    var num := l2 * a + l1 * (255 - a) + 127;
    assert l2 * a + l1 * (255 - a) == lo * 255 + (hi - lo) * (if l1 <= l2 then a else 255 - a);
    MulBounded(hi - lo, if l1 <= l2 then a else 255 - a, 255);
    assert lo * 255 + 127 <= num <= hi * 255 + 127;
    DivBetween(num, lo, hi);
  }

  lemma MulBounded(x: nat, y: nat, b: nat)
    requires y <= b
    ensures 0 <= x * y <= x * b
  {
  }

  lemma DivBetween(num: nat, lo: nat, hi: nat)
    requires lo * 255 <= num <= hi * 255 + 127
    ensures lo <= num / 255 <= hi
  {
  }

  /** For l1 <= l2 a larger weight never gives a smaller blend. */
  lemma BlendMonotone(l1: nat, l2: nat, a: nat, b: nat)
    requires l1 <= l2 && a <= b <= 255
    ensures Blend(l1, l2, a) <= Blend(l1, l2, b)
  {
    assert l2 * a + l1 * (255 - a) == l1 * 255 + (l2 - l1) * a;
    assert l2 * b + l1 * (255 - b) == l1 * 255 + (l2 - l1) * b;
    MulBounded(l2 - l1, a, b);
  }

  /** For l2 <= l1 a larger weight never gives a larger blend. */
  lemma BlendMonotoneDown(l1: nat, l2: nat, a: nat, b: nat)
    requires l2 <= l1 && a <= b <= 255
    ensures Blend(l1, l2, b) <= Blend(l1, l2, a)
  {
    assert l2 * a + l1 * (255 - a) == l2 * 255 + (l1 - l2) * (255 - a);
    assert l2 * b + l1 * (255 - b) == l2 * 255 + (l1 - l2) * (255 - b);
    MulBounded(l1 - l2, 255 - b, 255 - a);
  }

  /** Shade n of one channel blended from sample c1 (background) to c2
      (foreground): shade 0 is c1 itself, the others go through linear light. */
  function ChannelShade(g: Gamma, c1: byte, c2: byte, n: nat): (v: byte)
    requires ValidGamma(g) && n < SHADE_COUNT
    ensures n == SHADE_COUNT - 1 ==> v == g.inv[g.ramp[c2]]
  {
    if n == 0 then c1 else g.inv[Blend(g.ramp[c1], g.ramp[c2], Weight(n))]
  }

  /** With non-decreasing tables and c1 <= c2, the blended shades never decrease
      from shade 1 to the last and stay between the two endpoints' round trips
      through the tables. */
  lemma {:induction false} ShadesOrdered(g: Gamma, c1: byte, c2: byte, m: nat, n: nat)
    requires ValidGamma(g) && NonDecreasing(g.ramp) && NonDecreasing(g.inv)
    requires c1 <= c2 && 1 <= m <= n < SHADE_COUNT
    ensures g.inv[g.ramp[c1]] <= ChannelShade(g, c1, c2, m) <= ChannelShade(g, c1, c2, n) <= g.inv[g.ramp[c2]]
  {
    var l1, l2 := g.ramp[c1], g.ramp[c2];
    WeightMonotone(m, n);
    BlendMonotone(l1, l2, Weight(m), Weight(n));
    var bm, bn := Blend(l1, l2, Weight(m)), Blend(l1, l2, Weight(n));
    assert l1 <= bm <= bn <= l2;
  }

  /** The mirror for c2 <= c1: the blended shades never increase from shade 1
      to the last and stay between the two endpoints' round trips. */
  lemma {:induction false} ShadesOrderedDown(g: Gamma, c1: byte, c2: byte, m: nat, n: nat)
    requires ValidGamma(g) && NonDecreasing(g.ramp) && NonDecreasing(g.inv)
    requires c2 <= c1 && 1 <= m <= n < SHADE_COUNT
    ensures g.inv[g.ramp[c2]] <= ChannelShade(g, c1, c2, n) <= ChannelShade(g, c1, c2, m) <= g.inv[g.ramp[c1]]
  {
    var l1, l2 := g.ramp[c1], g.ramp[c2];
    WeightMonotone(m, n);
    BlendMonotoneDown(l1, l2, Weight(m), Weight(n));
    var bm, bn := Blend(l1, l2, Weight(m)), Blend(l1, l2, Weight(n));
    assert l2 <= bn <= bm <= l1;
  }

  /** Where the shades of a gradient are stored (the GBLENDER_STORE_BYTES switch):
      `Packed` keeps one 24-bit RGB value per shade, `Bytes` three bytes per shade. */
  datatype Layout = Packed | Bytes

  /** GBLENDER_CELL_SIZE: arena cells per shade. */
  function CellSize(layout: Layout): (c: nat)
    ensures c == 1 || c == 3
  {
    if layout.Bytes? then 3 else 1
  }

  /** Arena cells per gradient, `SHADE_COUNT * GBLENDER_CELL_SIZE`. */
  function RegionSize(layout: Layout): (z: nat)
    ensures z == SHADE_COUNT * CellSize(layout) && z > 0
  {
    SHADE_COUNT * CellSize(layout)
  }

  /** Where slot i's region starts in the full-pixel arena, `i * size`; the
      region of any of the KEY_COUNT slots fits in an arena of KEY_COUNT regions. */
  function RegionStart(layout: Layout, i: nat): (o: nat)
    ensures o == i * RegionSize(layout)
    ensures i < 256 ==> o + RegionSize(layout) <= 256 * RegionSize(layout)
  {
    if layout.Bytes? then 48 * i else 16 * i
  }

  /** One 8-bit channel of a pixel: the byte `shift` bits up. */
  function Component(p: uint32, shift: nat): byte
  {
    Shr(p, shift) % 256
  }

  /** The channel is the C expression `(p >> shift) & 255`. */
  lemma ComponentIsMask(p: uint32, shift: nat)
    ensures Component(p, shift) == BitAnd(Shr(p, shift), 255)
  {
    assert Pow2(8) == 256;
    BitAndLowMask(Shr(p, shift), 8);
  }

  /** Shift of channel k (0 red, 1 green, 2 blue) in a pixel. */
  function ChannelShift(k: nat): nat
    requires k < 3
  {
    16 - 8 * k
  }

  /** The three channels side by side in one 24-bit pixel, red highest. */
  function Pack24(r: byte, g: byte, b: byte): uint32
  {
    r * 0x1_0000 + g * 0x100 + b
  }

  /** The packed pixel is the C expression `(r << 16) | (g << 8) | b`: the
      shifted channels have no bit in common. */
  lemma Pack24IsOr(r: byte, g: byte, b: byte)
    ensures Pack24(r, g, b) == BitOr(BitOr(Shl(r, 16), Shl(g, 8)), b)
  {
    Pow2Bytes();
    BitOrShifted(r, Shl(g, 8), 16);
    assert r * 0x1_0000 + g * 0x100 == (r * 0x100 + g) * 0x100;
    BitOrShifted(r * 0x100 + g, b, 8);
  }

  /** Unpacking a packed shade gives back the three channels. */
  lemma PackUnpack(r: byte, g: byte, b: byte)
    ensures Component(Pack24(r, g, b), ChannelShift(0)) == r
    ensures Component(Pack24(r, g, b), ChannelShift(1)) == g
    ensures Component(Pack24(r, g, b), ChannelShift(2)) == b
  {
    assert ChannelShift(0) == 16 && ChannelShift(1) == 8 && ChannelShift(2) == 0;
    UnpackRed(r, g, b);
    UnpackGreen(r, g, b);
    UnpackBlue(r, g, b);
  }

  lemma UnpackRed(r: byte, g: byte, b: byte)
    ensures Component(Pack24(r, g, b), 16) == r
  {
    var p := Pack24(r, g, b);
    Pow2Bytes();
    DivModUnique(p, 0x1_0000, r, g * 0x100 + b);
    DivModUnique(r, 0x100, 0, r);
  }

  lemma UnpackGreen(r: byte, g: byte, b: byte)
    ensures Component(Pack24(r, g, b), 8) == g
  {
    var p := Pack24(r, g, b);
    Pow2Bytes();
    assert p == 0x100 * (r * 0x100 + g) + b;
    DivModUnique(p, 0x100, r * 0x100 + g, b);
    DivModUnique(r * 0x100 + g, 0x100, r, g);
  }

  lemma UnpackBlue(r: byte, g: byte, b: byte)
    ensures Component(Pack24(r, g, b), 0) == b
  {
    var p := Pack24(r, g, b);
    Pow2Bytes();
    DivModUnique(p, 1, p, 0);
    DivModUnique(p, 0x100, r * 0x100 + g, b);
  }

  /** The cells of shade n for a (back, fore) pixel pair: the three channel
      shades as bytes, or packed into one pixel. Shade 0 is back itself in both
      layouts, stored unchanged in the packed one. */
  function ShadeCells(g: Gamma, layout: Layout, back: uint32, fore: uint32, n: nat): (cells: seq<int>)
    requires ValidGamma(g) && n < SHADE_COUNT
    ensures |cells| == CellSize(layout)
    ensures forall i :: 0 <= i < |cells| ==> 0 <= cells[i] < 0x1_0000_0000
  {
    var r := ChannelShade(g, Component(back, 16), Component(fore, 16), n);
    var gr := ChannelShade(g, Component(back, 8), Component(fore, 8), n);
    var b := ChannelShade(g, Component(back, 0), Component(fore, 0), n);
    match layout
    case Bytes => [r, gr, b]
    case Packed => [if n == 0 then back else Pack24(r, gr, b)]
  }

  /** Where shade n starts in a gradient, `n * GBLENDER_CELL_SIZE`. */
  function ShadeStart(layout: Layout, n: nat): (o: nat)
    ensures o == n * CellSize(layout)
  {
    if layout.Bytes? then 3 * n else n
  }

  /** All shades of a pixel pair, shade by shade. */
  function ShadeTable(g: Gamma, layout: Layout, back: uint32, fore: uint32): (t: seq<seq<int>>)
    requires ValidGamma(g)
    ensures |t| == SHADE_COUNT
    ensures forall n :: 0 <= n < |t| ==> t[n] == ShadeCells(g, layout, back, fore, n)
  {
    seq(SHADE_COUNT, n requires 0 <= n < SHADE_COUNT => ShadeCells(g, layout, back, fore, n))
  }

  /** The first n groups of cells, one after the other. */
  function Concat(parts: seq<seq<int>>, n: nat): (cells: seq<int>)
    requires n <= |parts|
  {
    if n == 0 then [] else Concat(parts, n - 1) + parts[n - 1]
  }

  /** When every group has CELL_SIZE cells, the first m groups take
      `m * CELL_SIZE` cells, and cell k of group n sits at `n * CELL_SIZE + k`. */
  lemma {:induction false} ConcatCell(parts: seq<seq<int>>, layout: Layout, m: nat, n: nat, k: nat)
    requires m <= |parts| && forall i :: 0 <= i < |parts| ==> |parts[i]| == CellSize(layout)
    ensures |Concat(parts, m)| == ShadeStart(layout, m)
    ensures n < m && k < CellSize(layout) ==> Concat(parts, m)[ShadeStart(layout, n) + k] == parts[n][k]
    decreases m
  {
    if m > 0 {
      ConcatCell(parts, layout, m - 1, n, k);
    }
  }

  /** The gradient `gblender_reset_key` writes for a (back, fore) pixel pair:
      all SHADE_COUNT shades, one after the other. */
  function PixelGradient(g: Gamma, layout: Layout, back: uint32, fore: uint32): (cells: seq<int>)
    requires ValidGamma(g)
    ensures |cells| == RegionSize(layout)
  {
    ConcatCell(ShadeTable(g, layout, back, fore), layout, SHADE_COUNT, 0, 0);
    Concat(ShadeTable(g, layout, back, fore), SHADE_COUNT)
  }

  /** Cell k of shade n sits at `n * CELL_SIZE + k` of the gradient. */
  lemma GradientCell(g: Gamma, layout: Layout, back: uint32, fore: uint32, n: nat, k: nat)
    requires ValidGamma(g) && n < SHADE_COUNT && k < CellSize(layout)
    ensures ShadeStart(layout, n) + k < RegionSize(layout)
    ensures PixelGradient(g, layout, back, fore)[ShadeStart(layout, n) + k] == ShadeCells(g, layout, back, fore, n)[k]
  {
    ConcatCell(ShadeTable(g, layout, back, fore), layout, SHADE_COUNT, n, k);
  }

  /** Both layouts hold the same shades: shade 0 is the unblended background in
      either layout, every packed shade unpacks to the three bytes the byte
      layout stores for it, each byte is its channel's shade, and the last
      shade comes from the foreground only. */
  lemma LayoutsAgree(g: Gamma, back: uint32, fore: uint32, n: nat, k: nat)
    requires ValidGamma(g) && n < SHADE_COUNT && k < 3
    ensures ShadeCells(g, Packed, back, fore, 0)[0] == back
    ensures Component(ShadeCells(g, Packed, back, fore, n)[0], ChannelShift(k)) == ShadeCells(g, Bytes, back, fore, n)[k]
    ensures ShadeCells(g, Bytes, back, fore, n)[k]
         == ChannelShade(g, Component(back, ChannelShift(k)), Component(fore, ChannelShift(k)), n)
    ensures ShadeCells(g, Bytes, back, fore, SHADE_COUNT - 1)[k] == g.inv[g.ramp[Component(fore, ChannelShift(k))]]
  {
    var s := ChannelShift(k);
    var r := ChannelShade(g, Component(back, 16), Component(fore, 16), n);
    var gr := ChannelShade(g, Component(back, 8), Component(fore, 8), n);
    var b := ChannelShade(g, Component(back, 0), Component(fore, 0), n);
    if k == 0 {
      assert s == 16;
    } else if k == 1 {
      assert s == 8;
    } else {
      assert s == 0;
    }
    assert ChannelShade(g, Component(back, s), Component(fore, s), n) == [r, gr, b][k];
    if n > 0 {
      PackUnpack(r, gr, b);
    }
  }

  /** The single-channel gradient `gblender_reset_channel_key` writes. */
  function ChannelGradient(g: Gamma, back: byte, fore: byte): (cells: seq<int>)
    requires ValidGamma(g)
    ensures |cells| == SHADE_COUNT
    ensures cells[0] == back && cells[SHADE_COUNT - 1] == g.inv[g.ramp[fore]]
    ensures forall n :: 0 <= n < SHADE_COUNT ==> 0 <= cells[n] < 256
  {
    seq(SHADE_COUNT, n requires 0 <= n < SHADE_COUNT => ChannelShade(g, back, fore, n))
  }
}
