/** What one lookup does to the slot table and the gradient arena, as functions
    of the state before it: the full-pixel variant `gblender_lookup` and the
    single-channel variant `gblender_lookup_channel`. */
module Cache {
  import opened Bits
  import opened Shades
  import opened Slots

  /** A full-pixel slot (GBlenderKeyRec): the colour pair and the arena offset
      of its gradient, None for the NULL `cells` pointer of an empty slot. */
  datatype PixelKey = PixelKey(background: uint32, foreground: uint32, cells: Option<nat>)

  /** A single-channel slot (GBlenderChanKeyRec): the packed byte pair and the
      arena offset of its gradient, negative for an empty slot. */
  datatype ChanKey = ChanKey(backfore: uint16, index: int16)

  /** The slot table after `gblender_clear` in full-pixel mode: every cells
      pointer is NULL; the colour fields keep whatever they held. */
  function ClearPixelKeys(ks: seq<PixelKey>): (r: seq<PixelKey>)
    ensures |r| == |ks|
    ensures forall i :: 0 <= i < |ks| ==> r[i].cells.None?
    ensures forall i :: 0 <= i < |ks| ==> r[i].background == ks[i].background && r[i].foreground == ks[i].foreground
  {
    seq(|ks|, i requires 0 <= i < |ks| => ks[i].(cells := None))
  }

  /** The slot table after `gblender_clear` in single-channel mode: every index
      is -1; the packed pairs keep whatever they held. */
  function ClearChanKeys(ks: seq<ChanKey>): (r: seq<ChanKey>)
    ensures |r| == |ks|
    ensures forall i :: 0 <= i < |ks| ==> r[i].index < 0
    ensures forall i :: 0 <= i < |ks| ==> r[i].backfore == ks[i].backfore
  {
    seq(|ks|, i requires 0 <= i < |ks| => ks[i].(index := -1))
  }

  /** First probed slot of `gblender_lookup`: `(background + foreground*63) &
      (KEY_COUNT-1)` in 32-bit unsigned arithmetic; the wrap-around does not
      change the slot. */
  function PixelHash(background: uint32, foreground: uint32): (h: nat)
    ensures h < KEY_COUNT && h == (background + foreground * 63) % KEY_COUNT
  {
    Wrap32Mod256(background + foreground * 63);
    Mask(Wrap32(background + foreground * 63))
  }

  /** First probed slot of `gblender_lookup_channel`: `(background +
      foreground*17) & (KEY_COUNT-1)`. */
  function ChanHash(background: uint32, foreground: uint32): (h: nat)
    ensures h < KEY_COUNT && h == (background + foreground * 17) % KEY_COUNT
  {
    Wrap32Mod256(background + foreground * 17);
    Mask(Wrap32(background + foreground * 17))
  }

  /** `(unsigned short)((foreground << 8) | background)`; for two bytes it is
      the foreground in the high byte and the background in the low byte. */
  function PackChan(background: uint32, foreground: uint32): (bf: uint16)
    ensures background < 256 && foreground < 256 ==> bf == foreground * 256 + background
  {
    assert Pow2(8) == 256;
    assert background < 256 && foreground < 256 ==>
      BitOr(Shl(foreground, 8), background) == foreground * 256 + background by {
      if background < 256 && foreground < 256 {
        BitOrShifted(foreground, background, 8);
      }
    }
    Wrap16(BitOr(Wrap32(Shl(foreground, 8)), background))
  }

  /** The background byte `gblender_reset_channel_key` reads: the low byte. */
  function ChanBack(bf: uint16): byte
  {
    bf % 256
  }

  /** The foreground byte: the high byte of the 16-bit key. */
  function ChanFore(bf: uint16): byte
  {
    bf / 256
  }

  /** The two bytes are the C expressions `backfore & 255` and
      `(backfore >> 8) & 255`. */
  lemma ChanBytesAreMasks(bf: uint16)
    ensures ChanBack(bf) == BitAnd(bf, 255)
    ensures ChanFore(bf) == BitAnd(Shr(bf, 8), 255)
  {
    assert Pow2(8) == 256;
    BitAndLowMask(bf, 8);
    var hi := bf / 256;
    assert Shr(bf, 8) == hi < 256;
    DivModUnique(hi, 256, 0, hi);
    BitAndLowMask(hi, 8);
  }

  /** Packing two bytes and unpacking the result gives them back, and every
      16-bit key is the packing of its two bytes. */
  lemma ChanKeyRoundTrip(background: byte, foreground: byte, bf: uint16)
    ensures ChanBack(PackChan(background, foreground)) == background
    ensures ChanFore(PackChan(background, foreground)) == foreground
    ensures PackChan(ChanBack(bf), ChanFore(bf)) == bf
  {
    var p := PackChan(background, foreground);
    DivModUnique(p, 256, foreground, background);
    DivModUnique(bf, 256, bf / 256, bf % 256);
  }

  function PixelView(k: PixelKey, background: uint32, foreground: uint32): SlotView
  {
    if k.cells.None? then Vacant
    else if k.background == background && k.foreground == foreground then Matching
    else Other
  }

  function PixelViews(ks: seq<PixelKey>, background: uint32, foreground: uint32): (v: seq<SlotView>)
    ensures |v| == |ks| && forall i :: 0 <= i < |ks| ==> v[i] == PixelView(ks[i], background, foreground)
  {
    seq(|ks|, i requires 0 <= i < |ks| => PixelView(ks[i], background, foreground))
  }

  function ChanView(k: ChanKey, bf: uint16): SlotView
  {
    if k.index < 0 then Vacant else if k.backfore == bf then Matching else Other
  }

  function ChanViews(ks: seq<ChanKey>, bf: uint16): (v: seq<SlotView>)
    ensures |v| == |ks| && forall i :: 0 <= i < |ks| ==> v[i] == ChanView(ks[i], bf)
  {
    seq(|ks|, i requires 0 <= i < |ks| => ChanView(ks[i], bf))
  }

  /** Arena offsets of the full-pixel slots, None for the empty ones. */
  ghost function PixelOffsets(ks: seq<PixelKey>): (offs: seq<Option<nat>>)
    ensures |offs| == |ks| && forall i :: 0 <= i < |ks| ==> offs[i] == ks[i].cells
  {
    seq(|ks|, i requires 0 <= i < |ks| => ks[i].cells)
  }

  /** The gradient each full-pixel slot's key calls for. */
  ghost function PixelWants(ks: seq<PixelKey>, layout: Layout, g: Gamma): (want: seq<seq<int>>)
    requires ValidGamma(g)
    ensures |want| == |ks|
    ensures forall i {:trigger want[i]} :: 0 <= i < |ks| ==> want[i] == PixelGradient(g, layout, ks[i].background, ks[i].foreground)
  {
    seq(|ks|, i requires 0 <= i < |ks| => PixelGradient(g, layout, ks[i].background, ks[i].foreground))
  }

  /** The arena invariant of the full-pixel table. */
  ghost predicate PixelCoherent(ks: seq<PixelKey>, arena: seq<int>, layout: Layout, g: Gamma)
    requires ValidGamma(g)
  {
    Coherent(PixelOffsets(ks), PixelWants(ks, layout, g), arena, RegionSize(layout))
  }

  /** Arena offsets of the single-channel slots, None for a negative index. */
  ghost function ChanOffsets(ks: seq<ChanKey>): (offs: seq<Option<nat>>)
    ensures |offs| == |ks|
    ensures forall i :: 0 <= i < |ks| ==> offs[i] == if ks[i].index < 0 then None else Some(ks[i].index as nat)
  {
    seq(|ks|, i requires 0 <= i < |ks| => if ks[i].index < 0 then None else Some(ks[i].index as nat))
  }

  /** The gradient each single-channel slot's packed pair calls for. */
  ghost function ChanWants(ks: seq<ChanKey>, g: Gamma): (want: seq<seq<int>>)
    requires ValidGamma(g)
    ensures |want| == |ks|
    ensures forall i {:trigger want[i]} :: 0 <= i < |ks| ==> want[i] == ChannelGradient(g, ChanBack(ks[i].backfore), ChanFore(ks[i].backfore))
  {
    seq(|ks|, i requires 0 <= i < |ks| => ChannelGradient(g, ChanBack(ks[i].backfore), ChanFore(ks[i].backfore)))
  }

  /** The arena invariant of the single-channel table. */
  ghost predicate ChanCoherent(ks: seq<ChanKey>, arena: seq<int>, g: Gamma)
    requires ValidGamma(g)
  {
    Coherent(ChanOffsets(ks), ChanWants(ks, g), arena, SHADE_COUNT)
  }

  /** The effect of one lookup: the new slot table and arena, the slot the
      `key` pointer ends on, the offset returned, and how the probe ended. */
  datatype Step<K> = Step(keys: seq<K>, arena: seq<int>, slot: nat, offset: nat, probe: Probe)

  /** The `NewNode:` tail of `gblender_lookup`: the key pointer is at slot s and
      the probe index at slot r; the key is stored in slot s with the cells of
      region r, and the pair's gradient is written there. */
  function PixelNewNode(ks: seq<PixelKey>, arena: seq<int>, layout: Layout, g: Gamma,
                        background: uint32, foreground: uint32, s: nat, r: nat, p: Probe): (st: Step<PixelKey>)
    requires |ks| == KEY_COUNT && |arena| == KEY_COUNT * RegionSize(layout) && ValidGamma(g)
    requires s < KEY_COUNT && r < KEY_COUNT
    ensures |st.keys| == KEY_COUNT && |st.arena| == |arena| && st.slot < KEY_COUNT
    ensures st.keys[st.slot] == PixelKey(background, foreground, Some(st.offset))
    ensures st.offset == r * RegionSize(layout) && st.offset + RegionSize(layout) <= |arena|
  {
    var size := RegionSize(layout);
    RegionsApart(r, r, size);
    Step(ks[s := PixelKey(background, foreground, Some(r * size))],
         Overwrite(arena, r * size, PixelGradient(g, layout, background, foreground)), s, r * size, p)
  }

  /** `gblender_lookup`. A hit returns the stored cells and changes nothing; a
      miss claims the first empty slot on the probe path, at its own region; a
      full table is cleared and the key is written into the LAST probed slot,
      one before the start, while its cells are those of the start slot. */
  function PixelLookup(ks: seq<PixelKey>, arena: seq<int>, layout: Layout, g: Gamma,
                       background: uint32, foreground: uint32): (st: Step<PixelKey>)
    requires |ks| == KEY_COUNT && |arena| == KEY_COUNT * RegionSize(layout) && ValidGamma(g)
    ensures |st.keys| == KEY_COUNT && |st.arena| == |arena| && st.slot < KEY_COUNT
    ensures st.keys[st.slot] == PixelKey(background, foreground, Some(st.offset))
    ensures !st.probe.Hit? ==> st.offset + RegionSize(layout) <= |arena|
  {
    var idx0 := PixelHash(background, foreground);
    var p := ProbeFrom(PixelViews(ks, background, foreground), idx0, 0);
    match p
    case Hit(s, _) => Step(ks, arena, s, ks[s].cells.value, p)
    case Claim(s, _) => PixelNewNode(ks, arena, layout, g, background, foreground, s, s, p)
    case Full =>
      PixelNewNode(ClearPixelKeys(ks), arena, layout, g, background, foreground, ProbeSlot(idx0, KEY_COUNT - 1), idx0, p)
  }

  /** The `NewNode:` tail of `gblender_lookup_channel`: slot s gets the packed
      pair and index `r * SHADE_COUNT`, and the channel gradient is written there. */
  function ChanNewNode(ks: seq<ChanKey>, arena: seq<int>, g: Gamma, bf: uint16, s: nat, r: nat, p: Probe): (st: Step<ChanKey>)
    requires |ks| == KEY_COUNT && |arena| == KEY_COUNT * SHADE_COUNT && ValidGamma(g)
    requires s < KEY_COUNT && r < KEY_COUNT
    ensures |st.keys| == KEY_COUNT && |st.arena| == |arena| && st.slot < KEY_COUNT
    ensures st.keys[st.slot].backfore == bf && st.keys[st.slot].index == st.offset
    ensures st.offset == r * SHADE_COUNT && st.offset + SHADE_COUNT <= |arena|
  {
    RegionsApart(r, r, SHADE_COUNT);
    Step(ks[s := ChanKey(bf, r * SHADE_COUNT)],
         Overwrite(arena, r * SHADE_COUNT, ChannelGradient(g, ChanBack(bf), ChanFore(bf))), s, r * SHADE_COUNT, p)
  }

  /** `gblender_lookup_channel`: the same probe on packed byte pairs, with a
      negative index for an empty slot and `idx * SHADE_COUNT` for a claimed one. */
  function ChanLookup(ks: seq<ChanKey>, arena: seq<int>, g: Gamma,
                      background: uint32, foreground: uint32): (st: Step<ChanKey>)
    requires |ks| == KEY_COUNT && |arena| == KEY_COUNT * SHADE_COUNT && ValidGamma(g)
    ensures |st.keys| == KEY_COUNT && |st.arena| == |arena| && st.slot < KEY_COUNT
    ensures st.keys[st.slot].backfore == PackChan(background, foreground) && st.keys[st.slot].index == st.offset
    ensures !st.probe.Hit? ==> st.offset + SHADE_COUNT <= |arena|
  {
    var idx0 := ChanHash(background, foreground);
    var bf := PackChan(background, foreground);
    var p := ProbeFrom(ChanViews(ks, bf), idx0, 0);
    match p
    case Hit(s, _) => Step(ks, arena, s, ks[s].index, p)
    case Claim(s, _) => ChanNewNode(ks, arena, g, bf, s, s, p)
    case Full => ChanNewNode(ClearChanKeys(ks), arena, g, bf, ProbeSlot(idx0, KEY_COUNT - 1), idx0, p)
  }
}
