/** The blender object (GBlenderRec): the two slot tables, the two gradient
    arenas, the gamma tables, the channel-mode flag, the fast-path entries the
    clear resets and the statistics counters, with the operations of
    graph/gblender.c that update them in place. */
module GBlender {
  import opened Bits
  import opened Shades
  import opened Slots
  import opened Cache
  import opened LookupFacts

  /** One fast-path entry (cache_back / cache_fore / cache_cells and the three
      per-channel copies): the pair last looked up and its cells. */
  datatype FastEntry = FastEntry(back: uint32, fore: uint32, cells: Option<nat>)

  /** The entry a clear leaves: both colours `~0U` and a NULL cells pointer. */
  const NO_ENTRY: FastEntry := FastEntry(0xFFFF_FFFF, 0xFFFF_FFFF, None)

  class Blender {
    /** The GBLENDER_STORE_BYTES choice, fixed for the object's lifetime. */
    const layout: Layout
    /** The full-pixel slot table and its arena (`keys`, `cells`). */
    const keys: array<PixelKey>
    const cells: array<int>
    /** The single-channel slot table and its arena, which the C object
        overlays on the same storage. */
    const chanKeys: array<ChanKey>
    const chanCells: array<int>

    var gamma: Gamma
    /** 0 for full-pixel lookups, 1 for single-channel lookups. */
    var channels: int
    var cache: FastEntry
    var cacheR: FastEntry
    var cacheG: FastEntry
    var cacheB: FastEntry

    var statHits: int
    var statLookups: int
    var statClashes: int
    var statKeys: int
    var statClears: int
    /** Lookups answered from the table without building a gradient. */
    ghost var hitsServed: nat

    /** The tables and arenas have the sizes the lookups index with. */
    ghost predicate Shaped()
      reads this
    {
      && keys.Length == KEY_COUNT && chanKeys.Length == KEY_COUNT
      && cells.Length == KEY_COUNT * RegionSize(layout) && chanCells.Length == KEY_COUNT * SHADE_COUNT
      && cells != chanCells
    }

    /** The object invariant: the table of the current mode is coherent with its
        arena, and the counters agree with each other. */
    ghost predicate Valid()
      reads this, keys, cells, chanKeys, chanCells
    {
      && Shaped()
      && ValidGamma(gamma)
      && (channels == 0 || channels == 1)
      && (channels == 0 ==> PixelCoherent(keys[..], cells[..], layout, gamma))
      && (channels == 1 ==> ChanCoherent(chanKeys[..], chanCells[..], gamma))
      && statHits == -statLookups
      && statLookups == statKeys + hitsServed
      && 0 <= statClears <= statKeys
      && 0 <= statClashes
    }

    /** Allocates the storage and runs `gblender_init` on it. */
    constructor (layout: Layout, g: Gamma)
      requires ValidGamma(g)
      ensures Valid() && fresh(keys) && fresh(cells) && fresh(chanKeys) && fresh(chanCells)
      ensures this.layout == layout && gamma == g && channels == 0
      ensures statHits == 0 && statLookups == 0 && statClashes == 0 && statKeys == 0 && statClears == 0
      ensures forall i :: 0 <= i < KEY_COUNT ==> keys[i].cells.None?
      ensures cache == NO_ENTRY
    {
      this.layout := layout;
      keys := new PixelKey[KEY_COUNT](_ => PixelKey(0, 0, None));
      cells := new int[KEY_COUNT * RegionSize(layout)](_ => 0);
      chanKeys := new ChanKey[KEY_COUNT](_ => ChanKey(0, -1));
      chanCells := new int[KEY_COUNT * SHADE_COUNT](_ => 0);
      new;
      Init(g);
    }

    /** `gblender_clear`: empties every slot of the table of the current mode
        and resets that mode's fast-path entries. */
    method Clear()
      requires Shaped()
      modifies keys, chanKeys, `cache, `cacheR, `cacheG, `cacheB
      ensures channels != 0 ==>
        && chanKeys[..] == ClearChanKeys(old(chanKeys[..])) && keys[..] == old(keys[..])
        && cacheR == NO_ENTRY && cacheG == NO_ENTRY && cacheB == NO_ENTRY && cache == old(cache)
      ensures channels == 0 ==>
        && keys[..] == ClearPixelKeys(old(keys[..])) && chanKeys[..] == old(chanKeys[..])
        && cache == NO_ENTRY && cacheR == old(cacheR) && cacheG == old(cacheG) && cacheB == old(cacheB)
      ensures cells[..] == old(cells[..]) && chanCells[..] == old(chanCells[..])
    {
      if channels != 0 {
        ClearChannels();
      } else {
        ClearPixels();
      }
    }

    /** The full-pixel branch of `gblender_clear`: every slot's cells pointer
        becomes NULL and the full-pixel fast-path entry is reset. */
    method ClearPixels()
      requires keys.Length == KEY_COUNT
      modifies keys, `cache
      ensures keys[..] == ClearPixelKeys(old(keys[..])) && cache == NO_ENTRY
    {
      for nn := 0 to KEY_COUNT
        invariant forall i :: 0 <= i < nn ==> keys[i] == old(keys[i]).(cells := None)
        invariant forall i :: nn <= i < KEY_COUNT ==> keys[i] == old(keys[i])
      {
        keys[nn] := keys[nn].(cells := None);
      }
      cache := NO_ENTRY;
    }

    /** The single-channel branch of `gblender_clear`: every slot's index
        becomes -1 and the three per-channel fast-path entries are reset. */
    method ClearChannels()
      requires chanKeys.Length == KEY_COUNT
      modifies chanKeys, `cacheR, `cacheG, `cacheB
      ensures chanKeys[..] == ClearChanKeys(old(chanKeys[..]))
      ensures cacheR == NO_ENTRY && cacheG == NO_ENTRY && cacheB == NO_ENTRY
    {
      for nn := 0 to KEY_COUNT
        invariant forall i :: 0 <= i < nn ==> chanKeys[i] == old(chanKeys[i]).(index := -1)
        invariant forall i :: nn <= i < KEY_COUNT ==> chanKeys[i] == old(chanKeys[i])
      {
        chanKeys[nn] := chanKeys[nn].(index := -1);
      }
      cacheR, cacheG, cacheB := NO_ENTRY, NO_ENTRY, NO_ENTRY;
    }

    /** `gblender_init`: full-pixel mode, the given gamma tables, an empty
        full-pixel table and zeroed counters. */
    method Init(g: Gamma)
      requires Shaped() && ValidGamma(g)
      modifies this, keys, chanKeys
      ensures Valid() && channels == 0 && gamma == g
      ensures keys[..] == ClearPixelKeys(old(keys[..])) && chanKeys[..] == old(chanKeys[..])
      ensures cache == NO_ENTRY && cacheR == old(cacheR) && cacheG == old(cacheG) && cacheB == old(cacheB)
      ensures statHits == 0 && statLookups == 0 && statClashes == 0 && statKeys == 0 && statClears == 0
    {
      channels := 0;
      gamma := g;
      Clear();
      statHits, statLookups, statClashes, statKeys, statClears := 0, 0, 0, 0, 0;
      hitsServed := 0;
      assert PixelOffsets(keys[..]) == Vacancies();
    }

    /** `gblender_use_channels`: any non-zero argument selects single-channel
        mode; the new mode's table is cleared only when the mode changes. */
    method UseChannels(c: int)
      requires Valid()
      modifies `channels, keys, chanKeys, `cache, `cacheR, `cacheG, `cacheB
      ensures Valid() && channels == (if c != 0 then 1 else 0)
      ensures channels == old(channels) ==>
        && keys[..] == old(keys[..]) && chanKeys[..] == old(chanKeys[..])
        && cache == old(cache) && cacheR == old(cacheR) && cacheG == old(cacheG) && cacheB == old(cacheB)
      ensures channels != old(channels) && channels == 1 ==>
        && chanKeys[..] == ClearChanKeys(old(chanKeys[..])) && keys[..] == old(keys[..])
        && cacheR == NO_ENTRY && cacheG == NO_ENTRY && cacheB == NO_ENTRY && cache == old(cache)
      ensures channels != old(channels) && channels == 0 ==>
        && keys[..] == ClearPixelKeys(old(keys[..])) && chanKeys[..] == old(chanKeys[..])
        && cache == NO_ENTRY && cacheR == old(cacheR) && cacheG == old(cacheG) && cacheB == old(cacheB)
    {
      var mode := if c != 0 then 1 else 0;
      if channels != mode {
        channels := mode;
        Clear();
        if mode == 1 {
          assert ChanOffsets(chanKeys[..]) == Vacancies();
        } else {
          assert PixelOffsets(keys[..]) == Vacancies();
        }
      }
    }

    /** `gblender_reset_key`: writes the gradient of the pair held by the given
        slot into the region its cells offset names, and nothing else. */
    method ResetKey(slot: nat)
      requires Shaped() && ValidGamma(gamma) && slot < KEY_COUNT
      requires keys[slot].cells.Some? && keys[slot].cells.value + RegionSize(layout) <= cells.Length
      modifies cells
      ensures cells[..] == Overwrite(old(cells[..]), keys[slot].cells.value,
                                     PixelGradient(gamma, layout, keys[slot].background, keys[slot].foreground))
    {
      var back, fore := keys[slot].background, keys[slot].foreground;
      var o := keys[slot].cells.value;
      ghost var table := ShadeTable(gamma, layout, back, fore);
      var r1, g1, b1 := Component(back, 16), Component(back, 8), Component(back, 0);
      var r2, g2, b2 := Component(fore, 16), Component(fore, 8), Component(fore, 0);
      StoreFirstShade(o, back, fore);
      ConcatCell(table, layout, 1, 0, 0);
      assert Concat(table, 1) == table[0];
      var gr := o + CellSize(layout);
      var lr1: nat, lg1: nat, lb1: nat := gamma.ramp[r1], gamma.ramp[g1], gamma.ramp[b1];
      var lr2: nat, lg2: nat, lb2: nat := gamma.ramp[r2], gamma.ramp[g2], gamma.ramp[b2];
      for nn := 1 to SHADE_COUNT
        invariant gr == o + |Concat(table, nn)| == o + ShadeStart(layout, nn)
        invariant cells[..] == Overwrite(old(cells[..]), o, Concat(table, nn))
      {
        ghost var done, shade := Concat(table, nn), table[nn];
        ConcatCell(table, layout, nn + 1, 0, 0);
        assert Concat(table, nn + 1) == done + shade;
        assert shade == ShadeCells(gamma, layout, back, fore, nn);
        ghost var prev := cells[..];
        StoreShade(gr, nn, back, fore, lr1, lg1, lb1, lr2, lg2, lb2);
        OverwriteExtend(old(cells[..]), prev, cells[..], o, done, shade);
        gr := gr + CellSize(layout);
      }
      assert Concat(table, SHADE_COUNT) == PixelGradient(gamma, layout, back, fore);
    }

    /** The first shade `gblender_reset_key` writes, before its loop: the
        background's three channel bytes, or the background pixel itself. */
    method StoreFirstShade(at: nat, back: uint32, fore: uint32)
      requires ValidGamma(gamma) && at + CellSize(layout) <= cells.Length
      modifies cells
      ensures cells[..] == Overwrite(old(cells[..]), at, ShadeCells(gamma, layout, back, fore, 0))
    {
      if layout.Bytes? {
        cells[at], cells[at + 1], cells[at + 2] := Component(back, 16), Component(back, 8), Component(back, 0);
      } else {
        cells[at] := back;
      }
    }

    /** One pass of `gblender_reset_key`'s shade loop: blends the three linear
        channel values with shade nn's weight, maps them back through the
        inverse table and writes the shade at `at`, as three bytes or packed
        into one pixel. */
    method StoreShade(at: nat, nn: nat, back: uint32, fore: uint32,
                      lr1: nat, lg1: nat, lb1: nat, lr2: nat, lg2: nat, lb2: nat)
      requires ValidGamma(gamma) && 1 <= nn < SHADE_COUNT && at + CellSize(layout) <= cells.Length
      requires lr1 == gamma.ramp[Component(back, 16)] && lr2 == gamma.ramp[Component(fore, 16)]
      requires lg1 == gamma.ramp[Component(back, 8)] && lg2 == gamma.ramp[Component(fore, 8)]
      requires lb1 == gamma.ramp[Component(back, 0)] && lb2 == gamma.ramp[Component(fore, 0)]
      modifies cells
      ensures cells[..] == Overwrite(old(cells[..]), at, ShadeCells(gamma, layout, back, fore, nn))
    {
      var a := Weight(nn);
      var r := gamma.inv[Blend(lr1, lr2, a)];
      var g := gamma.inv[Blend(lg1, lg2, a)];
      var b := gamma.inv[Blend(lb1, lb2, a)];
      if layout.Bytes? {
        cells[at], cells[at + 1], cells[at + 2] := r, g, b;
      } else {
        cells[at] := Pack24(r, g, b);
      }
    }

    /** The probe loop of `gblender_lookup`: walks the full-pixel slots from the
        pair's hash, counting a clash for every slot holding another pair. It
        ends as ProbeFrom says; `slot` is where the `key` pointer stops and
        `idx` the cursor, back at the start when the table is full. */
    method ProbePixels(background: uint32, foreground: uint32) returns (p: Probe, slot: nat, idx: nat)
      requires Shaped()
      modifies `statClashes
      ensures var idx0 := PixelHash(background, foreground);
              && p == ProbeFrom(PixelViews(keys[..], background, foreground), idx0, 0)
              && statClashes == old(statClashes) + (if p.Full? then KEY_COUNT else p.clashes)
              && slot < KEY_COUNT && idx < KEY_COUNT
              && (!p.Full? ==> slot == idx == p.slot)
              && (p.Full? ==> slot == ProbeSlot(idx0, KEY_COUNT - 1) && idx == idx0)
      ensures keys[..] == old(keys[..]) && cells[..] == old(cells[..])
    {
      ghost var views := PixelViews(keys[..], background, foreground);
      var idx0 := PixelHash(background, foreground);
      idx := idx0;
      var steps: nat := 0;
      while true
        invariant steps < KEY_COUNT && idx == ProbeSlot(idx0, steps)
        invariant ProbeFrom(views, idx0, steps) == ProbeFrom(views, idx0, 0)
        invariant statClashes == old(statClashes) + steps
        decreases KEY_COUNT - steps
      {
        slot := idx;
        var key := keys[idx];
        if key.cells.None? {
          assert views[idx] == Vacant;
          return Claim(idx, steps), slot, idx;
        }
        if key.background == background && key.foreground == foreground {
          assert views[idx] == Matching;
          return Hit(idx, steps), slot, idx;
        }
        statClashes := statClashes + 1;
        assert ProbeFrom(views, idx0, steps) == ProbeFrom(views, idx0, steps + 1);
        NextProbeSlot(idx0, steps);
        idx := Next(idx);
        steps := steps + 1;
        if idx == idx0 {
          return Full, slot, idx;
        }
      }
    }

    /** `gblender_lookup`, in full-pixel mode: returns the arena offset of the
        pair's gradient, building it on a miss. The new tables are those of
        PixelLookup, which keeps the table coherent with its arena, and the
        counters record one lookup, the clashes passed, and the key claimed
        and the clear made, if any. */
    method Lookup(background: uint32, foreground: uint32) returns (offset: nat)
      requires Valid() && channels == 0
      modifies keys, cells, `cache
      modifies `statHits, `statLookups, `statClashes, `statKeys, `statClears, `hitsServed
      ensures Valid()
      ensures var st := PixelLookup(old(keys[..]), old(cells[..]), layout, gamma, background, foreground);
              && keys[..] == st.keys && cells[..] == st.arena && offset == st.offset
              && statHits == old(statHits) - 1 && statLookups == old(statLookups) + 1
              && statClashes == old(statClashes) + (if st.probe.Full? then KEY_COUNT else st.probe.clashes)
              && statKeys == old(statKeys) + (if st.probe.Hit? then 0 else 1)
              && statClears == old(statClears) + (if st.probe.Full? then 1 else 0)
              && cache == (if st.probe.Full? then NO_ENTRY else old(cache))
    {
      ghost var ks0, arena0 := keys[..], cells[..];
      var p, slot, idx;
      offset, p, slot, idx := FindPixel(background, foreground);
      PixelLookupSteps(ks0, arena0, layout, gamma, background, foreground, p, slot, idx, keys[..], cells[..], offset);
    }

    /** The body of `gblender_lookup`: the counter updates, the probe, and
        either the hit or the miss path. The probe p, the slot the key pointer
        stops on and the cursor idx are those of ProbePixels. */
    method FindPixel(background: uint32, foreground: uint32) returns (offset: nat, p: Probe, slot: nat, idx: nat)
      requires Shaped() && ValidGamma(gamma) && channels == 0
      modifies keys, cells, `cache
      modifies `statHits, `statLookups, `statClashes, `statKeys, `statClears, `hitsServed
      ensures var idx0 := PixelHash(background, foreground);
              && p == ProbeFrom(PixelViews(old(keys[..]), background, foreground), idx0, 0)
              && slot < KEY_COUNT && idx < KEY_COUNT
              && (!p.Full? ==> slot == idx == p.slot)
              && (p.Full? ==> slot == ProbeSlot(idx0, KEY_COUNT - 1) && idx == idx0)
      ensures p.Hit? ==> keys[..] == old(keys[..]) && cells[..] == old(cells[..]) && offset == old(keys[..])[slot].cells.value
      ensures !p.Hit? ==>
                var st := PixelNewNode(if p.Full? then ClearPixelKeys(old(keys[..])) else old(keys[..]), old(cells[..]),
                                       layout, gamma, background, foreground, slot, idx, p);
                keys[..] == st.keys && cells[..] == st.arena && offset == st.offset
      ensures && statHits == old(statHits) - 1 && statLookups == old(statLookups) + 1
              && statClashes == old(statClashes) + (if p.Full? then KEY_COUNT else p.clashes)
              && statKeys == old(statKeys) + (if p.Hit? then 0 else 1)
              && hitsServed == old(hitsServed) + (if p.Hit? then 1 else 0)
              && statClears == old(statClears) + (if p.Full? then 1 else 0)
              && cache == (if p.Full? then NO_ENTRY else old(cache))
    {
      statHits, statLookups := statHits - 1, statLookups + 1;
      p, slot, idx := ProbePixels(background, foreground);
      if p.Hit? {
        hitsServed := hitsServed + 1;
        return keys[slot].cells.value, p, slot, idx;
      }
      offset := Miss(background, foreground, p, slot, idx);
    }

    /** What `gblender_lookup` does after a probe that found no slot holding
        the pair: when the table is full, counts a clear and clears it; then
        the `NewNode:` tail, which counts a new key. */
    method Miss(background: uint32, foreground: uint32, p: Probe, slot: nat, idx: nat) returns (offset: nat)
      requires Shaped() && ValidGamma(gamma) && channels == 0 && !p.Hit? && slot < KEY_COUNT && idx < KEY_COUNT
      modifies keys, cells, `cache, `statKeys, `statClears
      ensures var st := PixelNewNode(if p.Full? then ClearPixelKeys(old(keys[..])) else old(keys[..]), old(cells[..]),
                                     layout, gamma, background, foreground, slot, idx, p);
              keys[..] == st.keys && cells[..] == st.arena && offset == st.offset
      ensures statKeys == old(statKeys) + 1 && statClears == old(statClears) + (if p.Full? then 1 else 0)
      ensures cache == (if p.Full? then NO_ENTRY else old(cache))
    {
      ghost var ks := if p.Full? then ClearPixelKeys(keys[..]) else keys[..];
      if p.Full? {
        statClears := statClears + 1;
        ClearPixels();
      }
      assert keys[..] == ks && cells[..] == old(cells[..]);
      offset := NewNode(background, foreground, slot, idx);
      statKeys := statKeys + 1;
    }

    /** The `NewNode:` tail of `gblender_lookup`: stores the pair in the slot
        the key pointer is on, with the cells of the region of slot `idx`, and
        builds the pair's gradient there. */
    method NewNode(background: uint32, foreground: uint32, slot: nat, idx: nat) returns (offset: nat)
      requires Shaped() && ValidGamma(gamma) && slot < KEY_COUNT && idx < KEY_COUNT
      modifies keys, cells
      ensures offset == idx * RegionSize(layout) && offset + RegionSize(layout) <= cells.Length
      ensures keys[..] == old(keys[..])[slot := PixelKey(background, foreground, Some(offset))]
      ensures cells[..] == Overwrite(old(cells[..]), offset, PixelGradient(gamma, layout, background, foreground))
      ensures chanKeys[..] == old(chanKeys[..]) && chanCells[..] == old(chanCells[..])
    {
      offset := RegionStart(layout, idx);
      keys[slot] := PixelKey(background, foreground, Some(offset));
      assert cells[..] == old(cells[..]);
      ResetKey(slot);
    }

    /** `gblender_reset_channel_key`: writes the single-channel gradient of the
        packed pair held by the given slot at the byte index the slot names. */
    method ResetChannelKey(slot: nat)
      requires Shaped() && ValidGamma(gamma) && slot < KEY_COUNT
      requires chanKeys[slot].index >= 0 && chanKeys[slot].index + SHADE_COUNT <= chanCells.Length
      modifies chanCells
      ensures chanCells[..] == Overwrite(old(chanCells[..]), chanKeys[slot].index,
                                         ChannelGradient(gamma, ChanBack(chanKeys[slot].backfore), ChanFore(chanKeys[slot].backfore)))
    {
      var back := ChanBack(chanKeys[slot].backfore);
      var fore := ChanFore(chanKeys[slot].backfore);
      var o: nat := chanKeys[slot].index;
      ghost var w := ChannelGradient(gamma, back, fore);
      chanCells[o] := back;
      assert chanCells[..] == Overwrite(old(chanCells[..]), o, w[..1]);
      var l1: nat, l2: nat := gamma.ramp[back], gamma.ramp[fore];
      assert l1 <= GAMMA_MAX && l2 <= GAMMA_MAX;
      for nn := 1 to SHADE_COUNT
        invariant chanCells[..] == Overwrite(old(chanCells[..]), o, w[..nn])
      {
        var a := Weight(nn);
        var r := gamma.inv[Blend(l1, l2, a)];
        ghost var before := chanCells[..];
        chanCells[o + nn] := r;
        assert chanCells[..] == Overwrite(before, o + nn, [r]);
        assert w[..nn + 1] == w[..nn] + [r];
        OverwriteAppend(old(chanCells[..]), o, w[..nn], [r]);
      }
      assert w[..SHADE_COUNT] == w;
    }

    /** The probe loop of `gblender_lookup_channel`, over the single-channel
        slots and the packed pair `backfore`. */
    method ProbeChannels(background: uint32, foreground: uint32, backfore: uint16) returns (p: Probe, slot: nat, idx: nat)
      requires Shaped()
      modifies `statClashes
      ensures var idx0 := ChanHash(background, foreground);
              && p == ProbeFrom(ChanViews(chanKeys[..], backfore), idx0, 0)
              && statClashes == old(statClashes) + (if p.Full? then KEY_COUNT else p.clashes)
              && slot < KEY_COUNT && idx < KEY_COUNT
              && (!p.Full? ==> slot == idx == p.slot)
              && (p.Full? ==> slot == ProbeSlot(idx0, KEY_COUNT - 1) && idx == idx0)
      ensures chanKeys[..] == old(chanKeys[..]) && chanCells[..] == old(chanCells[..])
    {
      ghost var views := ChanViews(chanKeys[..], backfore);
      var idx0 := ChanHash(background, foreground);
      idx := idx0;
      var steps: nat := 0;
      while true
        invariant steps < KEY_COUNT && idx == ProbeSlot(idx0, steps)
        invariant ProbeFrom(views, idx0, steps) == ProbeFrom(views, idx0, 0)
        invariant statClashes == old(statClashes) + steps
        decreases KEY_COUNT - steps
      {
        slot := idx;
        var key := chanKeys[idx];
        if key.index < 0 {
          assert views[idx] == Vacant;
          return Claim(idx, steps), slot, idx;
        }
        if key.backfore == backfore {
          assert views[idx] == Matching;
          return Hit(idx, steps), slot, idx;
        }
        statClashes := statClashes + 1;
        assert ProbeFrom(views, idx0, steps) == ProbeFrom(views, idx0, steps + 1);
        NextProbeSlot(idx0, steps);
        idx := Next(idx);
        steps := steps + 1;
        if idx == idx0 {
          return Full, slot, idx;
        }
      }
    }

    /** `gblender_lookup_channel`, in single-channel mode: the same probe over
        the packed byte pairs, returning the byte index of the gradient; the
        new tables are those of ChanLookup, which keeps them coherent. */
    method LookupChannel(background: uint32, foreground: uint32) returns (offset: nat)
      requires Valid() && channels == 1
      modifies chanKeys, chanCells, `cacheR, `cacheG, `cacheB
      modifies `statHits, `statLookups, `statClashes, `statKeys, `statClears, `hitsServed
      ensures Valid()
      ensures var st := ChanLookup(old(chanKeys[..]), old(chanCells[..]), gamma, background, foreground);
              && chanKeys[..] == st.keys && chanCells[..] == st.arena && offset == st.offset
              && statHits == old(statHits) - 1 && statLookups == old(statLookups) + 1
              && statClashes == old(statClashes) + (if st.probe.Full? then KEY_COUNT else st.probe.clashes)
              && statKeys == old(statKeys) + (if st.probe.Hit? then 0 else 1)
              && statClears == old(statClears) + (if st.probe.Full? then 1 else 0)
              && (if st.probe.Full? then cacheR == NO_ENTRY && cacheG == NO_ENTRY && cacheB == NO_ENTRY
                  else cacheR == old(cacheR) && cacheG == old(cacheG) && cacheB == old(cacheB))
    {
      ghost var ks0, arena0 := chanKeys[..], chanCells[..];
      var p, slot, idx;
      offset, p, slot, idx := FindChannel(background, foreground);
      ChanLookupSteps(ks0, arena0, gamma, background, foreground, p, slot, idx, chanKeys[..], chanCells[..], offset);
    }

    /** The body of `gblender_lookup_channel`, with the probe p, slot and
        cursor idx of ProbeChannels. */
    method FindChannel(background: uint32, foreground: uint32) returns (offset: nat, p: Probe, slot: nat, idx: nat)
      requires Shaped() && ValidGamma(gamma) && channels == 1
      modifies chanKeys, chanCells, `cacheR, `cacheG, `cacheB
      modifies `statHits, `statLookups, `statClashes, `statKeys, `statClears, `hitsServed
      ensures var idx0 := ChanHash(background, foreground);
              && p == ProbeFrom(ChanViews(old(chanKeys[..]), PackChan(background, foreground)), idx0, 0)
              && slot < KEY_COUNT && idx < KEY_COUNT
              && (!p.Full? ==> slot == idx == p.slot)
              && (p.Full? ==> slot == ProbeSlot(idx0, KEY_COUNT - 1) && idx == idx0)
      ensures p.Hit? ==> chanKeys[..] == old(chanKeys[..]) && chanCells[..] == old(chanCells[..])
                         && offset == old(chanKeys[..])[slot].index
      ensures !p.Hit? ==>
                var st := ChanNewNode(if p.Full? then ClearChanKeys(old(chanKeys[..])) else old(chanKeys[..]),
                                      old(chanCells[..]), gamma, PackChan(background, foreground), slot, idx, p);
                chanKeys[..] == st.keys && chanCells[..] == st.arena && offset == st.offset
      ensures && statHits == old(statHits) - 1 && statLookups == old(statLookups) + 1
              && statClashes == old(statClashes) + (if p.Full? then KEY_COUNT else p.clashes)
              && statKeys == old(statKeys) + (if p.Hit? then 0 else 1)
              && hitsServed == old(hitsServed) + (if p.Hit? then 1 else 0)
              && statClears == old(statClears) + (if p.Full? then 1 else 0)
              && (if p.Full? then cacheR == NO_ENTRY && cacheG == NO_ENTRY && cacheB == NO_ENTRY
                  else cacheR == old(cacheR) && cacheG == old(cacheG) && cacheB == old(cacheB))
    {
      var backfore := PackChan(background, foreground);
      statHits, statLookups := statHits - 1, statLookups + 1;
      p, slot, idx := ProbeChannels(background, foreground, backfore);
      if p.Hit? {
        hitsServed := hitsServed + 1;
        return chanKeys[slot].index as nat, p, slot, idx;
      }
      offset := MissChannel(backfore, p, slot, idx);
    }

    /** What `gblender_lookup_channel` does after a probe that found no slot
        holding the packed pair: the clear of a full table, then its
        `NewNode:` tail. */
    method MissChannel(backfore: uint16, p: Probe, slot: nat, idx: nat) returns (offset: nat)
      requires Shaped() && ValidGamma(gamma) && channels == 1 && !p.Hit? && slot < KEY_COUNT && idx < KEY_COUNT
      modifies chanKeys, chanCells, `cacheR, `cacheG, `cacheB, `statKeys, `statClears
      ensures var st := ChanNewNode(if p.Full? then ClearChanKeys(old(chanKeys[..])) else old(chanKeys[..]), old(chanCells[..]),
                                    gamma, backfore, slot, idx, p);
              chanKeys[..] == st.keys && chanCells[..] == st.arena && offset == st.offset
      ensures statKeys == old(statKeys) + 1 && statClears == old(statClears) + (if p.Full? then 1 else 0)
      ensures cacheR == (if p.Full? then NO_ENTRY else old(cacheR))
      ensures cacheG == (if p.Full? then NO_ENTRY else old(cacheG))
      ensures cacheB == (if p.Full? then NO_ENTRY else old(cacheB))
    {
      ghost var ks := if p.Full? then ClearChanKeys(chanKeys[..]) else chanKeys[..];
      if p.Full? {
        statClears := statClears + 1;
        ClearChannels();
      }
      assert chanKeys[..] == ks && chanCells[..] == old(chanCells[..]);
      offset := NewChannelNode(backfore, slot, idx);
      statKeys := statKeys + 1;
    }

    /** The `NewNode:` tail of `gblender_lookup_channel`: stores the packed
        pair in the slot the key pointer is on with the index
        `(signed short)(idx * SHADE_COUNT)`, and builds its gradient there. */
    method NewChannelNode(backfore: uint16, slot: nat, idx: nat) returns (offset: nat)
      requires Shaped() && ValidGamma(gamma) && slot < KEY_COUNT && idx < KEY_COUNT
      modifies chanKeys, chanCells
      ensures offset == idx * SHADE_COUNT && offset + SHADE_COUNT <= chanCells.Length
      ensures chanKeys[..] == old(chanKeys[..])[slot := ChanKey(backfore, offset)]
      ensures chanCells[..] == Overwrite(old(chanCells[..]), offset, ChannelGradient(gamma, ChanBack(backfore), ChanFore(backfore)))
      ensures keys[..] == old(keys[..]) && cells[..] == old(cells[..])
    {
      offset := idx * SHADE_COUNT;
      chanKeys[slot] := ChanKey(backfore, offset as int16);
      assert chanCells[..] == old(chanCells[..]);
      ResetChannelKey(slot);
    }

    /** `stat_lookups - stat_keys`, which `gblender_dump_stats` reports as the
        lookups served from the table: exactly the lookups that hit. */
    function ReusedLookups(): (n: int)
      reads this, keys, cells, chanKeys, chanCells
      requires Valid()
      ensures n == hitsServed && n >= 0
    {
      statLookups - statKeys
    }
  }

}
