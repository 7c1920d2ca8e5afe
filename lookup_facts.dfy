/** What the two lookup functions guarantee: how each probe ends, that a
    repeated lookup finds what the first one stored, and that the arena keeps
    holding each trusted slot's gradient. */
module LookupFacts {
  import opened Bits
  import opened Shades
  import opened Slots
  import opened Cache

  /** Slot k holds a full-pixel key other than (background, foreground). */
  predicate PixelClash(k: PixelKey, background: uint32, foreground: uint32)
  {
    k.cells.Some? && !(k.background == background && k.foreground == foreground)
  }

  /** Slot k holds a single-channel key other than bf. */
  predicate ChanClash(k: ChanKey, bf: uint16)
  {
    k.index >= 0 && k.backfore != bf
  }

  /** Every slot lies on a probe's path, at step `(i - idx0) mod KEY_COUNT`. */
  lemma OnProbePath(idx0: nat, i: nat)
    requires idx0 < KEY_COUNT && i < KEY_COUNT
    ensures ProbeSlot(idx0, (i + KEY_COUNT - idx0) % KEY_COUNT) == i
  {
  }

  /** A state reached the way the blender method reaches it (the probe of
      PixelLookup, then the hit or the new node) is PixelLookup's state, and
      so is coherent whenever the starting state is. */
  lemma PixelLookupSteps(ks: seq<PixelKey>, arena: seq<int>, layout: Layout, g: Gamma,
                         background: uint32, foreground: uint32, p: Probe, slot: nat, idx: nat,
                         ks': seq<PixelKey>, arena': seq<int>, offset: nat)
    requires |ks| == KEY_COUNT && |arena| == KEY_COUNT * RegionSize(layout) && ValidGamma(g)
    requires var idx0 := PixelHash(background, foreground);
             && p == ProbeFrom(PixelViews(ks, background, foreground), idx0, 0)
             && slot < KEY_COUNT && idx < KEY_COUNT
             && (!p.Full? ==> slot == idx == p.slot)
             && (p.Full? ==> slot == ProbeSlot(idx0, KEY_COUNT - 1) && idx == idx0)
    requires p.Hit? ==> ks' == ks && arena' == arena && offset == ks[slot].cells.value
    requires !p.Hit? ==>
               var st := PixelNewNode(if p.Full? then ClearPixelKeys(ks) else ks, arena, layout, g,
                                      background, foreground, slot, idx, p);
               ks' == st.keys && arena' == st.arena && offset == st.offset
    ensures var st := PixelLookup(ks, arena, layout, g, background, foreground);
            st.probe == p && ks' == st.keys && arena' == st.arena && offset == st.offset
    ensures PixelCoherent(ks, arena, layout, g) ==> PixelCoherent(ks', arena', layout, g)
  {
    if PixelCoherent(ks, arena, layout, g) {
      PixelLookupCoherent(ks, arena, layout, g, background, foreground);
    }
  }

  /** The same for ChanLookup. */
  lemma ChanLookupSteps(ks: seq<ChanKey>, arena: seq<int>, g: Gamma,
                        background: uint32, foreground: uint32, p: Probe, slot: nat, idx: nat,
                        ks': seq<ChanKey>, arena': seq<int>, offset: nat)
    requires |ks| == KEY_COUNT && |arena| == KEY_COUNT * SHADE_COUNT && ValidGamma(g)
    requires var idx0 := ChanHash(background, foreground);
             && p == ProbeFrom(ChanViews(ks, PackChan(background, foreground)), idx0, 0)
             && slot < KEY_COUNT && idx < KEY_COUNT
             && (!p.Full? ==> slot == idx == p.slot)
             && (p.Full? ==> slot == ProbeSlot(idx0, KEY_COUNT - 1) && idx == idx0)
    requires p.Hit? ==> ks' == ks && arena' == arena && offset == ks[slot].index
    requires !p.Hit? ==>
               var st := ChanNewNode(if p.Full? then ClearChanKeys(ks) else ks, arena, g,
                                     PackChan(background, foreground), slot, idx, p);
               ks' == st.keys && arena' == st.arena && offset == st.offset
    ensures var st := ChanLookup(ks, arena, g, background, foreground);
            st.probe == p && ks' == st.keys && arena' == st.arena && offset == st.offset
    ensures ChanCoherent(ks, arena, g) ==> ChanCoherent(ks', arena', g)
  {
    if ChanCoherent(ks, arena, g) {
      ChanLookupCoherent(ks, arena, g, background, foreground);
    }
  }

  /** How `gblender_lookup` ends. A hit finds the pair stored and changes
      nothing; any other outcome writes the pair's gradient at the returned
      offset. A probe that does not fill up passed only clashing slots; a miss
      claims the empty slot it stopped at, at that slot's own region; a full
      table (every slot a clash) is cleared and the key lands in the slot just
      before the start, pointing at the start slot's region. */
  lemma PixelLookupOutcome(ks: seq<PixelKey>, arena: seq<int>, layout: Layout, g: Gamma,
                           background: uint32, foreground: uint32)
    requires |ks| == KEY_COUNT && |arena| == KEY_COUNT * RegionSize(layout) && ValidGamma(g)
    ensures var st := PixelLookup(ks, arena, layout, g, background, foreground);
            var idx0 := PixelHash(background, foreground);
            && (st.probe.Hit? ==> st.keys == ks && st.arena == arena)
            && (!st.probe.Hit? ==> st.arena == Overwrite(arena, st.offset, PixelGradient(g, layout, background, foreground)))
            && (!st.probe.Full? ==>
                  && st.slot == ProbeSlot(idx0, st.probe.clashes)
                  && forall j :: 0 <= j < st.probe.clashes ==> PixelClash(ks[ProbeSlot(idx0, j)], background, foreground))
            && (st.probe.Claim? ==>
                  && ks[st.slot].cells.None?
                  && st.offset == st.slot * RegionSize(layout)
                  && st.keys == ks[st.slot := PixelKey(background, foreground, Some(st.offset))])
            && (st.probe.Full? ==>
                  && (forall i :: 0 <= i < KEY_COUNT ==> PixelClash(ks[i], background, foreground))
                  && st.slot == ProbeSlot(idx0, KEY_COUNT - 1)
                  && st.offset == idx0 * RegionSize(layout)
                  && st.keys == ClearPixelKeys(ks)[st.slot := PixelKey(background, foreground, Some(st.offset))])
  {
    var idx0 := PixelHash(background, foreground);
    var views := PixelViews(ks, background, foreground);
    var p := ProbeFrom(views, idx0, 0);
    if p.Full? {
      forall i | 0 <= i < KEY_COUNT
        ensures PixelClash(ks[i], background, foreground)
      {
        OnProbePath(idx0, i);
        assert views[ProbeSlot(idx0, (i + KEY_COUNT - idx0) % KEY_COUNT)] == Other;
      }
    }
  }

  /** The same for `gblender_lookup_channel`, whose slots are empty when their
      index is negative and whose keys are the packed byte pair. */
  lemma ChanLookupOutcome(ks: seq<ChanKey>, arena: seq<int>, g: Gamma, background: uint32, foreground: uint32)
    requires |ks| == KEY_COUNT && |arena| == KEY_COUNT * SHADE_COUNT && ValidGamma(g)
    ensures var st := ChanLookup(ks, arena, g, background, foreground);
            var idx0 := ChanHash(background, foreground);
            var bf := PackChan(background, foreground);
            && (st.probe.Hit? ==> st.keys == ks && st.arena == arena)
            && (!st.probe.Hit? ==> st.arena == Overwrite(arena, st.offset, ChannelGradient(g, ChanBack(bf), ChanFore(bf))))
            && (!st.probe.Full? ==>
                  && st.slot == ProbeSlot(idx0, st.probe.clashes)
                  && forall j :: 0 <= j < st.probe.clashes ==> ChanClash(ks[ProbeSlot(idx0, j)], bf))
            && (st.probe.Claim? ==>
                  && ks[st.slot].index < 0
                  && st.offset == st.slot * SHADE_COUNT
                  && st.keys == ks[st.slot := ChanKey(bf, st.offset as int16)])
            && (st.probe.Full? ==>
                  && (forall i :: 0 <= i < KEY_COUNT ==> ChanClash(ks[i], bf))
                  && st.slot == ProbeSlot(idx0, KEY_COUNT - 1)
                  && st.offset == idx0 * SHADE_COUNT
                  && st.keys == ClearChanKeys(ks)[st.slot := ChanKey(bf, st.offset as int16)])
  {
    var idx0 := ChanHash(background, foreground);
    var views := ChanViews(ks, PackChan(background, foreground));
    var p := ProbeFrom(views, idx0, 0);
    if p.Full? {
      forall i | 0 <= i < KEY_COUNT
        ensures ChanClash(ks[i], PackChan(background, foreground))
      {
        OnProbePath(idx0, i);
        assert views[ProbeSlot(idx0, (i + KEY_COUNT - idx0) % KEY_COUNT)] == Other;
      }
    }
  }

  /** Looking the same pair up again right after `gblender_lookup` returns the
      same cells and changes no cell. It is a hit that changes nothing, except
      after a full-table clear: the key then sits one slot before the start
      slot, so the second probe stops at the empty start slot and builds the
      gradient again in the same region. */
  lemma PixelLookupRepeat(ks: seq<PixelKey>, arena: seq<int>, layout: Layout, g: Gamma,
                          background: uint32, foreground: uint32)
    requires |ks| == KEY_COUNT && |arena| == KEY_COUNT * RegionSize(layout) && ValidGamma(g)
    ensures var st := PixelLookup(ks, arena, layout, g, background, foreground);
            var again := PixelLookup(st.keys, st.arena, layout, g, background, foreground);
            && again.offset == st.offset
            && again.arena == st.arena
            && (!st.probe.Full? ==> again.probe.Hit? && again.keys == st.keys)
            && (st.probe.Full? ==> again.probe == Claim(PixelHash(background, foreground), 0))
  {
    var st := PixelLookup(ks, arena, layout, g, background, foreground);
    if st.probe.Full? {
      PixelRepeatAfterFull(ks, arena, layout, g, background, foreground);
    } else {
      PixelRepeatAfterStop(ks, arena, layout, g, background, foreground);
    }
  }

  /** PixelLookupRepeat after a probe that stopped on a hit or an empty slot. */
  lemma PixelRepeatAfterStop(ks: seq<PixelKey>, arena: seq<int>, layout: Layout, g: Gamma,
                             background: uint32, foreground: uint32)
    requires |ks| == KEY_COUNT && |arena| == KEY_COUNT * RegionSize(layout) && ValidGamma(g)
    requires !PixelLookup(ks, arena, layout, g, background, foreground).probe.Full?
    ensures var st := PixelLookup(ks, arena, layout, g, background, foreground);
            var again := PixelLookup(st.keys, st.arena, layout, g, background, foreground);
            again.probe.Hit? && again.keys == st.keys && again.arena == st.arena && again.offset == st.offset
  {
    var st := PixelLookup(ks, arena, layout, g, background, foreground);
    var idx0 := PixelHash(background, foreground);
    var views := PixelViews(st.keys, background, foreground);
    PixelLookupOutcome(ks, arena, layout, g, background, foreground);
    if st.probe.Claim? {
      var c := st.probe.clashes;
      forall j | 0 <= j < c
        ensures views[ProbeSlot(idx0, j)] == Other
      {
        ProbeSlotsDistinct(idx0, j, c);
      }
      ProbeFirstStop(views, idx0, 0, c);
    }
  }

  /** PixelLookupRepeat after a probe that found the table full. */
  lemma PixelRepeatAfterFull(ks: seq<PixelKey>, arena: seq<int>, layout: Layout, g: Gamma,
                             background: uint32, foreground: uint32)
    requires |ks| == KEY_COUNT && |arena| == KEY_COUNT * RegionSize(layout) && ValidGamma(g)
    requires PixelLookup(ks, arena, layout, g, background, foreground).probe.Full?
    ensures var st := PixelLookup(ks, arena, layout, g, background, foreground);
            var again := PixelLookup(st.keys, st.arena, layout, g, background, foreground);
            again.probe == Claim(PixelHash(background, foreground), 0) && again.arena == st.arena && again.offset == st.offset
  {
    var st := PixelLookup(ks, arena, layout, g, background, foreground);
    var idx0 := PixelHash(background, foreground);
    var views := PixelViews(st.keys, background, foreground);
    PixelLookupOutcome(ks, arena, layout, g, background, foreground);
    NextOfLastProbed(idx0);
    ProbeFirstStop(views, idx0, 0, 0);
    OverwriteTwice(arena, st.offset, PixelGradient(g, layout, background, foreground));
  }

  /** The same for `gblender_lookup_channel`. */
  lemma ChanLookupRepeat(ks: seq<ChanKey>, arena: seq<int>, g: Gamma, background: uint32, foreground: uint32)
    requires |ks| == KEY_COUNT && |arena| == KEY_COUNT * SHADE_COUNT && ValidGamma(g)
    ensures var st := ChanLookup(ks, arena, g, background, foreground);
            var again := ChanLookup(st.keys, st.arena, g, background, foreground);
            && again.offset == st.offset
            && again.arena == st.arena
            && (!st.probe.Full? ==> again.probe.Hit? && again.keys == st.keys)
            && (st.probe.Full? ==> again.probe == Claim(ChanHash(background, foreground), 0))
  {
    var st := ChanLookup(ks, arena, g, background, foreground);
    if st.probe.Full? {
      ChanRepeatAfterFull(ks, arena, g, background, foreground);
    } else {
      ChanRepeatAfterStop(ks, arena, g, background, foreground);
    }
  }

  /** ChanLookupRepeat after a probe that stopped on a hit or an empty slot. */
  lemma ChanRepeatAfterStop(ks: seq<ChanKey>, arena: seq<int>, g: Gamma, background: uint32, foreground: uint32)
    requires |ks| == KEY_COUNT && |arena| == KEY_COUNT * SHADE_COUNT && ValidGamma(g)
    requires !ChanLookup(ks, arena, g, background, foreground).probe.Full?
    ensures var st := ChanLookup(ks, arena, g, background, foreground);
            var again := ChanLookup(st.keys, st.arena, g, background, foreground);
            again.probe.Hit? && again.keys == st.keys && again.arena == st.arena && again.offset == st.offset
  {
    var st := ChanLookup(ks, arena, g, background, foreground);
    var idx0 := ChanHash(background, foreground);
    var views := ChanViews(st.keys, PackChan(background, foreground));
    ChanLookupOutcome(ks, arena, g, background, foreground);
    if st.probe.Claim? {
      var c := st.probe.clashes;
      forall j | 0 <= j < c
        ensures views[ProbeSlot(idx0, j)] == Other
      {
        ProbeSlotsDistinct(idx0, j, c);
      }
      ProbeFirstStop(views, idx0, 0, c);
    }
  }

  /** ChanLookupRepeat after a probe that found the table full. */
  lemma ChanRepeatAfterFull(ks: seq<ChanKey>, arena: seq<int>, g: Gamma, background: uint32, foreground: uint32)
    requires |ks| == KEY_COUNT && |arena| == KEY_COUNT * SHADE_COUNT && ValidGamma(g)
    requires ChanLookup(ks, arena, g, background, foreground).probe.Full?
    ensures var st := ChanLookup(ks, arena, g, background, foreground);
            var again := ChanLookup(st.keys, st.arena, g, background, foreground);
            again.probe == Claim(ChanHash(background, foreground), 0) && again.arena == st.arena && again.offset == st.offset
  {
    var st := ChanLookup(ks, arena, g, background, foreground);
    var idx0 := ChanHash(background, foreground);
    var bf := PackChan(background, foreground);
    var views := ChanViews(st.keys, bf);
    ChanLookupOutcome(ks, arena, g, background, foreground);
    NextOfLastProbed(idx0);
    ProbeFirstStop(views, idx0, 0, 0);
    OverwriteTwice(arena, st.offset, ChannelGradient(g, ChanBack(bf), ChanFore(bf)));
  }

  /** A slot holding the pair already has its region inside the arena, and
      holds the pair's gradient there when the slot is trusted. */
  lemma PixelHitKeeps(ks: seq<PixelKey>, arena: seq<int>, layout: Layout, g: Gamma,
                      background: uint32, foreground: uint32, s: nat)
    requires |ks| == KEY_COUNT && |arena| == KEY_COUNT * RegionSize(layout) && ValidGamma(g)
    requires PixelCoherent(ks, arena, layout, g) && s < KEY_COUNT
    requires PixelView(ks[s], background, foreground) == Matching
    ensures ks[s].cells.value + RegionSize(layout) <= |arena|
    ensures Trusted(PixelOffsets(ks), RegionSize(layout), s) ==>
              arena[ks[s].cells.value .. ks[s].cells.value + RegionSize(layout)] == PixelGradient(g, layout, background, foreground)
  {
    assert PixelOffsets(ks)[s] == ks[s].cells;
    assert SlotCoherent(PixelOffsets(ks), PixelWants(ks, layout, g), arena, RegionSize(layout), s);
  }

  /** Claiming the empty slot s at its own region keeps the full-pixel arena
      invariant, and the claimed slot is trusted. */
  lemma PixelClaimKeeps(ks: seq<PixelKey>, arena: seq<int>, layout: Layout, g: Gamma,
                        background: uint32, foreground: uint32, s: nat, p: Probe)
    requires |ks| == KEY_COUNT && |arena| == KEY_COUNT * RegionSize(layout) && ValidGamma(g)
    requires PixelCoherent(ks, arena, layout, g) && s < KEY_COUNT && ks[s].cells.None?
    ensures var st := PixelNewNode(ks, arena, layout, g, background, foreground, s, s, p);
            && PixelCoherent(st.keys, st.arena, layout, g) && Trusted(PixelOffsets(st.keys), RegionSize(layout), s)
            && st.arena[st.offset .. st.offset + RegionSize(layout)] == PixelGradient(g, layout, background, foreground)
  {
    var st := PixelNewNode(ks, arena, layout, g, background, foreground, s, s, p);
    var size := RegionSize(layout);
    var w := PixelGradient(g, layout, background, foreground);
    var offs, want := PixelOffsets(ks), PixelWants(ks, layout, g);
    ClaimCoherent(offs, want, arena, size, s, w);
    OverwriteSlices(arena, s * size, w, s * size, size);
    assert PixelOffsets(st.keys) == offs[s := Some(s * size)];
    assert PixelWants(st.keys, layout, g) == want[s := w];
  }

  /** After a full-table clear, the single key written into the last probed
      slot, at the start slot's region, leaves the full-pixel arena coherent,
      and that slot is trusted. */
  lemma PixelFullKeeps(ks: seq<PixelKey>, arena: seq<int>, layout: Layout, g: Gamma,
                       background: uint32, foreground: uint32, idx0: nat, p: Probe)
    requires |ks| == KEY_COUNT && |arena| == KEY_COUNT * RegionSize(layout) && ValidGamma(g) && idx0 < KEY_COUNT
    ensures var last := ProbeSlot(idx0, KEY_COUNT - 1);
            var st := PixelNewNode(ClearPixelKeys(ks), arena, layout, g, background, foreground, last, idx0, p);
            && PixelCoherent(st.keys, st.arena, layout, g) && Trusted(PixelOffsets(st.keys), RegionSize(layout), last)
            && st.arena[st.offset .. st.offset + RegionSize(layout)] == PixelGradient(g, layout, background, foreground)
  {
    var last := ProbeSlot(idx0, KEY_COUNT - 1);
    var st := PixelNewNode(ClearPixelKeys(ks), arena, layout, g, background, foreground, last, idx0, p);
    var size := RegionSize(layout);
    var w := PixelGradient(g, layout, background, foreground);
    var want := PixelWants(ks, layout, g);
    NextOfLastProbed(idx0);
    FullClaimCoherent(want, arena, size, last, w);
    OverwriteSlices(arena, idx0 * size, w, idx0 * size, size);
    assert PixelOffsets(st.keys) == Vacancies()[last := Some(Next(last) * size)];
    assert PixelWants(st.keys, layout, g) == want[last := w];
  }

  /** `gblender_lookup` keeps the full-pixel arena invariant, returns an offset
      whose whole region lies in the arena, and the region it returns holds the
      pair's gradient whenever the returned slot is trusted, which every newly
      written slot is. */
  lemma PixelLookupCoherent(ks: seq<PixelKey>, arena: seq<int>, layout: Layout, g: Gamma,
                            background: uint32, foreground: uint32)
    requires |ks| == KEY_COUNT && |arena| == KEY_COUNT * RegionSize(layout) && ValidGamma(g)
    requires PixelCoherent(ks, arena, layout, g)
    ensures var st := PixelLookup(ks, arena, layout, g, background, foreground);
            var size := RegionSize(layout);
            && PixelCoherent(st.keys, st.arena, layout, g)
            && st.offset + size <= |st.arena|
            && (!st.probe.Hit? ==> Trusted(PixelOffsets(st.keys), size, st.slot))
            && (Trusted(PixelOffsets(st.keys), size, st.slot) ==>
                  st.arena[st.offset .. st.offset + size] == PixelGradient(g, layout, background, foreground))
  {
    var idx0 := PixelHash(background, foreground);
    var views := PixelViews(ks, background, foreground);
    var p := ProbeFrom(views, idx0, 0);
    var st := PixelLookup(ks, arena, layout, g, background, foreground);
    match p
    case Hit(s, _) =>
      assert views[s] == Matching;
      assert st == Step(ks, arena, s, ks[s].cells.value, p);
      PixelHitKeeps(ks, arena, layout, g, background, foreground, s);
    case Claim(s, _) =>
      assert views[s] == Vacant;
      assert st == PixelNewNode(ks, arena, layout, g, background, foreground, s, s, p);
      PixelClaimKeeps(ks, arena, layout, g, background, foreground, s, p);
    case Full =>
      var last := ProbeSlot(idx0, KEY_COUNT - 1);
      assert st == PixelNewNode(ClearPixelKeys(ks), arena, layout, g, background, foreground, last, idx0, p);
      PixelFullKeeps(ks, arena, layout, g, background, foreground, idx0, p);
  }

  /** A slot holding the packed pair already has its region inside the arena. */
  lemma ChanHitKeeps(ks: seq<ChanKey>, arena: seq<int>, g: Gamma, bf: uint16, s: nat)
    requires |ks| == KEY_COUNT && |arena| == KEY_COUNT * SHADE_COUNT && ValidGamma(g)
    requires ChanCoherent(ks, arena, g) && s < KEY_COUNT && ChanView(ks[s], bf) == Matching
    ensures ks[s].index + SHADE_COUNT <= |arena|
    ensures Trusted(ChanOffsets(ks), SHADE_COUNT, s) ==>
              arena[ks[s].index .. ks[s].index + SHADE_COUNT] == ChannelGradient(g, ChanBack(bf), ChanFore(bf))
  {
    assert ChanOffsets(ks)[s] == Some(ks[s].index as nat);
    assert SlotCoherent(ChanOffsets(ks), ChanWants(ks, g), arena, SHADE_COUNT, s);
  }

  /** Claiming the empty slot s keeps the single-channel arena invariant. */
  lemma ChanClaimKeeps(ks: seq<ChanKey>, arena: seq<int>, g: Gamma, bf: uint16, s: nat, p: Probe)
    requires |ks| == KEY_COUNT && |arena| == KEY_COUNT * SHADE_COUNT && ValidGamma(g)
    requires ChanCoherent(ks, arena, g) && s < KEY_COUNT && ks[s].index < 0
    ensures var st := ChanNewNode(ks, arena, g, bf, s, s, p);
            && ChanCoherent(st.keys, st.arena, g) && Trusted(ChanOffsets(st.keys), SHADE_COUNT, s)
            && st.arena[st.offset .. st.offset + SHADE_COUNT] == ChannelGradient(g, ChanBack(bf), ChanFore(bf))
  {
    var st := ChanNewNode(ks, arena, g, bf, s, s, p);
    var w := ChannelGradient(g, ChanBack(bf), ChanFore(bf));
    var offs, want := ChanOffsets(ks), ChanWants(ks, g);
    ClaimCoherent(offs, want, arena, SHADE_COUNT, s, w);
    OverwriteSlices(arena, s * SHADE_COUNT, w, s * SHADE_COUNT, SHADE_COUNT);
    assert ChanOffsets(st.keys) == offs[s := Some(s * SHADE_COUNT)];
    assert ChanWants(st.keys, g) == want[s := w];
  }

  /** The full-table path keeps the single-channel arena invariant. */
  lemma ChanFullKeeps(ks: seq<ChanKey>, arena: seq<int>, g: Gamma, bf: uint16, idx0: nat, p: Probe)
    requires |ks| == KEY_COUNT && |arena| == KEY_COUNT * SHADE_COUNT && ValidGamma(g) && idx0 < KEY_COUNT
    ensures var last := ProbeSlot(idx0, KEY_COUNT - 1);
            var st := ChanNewNode(ClearChanKeys(ks), arena, g, bf, last, idx0, p);
            && ChanCoherent(st.keys, st.arena, g) && Trusted(ChanOffsets(st.keys), SHADE_COUNT, last)
            && st.arena[st.offset .. st.offset + SHADE_COUNT] == ChannelGradient(g, ChanBack(bf), ChanFore(bf))
  {
    var last := ProbeSlot(idx0, KEY_COUNT - 1);
    var st := ChanNewNode(ClearChanKeys(ks), arena, g, bf, last, idx0, p);
    var w := ChannelGradient(g, ChanBack(bf), ChanFore(bf));
    var want := ChanWants(ks, g);
    NextOfLastProbed(idx0);
    FullClaimCoherent(want, arena, SHADE_COUNT, last, w);
    OverwriteSlices(arena, idx0 * SHADE_COUNT, w, idx0 * SHADE_COUNT, SHADE_COUNT);
    assert ChanOffsets(st.keys) == Vacancies()[last := Some(Next(last) * SHADE_COUNT)];
    assert ChanWants(st.keys, g) == want[last := w];
  }

  /** The same for `gblender_lookup_channel`. */
  lemma ChanLookupCoherent(ks: seq<ChanKey>, arena: seq<int>, g: Gamma, background: uint32, foreground: uint32)
    requires |ks| == KEY_COUNT && |arena| == KEY_COUNT * SHADE_COUNT && ValidGamma(g)
    requires ChanCoherent(ks, arena, g)
    ensures var st := ChanLookup(ks, arena, g, background, foreground);
            var bf := PackChan(background, foreground);
            && ChanCoherent(st.keys, st.arena, g)
            && st.offset + SHADE_COUNT <= |st.arena|
            && (!st.probe.Hit? ==> Trusted(ChanOffsets(st.keys), SHADE_COUNT, st.slot))
            && (Trusted(ChanOffsets(st.keys), SHADE_COUNT, st.slot) ==>
                  st.arena[st.offset .. st.offset + SHADE_COUNT] == ChannelGradient(g, ChanBack(bf), ChanFore(bf)))
  {
    var idx0 := ChanHash(background, foreground);
    var bf := PackChan(background, foreground);
    var views := ChanViews(ks, bf);
    var p := ProbeFrom(views, idx0, 0);
    match p
    case Hit(s, _) =>
      assert views[s] == Matching;
      ChanHitKeeps(ks, arena, g, bf, s);
    case Claim(s, _) =>
      assert views[s] == Vacant;
      ChanClaimKeeps(ks, arena, g, bf, s, p);
    case Full =>
      ChanFullKeeps(ks, arena, g, bf, idx0, p);
  }
}
