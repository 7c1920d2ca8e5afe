/** The full-table path of both lookups. As written, the key goes into the last
    probed slot while its cells are the start slot's region, so a later claim
    of the start slot overwrites the gradient the stranded key points at. The
    next lookup of the stranded pair then stores it a second time, and only a
    table whose every other slot holds another pair makes that lookup hit the
    overwritten region. The corrected lookups keep the key in the slot whose
    region it uses. */
module FullTable {
  import opened Bits
  import opened Shades
  import opened Slots
  import opened Cache

  /** Every occupied full-pixel slot owns its region and holds its gradient there. */
  ghost predicate PixelOwned(ks: seq<PixelKey>, arena: seq<int>, layout: Layout, g: Gamma)
    requires ValidGamma(g)
  {
    Owned(PixelOffsets(ks), PixelWants(ks, layout, g), arena, RegionSize(layout))
  }

  /** Every occupied single-channel slot owns its region and holds its gradient there. */
  ghost predicate ChanOwned(ks: seq<ChanKey>, arena: seq<int>, g: Gamma)
    requires ValidGamma(g)
  {
    Owned(ChanOffsets(ks), ChanWants(ks, g), arena, SHADE_COUNT)
  }

  /** A probe through a table that holds another key in every slot goes all
      the way round. */
  lemma {:induction false} ProbeAllOther(views: seq<SlotView>, idx0: nat, k: nat)
    requires |views| == KEY_COUNT && idx0 < KEY_COUNT && k <= KEY_COUNT
    requires forall i :: 0 <= i < KEY_COUNT ==> views[i] == Other
    ensures ProbeFrom(views, idx0, k) == Full
    decreases KEY_COUNT - k
  {
    if k < KEY_COUNT {
      ProbeAllOther(views, idx0, k + 1);
    }
  }

  /** Two different slots start different regions. */
  lemma RegionStartsDiffer(i: nat, j: nat, size: nat)
    requires i < KEY_COUNT && j < KEY_COUNT && i != j && size > 0
    ensures i * size != j * size
  {
    RegionsApart(i, j, size);
  }

  // ---------------------------------------------------------------------------
  // gblender_lookup as written

  /** As written, a full-table lookup leaves its key in the last probed slot
      pointing at the start slot's region, which stays empty: the table no
      longer has every slot owning its region. */
  lemma PixelFullStrays(ks: seq<PixelKey>, arena: seq<int>, layout: Layout, g: Gamma,
                        background: uint32, foreground: uint32)
    requires |ks| == KEY_COUNT && |arena| == KEY_COUNT * RegionSize(layout) && ValidGamma(g)
    requires ProbeFrom(PixelViews(ks, background, foreground), PixelHash(background, foreground), 0).Full?
    ensures var idx0 := PixelHash(background, foreground);
            var st := PixelLookup(ks, arena, layout, g, background, foreground);
            && st.probe == Full && st.slot == ProbeSlot(idx0, KEY_COUNT - 1) && st.slot != idx0
            && st.keys[st.slot] == PixelKey(background, foreground, Some(idx0 * RegionSize(layout)))
            && st.offset != st.slot * RegionSize(layout)
            && st.keys[idx0].cells.None?
            && !PixelOwned(st.keys, st.arena, layout, g)
  {
    var idx0 := PixelHash(background, foreground);
    var last := ProbeSlot(idx0, KEY_COUNT - 1);
    var size := RegionSize(layout);
    var st := PixelLookup(ks, arena, layout, g, background, foreground);
    NextOfLastProbed(idx0);
    RegionStartsDiffer(idx0, last, size);
    assert st.keys[last].cells == Some(idx0 * size);
    assert !SlotOwned(PixelOffsets(st.keys), PixelWants(st.keys, layout, g), st.arena, size, last);
  }

  /** As written, after a full-table lookup of one pair, a lookup of another
      pair with the same start slot claims that start slot and writes its own
      gradient over the region the first pair's slot still points at. */
  lemma PixelFullThenClaim(ks: seq<PixelKey>, arena: seq<int>, layout: Layout, g: Gamma,
                           b1: uint32, f1: uint32, b2: uint32, f2: uint32)
    requires |ks| == KEY_COUNT && |arena| == KEY_COUNT * RegionSize(layout) && ValidGamma(g)
    requires ProbeFrom(PixelViews(ks, b1, f1), PixelHash(b1, f1), 0).Full?
    requires PixelHash(b2, f2) == PixelHash(b1, f1) && (b2 != b1 || f2 != f1)
    ensures var idx0 := PixelHash(b1, f1);
            var size := RegionSize(layout);
            var st1 := PixelLookup(ks, arena, layout, g, b1, f1);
            var st2 := PixelLookup(st1.keys, st1.arena, layout, g, b2, f2);
            && st1.probe == Full && st2.probe == Claim(idx0, 0) && st2.offset == st1.offset == idx0 * size
            && st1.slot == ProbeSlot(idx0, KEY_COUNT - 1)
            && st2.keys[st1.slot] == PixelKey(b1, f1, Some(idx0 * size))
            && st2.keys[idx0] == PixelKey(b2, f2, Some(idx0 * size))
            && st2.arena[idx0 * size .. idx0 * size + size] == PixelGradient(g, layout, b2, f2)
            && st2.arena[idx0 * size] == PixelGradient(g, layout, b2, f2)[0]
  {
    var idx0 := PixelHash(b1, f1);
    var size := RegionSize(layout);
    var st1 := PixelLookup(ks, arena, layout, g, b1, f1);
    PixelFullStrays(ks, arena, layout, g, b1, f1);
    var views := PixelViews(st1.keys, b2, f2);
    assert views[idx0] == Vacant;
    assert ProbeSlot(idx0, 0) == idx0;
    var p := ProbeFrom(views, idx0, 0);
    assert p == Claim(idx0, 0);
    var st2 := PixelLookup(st1.keys, st1.arena, layout, g, b2, f2);
    assert st2 == PixelNewNode(st1.keys, st1.arena, layout, g, b2, f2, idx0, idx0, p);
    OverwriteSlices(st1.arena, idx0 * size, PixelGradient(g, layout, b2, f2), idx0 * size, size);
    assert st2.arena[idx0 * size .. idx0 * size + size][0] == st2.arena[idx0 * size];
  }

  /** As written, after those two lookups, looking the first pair up again
      passes the start slot, now another pair's, and claims the empty slot
      after it: the pair is then stored in two slots and its gradient built
      a second time. */
  lemma PixelFullThenDuplicate(ks: seq<PixelKey>, arena: seq<int>, layout: Layout, g: Gamma,
                               b1: uint32, f1: uint32, b2: uint32, f2: uint32)
    requires |ks| == KEY_COUNT && |arena| == KEY_COUNT * RegionSize(layout) && ValidGamma(g)
    requires ProbeFrom(PixelViews(ks, b1, f1), PixelHash(b1, f1), 0).Full?
    requires PixelHash(b2, f2) == PixelHash(b1, f1) && (b2 != b1 || f2 != f1)
    ensures var idx0 := PixelHash(b1, f1);
            var size := RegionSize(layout);
            var st1 := PixelLookup(ks, arena, layout, g, b1, f1);
            var st2 := PixelLookup(st1.keys, st1.arena, layout, g, b2, f2);
            var st3 := PixelLookup(st2.keys, st2.arena, layout, g, b1, f1);
            var next := ProbeSlot(idx0, 1);
            var last := ProbeSlot(idx0, KEY_COUNT - 1);
            && st3.probe == Claim(next, 1) && st3.slot == next && st3.offset == next * size
            && next != last && st3.keys[last].cells == Some(idx0 * size)
            && st3.keys[last].background == b1 && st3.keys[last].foreground == f1
  {
    var st1 := PixelLookup(ks, arena, layout, g, b1, f1);
    var st2 := PixelLookup(st1.keys, st1.arena, layout, g, b2, f2);
    PixelAfterTwo(ks, arena, layout, g, b1, f1, b2, f2);
    PixelSecondSlot(st2.keys, st2.arena, layout, g, b1, f1);
  }

  /** The table after a full-table lookup and a claim of the start slot: the
      start slot holds the second pair, the slot after it is empty and the
      last probed slot still holds the first pair. */
  lemma PixelAfterTwo(ks: seq<PixelKey>, arena: seq<int>, layout: Layout, g: Gamma,
                      b1: uint32, f1: uint32, b2: uint32, f2: uint32)
    requires |ks| == KEY_COUNT && |arena| == KEY_COUNT * RegionSize(layout) && ValidGamma(g)
    requires ProbeFrom(PixelViews(ks, b1, f1), PixelHash(b1, f1), 0).Full?
    requires PixelHash(b2, f2) == PixelHash(b1, f1) && (b2 != b1 || f2 != f1)
    ensures var idx0 := PixelHash(b1, f1);
            var size := RegionSize(layout);
            var st1 := PixelLookup(ks, arena, layout, g, b1, f1);
            var ks2 := PixelLookup(st1.keys, st1.arena, layout, g, b2, f2).keys;
            var next := ProbeSlot(idx0, 1);
            var last := ProbeSlot(idx0, KEY_COUNT - 1);
            && ks2[idx0] == PixelKey(b2, f2, Some(idx0 * size))
            && ks2[next].cells.None? && next != last
            && ks2[last] == PixelKey(b1, f1, Some(idx0 * size))
  {
    var idx0 := PixelHash(b1, f1);
    var st1 := PixelLookup(ks, arena, layout, g, b1, f1);
    PixelFullKeys(ks, arena, layout, g, b1, f1);
    NextOfLastProbed(idx0);
    PixelFirstSlot(st1.keys, st1.arena, layout, g, b2, f2);
    ProbeSlotsDistinct(idx0, 0, 1);
    ProbeSlotsDistinct(idx0, 1, KEY_COUNT - 1);
    ProbeSlotsDistinct(idx0, 0, KEY_COUNT - 1);
  }

  /** The full path leaves the cleared table with the one key in the last
      probed slot. */
  lemma PixelFullKeys(ks: seq<PixelKey>, arena: seq<int>, layout: Layout, g: Gamma,
                      background: uint32, foreground: uint32)
    requires |ks| == KEY_COUNT && |arena| == KEY_COUNT * RegionSize(layout) && ValidGamma(g)
    requires ProbeFrom(PixelViews(ks, background, foreground), PixelHash(background, foreground), 0).Full?
    ensures var idx0 := PixelHash(background, foreground);
            PixelLookup(ks, arena, layout, g, background, foreground).keys
              == ClearPixelKeys(ks)[ProbeSlot(idx0, KEY_COUNT - 1) := PixelKey(background, foreground, Some(idx0 * RegionSize(layout)))]
  {
  }

  /** A lookup whose start slot is empty claims it, at its own region, and
      changes no other slot. */
  lemma PixelFirstSlot(ks: seq<PixelKey>, arena: seq<int>, layout: Layout, g: Gamma,
                       background: uint32, foreground: uint32)
    requires |ks| == KEY_COUNT && |arena| == KEY_COUNT * RegionSize(layout) && ValidGamma(g)
    requires ks[PixelHash(background, foreground)].cells.None?
    ensures var idx0 := PixelHash(background, foreground);
            var st := PixelLookup(ks, arena, layout, g, background, foreground);
            && st.probe == Claim(idx0, 0)
            && st.keys == ks[idx0 := PixelKey(background, foreground, Some(idx0 * RegionSize(layout)))]
  {
    var idx0 := PixelHash(background, foreground);
    var views := PixelViews(ks, background, foreground);
    assert ProbeSlot(idx0, 0) == idx0;
    ProbeFirstStop(views, idx0, 0, 0);
  }

  /** A lookup whose start slot holds another pair and whose next slot is
      empty claims that next slot, at its own region, and changes no other slot. */
  lemma PixelSecondSlot(ks: seq<PixelKey>, arena: seq<int>, layout: Layout, g: Gamma,
                        background: uint32, foreground: uint32)
    requires |ks| == KEY_COUNT && |arena| == KEY_COUNT * RegionSize(layout) && ValidGamma(g)
    requires PixelView(ks[PixelHash(background, foreground)], background, foreground) == Other
    requires ks[ProbeSlot(PixelHash(background, foreground), 1)].cells.None?
    ensures var next := ProbeSlot(PixelHash(background, foreground), 1);
            var st := PixelLookup(ks, arena, layout, g, background, foreground);
            && st.probe == Claim(next, 1) && st.slot == next && st.offset == next * RegionSize(layout)
            && st.keys == ks[next := PixelKey(background, foreground, Some(next * RegionSize(layout)))]
  {
    var idx0 := PixelHash(background, foreground);
    var views := PixelViews(ks, background, foreground);
    ProbeSlotsDistinct(idx0, 0, 1);
    assert views[ProbeSlot(idx0, 0)] == Other;
    ProbeFirstStop(views, idx0, 0, 1);
  }

  /** As written, a slot left behind by the full-table path is still found:
      when every other slot holds another pair, the lookup of its pair is a hit
      in the last probed slot and returns the start slot's region, whatever
      that region now holds. */
  lemma PixelStaleHit(ks: seq<PixelKey>, arena: seq<int>, layout: Layout, g: Gamma,
                      background: uint32, foreground: uint32)
    requires |ks| == KEY_COUNT && |arena| == KEY_COUNT * RegionSize(layout) && ValidGamma(g)
    requires var idx0 := PixelHash(background, foreground);
             ks[ProbeSlot(idx0, KEY_COUNT - 1)] == PixelKey(background, foreground, Some(idx0 * RegionSize(layout)))
    requires forall i :: 0 <= i < KEY_COUNT && i != ProbeSlot(PixelHash(background, foreground), KEY_COUNT - 1) ==>
               ks[i].cells.Some? && (ks[i].background != background || ks[i].foreground != foreground)
    ensures var idx0 := PixelHash(background, foreground);
            var st := PixelLookup(ks, arena, layout, g, background, foreground);
            && st.probe == Hit(ProbeSlot(idx0, KEY_COUNT - 1), KEY_COUNT - 1)
            && st.offset == idx0 * RegionSize(layout) && st.arena == arena && st.keys == ks
  {
    var idx0 := PixelHash(background, foreground);
    var last := ProbeSlot(idx0, KEY_COUNT - 1);
    var views := PixelViews(ks, background, foreground);
    forall j | 0 <= j < KEY_COUNT - 1
      ensures views[ProbeSlot(idx0, j)] == Other
    {
      ProbeSlotsDistinct(idx0, j, KEY_COUNT - 1);
    }
    ProbeFirstStop(views, idx0, 0, KEY_COUNT - 1);
  }

  /** A table in which every slot holds another pair is full for the pair. */
  lemma PixelEveryOther(ks: seq<PixelKey>, background: uint32, foreground: uint32)
    requires |ks| == KEY_COUNT
    requires forall i :: 0 <= i < KEY_COUNT ==>
               ks[i].cells.Some? && (ks[i].background != background || ks[i].foreground != foreground)
    ensures ProbeFrom(PixelViews(ks, background, foreground), PixelHash(background, foreground), 0) == Full
  {
    ProbeAllOther(PixelViews(ks, background, foreground), PixelHash(background, foreground), 0);
  }

  // The witnesses below take their colours as parameters pinned by `requires`
  // (`zero == 0`, `q == 256`, ...) rather than as literal arguments, and keep
  // each fact about constants in a one-line lemma of its own. With literal
  // arguments the verifier evaluates the hash, packing and probe functions on
  // constants inside one large proof and runs out of resources; taken apart,
  // each piece is cheap.

  /** The counterexample in the packed layout, on any table that is full for
      (0, 0). One such table is reached from an empty one by looking up (j, 0)
      for j = 1 .. 256, whose start slots are 1 .. 255 and 0, so each claims
      its own start slot and the table fills up. The lookup of (0, 0)
      leaves it in slot 255 pointing at cell 0. A lookup of (256, 0), which
      also starts at slot 0, then claims slot 0 and writes 256 into cell 0. The
      gradient of (0, 0) starts with 0, but slot 255 now points at a cell
      holding 256. */
  lemma PixelFullWitness(ks: seq<PixelKey>, arena: seq<int>, g: Gamma, zero: uint32, q: uint32)
    requires ValidGamma(g) && zero == 0 && q == 256
    requires |ks| == KEY_COUNT && |arena| == KEY_COUNT * RegionSize(Packed)
    requires ProbeFrom(PixelViews(ks, zero, zero), PixelHash(zero, zero), 0).Full?
    ensures var st1 := PixelLookup(ks, arena, Packed, g, zero, zero);
            var st2 := PixelLookup(st1.keys, st1.arena, Packed, g, q, zero);
            && st1.probe == Full && st2.probe == Claim(zero, zero)
            && st2.keys[255] == PixelKey(zero, zero, Some(zero)) && st2.keys[zero] == PixelKey(q, zero, Some(zero))
            && st2.arena[zero] == q && PixelGradient(g, Packed, zero, zero)[zero] == zero
  {
    PixelFullThenClaim(ks, arena, Packed, g, zero, zero, q, zero);
    PixelHashZero(zero);
    LastProbedFromZero(zero);
    FirstRegion(PixelHash(zero, zero), RegionSize(Packed));
    PackedFirstCell(g, zero, zero);
    PackedFirstCell(g, q, zero);
  }

  /** The pair (0, 0) starts at slot 0. */
  lemma PixelHashZero(zero: uint32)
    requires zero == 0
    ensures PixelHash(zero, zero) == zero
  {
  }

  /** A probe from slot 0 visits slot 255 last. */
  lemma LastProbedFromZero(zero: nat)
    requires zero == 0
    ensures ProbeSlot(zero, KEY_COUNT - 1) == 255
  {
  }

  /** The region of slot 0 starts at cell 0. */
  lemma FirstRegion(h: nat, size: nat)
    requires h == 0
    ensures h * size == 0
  {
  }

  /** The packed gradient starts with the background itself. */
  lemma PackedFirstCell(g: Gamma, back: uint32, fore: uint32)
    requires ValidGamma(g)
    ensures PixelGradient(g, Packed, back, fore)[0] == back
  {
    GradientCell(g, Packed, back, fore, 0, 0);
  }

  // ---------------------------------------------------------------------------
  // gblender_lookup corrected

  /** `gblender_lookup` with the full-table path corrected: after the clear the
      key is stored in the start slot, whose region its cells are. */
  function PixelLookupFixed(ks: seq<PixelKey>, arena: seq<int>, layout: Layout, g: Gamma,
                            background: uint32, foreground: uint32): (st: Step<PixelKey>)
    requires |ks| == KEY_COUNT && |arena| == KEY_COUNT * RegionSize(layout) && ValidGamma(g)
    ensures |st.keys| == KEY_COUNT && |st.arena| == |arena| && st.slot < KEY_COUNT
    ensures st.keys[st.slot] == PixelKey(background, foreground, Some(st.offset))
    ensures st.probe.Full? ==> st.slot == PixelHash(background, foreground)
    ensures !st.probe.Hit? ==> st.offset == st.slot * RegionSize(layout)
  {
    var idx0 := PixelHash(background, foreground);
    var p := ProbeFrom(PixelViews(ks, background, foreground), idx0, 0);
    match p
    case Hit(s, _) => Step(ks, arena, s, ks[s].cells.value, p)
    case Claim(s, _) => PixelNewNode(ks, arena, layout, g, background, foreground, s, s, p)
    case Full => PixelNewNode(ClearPixelKeys(ks), arena, layout, g, background, foreground, idx0, idx0, p)
  }

  /** The correction changes nothing but the full-table path. */
  lemma PixelFixedAgrees(ks: seq<PixelKey>, arena: seq<int>, layout: Layout, g: Gamma,
                         background: uint32, foreground: uint32)
    requires |ks| == KEY_COUNT && |arena| == KEY_COUNT * RegionSize(layout) && ValidGamma(g)
    ensures var st := PixelLookup(ks, arena, layout, g, background, foreground);
            var fixed := PixelLookupFixed(ks, arena, layout, g, background, foreground);
            && fixed.probe == st.probe && fixed.offset == st.offset && fixed.arena == st.arena
            && (!st.probe.Full? ==> fixed == st)
  {
  }

  /** Claiming the empty slot s at its own region keeps every full-pixel slot
      owning its region. */
  lemma PixelOwnedClaim(ks: seq<PixelKey>, arena: seq<int>, layout: Layout, g: Gamma,
                        background: uint32, foreground: uint32, s: nat, p: Probe)
    requires |ks| == KEY_COUNT && |arena| == KEY_COUNT * RegionSize(layout) && ValidGamma(g)
    requires PixelOwned(ks, arena, layout, g) && s < KEY_COUNT && ks[s].cells.None?
    ensures var st := PixelNewNode(ks, arena, layout, g, background, foreground, s, s, p);
            && PixelOwned(st.keys, st.arena, layout, g)
            && st.arena[st.offset .. st.offset + RegionSize(layout)] == PixelGradient(g, layout, background, foreground)
  {
    var st := PixelNewNode(ks, arena, layout, g, background, foreground, s, s, p);
    var size := RegionSize(layout);
    var w := PixelGradient(g, layout, background, foreground);
    var offs, want := PixelOffsets(ks), PixelWants(ks, layout, g);
    OwnedClaim(offs, want, arena, size, s, w);
    OverwriteSlices(arena, s * size, w, s * size, size);
    assert PixelOffsets(st.keys) == offs[s := Some(s * size)];
    assert PixelWants(st.keys, layout, g) == want[s := w];
  }

  /** The corrected lookup keeps every full-pixel slot owning its region, and
      the region it returns always holds the pair's gradient, on every path. */
  lemma PixelFixedOwned(ks: seq<PixelKey>, arena: seq<int>, layout: Layout, g: Gamma,
                        background: uint32, foreground: uint32)
    requires |ks| == KEY_COUNT && |arena| == KEY_COUNT * RegionSize(layout) && ValidGamma(g)
    requires PixelOwned(ks, arena, layout, g)
    ensures var st := PixelLookupFixed(ks, arena, layout, g, background, foreground);
            var size := RegionSize(layout);
            && PixelOwned(st.keys, st.arena, layout, g)
            && st.offset == st.slot * size && st.offset + size <= |st.arena|
            && st.arena[st.offset .. st.offset + size] == PixelGradient(g, layout, background, foreground)
  {
    var idx0 := PixelHash(background, foreground);
    var views := PixelViews(ks, background, foreground);
    var p := ProbeFrom(views, idx0, 0);
    match p
    case Hit(s, _) =>
      assert views[s] == Matching;
      PixelOwnedHit(ks, arena, layout, g, background, foreground, s);
    case Claim(s, _) =>
      assert views[s] == Vacant;
      PixelOwnedClaim(ks, arena, layout, g, background, foreground, s, p);
    case Full =>
      PixelOwnedCleared(ks, arena, layout, g);
      PixelOwnedClaim(ClearPixelKeys(ks), arena, layout, g, background, foreground, idx0, p);
  }

  /** A slot that holds the pair in a table where every slot owns its region
      points at its own region, which holds the pair's gradient. */
  lemma PixelOwnedHit(ks: seq<PixelKey>, arena: seq<int>, layout: Layout, g: Gamma,
                      background: uint32, foreground: uint32, s: nat)
    requires |ks| == KEY_COUNT && ValidGamma(g) && PixelOwned(ks, arena, layout, g) && s < KEY_COUNT
    requires PixelView(ks[s], background, foreground) == Matching
    ensures var size := RegionSize(layout);
            && ks[s].cells.Some? && ks[s].cells.value == s * size && s * size + size <= |arena|
            && arena[s * size .. s * size + size] == PixelGradient(g, layout, background, foreground)
  {
    assert SlotOwned(PixelOffsets(ks), PixelWants(ks, layout, g), arena, RegionSize(layout), s);
  }

  /** Clearing every slot keeps the ownership invariant trivially. */
  lemma PixelOwnedCleared(ks: seq<PixelKey>, arena: seq<int>, layout: Layout, g: Gamma)
    requires |ks| == KEY_COUNT && |arena| == KEY_COUNT * RegionSize(layout) && ValidGamma(g)
    ensures PixelOwned(ClearPixelKeys(ks), arena, layout, g)
  {
    var cleared := ClearPixelKeys(ks);
    forall i | 0 <= i < KEY_COUNT
      ensures SlotOwned(PixelOffsets(cleared), PixelWants(cleared, layout, g), arena, RegionSize(layout), i)
    {
      assert PixelOffsets(cleared)[i].None?;
    }
  }

  // ---------------------------------------------------------------------------
  // gblender_lookup_channel as written

  /** As written, a full-table channel lookup leaves its packed pair in the last
      probed slot with the index of the start slot's region, and the start slot
      stays empty: the table no longer has every slot owning its region. */
  lemma ChanFullStrays(ks: seq<ChanKey>, arena: seq<int>, g: Gamma, background: uint32, foreground: uint32)
    requires |ks| == KEY_COUNT && |arena| == KEY_COUNT * SHADE_COUNT && ValidGamma(g)
    requires ProbeFrom(ChanViews(ks, PackChan(background, foreground)), ChanHash(background, foreground), 0).Full?
    ensures var idx0 := ChanHash(background, foreground);
            var st := ChanLookup(ks, arena, g, background, foreground);
            && st.probe == Full && st.slot == ProbeSlot(idx0, KEY_COUNT - 1) && st.slot != idx0
            && st.keys[st.slot].backfore == PackChan(background, foreground)
            && st.keys[st.slot].index == idx0 * SHADE_COUNT
            && st.offset != st.slot * SHADE_COUNT
            && st.keys[idx0].index < 0
            && !ChanOwned(st.keys, st.arena, g)
  {
    var idx0 := ChanHash(background, foreground);
    var last := ProbeSlot(idx0, KEY_COUNT - 1);
    var st := ChanLookup(ks, arena, g, background, foreground);
    NextOfLastProbed(idx0);
    RegionStartsDiffer(idx0, last, SHADE_COUNT);
    assert ChanOffsets(st.keys)[last] == Some(idx0 * SHADE_COUNT);
    assert !SlotOwned(ChanOffsets(st.keys), ChanWants(st.keys, g), st.arena, SHADE_COUNT, last);
  }

  /** As written, after a full-table channel lookup of one pair, a lookup of
      another packed pair with the same start slot claims that start slot and
      writes its own gradient over the region the first pair's slot still
      points at. */
  lemma ChanFullThenClaim(ks: seq<ChanKey>, arena: seq<int>, g: Gamma,
                          b1: uint32, f1: uint32, b2: uint32, f2: uint32)
    requires |ks| == KEY_COUNT && |arena| == KEY_COUNT * SHADE_COUNT && ValidGamma(g)
    requires ProbeFrom(ChanViews(ks, PackChan(b1, f1)), ChanHash(b1, f1), 0).Full?
    requires ChanHash(b2, f2) == ChanHash(b1, f1) && PackChan(b2, f2) != PackChan(b1, f1)
    ensures var idx0 := ChanHash(b1, f1);
            var bf2 := PackChan(b2, f2);
            var st1 := ChanLookup(ks, arena, g, b1, f1);
            var st2 := ChanLookup(st1.keys, st1.arena, g, b2, f2);
            && st1.probe == Full && st2.probe == Claim(idx0, 0) && st2.offset == st1.offset == idx0 * SHADE_COUNT
            && st1.slot == ProbeSlot(idx0, KEY_COUNT - 1)
            && st2.keys[st1.slot] == st1.keys[st1.slot]
            && st2.keys[idx0] == ChanKey(bf2, st2.offset as int16)
            && st2.arena[idx0 * SHADE_COUNT .. idx0 * SHADE_COUNT + SHADE_COUNT] == ChannelGradient(g, ChanBack(bf2), ChanFore(bf2))
            && st2.arena[idx0 * SHADE_COUNT] == ChanBack(bf2)
  {
    var idx0 := ChanHash(b1, f1);
    var bf2 := PackChan(b2, f2);
    var st1 := ChanLookup(ks, arena, g, b1, f1);
    ChanFullStrays(ks, arena, g, b1, f1);
    var views := ChanViews(st1.keys, bf2);
    assert views[idx0] == Vacant;
    var p := ProbeFrom(views, idx0, 0);
    assert p == Claim(idx0, 0);
    var st2 := ChanLookup(st1.keys, st1.arena, g, b2, f2);
    assert st2 == ChanNewNode(st1.keys, st1.arena, g, bf2, idx0, idx0, p);
    var w := ChannelGradient(g, ChanBack(bf2), ChanFore(bf2));
    OverwriteSlices(st1.arena, idx0 * SHADE_COUNT, w, idx0 * SHADE_COUNT, SHADE_COUNT);
    assert st2.arena[idx0 * SHADE_COUNT .. idx0 * SHADE_COUNT + SHADE_COUNT][0] == st2.arena[idx0 * SHADE_COUNT];
  }

  /** As written, after those two channel lookups, looking the first pair up
      again passes the start slot and claims the empty slot after it, so the
      packed pair is stored in two slots. */
  lemma ChanFullThenDuplicate(ks: seq<ChanKey>, arena: seq<int>, g: Gamma,
                              b1: uint32, f1: uint32, b2: uint32, f2: uint32)
    requires |ks| == KEY_COUNT && |arena| == KEY_COUNT * SHADE_COUNT && ValidGamma(g)
    requires ProbeFrom(ChanViews(ks, PackChan(b1, f1)), ChanHash(b1, f1), 0).Full?
    requires ChanHash(b2, f2) == ChanHash(b1, f1) && PackChan(b2, f2) != PackChan(b1, f1)
    ensures var idx0 := ChanHash(b1, f1);
            var st1 := ChanLookup(ks, arena, g, b1, f1);
            var st2 := ChanLookup(st1.keys, st1.arena, g, b2, f2);
            var st3 := ChanLookup(st2.keys, st2.arena, g, b1, f1);
            var next := ProbeSlot(idx0, 1);
            var last := ProbeSlot(idx0, KEY_COUNT - 1);
            && st3.probe == Claim(next, 1) && st3.slot == next && st3.offset == next * SHADE_COUNT
            && next != last && st3.keys[last].backfore == PackChan(b1, f1)
            && st3.keys[last].index == idx0 * SHADE_COUNT
  {
    var idx0 := ChanHash(b1, f1);
    var st1 := ChanLookup(ks, arena, g, b1, f1);
    var st2 := ChanLookup(st1.keys, st1.arena, g, b2, f2);
    ChanAfterTwo(ks, arena, g, b1, f1, b2, f2);
    ChanSecondSlot(st2.keys, st2.arena, g, b1, f1);
  }

  /** The channel table after a full-table lookup and a claim of the start
      slot: the start slot holds the second pair, the slot after it is empty
      and the last probed slot still holds the first pair. */
  lemma ChanAfterTwo(ks: seq<ChanKey>, arena: seq<int>, g: Gamma,
                     b1: uint32, f1: uint32, b2: uint32, f2: uint32)
    requires |ks| == KEY_COUNT && |arena| == KEY_COUNT * SHADE_COUNT && ValidGamma(g)
    requires ProbeFrom(ChanViews(ks, PackChan(b1, f1)), ChanHash(b1, f1), 0).Full?
    requires ChanHash(b2, f2) == ChanHash(b1, f1) && PackChan(b2, f2) != PackChan(b1, f1)
    ensures var idx0 := ChanHash(b1, f1);
            var st1 := ChanLookup(ks, arena, g, b1, f1);
            var ks2 := ChanLookup(st1.keys, st1.arena, g, b2, f2).keys;
            var next := ProbeSlot(idx0, 1);
            var last := ProbeSlot(idx0, KEY_COUNT - 1);
            && ks2[idx0] == ChanKey(PackChan(b2, f2), idx0 * SHADE_COUNT)
            && ks2[next].index < 0 && next != last
            && ks2[last] == ChanKey(PackChan(b1, f1), idx0 * SHADE_COUNT)
  {
    var idx0 := ChanHash(b1, f1);
    var st1 := ChanLookup(ks, arena, g, b1, f1);
    ChanFullKeys(ks, arena, g, b1, f1);
    NextOfLastProbed(idx0);
    ChanFirstSlot(st1.keys, st1.arena, g, b2, f2);
    ProbeSlotsDistinct(idx0, 0, 1);
    ProbeSlotsDistinct(idx0, 1, KEY_COUNT - 1);
    ProbeSlotsDistinct(idx0, 0, KEY_COUNT - 1);
  }

  /** The channel full path leaves the cleared table with the one packed pair
      in the last probed slot. */
  lemma ChanFullKeys(ks: seq<ChanKey>, arena: seq<int>, g: Gamma, background: uint32, foreground: uint32)
    requires |ks| == KEY_COUNT && |arena| == KEY_COUNT * SHADE_COUNT && ValidGamma(g)
    requires ProbeFrom(ChanViews(ks, PackChan(background, foreground)), ChanHash(background, foreground), 0).Full?
    ensures var idx0 := ChanHash(background, foreground);
            ChanLookup(ks, arena, g, background, foreground).keys
              == ClearChanKeys(ks)[ProbeSlot(idx0, KEY_COUNT - 1) := ChanKey(PackChan(background, foreground), idx0 * SHADE_COUNT)]
  {
  }

  /** A channel lookup whose start slot is empty claims it and changes no
      other slot. */
  lemma ChanFirstSlot(ks: seq<ChanKey>, arena: seq<int>, g: Gamma, background: uint32, foreground: uint32)
    requires |ks| == KEY_COUNT && |arena| == KEY_COUNT * SHADE_COUNT && ValidGamma(g)
    requires ks[ChanHash(background, foreground)].index < 0
    ensures var idx0 := ChanHash(background, foreground);
            var st := ChanLookup(ks, arena, g, background, foreground);
            && st.probe == Claim(idx0, 0)
            && st.keys == ks[idx0 := ChanKey(PackChan(background, foreground), idx0 * SHADE_COUNT)]
  {
    var idx0 := ChanHash(background, foreground);
    var views := ChanViews(ks, PackChan(background, foreground));
    assert ProbeSlot(idx0, 0) == idx0;
    ProbeFirstStop(views, idx0, 0, 0);
  }

  /** A channel lookup whose start slot holds another packed pair and whose
      next slot is empty claims that next slot and changes no other slot. */
  lemma ChanSecondSlot(ks: seq<ChanKey>, arena: seq<int>, g: Gamma, background: uint32, foreground: uint32)
    requires |ks| == KEY_COUNT && |arena| == KEY_COUNT * SHADE_COUNT && ValidGamma(g)
    requires ChanView(ks[ChanHash(background, foreground)], PackChan(background, foreground)) == Other
    requires ks[ProbeSlot(ChanHash(background, foreground), 1)].index < 0
    ensures var next := ProbeSlot(ChanHash(background, foreground), 1);
            var st := ChanLookup(ks, arena, g, background, foreground);
            && st.probe == Claim(next, 1) && st.slot == next && st.offset == next * SHADE_COUNT
            && st.keys == ks[next := ChanKey(PackChan(background, foreground), next * SHADE_COUNT)]
  {
    var idx0 := ChanHash(background, foreground);
    var views := ChanViews(ks, PackChan(background, foreground));
    ProbeSlotsDistinct(idx0, 0, 1);
    assert views[ProbeSlot(idx0, 0)] == Other;
    ProbeFirstStop(views, idx0, 0, 1);
  }

  /** As written, a channel slot left behind by the full-table path is still
      found: when every other slot holds another packed pair, the lookup of its
      pair is a hit in the last probed slot and returns the start slot's
      region, whatever that region now holds. */
  lemma ChanStaleHit(ks: seq<ChanKey>, arena: seq<int>, g: Gamma, background: uint32, foreground: uint32)
    requires |ks| == KEY_COUNT && |arena| == KEY_COUNT * SHADE_COUNT && ValidGamma(g)
    requires var last := ProbeSlot(ChanHash(background, foreground), KEY_COUNT - 1);
             && ks[last].backfore == PackChan(background, foreground)
             && ks[last].index == ChanHash(background, foreground) * SHADE_COUNT
    requires forall i :: 0 <= i < KEY_COUNT && i != ProbeSlot(ChanHash(background, foreground), KEY_COUNT - 1) ==>
               ks[i].index >= 0 && ks[i].backfore != PackChan(background, foreground)
    ensures var idx0 := ChanHash(background, foreground);
            var st := ChanLookup(ks, arena, g, background, foreground);
            && st.probe == Hit(ProbeSlot(idx0, KEY_COUNT - 1), KEY_COUNT - 1)
            && st.offset == idx0 * SHADE_COUNT && st.arena == arena && st.keys == ks
  {
    var idx0 := ChanHash(background, foreground);
    var views := ChanViews(ks, PackChan(background, foreground));
    forall j | 0 <= j < KEY_COUNT - 1
      ensures views[ProbeSlot(idx0, j)] == Other
    {
      ProbeSlotsDistinct(idx0, j, KEY_COUNT - 1);
    }
    ProbeFirstStop(views, idx0, 0, KEY_COUNT - 1);
  }

  /** A table in which every slot holds another packed pair is full for the pair. */
  lemma ChanEveryOther(ks: seq<ChanKey>, background: uint32, foreground: uint32)
    requires |ks| == KEY_COUNT
    requires forall i :: 0 <= i < KEY_COUNT ==> ks[i].index >= 0 && ks[i].backfore != PackChan(background, foreground)
    ensures ProbeFrom(ChanViews(ks, PackChan(background, foreground)), ChanHash(background, foreground), 0) == Full
  {
    ProbeAllOther(ChanViews(ks, PackChan(background, foreground)), ChanHash(background, foreground), 0);
  }

  /** The counterexample for the channel table, on any table that is full for
      (0, 0). One such table is reached from an empty one by looking up (j, 0)
      for j = 1 .. 255 and then (222, 2): their start slots are 1 .. 255 and 0
      and their packed pairs are j and 734, so each claims its own start slot
      and the table fills up. The pairs
      (0, 0) and (239, 1) pack to 0 and 495 and share their start slot, which
      is slot 0 (ChanHashes), so the last probed slot is 255
      (LastProbedFromZero). The lookup of (0, 0) leaves it in slot 255,
      pointing at the start slot's region. The lookup of (239, 1)
      then claims the start slot and writes 239 into the region's first cell.
      The gradient of (0, 0) starts with 0, but its slot now points at a cell
      holding 239. */
  lemma ChanFullWitness(ks: seq<ChanKey>, arena: seq<int>, g: Gamma, zero: uint32, q: uint32, one: uint32)
    requires ValidGamma(g) && zero == 0 && q == 239 && one == 1
    requires |ks| == KEY_COUNT && |arena| == KEY_COUNT * SHADE_COUNT
    requires ProbeFrom(ChanViews(ks, PackChan(zero, zero)), ChanHash(zero, zero), 0).Full?
    ensures var idx0 := ChanHash(zero, zero);
            var st1 := ChanLookup(ks, arena, g, zero, zero);
            var st2 := ChanLookup(st1.keys, st1.arena, g, q, one);
            && st1.probe == Full && st2.probe == Claim(idx0, 0)
            && st2.keys[ProbeSlot(idx0, KEY_COUNT - 1)].backfore == PackChan(zero, zero) == 0
            && st2.keys[ProbeSlot(idx0, KEY_COUNT - 1)].index == idx0 * SHADE_COUNT
            && st2.keys[idx0].backfore == PackChan(q, one) == 495 && st2.keys[idx0].index == idx0 * SHADE_COUNT
            && st2.arena[idx0 * SHADE_COUNT] == q && ChannelGradient(g, zero, zero)[0] == zero
  {
    ChanHashWitness(zero, q, one);
    PackedPair(zero, zero);
    PackedWitness(q, one);
    PackedBack(q, one);
    ChanFullThenClaim(ks, arena, g, zero, zero, q, one);
  }

  /** (239, 1) starts where (0, 0) does. */
  lemma ChanHashWitness(zero: uint32, q: uint32, one: uint32)
    requires zero == 0 && q == 239 && one == 1
    ensures ChanHash(q, one) == ChanHash(zero, zero)
  {
    ChanHashes(zero, q, one);
  }

  /** (239, 1) packs to 495. */
  lemma PackedWitness(q: uint32, one: uint32)
    requires q == 239 && one == 1
    ensures PackChan(q, one) == 495
  {
    PackedPair(q, one);
  }

  /** (0, 0) and (239, 1) both start at slot 0. */
  lemma ChanHashes(zero: uint32, q: uint32, one: uint32)
    requires zero == 0 && q == 239 && one == 1
    ensures ChanHash(zero, zero) == zero && ChanHash(q, one) == zero
  {
    var h := q + one * 17;
    assert h == KEY_COUNT;
    assert h % KEY_COUNT == 0;
  }

  /** The background byte of a packed pair of bytes is the background. */
  lemma PackedBack(background: uint32, foreground: uint32)
    requires background < 256 && foreground < 256
    ensures ChanBack(PackChan(background, foreground)) == background
  {
    ChanKeyRoundTrip(background, foreground, 0);
  }

  /** Two bytes pack to the foreground in the high byte. */
  lemma PackedPair(background: uint32, foreground: uint32)
    requires background < 256 && foreground < 256
    ensures PackChan(background, foreground) == foreground * 256 + background
  {
  }

  // ---------------------------------------------------------------------------
  // gblender_lookup_channel corrected

  /** `gblender_lookup_channel` with the full-table path corrected: after the
      clear the packed pair is stored in the start slot, whose region its index
      names. */
  function ChanLookupFixed(ks: seq<ChanKey>, arena: seq<int>, g: Gamma,
                           background: uint32, foreground: uint32): (st: Step<ChanKey>)
    requires |ks| == KEY_COUNT && |arena| == KEY_COUNT * SHADE_COUNT && ValidGamma(g)
    ensures |st.keys| == KEY_COUNT && |st.arena| == |arena| && st.slot < KEY_COUNT
    ensures st.keys[st.slot].backfore == PackChan(background, foreground) && st.keys[st.slot].index == st.offset
    ensures st.probe.Full? ==> st.slot == ChanHash(background, foreground)
    ensures !st.probe.Hit? ==> st.offset == st.slot * SHADE_COUNT
  {
    var idx0 := ChanHash(background, foreground);
    var bf := PackChan(background, foreground);
    var p := ProbeFrom(ChanViews(ks, bf), idx0, 0);
    match p
    case Hit(s, _) => Step(ks, arena, s, ks[s].index, p)
    case Claim(s, _) => ChanNewNode(ks, arena, g, bf, s, s, p)
    case Full => ChanNewNode(ClearChanKeys(ks), arena, g, bf, idx0, idx0, p)
  }

  /** The correction changes nothing but the full-table path. */
  lemma ChanFixedAgrees(ks: seq<ChanKey>, arena: seq<int>, g: Gamma, background: uint32, foreground: uint32)
    requires |ks| == KEY_COUNT && |arena| == KEY_COUNT * SHADE_COUNT && ValidGamma(g)
    ensures var st := ChanLookup(ks, arena, g, background, foreground);
            var fixed := ChanLookupFixed(ks, arena, g, background, foreground);
            && fixed.probe == st.probe && fixed.offset == st.offset && fixed.arena == st.arena
            && (!st.probe.Full? ==> fixed == st)
  {
  }

  /** Claiming the empty channel slot s at its own region keeps every slot
      owning its region. */
  lemma ChanOwnedClaim(ks: seq<ChanKey>, arena: seq<int>, g: Gamma, bf: uint16, s: nat, p: Probe)
    requires |ks| == KEY_COUNT && |arena| == KEY_COUNT * SHADE_COUNT && ValidGamma(g)
    requires ChanOwned(ks, arena, g) && s < KEY_COUNT && ks[s].index < 0
    ensures var st := ChanNewNode(ks, arena, g, bf, s, s, p);
            && ChanOwned(st.keys, st.arena, g)
            && st.arena[st.offset .. st.offset + SHADE_COUNT] == ChannelGradient(g, ChanBack(bf), ChanFore(bf))
  {
    var st := ChanNewNode(ks, arena, g, bf, s, s, p);
    var w := ChannelGradient(g, ChanBack(bf), ChanFore(bf));
    var offs, want := ChanOffsets(ks), ChanWants(ks, g);
    OwnedClaim(offs, want, arena, SHADE_COUNT, s, w);
    OverwriteSlices(arena, s * SHADE_COUNT, w, s * SHADE_COUNT, SHADE_COUNT);
    assert ChanOffsets(st.keys) == offs[s := Some(s * SHADE_COUNT)];
    assert ChanWants(st.keys, g) == want[s := w];
  }

  /** A channel slot that holds the packed pair in a table where every slot owns
      its region points at its own region, which holds the pair's gradient. */
  lemma ChanOwnedHit(ks: seq<ChanKey>, arena: seq<int>, g: Gamma, bf: uint16, s: nat)
    requires |ks| == KEY_COUNT && ValidGamma(g) && ChanOwned(ks, arena, g) && s < KEY_COUNT
    requires ChanView(ks[s], bf) == Matching
    ensures && ks[s].index == s * SHADE_COUNT && s * SHADE_COUNT + SHADE_COUNT <= |arena|
            && arena[s * SHADE_COUNT .. s * SHADE_COUNT + SHADE_COUNT] == ChannelGradient(g, ChanBack(bf), ChanFore(bf))
  {
    assert SlotOwned(ChanOffsets(ks), ChanWants(ks, g), arena, SHADE_COUNT, s);
  }

  /** Clearing every channel slot keeps the ownership invariant trivially. */
  lemma ChanOwnedCleared(ks: seq<ChanKey>, arena: seq<int>, g: Gamma)
    requires |ks| == KEY_COUNT && |arena| == KEY_COUNT * SHADE_COUNT && ValidGamma(g)
    ensures ChanOwned(ClearChanKeys(ks), arena, g)
  {
    var cleared := ClearChanKeys(ks);
    forall i | 0 <= i < KEY_COUNT
      ensures SlotOwned(ChanOffsets(cleared), ChanWants(cleared, g), arena, SHADE_COUNT, i)
    {
      assert ChanOffsets(cleared)[i].None?;
    }
  }

  /** The corrected channel lookup keeps every slot owning its region, and the
      region it returns always holds the pair's gradient, on every path. */
  lemma ChanFixedOwned(ks: seq<ChanKey>, arena: seq<int>, g: Gamma, background: uint32, foreground: uint32)
    requires |ks| == KEY_COUNT && |arena| == KEY_COUNT * SHADE_COUNT && ValidGamma(g)
    requires ChanOwned(ks, arena, g)
    ensures var st := ChanLookupFixed(ks, arena, g, background, foreground);
            var bf := PackChan(background, foreground);
            && ChanOwned(st.keys, st.arena, g)
            && st.offset == st.slot * SHADE_COUNT && st.offset + SHADE_COUNT <= |st.arena|
            && st.arena[st.offset .. st.offset + SHADE_COUNT] == ChannelGradient(g, ChanBack(bf), ChanFore(bf))
  {
    var idx0 := ChanHash(background, foreground);
    var bf := PackChan(background, foreground);
    var views := ChanViews(ks, bf);
    var p := ProbeFrom(views, idx0, 0);
    match p
    case Hit(s, _) =>
      assert views[s] == Matching;
      ChanOwnedHit(ks, arena, g, bf, s);
    case Claim(s, _) =>
      assert views[s] == Vacant;
      ChanOwnedClaim(ks, arena, g, bf, s, p);
    case Full =>
      ChanOwnedCleared(ks, arena, g);
      ChanOwnedClaim(ClearChanKeys(ks), arena, g, bf, idx0, p);
  }
}
