# Gamma-correct blend cache

A model of the blend cache in `graph/gblender.c` of the FreeType demo programs.
The cache maps a (background, foreground) colour pair to a gradient of
SHADE_COUNT shades blended in linear light: each 8-bit channel goes through the
`gamma_ramp` table, is interpolated with integer rounding, and comes back
through `gamma_ramp_inv`. Gradients live in one shared `cells` arena, one region
per slot of a KEY_COUNT-slot open-addressed table probed linearly with
wrap-around. A full table is cleared completely before the new pair is
inserted. A single-channel twin does the same over 16-bit packed byte pairs,
with a negative index marking an empty slot. Statistics counters record
lookups, clashes, new keys and clears.

The model is split into modules that follow the program:

- `Bits` (bits.dfy): the C integer types, 32- and 16-bit wrap-around, and `&`, `|`, `<<`, `>>` written out over unbounded integers.
- `Shades` (shades.dfy): the blend weight, the rounded blend, one channel's shade, the packed 24-bit pixel, the cells of one shade in both storage layouts (the `GBLENDER_STORE_BYTES` switch is the `Layout` datatype), and the whole gradient.
- `Slots` (slots.dfy): probe order, how a probe ends (`Probe`), writing a region of the arena (`Overwrite`), and the arena invariant that every occupied slot's region holds its key's gradient (`Coherent`).
- `Cache` (lookup.dfy): the two key record types, the two hashes, the packed channel key, and each lookup as a function of the table and arena before it (`PixelLookup`, `ChanLookup`).
- `LookupFacts` (lookup_facts.dfy): what a lookup returns and changes, that it preserves the arena invariant, and what an immediate repeat lookup does.
- `GBlender` (blender.dfy): the blender object as a class with the key tables and arenas as arrays and the mode, gamma tables, fast-path entries and counters as fields. Each C routine is a method proved against the functions above.
- `FullTable` (findings.dfy): what the full-table path as written does to later lookups, and both lookups with that path corrected, proved to keep the stricter invariant that every occupied slot owns its region.

A lookup's slot is modelled as an index into its table and its cells pointer
as an offset into the arena. The `key` pointer and the `idx` cursor are kept
apart, as in the source. When the table is full they differ: the new key is
stored in the last probed slot, one before the start, but its cells are those
of the start slot's region. The class and the `Cache` lookups keep this exactly
as written. Because of it the arena invariant is stated through `Trusted`: a
slot's region holds its gradient when the slot points at its own region, or when
it points at the next slot's region and that slot is still empty.

That arrangement does not survive the next lookups (see "## Findings"). A later
pair with the same start slot claims the start slot, which is empty, and writes
its own gradient over the region the stranded key still points at. Looking the
stranded pair up right after that does not reach its slot: it passes the start
slot, now another pair's, and claims the empty slot after it, so the pair is
stored in two slots and its gradient built again (`PixelFullThenDuplicate`,
`ChanFullThenDuplicate`). Only when every slot other than the stranded one holds
another pair does its lookup hit the stranded slot and return the overwritten
region (`PixelStaleHit`, `ChanStaleHit`). `FullTable` proves these steps on the
code as written, and proves that storing the key in the start slot
(`PixelLookupFixed`, `ChanLookupFixed`) keeps every occupied slot pointing at its
own region and holding its own gradient.

The gamma tables are a parameter of the object (`Gamma`). `ValidGamma` states
the sizes and ranges their builder guarantees: 256 ramp entries in
`[0, GAMMA_MAX]` and `GAMMA_MAX + 1` inverse entries in `[0, 255]`, with
`GAMMA_MAX = (256 << GAMMA_SHIFT) - 1`.

## Model

| member | source | states |
|---|---|---|
| GBlender.Blender.Clear | graph/gblender.c:119-153 | In channel mode every channel slot's index becomes negative and the three per-channel fast-path entries are reset; otherwise every pixel slot's cells become NULL and the pixel entry is reset; the other table, the other entries and both arenas are unchanged |
| GBlender.Blender.ClearPixels | graph/gblender.c:144-152 | The loop leaves the pixel table equal to ClearPixelKeys of the old one and resets the pixel fast-path entry |
| GBlender.Blender.ClearChannels | graph/gblender.c:125-143 | The loop leaves the channel table equal to ClearChanKeys of the old one and resets the three per-channel entries |
| GBlender.Blender.Init | graph/gblender.c:155-174 | Pixel mode, the given gamma tables, every pixel slot empty, all five counters zero, and the object invariant established |
| GBlender.Blender.constructor | graph/gblender.c:155-174 | Fresh storage of the right sizes, then the effect of Init: pixel mode, the given gamma tables, every pixel slot empty, the pixel fast-path entry reset, all five counters zero, and the object invariant |
| GBlender.Blender.UseChannels | graph/gblender.c:177-188 | The mode becomes 1 for any non-zero argument and 0 otherwise; when it does not change nothing changes, so a repeated call has no effect; when it does, the new mode's table is cleared; the invariant is kept |
| GBlender.Blender.ResetKey | graph/gblender.c:194-258 | The region the slot's cells name becomes exactly PixelGradient of the slot's pair; no other cell changes |
| GBlender.Blender.StoreFirstShade | graph/gblender.c:208-224 | Shade 0 is written as the background's three channel bytes, or as the raw background pixel |
| GBlender.Blender.StoreShade | graph/gblender.c:234-256 | One loop pass writes ShadeCells for shade nn from the linearised channels, as three bytes or one packed pixel |
| GBlender.Blender.ProbePixels | graph/gblender.c:275-293 | The probe loop ends as ProbeFrom over the slot views (Cache.PixelView: empty for NULL cells, matching for the same pair, another key otherwise, as the tests at lines 281-286) from the pair's hash, counting one clash per slot passed (KEY_COUNT when full); the key pointer and cursor are where the C leaves them; the loop runs at most KEY_COUNT times and changes no slot |
| GBlender.Blender.Lookup | graph/gblender.c:262-316 | The new table, arena and returned offset are those of PixelLookup; hits goes down by one, lookups up by one, clashes up by the slots passed, keys up by one unless the probe hit, clears up by one when the table was full; the invariant is kept |
| GBlender.Blender.FindPixel | graph/gblender.c:270-315 | A hit returns the stored cells and changes no slot or cell; otherwise the state is PixelNewNode on the table, cleared first when full; the counters change as in the source |
| GBlender.Blender.Miss | graph/gblender.c:295-313 | A full table is cleared and counted; then the new node is built and counted as a new key |
| GBlender.Blender.NewNode | graph/gblender.c:302-308 | Only the key pointer's slot changes: it gets the pair and the region of the cursor's slot, `idx * SHADE_COUNT * CELL_SIZE`, which then holds the pair's gradient |
| GBlender.Blender.ResetChannelKey | graph/gblender.c:319-355 | The SHADE_COUNT bytes from the slot's index become ChannelGradient of the key's low and high bytes; no other byte changes |
| GBlender.Blender.ProbeChannels | graph/gblender.c:372-389 | The single-channel probe loop ends as ProbeFrom over the views for the packed pair (Cache.ChanView: empty for a negative index, matching for the same packed pair, as the tests at lines 378-382); clashes are counted as in the pixel probe |
| GBlender.Blender.LookupChannel | graph/gblender.c:358-410 | The new channel table, arena and returned index are those of ChanLookup; the counters change as in Lookup; the invariant is kept |
| GBlender.Blender.FindChannel | graph/gblender.c:367-409 | A hit returns the stored index and changes nothing; otherwise the state is ChanNewNode on the table, cleared first when full |
| GBlender.Blender.MissChannel | graph/gblender.c:391-406 | A full channel table is cleared and counted; then the new node is built and counted |
| GBlender.Blender.NewChannelNode | graph/gblender.c:398-402 | Only the key pointer's slot changes: it gets the packed pair and index `idx * SHADE_COUNT`, and the gradient is written there |
| GBlender.Blender.ReusedLookups | graph/gblender.c:426-430 | `stat_lookups - stat_keys`, the figure reported as lookups served from the table, equals the number of lookups that hit |
| Cache.ClearPixelKeys | graph/gblender.c:146-147 | Every cells pointer is NULL and every colour field is kept |
| Cache.ClearChanKeys | graph/gblender.c:129-130 | Every index is negative and every packed pair is kept |
| Cache.PixelHash | graph/gblender.c:275 | The start slot is `(background + foreground*63) mod KEY_COUNT`; the 32-bit wrap-around does not change it |
| Cache.ChanHash | graph/gblender.c:372 | The start slot is `(background + foreground*17) mod KEY_COUNT` |
| Cache.PackChan | graph/gblender.c:364 | For byte inputs the 16-bit key is the foreground in the high byte and the background in the low byte |
| Cache.ChanBytesAreMasks | graph/gblender.c:323-324 | The two bytes of a channel key, Cache.ChanBack and Cache.ChanFore, are `backfore & 255` and `(backfore >> 8) & 255` |
| Cache.ChanKeyRoundTrip | graph/gblender.c:323-324 | Unpacking a packed byte pair gives it back, and packing the two bytes of any 16-bit key gives the key |
| Cache.PixelNewNode | graph/gblender.c:302-308 | The key pointer's slot holds the pair with the offset of the cursor's region, and that region fits in the arena |
| Cache.PixelLookup | graph/gblender.c:275-315 | The returned slot holds the pair with the returned offset; on a miss that offset's region fits in the arena |
| Cache.ChanNewNode | graph/gblender.c:398-402 | The key pointer's slot holds the packed pair with index `idx * SHADE_COUNT`, inside the arena |
| Cache.ChanLookup | graph/gblender.c:372-409 | The returned slot holds the packed pair with the returned index; on a miss that index's region fits in the arena |
| LookupFacts.PixelLookupOutcome | graph/gblender.c:275-315 | A hit changes nothing. Otherwise the pair's gradient is written at the returned offset. Every slot passed held another pair. A miss claims the empty slot it stopped at, at its own region, changing no other slot. A full table (every slot another pair) is cleared and the key goes into the last probed slot with the start slot's region |
| LookupFacts.ChanLookupOutcome | graph/gblender.c:372-409 | The same for the single-channel lookup, with a negative index as empty and `idx * SHADE_COUNT` as the claimed index |
| LookupFacts.PixelLookupRepeat | graph/gblender.c:275-315 | Looking the same pair up again returns the same offset and leaves the arena as it is; it is a hit that changes nothing, except after a full-table clear, when it claims the start slot, which is empty |
| LookupFacts.ChanLookupRepeat | graph/gblender.c:372-409 | The same for the single-channel lookup |
| LookupFacts.PixelLookupCoherent | graph/gblender.c:295-315 | A lookup keeps the pixel arena invariant; the returned region lies in the arena; a newly written slot is trusted; a trusted slot's returned region holds the pair's gradient |
| LookupFacts.ChanLookupCoherent | graph/gblender.c:391-409 | The same for the single-channel table and arena |
| LookupFacts.PixelClaimKeeps | graph/gblender.c:302-308 | Claiming an empty slot at its own region keeps the pixel arena invariant; the claimed slot is trusted and its region holds the pair's gradient |
| LookupFacts.PixelFullKeeps | graph/gblender.c:295-308 | After the clear of a full table, the single key in the last probed slot, pointing at the start slot's region, leaves the arena coherent, is trusted, and its region holds the pair's gradient |
| LookupFacts.ChanClaimKeeps | graph/gblender.c:398-402 | Claiming an empty channel slot keeps the channel arena invariant; the slot is trusted and its region holds the gradient of the packed pair |
| LookupFacts.ChanFullKeeps | graph/gblender.c:391-402 | The channel-table analogue of PixelFullKeeps |
| Shades.Weight | graph/gblender.c:236 | The blend weight `255*n/(SHADE_COUNT-1)` lies in `[0, 255]`; it is 0 exactly for shade 0 and 255 exactly for the last shade |
| Shades.WeightMonotone | graph/gblender.c:236 | A later shade never has a smaller weight |
| Shades.Blend | graph/gblender.c:240-242 | `(l2*a + l1*(255-a) + 127)/255` lies between l1 and l2, so it is a valid inverse-table index; it is l1 at weight 0 and l2 at weight 255 |
| Shades.BlendMonotone | graph/gblender.c:240-242 | For l1 <= l2 a larger weight never gives a smaller blend |
| Shades.ChannelShade | graph/gblender.c:226-246 | The last shade of a channel is `gamma_ramp_inv[gamma_ramp[c2]]` |
| Shades.ShadesOrdered | graph/gblender.c:234-246 | With non-decreasing tables and c1 <= c2, shades 1 to the last never decrease and stay between the round trips of the two endpoints through the tables |
| Shades.BlendMonotoneDown | graph/gblender.c:240-242 | For l2 <= l1 a larger weight never gives a larger blend |
| Shades.ShadesOrderedDown | graph/gblender.c:234-246 | With non-decreasing tables and c2 <= c1, shades 1 to the last never increase and stay between the round trips of the two endpoints through the tables |
| Shades.ComponentIsMask | graph/gblender.c:208-214 | The channel byte Shades.Component is `(p >> shift) & 255` |
| Shades.Pack24IsOr | graph/gblender.c:254 | The packed pixel Shades.Pack24, `r*2^16 + g*2^8 + b`, is `(r << 16) \| (g << 8) \| b` for bytes |
| Shades.PackUnpack | graph/gblender.c:254 | Extracting channel k of a packed shade gives back the byte packed there |
| Shades.ShadeCells | graph/gblender.c:216-256 | One shade takes CELL_SIZE cells, each a 32-bit value |
| Shades.PixelGradient | graph/gblender.c:216-257 | A gradient takes `SHADE_COUNT * CELL_SIZE` cells |
| Shades.GradientCell | graph/gblender.c:216-256 | Cell k of shade n sits at `n * CELL_SIZE + k` of the gradient and is cell k of ShadeCells for n |
| Shades.LayoutsAgree | graph/gblender.c:216-256 | Both layouts hold the same shades: shade 0 is the raw background, each packed shade unpacks to the bytes the byte layout stores, each byte is its channel's ChannelShade, and the last shade is the foreground's round trip through the tables |
| Shades.ChannelGradient | graph/gblender.c:333-354 | SHADE_COUNT bytes; the first is the raw background byte and the last the foreground's round trip through the tables |
| Shades.RegionStart | graph/gblender.c:305-306 | Slot i's region starts at `i * SHADE_COUNT * CELL_SIZE` and fits in an arena of KEY_COUNT regions |
| Slots.MaskIsBitAnd | graph/gblender.c:275 | Slots.Mask, reducing modulo KEY_COUNT, is `& (KEY_COUNT-1)`, as KEY_COUNT is a power of two |
| Slots.NextIsMask | graph/gblender.c:291 | The probe step Slots.Next, `(idx+1) & (KEY_COUNT-1)`, is the next slot with wrap-around, never the same slot |
| Slots.NextProbeSlot | graph/gblender.c:291-293 | Advancing the cursor reaches the next slot on the probe path, and it is back at the start exactly after KEY_COUNT steps |
| Slots.NextOfLastProbed | graph/gblender.c:291-293 | The slot after the last probed slot is the start slot |
| Slots.ProbeSlotsDistinct | graph/gblender.c:277-293 | The KEY_COUNT steps of one probe visit KEY_COUNT different slots |
| Slots.ProbeFrom | graph/gblender.c:277-293 | A probe ends at a matching slot (hit), an empty slot (claim) or after KEY_COUNT clashes (full); it takes fewer than KEY_COUNT clashes unless full, and every slot it passed held another key |
| Slots.ProbeFirstStop | graph/gblender.c:277-293 | Conversely, the probe stops at the first slot on its path that is not another key, reporting the clashes before it |
| Slots.ClaimCoherent | graph/gblender.c:302-308 | Claiming an empty slot at its own region and writing its gradient there keeps every slot coherent |
| Slots.FullClaimCoherent | graph/gblender.c:295-308 | After a full clear, the one key written into the last probed slot with the start slot's region leaves every slot coherent |
| Slots.OwnedIsCoherent | graph/gblender.c:302-306 | A table where every occupied slot owns its region (offset `i * size`, holding its gradient) is coherent and every occupied slot is trusted |
| Slots.OwnedClaim | graph/gblender.c:302-308 | Claiming an empty slot at its own region and writing its gradient there keeps every occupied slot owning its region |
| FullTable.PixelFullStrays | graph/gblender.c:295-306 | As written, a full-table lookup leaves its key in the last probed slot with the start slot's region, the start slot empty, and the table no longer owning its regions |
| FullTable.PixelFullThenClaim | graph/gblender.c:277-308 | As written, after that, a lookup of another pair with the same start slot claims the start slot and writes its gradient over the region the first pair's slot still points at |
| FullTable.PixelFullKeys | graph/gblender.c:295-306 | As written, a full-table lookup leaves the cleared table with only the last probed slot set, holding the pair and the start slot's region |
| FullTable.PixelFirstSlot | graph/gblender.c:277-308 | A lookup whose start slot is empty claims the start slot at its own region and changes no other slot |
| FullTable.PixelSecondSlot | graph/gblender.c:277-308 | A lookup whose start slot holds another pair and whose next slot is empty claims the next slot at its own region and changes no other slot |
| FullTable.PixelAfterTwo | graph/gblender.c:277-308 | As written, after the full-table lookup and a lookup of another pair with the same start slot, the start slot holds the second pair, the next slot is empty, and the last probed slot still holds the first pair with the start slot's region |
| FullTable.PixelFullThenDuplicate | graph/gblender.c:277-308 | As written, looking the first pair up once more claims the slot after the start, at its own region, while the last probed slot still holds the pair: the pair is stored twice |
| FullTable.PixelStaleHit | graph/gblender.c:277-293 | As written, when every other slot holds another pair, the stranded pair's lookup is a hit in the last probed slot that returns the start slot's region and changes nothing |
| FullTable.PixelEveryOther | graph/gblender.c:277-293 | A table holding another pair in every slot is full for the pair |
| FullTable.PixelFullWitness | graph/gblender.c:295-315 | On any table full for (0, 0): the lookup of (0, 0) leaves it in slot 255 pointing at cell 0; the lookup of (256, 0) claims slot 0 and writes 256 into cell 0, while the gradient of (0, 0) starts with 0 |
| FullTable.PixelLookupFixed | graph/gblender.c:275-315 | The corrected lookup: the returned slot holds the pair with the returned offset; after a full clear the slot is the start slot; on a miss the offset is the slot's own region |
| FullTable.PixelFixedAgrees | graph/gblender.c:275-315 | The correction changes only the full-table path, and not the returned offset or the arena there |
| FullTable.PixelOwnedHit | graph/gblender.c:284-286 | In a table that owns its regions, a matching slot points at its own region, which holds the pair's gradient |
| FullTable.PixelOwnedClaim | graph/gblender.c:302-308 | Claiming an empty slot at its own region keeps the pixel table owning its regions, and the region holds the pair's gradient |
| FullTable.PixelOwnedCleared | graph/gblender.c:295-300 | A cleared pixel table owns its regions |
| FullTable.PixelFixedOwned | graph/gblender.c:275-315 | The corrected lookup keeps the pixel table owning its regions, and on every path returns the slot's own region holding the pair's gradient |
| FullTable.ChanFullStrays | graph/gblender.c:391-400 | As written, a full-table channel lookup leaves its packed pair in the last probed slot with the start slot's index, the start slot empty, and the table no longer owning its regions |
| FullTable.ChanFullThenClaim | graph/gblender.c:374-402 | As written, after that, a channel lookup of another packed pair with the same start slot claims the start slot and writes its gradient over the region the first pair's slot still names |
| FullTable.ChanFullKeys | graph/gblender.c:391-400 | As written, a full-table channel lookup leaves the cleared table with only the last probed slot set, holding the packed pair and the start slot's index |
| FullTable.ChanFirstSlot | graph/gblender.c:374-402 | A channel lookup whose start slot is empty claims the start slot at its own region and changes no other slot |
| FullTable.ChanSecondSlot | graph/gblender.c:374-402 | A channel lookup whose start slot holds another packed pair and whose next slot is empty claims the next slot at its own region and changes no other slot |
| FullTable.ChanAfterTwo | graph/gblender.c:374-402 | As written, after the full-table channel lookup and a lookup of another packed pair with the same start slot, the start slot holds the second pair, the next slot is empty, and the last probed slot still holds the first pair with the start slot's index |
| FullTable.ChanFullThenDuplicate | graph/gblender.c:374-402 | As written, looking the first packed pair up once more claims the slot after the start, at its own region, while the last probed slot still holds it: the pair is stored twice |
| FullTable.ChanStaleHit | graph/gblender.c:374-389 | As written, when every other slot holds another packed pair, the stranded pair's lookup is a hit in the last probed slot that returns the start slot's index and changes nothing |
| FullTable.ChanEveryOther | graph/gblender.c:374-389 | A channel table holding another packed pair in every slot is full for the pair |
| FullTable.ChanHashes | graph/gblender.c:372 | (0, 0) and (239, 1) both start at slot 0 |
| FullTable.PackedPair | graph/gblender.c:364 | Two bytes pack to the foreground in the high byte and the background in the low byte |
| FullTable.ChanFullWitness | graph/gblender.c:391-409 | On any table full for (0, 0): the lookup of (0, 0) leaves packed pair 0 in the last probed slot naming the start slot's region; the lookup of (239, 1), packed pair 495, claims the start slot and writes 239 into that region's first cell, while the gradient of (0, 0) starts with 0 |
| FullTable.ChanLookupFixed | graph/gblender.c:372-409 | The corrected channel lookup: the returned slot holds the packed pair with the returned index; after a full clear the slot is the start slot; on a miss the index is the slot's own region |
| FullTable.ChanFixedAgrees | graph/gblender.c:372-409 | The correction changes only the full-table path, and not the returned index or the arena there |
| FullTable.ChanOwnedHit | graph/gblender.c:378-382 | In a channel table that owns its regions, a matching slot names its own region, which holds the packed pair's gradient |
| FullTable.ChanOwnedClaim | graph/gblender.c:398-402 | Claiming an empty channel slot at its own region keeps the table owning its regions, and the region holds the gradient |
| FullTable.ChanOwnedCleared | graph/gblender.c:391-396 | A cleared channel table owns its regions |
| FullTable.ChanFixedOwned | graph/gblender.c:372-409 | The corrected channel lookup keeps the table owning its regions, and on every path returns the slot's own region holding the packed pair's gradient |

## Findings

| source | as written | input that shows it | evidently intended | confidence | as-written member | corrected member |
|---|---|---|---|---|---|---|
| graph/gblender.c:295-306 | After clearing a full table, `key` still points at the last probed slot while `idx` is back at the start, so the key is stored one slot before the start with the start slot's cells | Packed layout, starting from an empty table: look up (j, 0) for j = 1 .. 256, whose start slots are 1 .. 255 and 0, which fills the table; then look up (0, 0), then (256, 0). Slot 255 holds (0, 0) pointing at cell 0, which now holds 256 instead of 0; looking up (0, 0) again claims slot 1, so (0, 0) is stored twice | The key is stored in the slot whose region it uses, so every occupied slot owns its region and holds its own gradient | not executed | FullTable.PixelFullWitness, FullTable.PixelFullThenClaim, FullTable.PixelFullThenDuplicate, FullTable.PixelStaleHit | FullTable.PixelLookupFixed, FullTable.PixelFixedOwned |
| graph/gblender.c:391-400 | The same in the channel lookup: the packed pair is stored one slot before the start with the start slot's index | Starting from an empty channel table: look up (j, 0) for j = 1 .. 255 and (222, 2), whose start slots are 1 .. 255 and 0, which fills the table; then look up (0, 0), then (239, 1), which also starts at slot 0. The slot of (0, 0) names a region whose first byte is now 239 instead of 0; looking up (0, 0) again claims slot 1, so it is stored twice | The packed pair is stored in the slot whose region its index names | not executed | FullTable.ChanFullWitness, FullTable.ChanFullThenClaim, FullTable.ChanFullThenDuplicate, FullTable.ChanStaleHit | FullTable.ChanLookupFixed, FullTable.ChanFixedOwned |

The blender class models the code as written, so `GBlender.Blender.Lookup` and
`GBlender.Blender.LookupChannel` follow `PixelLookup` and `ChanLookup`, not
the corrected lookups.

## Left out

- `gblender_set_gamma_table` (graph/gblender.c:4-115) builds the tables in floating point. The tables are a parameter, constrained only by `ValidGamma`. Monotonicity is assumed only where a lemma says so (`ShadesOrdered`, `ShadesOrderedDown`).
- `gblender_dump_stats` (graph/gblender.c:414-435) prints percentages with `printf`. Only the lookup-rate quantity is modelled, by `ReusedLookups`.
- gblender.h is not part of this model. KEY_COUNT = 256, SHADE_COUNT = 16 and GAMMA_SHIFT = 2 are constants, and the GBLENDER_STORE_BYTES switch is the `Layout` fixed at construction.
- The header's lookup macros are what read the fast-path entries (`cache_back`, `cache_fore`, `cache_cells` and the per-channel copies). The model only resets those entries, in Clear.
- `stat_hits` is also handled by the header macros. In this file it is only decremented, so within the model `statHits == -statLookups` always holds.
- The C object overlays the channel key table on the pixel key table, and the byte view of the arena on the pixel arena. The model keeps separate arrays. The arena invariant is maintained for the table of the current mode only.
- The counters are unbounded integers; the C `long` fields are not modelled as wrapping.
- GBlender.Blender.Lookup: requires pixel mode (`channels == 0`) and the object invariant. The C function does not check the mode; this is the mode its callers use it in.
- GBlender.Blender.LookupChannel: requires single-channel mode (`channels == 1`) and the object invariant, for the same reason.
- GBlender.Blender.ResetKey: requires a non-NULL cells pointer whose region fits in the arena, which every call from the lookup meets.
- GBlender.Blender.ResetChannelKey: requires a non-negative index whose region fits in the arena, which every call from the lookup meets.
- Pointers are offsets. The cells pointer of a slot and the value returned by the lookups are offsets into the arena, not addresses.
