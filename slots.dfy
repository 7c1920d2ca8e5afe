/** The open-addressed slot table shared by both lookup variants: the probe
    order, what a probe finds, and how slots own regions of the gradient arena. */
module Slots {
  import opened Bits

  datatype Option<T> = None | Some(value: T)

  /** Number of slots (GBLENDER_KEY_COUNT), a power of two. */
  const KEY_BITS: nat := 8
  const KEY_COUNT: nat := 256

  lemma KeyCountIsPowerOfTwo()
    ensures KEY_COUNT == Pow2(KEY_BITS)
  {
  }

  /** `x & (GBLENDER_KEY_COUNT - 1)`, which reduces a hash or an index to a
      slot: the remainder modulo the slot count. */
  function Mask(x: nat): (s: nat)
    ensures s < KEY_COUNT
  {
    x % KEY_COUNT
  }

  /** Since the slot count is a power of two, the remainder is the C bitwise
      and with `GBLENDER_KEY_COUNT - 1`. */
  lemma MaskIsBitAnd(x: nat)
    ensures Mask(x) == BitAnd(x, KEY_COUNT - 1)
  {
    KeyCountIsPowerOfTwo();
    BitAndLowMask(x, KEY_BITS);
  }

  /** The slot visited at step j of a probe that starts at idx0: j slots on,
      wrapping around past the last slot. */
  function ProbeSlot(idx0: nat, j: nat): (s: nat)
    requires idx0 < KEY_COUNT && j <= KEY_COUNT
    ensures s < KEY_COUNT
  {
    if idx0 + j < KEY_COUNT then idx0 + j else idx0 + j - KEY_COUNT
  }

  /** The K steps of one probe visit K different slots. */
  lemma ProbeSlotsDistinct(idx0: nat, i: nat, j: nat)
    requires idx0 < KEY_COUNT && i < j < KEY_COUNT
    ensures ProbeSlot(idx0, i) != ProbeSlot(idx0, j)
  {
  }

  /** The slot after slot i in probe order, wrapping from the last slot to
      the first. */
  function Next(i: nat): (s: nat)
    requires i < KEY_COUNT
    ensures s < KEY_COUNT && s != i
  {
    if i + 1 < KEY_COUNT then i + 1 else 0
  }

  /** Next is the probe loop's `idx = (idx + 1) & (GBLENDER_KEY_COUNT - 1)`. */
  lemma NextIsMask(i: nat)
    requires i < KEY_COUNT
    ensures Next(i) == Mask(i + 1) == BitAnd(i + 1, KEY_COUNT - 1)
  {
    MaskIsBitAnd(i + 1);
  }

  /** The last slot a probe visits is the one just before its start. */
  lemma NextOfLastProbed(idx0: nat)
    requires idx0 < KEY_COUNT
    ensures Next(ProbeSlot(idx0, KEY_COUNT - 1)) == idx0 && ProbeSlot(idx0, 0) == idx0
  {
  }

  /** Advancing the probe index steps to the next slot on the path, and it comes
      back to the start exactly after KEY_COUNT steps. */
  lemma NextProbeSlot(idx0: nat, j: nat)
    requires idx0 < KEY_COUNT && j < KEY_COUNT
    ensures Next(ProbeSlot(idx0, j)) == ProbeSlot(idx0, j + 1)
    ensures ProbeSlot(idx0, j + 1) == idx0 <==> j + 1 == KEY_COUNT
  {
  }

  /** What a probe sees in one slot: empty, the requested key, or another key. */
  datatype SlotView = Vacant | Matching | Other

  /** How a probe ends: at the slot holding the key (after `clashes` occupied,
      non-matching slots), at the first empty slot, or back at its start after
      KEY_COUNT clashes. */
  datatype Probe = Hit(slot: nat, clashes: nat) | Claim(slot: nat, clashes: nat) | Full

  /** The probe from step k on: linear probing with wrap-around from idx0. */
  function ProbeFrom(views: seq<SlotView>, idx0: nat, k: nat): (p: Probe)
    requires |views| == KEY_COUNT && idx0 < KEY_COUNT && k <= KEY_COUNT
    decreases KEY_COUNT - k
    ensures !p.Full? ==> k <= p.clashes < KEY_COUNT && p.slot == ProbeSlot(idx0, p.clashes)
    ensures p.Hit? ==> views[p.slot] == Matching
    ensures p.Claim? ==> views[p.slot] == Vacant
    ensures forall j :: k <= j < (if p.Full? then KEY_COUNT else p.clashes) ==> views[ProbeSlot(idx0, j)] == Other
  {
    if k == KEY_COUNT then Full
    else
      match views[ProbeSlot(idx0, k)]
      case Vacant => Claim(ProbeSlot(idx0, k), k)
      case Matching => Hit(ProbeSlot(idx0, k), k)
      case Other => ProbeFrom(views, idx0, k + 1)
  }

  /** Conversely, the probe stops at the first slot on its path that is not
      another key, and reports how many it passed. */
  lemma {:induction false} ProbeFirstStop(views: seq<SlotView>, idx0: nat, k: nat, c: nat)
    requires |views| == KEY_COUNT && idx0 < KEY_COUNT && k <= c < KEY_COUNT
    requires forall j :: k <= j < c ==> views[ProbeSlot(idx0, j)] == Other
    requires views[ProbeSlot(idx0, c)] != Other
    ensures ProbeFrom(views, idx0, k)
         == if views[ProbeSlot(idx0, c)] == Vacant then Claim(ProbeSlot(idx0, c), c) else Hit(ProbeSlot(idx0, c), c)
    decreases c - k
  {
    if k < c {
      assert views[ProbeSlot(idx0, k)] == Other;
      ProbeFirstStop(views, idx0, k + 1, c);
    }
  }

  /** The arena with the cells from offset o on replaced by w. */
  function Overwrite(arena: seq<int>, o: nat, w: seq<int>): (r: seq<int>)
    requires o + |w| <= |arena|
    ensures |r| == |arena|
    ensures forall p :: 0 <= p < |arena| ==> r[p] == if o <= p < o + |w| then w[p - o] else arena[p]
  {
    seq(|arena|, p requires 0 <= p < |arena| => if o <= p < o + |w| then w[p - o] else arena[p])
  }

  /** Writing the same cells twice leaves what writing them once leaves. */
  lemma OverwriteTwice(arena: seq<int>, o: nat, w: seq<int>)
    requires o + |w| <= |arena|
    ensures Overwrite(Overwrite(arena, o, w), o, w) == Overwrite(arena, o, w)
  {
    var once, twice := Overwrite(arena, o, w), Overwrite(Overwrite(arena, o, w), o, w);
    assert forall p :: 0 <= p < |arena| ==> twice[p] == once[p];
  }

  /** Writing w and then v right after it is writing w + v. */
  lemma OverwriteAppend(arena: seq<int>, o: nat, w: seq<int>, v: seq<int>)
    requires o + |w| + |v| <= |arena|
    ensures Overwrite(Overwrite(arena, o, w), o + |w|, v) == Overwrite(arena, o, w + v)
  {
    var lhs, rhs := Overwrite(Overwrite(arena, o, w), o + |w|, v), Overwrite(arena, o, w + v);
    assert forall p :: 0 <= p < |arena| ==> lhs[p] == rhs[p];
  }

  /** OverwriteAppend, for an arena that was overwritten with w and then with v
      right after it. */
  lemma OverwriteExtend(arena: seq<int>, mid: seq<int>, last: seq<int>, o: nat, w: seq<int>, v: seq<int>)
    requires o + |w| + |v| <= |arena|
    requires mid == Overwrite(arena, o, w) && last == Overwrite(mid, o + |w|, v)
    ensures last == Overwrite(arena, o, w + v)
  {
    OverwriteAppend(arena, o, w, v);
  }

  /** Each slot's region `i * size` lies inside an arena of KEY_COUNT regions, and
      the regions of two different slots do not overlap. */
  lemma RegionsApart(i: nat, j: nat, size: nat)
    requires i < KEY_COUNT && j < KEY_COUNT
    ensures i * size + size <= KEY_COUNT * size
    ensures i != j ==> i * size + size <= j * size || j * size + size <= i * size
  {
    assert KEY_COUNT * size == i * size + (KEY_COUNT - i) * size;
    MulAtLeast(size, KEY_COUNT - i);
    if i < j {
      assert j * size == i * size + (j - i) * size;
      MulAtLeast(size, j - i);
    } else if j < i {
      assert i * size == j * size + (i - j) * size;
      MulAtLeast(size, i - j);
    }
  }

  /** A slot's region can be relied on to hold the slot's own gradient when the
      slot points at its own region, or when it points at the region of the next
      slot (possible only after a full-table clear) and that next slot is still
      empty. */
  predicate Trusted(offs: seq<Option<nat>>, size: nat, i: nat)
    requires |offs| == KEY_COUNT && i < KEY_COUNT
  {
    offs[i] == Some(i * size) || offs[Next(i)].None?
  }

  /** The arena invariant at slot i. offs[i] is slot i's arena offset (None
      when empty), want[i] the gradient its key calls for. An occupied slot
      points either at its own region or at the next slot's region, and a
      trusted slot's region holds exactly its gradient. */
  ghost predicate SlotCoherent(offs: seq<Option<nat>>, want: seq<seq<int>>, arena: seq<int>, size: nat, i: nat)
    requires |offs| == KEY_COUNT && |want| == KEY_COUNT && i < KEY_COUNT
  {
    offs[i].Some? ==>
      && (offs[i].value == i * size || offs[i].value == Next(i) * size)
      && offs[i].value + size <= |arena|
      && (Trusted(offs, size, i) ==> arena[offs[i].value .. offs[i].value + size] == want[i])
  }

  /** The arena invariant of a slot table: it holds at every slot. */
  ghost predicate Coherent(offs: seq<Option<nat>>, want: seq<seq<int>>, arena: seq<int>, size: nat)
  {
    && |offs| == KEY_COUNT && |want| == KEY_COUNT && |arena| == KEY_COUNT * size
    && forall i :: 0 <= i < KEY_COUNT ==> SlotCoherent(offs, want, arena, size, i)
  }

  /** Slices of an overwritten arena that miss the written region are unchanged,
      and the written region reads back as written. */
  lemma OverwriteSlices(arena: seq<int>, o: nat, w: seq<int>, p: nat, size: nat)
    requires o + |w| <= |arena| && p + size <= |arena|
    ensures p + size <= o || o + |w| <= p ==> Overwrite(arena, o, w)[p .. p + size] == arena[p .. p + size]
    ensures p == o && size == |w| ==> Overwrite(arena, o, w)[p .. p + size] == w
  {
    var r := Overwrite(arena, o, w);
    if p + size <= o || o + |w| <= p {
      assert forall q :: p <= q < p + size ==> r[q] == arena[q];
    }
    if p == o && size == |w| {
      assert forall q :: 0 <= q < size ==> r[p .. p + size][q] == w[q];
    }
  }

  /** Claiming the empty slot s at its own region and writing its gradient there
      keeps the table coherent. */
  lemma ClaimCoherent(offs: seq<Option<nat>>, want: seq<seq<int>>, arena: seq<int>, size: nat, s: nat, w: seq<int>)
    requires Coherent(offs, want, arena, size)
    requires s < KEY_COUNT && offs[s].None? && |w| == size
    ensures s * size + size <= |arena|
    ensures Coherent(offs[s := Some(s * size)], want[s := w], Overwrite(arena, s * size, w), size)
  {
    RegionsApart(s, s, size);
    var offs', want', arena' := offs[s := Some(s * size)], want[s := w], Overwrite(arena, s * size, w);
    forall i | 0 <= i < KEY_COUNT
      ensures SlotCoherent(offs', want', arena', size, i)
    {
      if i == s {
        OverwriteSlices(arena, s * size, w, s * size, size);
      } else if offs'[i].Some? && Trusted(offs', size, i) {
        assert SlotCoherent(offs, want, arena, size, i);
        var o := offs[i].value;
        assert Trusted(offs, size, i);
        var owner := if o == i * size then i else Next(i);
        assert o == owner * size;
        assert owner != s;
        RegionsApart(owner, s, size);
        OverwriteSlices(arena, s * size, w, o, size);
      } else {
        assert SlotCoherent(offs, want, arena, size, i);
      }
    }
  }

  /** The stricter invariant the full-table path breaks: every occupied slot
      points at its own region, and that region holds exactly its gradient. */
  ghost predicate SlotOwned(offs: seq<Option<nat>>, want: seq<seq<int>>, arena: seq<int>, size: nat, i: nat)
    requires |offs| == KEY_COUNT && |want| == KEY_COUNT && i < KEY_COUNT
  {
    offs[i].Some? ==>
      && offs[i].value == i * size
      && offs[i].value + size <= |arena|
      && arena[offs[i].value .. offs[i].value + size] == want[i]
  }

  ghost predicate Owned(offs: seq<Option<nat>>, want: seq<seq<int>>, arena: seq<int>, size: nat)
  {
    && |offs| == KEY_COUNT && |want| == KEY_COUNT && |arena| == KEY_COUNT * size
    && forall i :: 0 <= i < KEY_COUNT ==> SlotOwned(offs, want, arena, size, i)
  }

  /** A table in which every slot owns its region is coherent, with every
      occupied slot trusted. */
  lemma OwnedIsCoherent(offs: seq<Option<nat>>, want: seq<seq<int>>, arena: seq<int>, size: nat)
    requires Owned(offs, want, arena, size)
    ensures Coherent(offs, want, arena, size)
    ensures forall i :: 0 <= i < KEY_COUNT && offs[i].Some? ==> Trusted(offs, size, i)
  {
    forall i | 0 <= i < KEY_COUNT
      ensures SlotCoherent(offs, want, arena, size, i)
      ensures offs[i].Some? ==> Trusted(offs, size, i)
    {
      assert SlotOwned(offs, want, arena, size, i);
    }
  }

  /** Claiming the empty slot s at its own region and writing its gradient there
      keeps every slot owning its region. */
  lemma OwnedClaim(offs: seq<Option<nat>>, want: seq<seq<int>>, arena: seq<int>, size: nat, s: nat, w: seq<int>)
    requires Owned(offs, want, arena, size)
    requires s < KEY_COUNT && offs[s].None? && |w| == size
    ensures s * size + size <= |arena|
    ensures Owned(offs[s := Some(s * size)], want[s := w], Overwrite(arena, s * size, w), size)
  {
    RegionsApart(s, s, size);
    var offs', want', arena' := offs[s := Some(s * size)], want[s := w], Overwrite(arena, s * size, w);
    forall i | 0 <= i < KEY_COUNT
      ensures SlotOwned(offs', want', arena', size, i)
    {
      if i == s {
        OverwriteSlices(arena, s * size, w, s * size, size);
      } else {
        assert SlotOwned(offs, want, arena, size, i);
        if offs[i].Some? {
          RegionsApart(i, s, size);
          OverwriteSlices(arena, s * size, w, i * size, size);
        }
      }
    }
  }

  /** The offsets of a table whose every slot is empty. */
  function Vacancies(): (offs: seq<Option<nat>>)
    ensures |offs| == KEY_COUNT && forall i :: 0 <= i < KEY_COUNT ==> offs[i] == None
  {
    seq(KEY_COUNT, _ => None)
  }

  /** After a full clear nothing is occupied but the one slot written: slot
      `last` pointing at the region of the slot after it, holding gradient w. */
  lemma FullClaimCoherent(want: seq<seq<int>>, arena: seq<int>, size: nat, last: nat, w: seq<int>)
    requires |want| == KEY_COUNT && |arena| == KEY_COUNT * size
    requires last < KEY_COUNT && |w| == size
    ensures Next(last) * size + size <= |arena|
    ensures Coherent(Vacancies()[last := Some(Next(last) * size)], want[last := w],
                     Overwrite(arena, Next(last) * size, w), size)
  {
    var o := Next(last) * size;
    FullClaimSlot(want, arena, size, last, w);
    var offs', want', arena' := Vacancies()[last := Some(o)], want[last := w], Overwrite(arena, o, w);
    forall i | 0 <= i < KEY_COUNT
      ensures SlotCoherent(offs', want', arena', size, i)
    {
      if i != last {
        assert offs'[i] == None;
      }
    }
  }

  /** The one occupied slot after a full clear and claim: its region is the
      one written, and, the next slot being empty, it is trusted. */
  lemma FullClaimSlot(want: seq<seq<int>>, arena: seq<int>, size: nat, last: nat, w: seq<int>)
    requires |want| == KEY_COUNT && |arena| == KEY_COUNT * size
    requires last < KEY_COUNT && |w| == size
    ensures Next(last) * size + size <= |arena|
    ensures SlotCoherent(Vacancies()[last := Some(Next(last) * size)], want[last := w],
                         Overwrite(arena, Next(last) * size, w), size, last)
  {
    var o := Next(last) * size;
    RegionsApart(Next(last), last, size);
    OverwriteSlices(arena, o, w, o, size);
  }
}
