/**
  The extensible array: a shared header whose elements live first in the
  index block, then in data blocks whose addresses the index block holds,
  then in data blocks reached through super blocks (which may split their
  data blocks into pages). Every block and page is created on the first
  write that needs it, and reads of anything not yet created give the
  class's fill value.
 */
module ExtensibleArray {
  import opened Bytes
  import L = Lifecycle

  /** One super block's entry in the header's table (sblk_info): how many
      data blocks it has, the elements per data block, the first element
      it holds (counted after the index block's own elements), and the
      index of its first data block. */
  datatype SblkInfo = SblkInfo(ndblks: Pos, dblkNelmts: Pos, startIdx: nat, startDblk: nat)

  /** A count that is never zero. */
  type Pos = n: nat | n >= 1 witness 1

  /** The array's fixed geometry: elements stored in the index block, the
      super block table, how many super blocks keep their data block
      addresses directly in the index block (nsblks), and the elements per
      data block page. */
  datatype Geometry = Geometry(idxBlkElmts: nat, sblkInfo: seq<SblkInfo>, iblockNsblks: nat,
                               dblkPageNelmts: Pos)

  /** Elements covered by one super block. */
  function Span(si: SblkInfo): nat
  {
    si.ndblks * si.dblkNelmts
  }

  /** Pages per data block of super block s: the data block elements
      divided by the page size when they exceed one page, 0 (unpaged)
      otherwise. */
  function DblkNpages(g: Geometry, s: nat): nat
    requires s < |g.sblkInfo|
  {
    var dn := g.sblkInfo[s].dblkNelmts;
    if dn > g.dblkPageNelmts then dn / g.dblkPageNelmts else 0
  }

  /** Length of super block s's page-initialised bitmap: one bit per page
      of each of its data blocks. */
  function BitmapLen(g: Geometry, s: nat): nat
    requires s < |g.sblkInfo|
  {
    g.sblkInfo[s].ndblks * DblkNpages(g, s)
  }

  /** The geometry the header computes: the super blocks tile the element range and the data block range one
      after the other from 0, and a paged data block is a whole number of
      pages. */
  ghost predicate GeometryOk(g: Geometry)
  {
    && g.iblockNsblks <= |g.sblkInfo|
    && (|g.sblkInfo| > 0 ==> g.sblkInfo[0].startIdx == 0 && g.sblkInfo[0].startDblk == 0)
    && (forall s :: 1 <= s < |g.sblkInfo| ==> Follows(g, s))
    && (forall s :: 0 <= s < |g.sblkInfo| ==> WholePages(g, s))
  }

  /** Super block s starts where super block s - 1 ends, in elements and in
      data blocks. */
  ghost predicate Follows(g: Geometry, s: nat)
    requires 1 <= s < |g.sblkInfo|
  {
    && g.sblkInfo[s].startIdx == g.sblkInfo[s - 1].startIdx + Span(g.sblkInfo[s - 1])
    && g.sblkInfo[s].startDblk == g.sblkInfo[s - 1].startDblk + g.sblkInfo[s - 1].ndblks
  }

  /** A paged data block of super block s is a whole number of pages. */
  ghost predicate WholePages(g: Geometry, s: nat)
    requires s < |g.sblkInfo|
  {
    DblkNpages(g, s) > 0 ==> DblkNpages(g, s) * g.dblkPageNelmts == g.sblkInfo[s].dblkNelmts
  }

  /** Elements the super blocks cover together. */
  function SblkEnd(g: Geometry): nat
  {
    if |g.sblkInfo| == 0 then 0
    else g.sblkInfo[|g.sblkInfo| - 1].startIdx + Span(g.sblkInfo[|g.sblkInfo| - 1])
  }

  /** The largest element count the array can hold. */
  function Capacity(g: Geometry): nat
  {
    g.idxBlkElmts + SblkEnd(g)
  }

  /** Earlier super blocks end where later ones begin, for elements and for
      data blocks alike. */
  lemma {:induction false} StartMonotone(g: Geometry, s: nat, t: nat)
    requires GeometryOk(g) && s < t < |g.sblkInfo|
    ensures g.sblkInfo[s].startIdx + Span(g.sblkInfo[s]) <= g.sblkInfo[t].startIdx
    ensures g.sblkInfo[s].startDblk + g.sblkInfo[s].ndblks <= g.sblkInfo[t].startDblk
    decreases t - s
  {
    assert Follows(g, s + 1);
    if s + 1 < t {
      StartMonotone(g, s + 1, t);
    }
  }

  /** The super block at or after s whose element range holds offset x. */
  function SblkSearch(g: Geometry, x: nat, s: nat): (r: nat)
    requires GeometryOk(g) && s < |g.sblkInfo|
    requires g.sblkInfo[s].startIdx <= x < SblkEnd(g)
    ensures s <= r < |g.sblkInfo|
    ensures g.sblkInfo[r].startIdx <= x < g.sblkInfo[r].startIdx + Span(g.sblkInfo[r])
    decreases |g.sblkInfo| - s
  {
    if x < g.sblkInfo[s].startIdx + Span(g.sblkInfo[s]) then s
    else
      assert s + 1 < |g.sblkInfo| && Follows(g, s + 1);
      SblkSearch(g, x, s + 1)
  }

  /** H5EA__dblock_sblk_idx: the super block holding element idx, which
      lies past the index block's elements. */
  function SblkIdx(g: Geometry, idx: nat): (s: nat)
    requires GeometryOk(g) && g.idxBlkElmts <= idx < Capacity(g)
    ensures s < |g.sblkInfo|
    ensures g.sblkInfo[s].startIdx <= idx - g.idxBlkElmts < g.sblkInfo[s].startIdx + Span(g.sblkInfo[s])
  {
    SblkSearch(g, idx - g.idxBlkElmts, 0)
  }

  /** Only one super block holds a given element. */
  lemma SblkIdxUnique(g: Geometry, idx: nat, s: nat)
    requires GeometryOk(g) && g.idxBlkElmts <= idx < Capacity(g) && s < |g.sblkInfo|
    requires g.sblkInfo[s].startIdx <= idx - g.idxBlkElmts < g.sblkInfo[s].startIdx + Span(g.sblkInfo[s])
    ensures SblkIdx(g, idx) == s
  {
    var r := SblkIdx(g, idx);
    if r < s {
      StartMonotone(g, r, s);
    } else if s < r {
      StartMonotone(g, s, r);
    }
  }

  /** Where an element lives, with every index the lookup computes on the
      way: in the index block; in a data block whose address the index
      block holds (dblkIdx counts across all of those); in an unpaged data
      block of a super block (sblkOff is the super block's slot in the
      index block, dblkIdx its data block); or in a page of a paged data
      block (pageInitIdx is the page's bit in the super block's bitmap).
      elmtIdx is the offset inside the element buffer that holds it. */
  datatype Where =
    | InIndexBlock(elmtIdx: nat)
    | InIblockDblock(sblk: nat, dblkIdx: nat, elmtIdx: nat)
    | InSblockDblock(sblk: nat, sblkOff: nat, dblkIdx: nat, elmtIdx: nat)
    | InDblkPage(sblk: nat, sblkOff: nat, dblkIdx: nat, pageIdx: nat, pageInitIdx: nat, elmtIdx: nat)

  /** The piece of array metadata that holds an element buffer, named the
      way the lookup reaches it. */
  datatype Thing =
    | IndexBlock
    | IblockDblock(dblkIdx: nat)
    | SblockDblock(sblkOff: nat, dblkIdx: nat)
    | DblkPage(sblkOff: nat, pageInitIdx: nat)

  function ThingOf(w: Where): Thing
  {
    match w
    case InIndexBlock(_) => IndexBlock
    case InIblockDblock(_, d, _) => IblockDblock(d)
    case InSblockDblock(_, so, d, _) => SblockDblock(so, d)
    case InDblkPage(_, so, _, _, b, _) => DblkPage(so, b)
  }

  /** The arithmetic of H5EA__lookup_elmt: elements below idx_blk_elmts are
      in the index block at their own index; any other element is at offset
      idx - (idx_blk_elmts + start_idx) of its super block. */
  function Locate(g: Geometry, idx: nat): Where
    requires GeometryOk(g) && idx < Capacity(g)
  {
    if idx < g.idxBlkElmts then InIndexBlock(idx)
    else
      var s := SblkIdx(g, idx);
      LocateInSblk(g, s, idx - (g.idxBlkElmts + g.sblkInfo[s].startIdx))
  }

  /** Offset off of super block s: data block off / dblk_nelmts (counted
      from start_dblk when the index block holds the data block addresses)
      at offset off % dblk_nelmts. */
  function LocateInSblk(g: Geometry, s: nat, off: nat): Where
    requires g.iblockNsblks <= |g.sblkInfo| && s < |g.sblkInfo|
  {
    var dn := g.sblkInfo[s].dblkNelmts;
    if s < g.iblockNsblks then InIblockDblock(s, g.sblkInfo[s].startDblk + off / dn, off % dn)
    else LocateInDblock(g, s, off / dn, off % dn)
  }

  /** Offset e of data block d of super block s, which is not in the index
      block: in a paged data block, page e / page_nelmts, whose bit is
      d * npages + page, at offset e % page_nelmts. */
  function LocateInDblock(g: Geometry, s: nat, d: nat, e: nat): Where
    requires g.iblockNsblks <= s < |g.sblkInfo|
  {
    var np := DblkNpages(g, s);
    var so := s - g.iblockNsblks;
    if np > 0 then
      var p := e / g.dblkPageNelmts;
      InDblkPage(s, so, d, p, d * np + p, e % g.dblkPageNelmts)
    else
      InSblockDblock(s, so, d, e)
  }

  /** The elements in the buffer that holds a location. */
  function BufLen(g: Geometry, w: Where): nat
    requires w.InIndexBlock? || w.sblk < |g.sblkInfo|
  {
    match w
    case InIndexBlock(_) => g.idxBlkElmts
    case InDblkPage(_, _, _, _, _, _) => g.dblkPageNelmts
    case _ => g.sblkInfo[w.sblk].dblkNelmts
  }

  /** The indexes of a location are in range: the super block is one whose
      data blocks the location's kind allows, the data block, the page and
      its bit exist, and the offset lies inside the element buffer. */
  ghost predicate WhereOk(g: Geometry, w: Where)
    requires GeometryOk(g)
  {
    match w
    case InIndexBlock(e) => e < g.idxBlkElmts
    case InIblockDblock(s, d, e) =>
      && s < g.iblockNsblks
      && g.sblkInfo[s].startDblk <= d < g.sblkInfo[s].startDblk + g.sblkInfo[s].ndblks
      && e < g.sblkInfo[s].dblkNelmts
    case InSblockDblock(s, so, d, e) =>
      && g.iblockNsblks <= s < |g.sblkInfo| && so == s - g.iblockNsblks
      && DblkNpages(g, s) == 0
      && d < g.sblkInfo[s].ndblks && e < g.sblkInfo[s].dblkNelmts
    case InDblkPage(s, so, d, p, b, e) =>
      && g.iblockNsblks <= s < |g.sblkInfo| && so == s - g.iblockNsblks
      && DblkNpages(g, s) > 0
      && d < g.sblkInfo[s].ndblks && p < DblkNpages(g, s)
      && b == d * DblkNpages(g, s) + p && b < BitmapLen(g, s)
      && e < g.dblkPageNelmts
  }

  /** The element a location names: the inverse of Locate. */
  function IndexOf(g: Geometry, w: Where): int
    requires w.InIndexBlock? || w.sblk < |g.sblkInfo|
  {
    match w
    case InIndexBlock(e) => e
    case InIblockDblock(s, d, e) =>
      g.idxBlkElmts + g.sblkInfo[s].startIdx
      + (d - g.sblkInfo[s].startDblk) * g.sblkInfo[s].dblkNelmts + e
    case InSblockDblock(s, _, d, e) =>
      g.idxBlkElmts + g.sblkInfo[s].startIdx + d * g.sblkInfo[s].dblkNelmts + e
    case InDblkPage(s, _, d, p, _, e) =>
      g.idxBlkElmts + g.sblkInfo[s].startIdx + d * g.sblkInfo[s].dblkNelmts
      + p * g.dblkPageNelmts + e
  }

  /** q = x / n and r = x % n split x < k * n into q < k and r < n with
      x == q * n + r. */
  lemma DivSplit(x: nat, n: nat, k: nat)
    requires n >= 1 && x < k * n
    ensures x / n < k && x % n < n
    ensures x == (x / n) * n + x % n
  {
    var q := x / n;
    if q >= k {
      MulMono(k, q, n);
    }
  }

  /** Multiplication by a natural number keeps order. */
  lemma MulMono(a: nat, b: nat, n: nat)
    requires a <= b
    ensures a * n <= b * n
  {
    assert b * n == a * n + (b - a) * n;
  }

  /** A quotient and remainder pair is unique. */
  lemma DivModUnique(n: nat, q1: nat, r1: nat, q2: nat, r2: nat)
    requires r1 < n && r2 < n && q1 * n + r1 == q2 * n + r2
    ensures q1 == q2 && r1 == r2
  {
    if q1 < q2 {
      MulMono(q1 + 1, q2, n);
    } else if q2 < q1 {
      MulMono(q2 + 1, q1, n);
    }
  }

  /** The data block that page bit b belongs to, with np pages per data
      block: b / np, counted out by repeated subtraction. */
  function BitDblk(b: nat, np: nat): nat
    requires np > 0
    decreases b
  {
    if b < np then 0 else 1 + BitDblk(b - np, np)
  }

  /** Page bit d * np + p with p < np belongs to data block d. */
  lemma {:induction false} BitDblkOf(np: nat, d: nat, p: nat)
    requires p < np
    ensures BitDblk(d * np + p, np) == d
  {
    if d > 0 {
      assert d * np + p - np == (d - 1) * np + p;
      BitDblkOf(np, d - 1, p);
    }
  }

  /** Every element of the array has a location whose indexes are in range
      and which names that element again. */
  lemma LocateSound(g: Geometry, idx: nat)
    requires GeometryOk(g) && idx < Capacity(g)
    ensures Locate(g, idx).InIndexBlock? || Locate(g, idx).sblk < |g.sblkInfo|
    ensures WhereOk(g, Locate(g, idx))
    ensures Locate(g, idx).elmtIdx < BufLen(g, Locate(g, idx))
    ensures IndexOf(g, Locate(g, idx)) == idx
    ensures Locate(g, idx).InIndexBlock? <==> idx < g.idxBlkElmts
  {
    if idx >= g.idxBlkElmts {
      var s := SblkIdx(g, idx);
      LocateInSblkSound(g, s, idx - (g.idxBlkElmts + g.sblkInfo[s].startIdx));
    }
  }

  lemma LocateInSblkSound(g: Geometry, s: nat, off: nat)
    requires GeometryOk(g) && s < |g.sblkInfo| && off < Span(g.sblkInfo[s])
    ensures LocateInSblk(g, s, off).sblk == s && !LocateInSblk(g, s, off).InIndexBlock?
    ensures WhereOk(g, LocateInSblk(g, s, off))
    ensures LocateInSblk(g, s, off).elmtIdx < BufLen(g, LocateInSblk(g, s, off))
    ensures IndexOf(g, LocateInSblk(g, s, off)) == g.idxBlkElmts + g.sblkInfo[s].startIdx + off
  {
    var si := g.sblkInfo[s];
    var d := off / si.dblkNelmts;
    var e := off % si.dblkNelmts;
    DivSplit(off, si.dblkNelmts, si.ndblks);
    if s >= g.iblockNsblks {
      LocateInDblockSound(g, s, d, e);
    } else {
      LocateInIblockSound(g, s, d, e);
    }
  }

  lemma LocateInIblockSound(g: Geometry, s: nat, d: nat, e: nat)
    requires GeometryOk(g) && s < g.iblockNsblks
    requires d < g.sblkInfo[s].ndblks && e < g.sblkInfo[s].dblkNelmts
    ensures WhereOk(g, InIblockDblock(s, g.sblkInfo[s].startDblk + d, e))
    ensures IndexOf(g, InIblockDblock(s, g.sblkInfo[s].startDblk + d, e))
            == g.idxBlkElmts + g.sblkInfo[s].startIdx + d * g.sblkInfo[s].dblkNelmts + e
  {
  }

  lemma LocateInDblockSound(g: Geometry, s: nat, d: nat, e: nat)
    requires GeometryOk(g) && g.iblockNsblks <= s < |g.sblkInfo|
    requires d < g.sblkInfo[s].ndblks && e < g.sblkInfo[s].dblkNelmts
    ensures LocateInDblock(g, s, d, e).sblk == s && !LocateInDblock(g, s, d, e).InIndexBlock?
    ensures WhereOk(g, LocateInDblock(g, s, d, e))
    ensures LocateInDblock(g, s, d, e).elmtIdx < BufLen(g, LocateInDblock(g, s, d, e))
    ensures IndexOf(g, LocateInDblock(g, s, d, e))
            == g.idxBlkElmts + g.sblkInfo[s].startIdx + d * g.sblkInfo[s].dblkNelmts + e
  {
    var np := DblkNpages(g, s);
    if np > 0 {
      assert WholePages(g, s);
      DivSplit(e, g.dblkPageNelmts, np);
      MulMono(d + 1, g.sblkInfo[s].ndblks, np);
    }
  }

  /** A location with its offset dropped: which buffer, reached how. */
  function Strip(w: Where): Where
  {
    w.(elmtIdx := 0)
  }

  /** Two elements held by the same piece of metadata were located through
      the same super block, data block and page. In particular the index
      block's data block addresses of different super blocks never
      coincide, and a page bit names one page of one data block. */
  lemma SameThingSameWhere(g: Geometry, i: nat, j: nat)
    requires GeometryOk(g) && i < Capacity(g) && j < Capacity(g)
    requires ThingOf(Locate(g, i)) == ThingOf(Locate(g, j))
    ensures Strip(Locate(g, i)) == Strip(Locate(g, j))
  {
    var wi := Locate(g, i);
    var wj := Locate(g, j);
    LocateSound(g, i);
    LocateSound(g, j);
    if wi.InIblockDblock? {
      if wi.sblk < wj.sblk {
        StartMonotone(g, wi.sblk, wj.sblk);
      } else if wj.sblk < wi.sblk {
        StartMonotone(g, wj.sblk, wi.sblk);
      }
    } else if wi.InDblkPage? {
      DivModUnique(DblkNpages(g, wi.sblk), wi.dblkIdx, wi.pageIdx, wj.dblkIdx, wj.pageIdx);
    }
  }

  /** Distinct elements never share a slot: the same piece of metadata at
      the same offset is the same element. */
  lemma SlotUnique(g: Geometry, i: nat, j: nat)
    requires GeometryOk(g) && i < Capacity(g) && j < Capacity(g)
    requires ThingOf(Locate(g, i)) == ThingOf(Locate(g, j))
    requires Locate(g, i).elmtIdx == Locate(g, j).elmtIdx
    ensures i == j
  {
    SameThingSameWhere(g, i, j);
    LocateSound(g, i);
    LocateSound(g, j);
    var wi := Locate(g, i);
    var wj := Locate(g, j);
    assert wi == Strip(wi).(elmtIdx := wi.elmtIdx);
    assert wj == Strip(wj).(elmtIdx := wj.elmtIdx);
  }

  /** What element j reads as, given the element buffers created: its
      buffer entry when its buffer exists, the fill value otherwise. */
  ghost function ReadSlot<E>(g: Geometry, buffers: map<Thing, seq<E>>, fill: E, j: nat): E
    requires GeometryOk(g) && j < Capacity(g)
  {
    var w := Locate(g, j);
    var t := ThingOf(w);
    if t in buffers && w.elmtIdx < |buffers[t]| then buffers[t][w.elmtIdx] else fill
  }

  /** Element j's buffer, when it exists, is long enough to hold it, and
      element j reads as the array's value: contents[j] below max_idx_set,
      the fill value from there on. */
  ghost predicate SlotHolds<E>(g: Geometry, buffers: map<Thing, seq<E>>, contents: seq<E>, fill: E, j: nat)
    requires GeometryOk(g) && j < Capacity(g)
  {
    var w := Locate(g, j);
    var t := ThingOf(w);
    && (t in buffers ==> w.elmtIdx < |buffers[t]|)
    && ReadSlot(g, buffers, fill, j) == (if j < |contents| then contents[j] else fill)
  }

  ghost predicate AllSlots<E>(g: Geometry, buffers: map<Thing, seq<E>>, contents: seq<E>, fill: E)
    requires GeometryOk(g)
  {
    forall j :: 0 <= j < Capacity(g) ==> SlotHolds(g, buffers, contents, fill, j)
  }

  /** Every element that piece of metadata t holds has an offset below len. */
  ghost predicate Fits(g: Geometry, t: Thing, len: nat)
    requires GeometryOk(g)
  {
    forall j :: 0 <= j < Capacity(g) && ThingOf(Locate(g, j)) == t ==> Locate(g, j).elmtIdx < len
  }

  /** The index block holds idx_blk_elmts elements. */
  lemma FitsIndexBlock(g: Geometry)
    requires GeometryOk(g)
    ensures Fits(g, IndexBlock, g.idxBlkElmts)
  {
    forall j | 0 <= j < Capacity(g) && ThingOf(Locate(g, j)) == IndexBlock
      ensures Locate(g, j).elmtIdx < g.idxBlkElmts
    {
      LocateSound(g, j);
    }
  }

  /** The buffer that holds element idx, sized for its kind, holds every
      element located in it. */
  lemma FitsThingOf(g: Geometry, idx: nat)
    requires GeometryOk(g) && idx < Capacity(g)
    ensures Locate(g, idx).InIndexBlock? || Locate(g, idx).sblk < |g.sblkInfo|
    ensures Fits(g, ThingOf(Locate(g, idx)), BufLen(g, Locate(g, idx)))
  {
    LocateSound(g, idx);
    forall j | 0 <= j < Capacity(g) && ThingOf(Locate(g, j)) == ThingOf(Locate(g, idx))
      ensures Locate(g, j).elmtIdx < BufLen(g, Locate(g, idx))
    {
      LocateSound(g, j);
      SameThingSameWhere(g, idx, j);
    }
  }

  /** Creating a piece of metadata whose buffer holds the fill value changes
      what no element reads. */
  lemma AddFillBuffer<E>(g: Geometry, buffers: map<Thing, seq<E>>, contents: seq<E>, fill: E,
                         t: Thing, len: nat)
    requires GeometryOk(g) && AllSlots(g, buffers, contents, fill)
    requires t !in buffers && Fits(g, t, len)
    ensures AllSlots(g, buffers[t := seq(len, _ => fill)], contents, fill)
  {
    var nb := buffers[t := seq(len, _ => fill)];
    forall j | 0 <= j < Capacity(g)
      ensures SlotHolds(g, nb, contents, fill, j)
    {
      assert SlotHolds(g, buffers, contents, fill, j);
    }
  }

  /** The array's value after setting element idx to v: the element
      replaced when idx is below max_idx_set; otherwise the array grows to
      idx + 1 elements, the new ones between reading as the fill value. */
  function SetValue<E>(contents: seq<E>, idx: nat, v: E, fill: E): (r: seq<E>)
    ensures |r| == if idx < |contents| then |contents| else idx + 1
    ensures r[idx] == v
    ensures forall j :: 0 <= j < |r| && j != idx ==>
              r[j] == if j < |contents| then contents[j] else fill
  {
    if idx < |contents| then contents[idx := v]
    else contents + seq(idx - |contents|, _ => fill) + [v]
  }

  /** Writing v into element idx's slot of its buffer changes what element
      idx reads, to v, and what no other element reads. */
  lemma WriteSlot<E>(g: Geometry, buffers: map<Thing, seq<E>>, contents: seq<E>, fill: E,
                     idx: nat, v: E)
    requires GeometryOk(g) && AllSlots(g, buffers, contents, fill)
    requires idx < Capacity(g) && |contents| <= Capacity(g)
    requires ThingOf(Locate(g, idx)) in buffers
    ensures Locate(g, idx).elmtIdx < |buffers[ThingOf(Locate(g, idx))]|
    ensures AllSlots(g, buffers[ThingOf(Locate(g, idx)) :=
                                  buffers[ThingOf(Locate(g, idx))][Locate(g, idx).elmtIdx := v]],
                     SetValue(contents, idx, v, fill), fill)
  {
    var w := Locate(g, idx);
    var t := ThingOf(w);
    assert SlotHolds(g, buffers, contents, fill, idx);
    var nb := buffers[t := buffers[t][w.elmtIdx := v]];
    var nc := SetValue(contents, idx, v, fill);
    forall j | 0 <= j < Capacity(g)
      ensures SlotHolds(g, nb, nc, fill, j)
    {
      assert SlotHolds(g, buffers, contents, fill, j);
      if j != idx && ThingOf(Locate(g, j)) == t && Locate(g, j).elmtIdx == w.elmtIdx {
        SlotUnique(g, idx, j);
      }
    }
  }

  /** Bit b of super block so's page-initialised bitmap is set. */
  ghost predicate BitSet(pageInit: map<nat, seq<bool>>, so: nat, b: nat)
  {
    so in pageInit && b < |pageInit[so]| && pageInit[so][b]
  }

  /** The metadata is a tree: nothing exists without the index block;
      every created super block has a bitmap of the right length; the
      index block, the index block's data blocks and the unpaged data
      blocks of super blocks have element buffers while paged data blocks
      do not; a super block's data block lies inside a created super block;
      a page has a buffer exactly when its bit is set, and its bit is set
      only inside a created data block. */
  ghost predicate TreeOf<E>(g: Geometry, iblockDefined: bool, sblocks: set<nat>,
                            pageInit: map<nat, seq<bool>>, dblocks: set<Thing>, buffers: map<Thing, seq<E>>)
  {
    && (!iblockDefined ==> buffers == map[] && sblocks == {} && dblocks == {})
    && (iblockDefined <==> IndexBlock in buffers)
    && pageInit.Keys == sblocks
    && (forall so: nat :: so in sblocks ==>
          && so + g.iblockNsblks < |g.sblkInfo|
          && |pageInit[so]| == BitmapLen(g, so + g.iblockNsblks))
    && (forall d: nat :: IblockDblock(d) in buffers <==> IblockDblock(d) in dblocks)
    && (forall so: nat, d: nat :: SblockDblock(so, d) in dblocks ==> so in sblocks)
    && (forall so: nat, d: nat :: SblockDblock(so, d) in buffers <==>
          SblockDblock(so, d) in dblocks && so in sblocks
          && DblkNpages(g, so + g.iblockNsblks) == 0)
    && (forall so: nat, b: nat :: DblkPage(so, b) in buffers <==> BitSet(pageInit, so, b))
    && (forall so: nat, b: nat :: BitSet(pageInit, so, b) ==>
          DblkNpages(g, so + g.iblockNsblks) > 0
          && SblockDblock(so, BitDblk(b, DblkNpages(g, so + g.iblockNsblks))) in dblocks)
  }

  /** Creating the index block keeps the tree. */
  lemma TreeAddIblock<E>(g: Geometry, sblocks: set<nat>, pageInit: map<nat, seq<bool>>,
                         dblocks: set<Thing>, buffers: map<Thing, seq<E>>, x: seq<E>)
    requires TreeOf(g, false, sblocks, pageInit, dblocks, buffers)
    ensures TreeOf(g, true, sblocks, pageInit, dblocks, buffers[IndexBlock := x])
  {
  }

  /** Creating a data block addressed from the index block keeps the tree. */
  lemma TreeAddIblockDblock<E>(g: Geometry, sblocks: set<nat>, pageInit: map<nat, seq<bool>>,
                               dblocks: set<Thing>, buffers: map<Thing, seq<E>>, d: nat, x: seq<E>)
    requires TreeOf(g, true, sblocks, pageInit, dblocks, buffers)
    ensures TreeOf(g, true, sblocks, pageInit, dblocks + {IblockDblock(d)}, buffers[IblockDblock(d) := x])
  {
  }

  /** Creating super block so with a clear bitmap keeps the tree and every
      page bit. */
  lemma TreeAddSblock<E>(g: Geometry, sblocks: set<nat>, pageInit: map<nat, seq<bool>>,
                         dblocks: set<Thing>, buffers: map<Thing, seq<E>>, so: nat)
    requires TreeOf(g, true, sblocks, pageInit, dblocks, buffers)
    requires so !in sblocks && so + g.iblockNsblks < |g.sblkInfo|
    ensures TreeOf(g, true, sblocks + {so},
                   pageInit[so := seq(BitmapLen(g, so + g.iblockNsblks), _ => false)], dblocks, buffers)
    ensures forall so': nat, b: nat ::
              BitSet(pageInit[so := seq(BitmapLen(g, so + g.iblockNsblks), _ => false)], so', b)
              == BitSet(pageInit, so', b)
  {
    var z := seq(BitmapLen(g, so + g.iblockNsblks), _ => false);
    var np := pageInit[so := z];
    assert so !in pageInit;
    forall so': nat, b: nat
      ensures BitSet(np, so', b) == BitSet(pageInit, so', b)
    {
      if so' == so && b < |z| {
        assert !z[b];
      }
    }
    forall so': nat | so' in sblocks + {so}
      ensures so' + g.iblockNsblks < |g.sblkInfo| && |np[so']| == BitmapLen(g, so' + g.iblockNsblks)
    {
    }
  }

  /** Creating an unpaged data block of super block so keeps the tree. */
  lemma TreeAddSblockDblock<E>(g: Geometry, sblocks: set<nat>, pageInit: map<nat, seq<bool>>,
                               dblocks: set<Thing>, buffers: map<Thing, seq<E>>, so: nat, d: nat, x: seq<E>)
    requires TreeOf(g, true, sblocks, pageInit, dblocks, buffers)
    requires so in sblocks && DblkNpages(g, so + g.iblockNsblks) == 0
    ensures TreeOf(g, true, sblocks, pageInit, dblocks + {SblockDblock(so, d)},
                   buffers[SblockDblock(so, d) := x])
  {
  }

  /** Creating a paged data block of super block so keeps the tree. */
  lemma TreeAddPagedDblock<E>(g: Geometry, sblocks: set<nat>, pageInit: map<nat, seq<bool>>,
                              dblocks: set<Thing>, buffers: map<Thing, seq<E>>, so: nat, d: nat)
    requires TreeOf(g, true, sblocks, pageInit, dblocks, buffers)
    requires so in sblocks && DblkNpages(g, so + g.iblockNsblks) > 0
    ensures TreeOf(g, true, sblocks, pageInit, dblocks + {SblockDblock(so, d)}, buffers)
  {
  }

  /** Setting bit b of super block so's bitmap sets that bit and no other. */
  lemma BitSetAdd(pageInit: map<nat, seq<bool>>, so: nat, b: nat)
    requires so in pageInit && b < |pageInit[so]|
    ensures forall so': nat, b': nat ::
              BitSet(pageInit[so := pageInit[so][b := true]], so', b') <==>
              BitSet(pageInit, so', b') || (so' == so && b' == b)
  {
    var np := pageInit[so := pageInit[so][b := true]];
    forall so': nat, b': nat
      ensures BitSet(np, so', b') <==> BitSet(pageInit, so', b') || (so' == so && b' == b)
    {
    }
  }

  /** Creating the page whose bit is b, inside data block d of super block
      so, keeps the tree and sets that bit only. */
  lemma TreeAddPage<E>(g: Geometry, sblocks: set<nat>, pageInit: map<nat, seq<bool>>,
                       dblocks: set<Thing>, buffers: map<Thing, seq<E>>, so: nat, d: nat, b: nat, x: seq<E>)
    requires TreeOf(g, true, sblocks, pageInit, dblocks, buffers)
    requires so in sblocks && SblockDblock(so, d) in dblocks
    requires DblkNpages(g, so + g.iblockNsblks) > 0
    requires b < |pageInit[so]| && BitDblk(b, DblkNpages(g, so + g.iblockNsblks)) == d
    ensures TreeOf(g, true, sblocks, pageInit[so := pageInit[so][b := true]], dblocks,
                   buffers[DblkPage(so, b) := x])
    ensures forall so': nat, b': nat ::
              BitSet(pageInit[so := pageInit[so][b := true]], so', b') <==>
              BitSet(pageInit, so', b') || (so' == so && b' == b)
  {
    var np := pageInit[so := pageInit[so][b := true]];
    var nb := buffers[DblkPage(so, b) := x];
    BitSetAdd(pageInit, so, b);
    forall so': nat, b': nat
      ensures DblkPage(so', b') in nb <==> BitSet(np, so', b')
    {
    }
    forall so': nat, b': nat | BitSet(np, so', b')
      ensures DblkNpages(g, so' + g.iblockNsblks) > 0
              && SblockDblock(so', BitDblk(b', DblkNpages(g, so' + g.iblockNsblks))) in dblocks
    {
      if !(so' == so && b' == b) {
        assert BitSet(pageInit, so', b');
      }
    }
    forall so': nat | so' in sblocks
      ensures |np[so']| == BitmapLen(g, so' + g.iblockNsblks)
    {
    }
  }

  /** Replacing the contents of an existing buffer keeps the tree. */
  lemma TreeWrite<E>(g: Geometry, iblockDefined: bool, sblocks: set<nat>, pageInit: map<nat, seq<bool>>,
                     dblocks: set<Thing>, buffers: map<Thing, seq<E>>, t: Thing, x: seq<E>)
    requires TreeOf(g, iblockDefined, sblocks, pageInit, dblocks, buffers)
    requires t in buffers
    ensures TreeOf(g, iblockDefined, sblocks, pageInit, dblocks, buffers[t := x])
  {
  }

  /** The shared header of one extensible array, with the metadata created
      so far: the index block, super blocks with their page-initialised
      bitmaps, data blocks, and the element buffers of the index block,
      of unpaged data blocks and of pages. */
  class ExtArray<E> {
    const geom: Geometry
    const fill: E
    /** Whether the index block has been created (idx_blk_addr defined). */
    var iblockDefined: bool
    /** The super blocks created, by their slot in the index block. */
    var sblocks: set<nat>
    /** Each created super block's page-initialised bitmap. */
    var pageInit: map<nat, seq<bool>>
    /** The data blocks created (their addresses are defined). */
    var dblocks: set<Thing>
    /** The element buffers of the metadata created. */
    var buffers: map<Thing, seq<E>>
    /** One past the highest index ever set (max_idx_set). */
    var maxIdxSet: nat
    /** File reference count and deletion state of the shared header. */
    var refs: L.RefState
    /** The array's value: element i for every i < max_idx_set. */
    ghost var contents: seq<E>

    /** Bit b of super block so's page-initialised bitmap is set. */
    ghost predicate PageBit(so: nat, b: nat)
      reads this
    {
      BitSet(pageInit, so, b)
    }

    /** Everything the lookup of location w checks for exists: the index
        block, then the super block, the data block and the page bit. */
    ghost predicate Reachable(w: Where)
      reads this
    {
      match w
      case InIndexBlock(_) => iblockDefined
      case InIblockDblock(_, d, _) => iblockDefined && IblockDblock(d) in dblocks
      case InSblockDblock(_, so, d, _) =>
        iblockDefined && so in sblocks && SblockDblock(so, d) in dblocks
      case InDblkPage(_, so, d, _, b, _) =>
        iblockDefined && so in sblocks && SblockDblock(so, d) in dblocks && PageBit(so, b)
    }

    ghost predicate Tree()
      reads this
    {
      TreeOf(geom, iblockDefined, sblocks, pageInit, dblocks, buffers)
    }

    ghost predicate Valid()
      reads this
    {
      && GeometryOk(geom)
      && |contents| == maxIdxSet <= Capacity(geom)
      && Tree()
      && AllSlots(geom, buffers, contents, fill)
    }

    /** An element's buffer exists exactly when everything on its lookup path
        does. */
    lemma BufferIffReachable(idx: nat)
      requires Valid() && idx < Capacity(geom)
      ensures ThingOf(Locate(geom, idx)) in buffers <==> Reachable(Locate(geom, idx))
    {
      var w := Locate(geom, idx);
      LocateSound(geom, idx);
      if w.InDblkPage? {
        BitDblkOf(DblkNpages(geom, w.sblk), w.dblkIdx, w.pageIdx);
      }
    }

    /** H5EA_create: a header with no index block and one open handle; the
        array is empty. */
    constructor Create(g: Geometry, fillValue: E)
      requires GeometryOk(g)
      ensures Valid()
      ensures geom == g && fill == fillValue
      ensures !iblockDefined && buffers == map[] && contents == [] && maxIdxSet == 0
      ensures refs == L.Created()
    {
      geom := g;
      fill := fillValue;
      iblockDefined := false;
      sblocks := {};
      pageInit := map[];
      dblocks := {};
      buffers := map[];
      maxIdxSet := 0;
      refs := L.Created();
      contents := [];
    }

    /** H5EA_get_nelmts: one past the highest index ever set. */
    method GetNelmts() returns (n: nat)
      requires Valid()
      ensures n == |contents|
    {
      n := maxIdxSet;
    }

    /** Creating the index block: its elements hold the fill value. What the
        array reads does not change. */
    method CreateIblock()
      requires Valid() && !iblockDefined
      modifies this
      ensures Valid() && iblockDefined
      ensures buffers == old(buffers)[IndexBlock := seq(geom.idxBlkElmts, _ => fill)]
      ensures sblocks == old(sblocks) && dblocks == old(dblocks) && pageInit == old(pageInit)
      ensures contents == old(contents) && maxIdxSet == old(maxIdxSet) && refs == old(refs)
    {
      FitsIndexBlock(geom);
      AddFillBuffer(geom, buffers, contents, fill, IndexBlock, geom.idxBlkElmts);
      TreeAddIblock(geom, sblocks, pageInit, dblocks, buffers, seq(geom.idxBlkElmts, _ => fill));
      iblockDefined := true;
      buffers := buffers[IndexBlock := seq(geom.idxBlkElmts, _ => fill)];
    }

    /** Creating data block d whose address the index block holds, of
        nelmts elements holding the fill value. */
    method CreateIblockDblock(d: nat, nelmts: nat)
      requires Valid() && iblockDefined
      requires IblockDblock(d) !in dblocks && Fits(geom, IblockDblock(d), nelmts)
      modifies this
      ensures Valid()
      ensures dblocks == old(dblocks) + {IblockDblock(d)}
      ensures buffers == old(buffers)[IblockDblock(d) := seq(nelmts, _ => fill)]
      ensures iblockDefined && sblocks == old(sblocks) && pageInit == old(pageInit)
      ensures contents == old(contents) && maxIdxSet == old(maxIdxSet) && refs == old(refs)
    {
      AddFillBuffer(geom, buffers, contents, fill, IblockDblock(d), nelmts);
      TreeAddIblockDblock(geom, sblocks, pageInit, dblocks, buffers, d, seq(nelmts, _ => fill));
      dblocks := dblocks + {IblockDblock(d)};
      buffers := buffers[IblockDblock(d) := seq(nelmts, _ => fill)];
    }

    /** Creating super block so: its page-initialised bitmap is all clear and
        none of its data blocks exists yet. */
    method CreateSblock(so: nat)
      requires Valid() && iblockDefined && so + geom.iblockNsblks < |geom.sblkInfo|
      requires so !in sblocks
      modifies this
      ensures Valid()
      ensures sblocks == old(sblocks) + {so}
      ensures pageInit == old(pageInit)[so := seq(BitmapLen(geom, so + geom.iblockNsblks), _ => false)]
      ensures forall so': nat, b: nat :: PageBit(so', b) == old(PageBit(so', b))
      ensures iblockDefined && dblocks == old(dblocks) && buffers == old(buffers)
      ensures contents == old(contents) && maxIdxSet == old(maxIdxSet) && refs == old(refs)
    {
      TreeAddSblock(geom, sblocks, pageInit, dblocks, buffers, so);
      sblocks := sblocks + {so};
      pageInit := pageInit[so := seq(BitmapLen(geom, so + geom.iblockNsblks), _ => false)];
    }

    /** Creating unpaged data block d of super block so, of nelmts elements
        holding the fill value. */
    method CreateSblockDblock(so: nat, d: nat, nelmts: nat)
      requires Valid() && so in sblocks
      requires DblkNpages(geom, so + geom.iblockNsblks) == 0
      requires SblockDblock(so, d) !in dblocks && Fits(geom, SblockDblock(so, d), nelmts)
      modifies this
      ensures Valid()
      ensures dblocks == old(dblocks) + {SblockDblock(so, d)}
      ensures buffers == old(buffers)[SblockDblock(so, d) := seq(nelmts, _ => fill)]
      ensures iblockDefined && sblocks == old(sblocks) && pageInit == old(pageInit)
      ensures contents == old(contents) && maxIdxSet == old(maxIdxSet) && refs == old(refs)
    {
      AddFillBuffer(geom, buffers, contents, fill, SblockDblock(so, d), nelmts);
      TreeAddSblockDblock(geom, sblocks, pageInit, dblocks, buffers, so, d, seq(nelmts, _ => fill));
      dblocks := dblocks + {SblockDblock(so, d)};
      buffers := buffers[SblockDblock(so, d) := seq(nelmts, _ => fill)];
    }

    /** Creating paged data block d of super block so: it starts with no page
        created, and no element buffer appears. */
    method CreatePagedDblock(so: nat, d: nat)
      requires Valid() && so in sblocks
      requires DblkNpages(geom, so + geom.iblockNsblks) > 0
      requires SblockDblock(so, d) !in dblocks
      modifies this
      ensures Valid()
      ensures dblocks == old(dblocks) + {SblockDblock(so, d)}
      ensures iblockDefined && buffers == old(buffers) && sblocks == old(sblocks) && pageInit == old(pageInit)
      ensures contents == old(contents) && maxIdxSet == old(maxIdxSet) && refs == old(refs)
    {
      TreeAddPagedDblock(geom, sblocks, pageInit, dblocks, buffers, so, d);
      dblocks := dblocks + {SblockDblock(so, d)};
    }

    /** Creating the page whose bit is b in super block so, inside data block
        d, with page_nelmts elements holding the fill value, and setting the
        bit. */
    method CreateDblkPage(so: nat, d: nat, b: nat)
      requires Valid() && so in sblocks && SblockDblock(so, d) in dblocks
      requires DblkNpages(geom, so + geom.iblockNsblks) > 0
      requires b < |pageInit[so]| && BitDblk(b, DblkNpages(geom, so + geom.iblockNsblks)) == d
      requires !PageBit(so, b) && Fits(geom, DblkPage(so, b), geom.dblkPageNelmts)
      modifies this
      ensures Valid()
      ensures forall so': nat, b': nat :: PageBit(so', b') <==> old(PageBit(so', b')) || (so' == so && b' == b)
      ensures buffers == old(buffers)[DblkPage(so, b) := seq(geom.dblkPageNelmts, _ => fill)]
      ensures iblockDefined && sblocks == old(sblocks) && dblocks == old(dblocks)
      ensures contents == old(contents) && maxIdxSet == old(maxIdxSet) && refs == old(refs)
    {
      AddFillBuffer(geom, buffers, contents, fill, DblkPage(so, b), geom.dblkPageNelmts);
      TreeAddPage(geom, sblocks, pageInit, dblocks, buffers, so, d, b, seq(geom.dblkPageNelmts, _ => fill));
      pageInit := pageInit[so := pageInit[so][b := true]];
      buffers := buffers[DblkPage(so, b) := seq(geom.dblkPageNelmts, _ => fill)];
    }
  
    /** H5EA__lookup_elmt: finds the piece of metadata holding element idx
        and the element's offset in its buffer. With write access it first
        creates whatever is missing on the way (index block; data block, or
        super block, data block, page and its bit); with read-only access it
        creates nothing and reports no metadata, with a zero offset, as soon
        as something on the way is missing. */
    method LookupElmt(idx: nat, readOnly: bool) returns (thing: Option<Thing>, elmtIdx: nat)
      requires Valid() && idx < Capacity(geom)
      modifies this
      ensures Valid()
      ensures contents == old(contents) && maxIdxSet == old(maxIdxSet) && refs == old(refs)
      ensures readOnly ==> unchanged(this)
      ensures thing.Some? <==> !readOnly || ThingOf(Locate(geom, idx)) in old(buffers)
      ensures thing.Some? ==> thing.value == ThingOf(Locate(geom, idx))
                              && elmtIdx == Locate(geom, idx).elmtIdx
                              && thing.value in buffers && elmtIdx < |buffers[thing.value]|
      ensures thing.None? ==> elmtIdx == 0
      ensures forall t: Thing :: t in old(buffers) ==> t in buffers && buffers[t] == old(buffers)[t]
      ensures forall so: nat, b: nat :: old(PageBit(so, b)) ==> PageBit(so, b)
      ensures !readOnly && Locate(geom, idx).InDblkPage? ==>
                PageBit(Locate(geom, idx).sblkOff, Locate(geom, idx).pageInitIdx)
    {
      thing := None;
      elmtIdx := 0;
      var w := Locate(geom, idx);
      LocateSound(geom, idx);
      BufferIffReachable(idx);
      if !iblockDefined {
        if readOnly {
          return;
        }
        CreateIblock();
      }
      if w.InIblockDblock? {
        var found := LookupInIblockDblock(idx, readOnly);
        if !found {
          return;
        }
      } else if !w.InIndexBlock? {
        var found := LookupInSblock(idx, readOnly);
        if !found {
          return;
        }
      }
      BufferIffReachable(idx);
      assert SlotHolds(geom, buffers, contents, fill, idx);
      thing := Some(ThingOf(w));
      elmtIdx := w.elmtIdx;
    }

    /** The index block data block part of the lookup, once the index block
        exists: a missing data block is created with write access and
        reported missing with read-only access. */
    method LookupInIblockDblock(idx: nat, readOnly: bool) returns (found: bool)
      requires Valid() && iblockDefined && idx < Capacity(geom)
      requires Locate(geom, idx).InIblockDblock?
      modifies this
      ensures Valid()
      ensures contents == old(contents) && maxIdxSet == old(maxIdxSet) && refs == old(refs)
      ensures readOnly ==> unchanged(this)
      ensures found <==> !readOnly || old(Reachable(Locate(geom, idx)))
      ensures found ==> Reachable(Locate(geom, idx))
      ensures forall t: Thing :: t in old(buffers) ==> t in buffers && buffers[t] == old(buffers)[t]
      ensures forall so: nat, b: nat :: old(PageBit(so, b)) ==> PageBit(so, b)
    {
      var w := Locate(geom, idx);
      LocateSound(geom, idx);
      if IblockDblock(w.dblkIdx) !in dblocks {
        if readOnly {
          return false;
        }
        FitsThingOf(geom, idx);
        CreateIblockDblock(w.dblkIdx, BufLen(geom, w));
      }
      return true;
    }

    /** The super block part of the lookup, for an element beyond the index
        block's data blocks, once the index block exists: the super block,
        the data block and, when paged, the page and its bit. */
    method LookupInSblock(idx: nat, readOnly: bool) returns (found: bool)
      requires Valid() && iblockDefined && idx < Capacity(geom)
      requires Locate(geom, idx).InSblockDblock? || Locate(geom, idx).InDblkPage?
      modifies this
      ensures Valid()
      ensures contents == old(contents) && maxIdxSet == old(maxIdxSet) && refs == old(refs)
      ensures readOnly ==> unchanged(this)
      ensures found <==> !readOnly || old(Reachable(Locate(geom, idx)))
      ensures found ==> Reachable(Locate(geom, idx))
      ensures forall t: Thing :: t in old(buffers) ==> t in buffers && buffers[t] == old(buffers)[t]
      ensures forall so: nat, b: nat :: old(PageBit(so, b)) ==> PageBit(so, b)
    {
      var w := Locate(geom, idx);
      LocateSound(geom, idx);
      var so := w.sblkOff;
      if so !in sblocks {
        if readOnly {
          return false;
        }
        CreateSblock(so);
      }
      found := LookupSblockDblock(idx, readOnly);
    }

    /** The data block step of the super block part of the lookup, once the
        super block exists: a missing data block is created with write
        access and reported missing with read-only access, then the page
        step follows when the data block is paged. */
    method LookupSblockDblock(idx: nat, readOnly: bool) returns (found: bool)
      requires Valid() && iblockDefined && idx < Capacity(geom)
      requires Locate(geom, idx).InSblockDblock? || Locate(geom, idx).InDblkPage?
      requires Locate(geom, idx).sblkOff in sblocks
      modifies this
      ensures Valid()
      ensures contents == old(contents) && maxIdxSet == old(maxIdxSet) && refs == old(refs)
      ensures readOnly ==> unchanged(this)
      ensures found <==> !readOnly || old(Reachable(Locate(geom, idx)))
      ensures found ==> Reachable(Locate(geom, idx))
      ensures forall t: Thing :: t in old(buffers) ==> t in buffers && buffers[t] == old(buffers)[t]
      ensures forall so: nat, b: nat :: old(PageBit(so, b)) ==> PageBit(so, b)
    {
      var w := Locate(geom, idx);
      LocateSound(geom, idx);
      var so := w.sblkOff;
      if SblockDblock(so, w.dblkIdx) !in dblocks {
        if readOnly {
          return false;
        }
        if w.InDblkPage? {
          CreatePagedDblock(so, w.dblkIdx);
        } else {
          FitsThingOf(geom, idx);
          CreateSblockDblock(so, w.dblkIdx, BufLen(geom, w));
        }
      }
      if w.InDblkPage? {
        found := LookupDblkPage(idx, readOnly);
        return;
      }
      return true;
    }

    /** The page step of H5EA__lookup_elmt, once the element's super block
        and data block exist: a page whose bit is clear is created with
        write access, and reported missing with read-only access. */
    method LookupDblkPage(idx: nat, readOnly: bool) returns (found: bool)
      requires Valid() && iblockDefined && idx < Capacity(geom)
      requires Locate(geom, idx).InDblkPage?
      requires Locate(geom, idx).sblkOff in sblocks
      requires SblockDblock(Locate(geom, idx).sblkOff, Locate(geom, idx).dblkIdx) in dblocks
      modifies this
      ensures Valid()
      ensures contents == old(contents) && maxIdxSet == old(maxIdxSet) && refs == old(refs)
      ensures readOnly ==> unchanged(this)
      ensures found <==> !readOnly || old(Reachable(Locate(geom, idx)))
      ensures found ==> Reachable(Locate(geom, idx))
      ensures forall t: Thing :: t in old(buffers) ==> t in buffers && buffers[t] == old(buffers)[t]
      ensures forall so: nat, b: nat :: old(PageBit(so, b)) ==> PageBit(so, b)
    {
      var w := Locate(geom, idx);
      LocateSound(geom, idx);
      var so := w.sblkOff;
      if !pageInit[so][w.pageInitIdx] {
        if readOnly {
          return false;
        }
        FitsThingOf(geom, idx);
        BitDblkOf(DblkNpages(geom, w.sblk), w.dblkIdx, w.pageIdx);
        CreateDblkPage(so, w.dblkIdx, w.pageInitIdx);
      }
      return true;
    }
  
    /** H5EA_set: stores an element, creating the metadata on its way;
        max_idx_set rises to idx + 1 exactly when idx is at or past it, so
        the array grows by the fill value up to idx. */
    method Set(idx: nat, v: E)
      requires Valid() && idx < Capacity(geom)
      modifies this
      ensures Valid()
      ensures maxIdxSet == if idx >= old(maxIdxSet) then idx + 1 else old(maxIdxSet)
      ensures contents == SetValue(old(contents), idx, v, fill)
      ensures refs == old(refs)
    {
      var thing, elmtIdx := LookupElmt(idx, false);
      var t := thing.value;
      WriteSlot(geom, buffers, contents, fill, idx, v);
      TreeWrite(geom, iblockDefined, sblocks, pageInit, dblocks, buffers, t, buffers[t][elmtIdx := v]);
      buffers := buffers[t := buffers[t][elmtIdx := v]];
      contents := SetValue(contents, idx, v, fill);
      if idx >= maxIdxSet {
        maxIdxSet := idx + 1;
      }
    }

    /** H5EA_get: an element of the array. At or past max_idx_set it is the
        fill value, read without any lookup; below it, a read-only lookup
        gives the element, or the fill value when its metadata was never
        created. Nothing changes. */
    method Get(idx: nat) returns (v: E)
      requires Valid()
      modifies this
      ensures unchanged(this)
      ensures v == if idx < |contents| then contents[idx] else fill
    {
      if idx >= maxIdxSet {
        v := fill;
      } else {
        var thing, elmtIdx := LookupElmt(idx, true);
        assert SlotHolds(geom, buffers, contents, fill, idx);
        if thing.None? {
          v := fill;
        } else {
          v := buffers[thing.value][elmtIdx];
        }
      }
    }

    /** H5EA_open: a further handle on the header, refused when the header
        is gone or pending deletion. */
    method Open() returns (ok: bool)
      modifies this`refs
      ensures ok <==> L.Open(old(refs)).Ok?
      ensures refs == if ok then L.Open(old(refs)).value else old(refs)
    {
      var r := L.Open(refs);
      ok := r.Ok?;
      if ok {
        refs := r.value;
      }
    }

    /** H5EA_close: drops a handle; the last close of a pending array
        deletes it. */
    method Close()
      requires refs.fileRc > 0
      modifies this`refs
      ensures refs == L.Close(old(refs))
    {
      refs := L.Close(refs);
    }

    /** H5EA_delete: deletes the array now, or marks it pending while
        handles are open. */
    method Delete() returns (ok: bool)
      modifies this`refs
      ensures ok <==> L.Delete(old(refs)).Ok?
      ensures refs == if ok then L.Delete(old(refs)).value else old(refs)
    {
      var r := L.Delete(refs);
      ok := r.Ok?;
      if ok {
        refs := r.value;
      }
    }
  }

  /** Set then get: the element reads back as the value written, an element
      below it keeps its value, and one between the old end and idx reads as
      the fill value. */
  method SetThenGet<E>(a: ExtArray<E>, idx: nat, other: nat, v: E) returns (got: E, kept: E)
    requires a.Valid() && idx < Capacity(a.geom) && other != idx
    modifies a
    ensures got == v
    ensures other < |old(a.contents)| ==> kept == old(a.contents)[other]
    ensures |old(a.contents)| <= other < idx ==> kept == a.fill
  {
    a.Set(idx, v);
    got := a.Get(idx);
    kept := a.Get(other);
  }
}
