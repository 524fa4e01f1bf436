/**
  The fixed array: a shared header with a fixed element count and, once
  the first element is written, one data block. When the array holds more
  elements than one page, the data block is split into pages that are
  created on first write and tracked by the data block's page-initialised
  bitmap; until then every element reads as the class's fill value.
 */
module FixedArray {
  import opened FixedArrayCache
  import L = Lifecycle

  /** Where element idx of a paged data block lives, for a page size pn, a
      page count np and a last page of `last` elements: its page exists,
      and its offset lies inside that page (the last page may be short). */
  lemma PageSlot(pn: nat, np: nat, last: nat, nelmts: nat, idx: nat)
    requires pn >= 1 && np > 0 && 1 <= last <= pn
    requires (np - 1) * pn + last == nelmts
    requires idx < nelmts
    ensures idx / pn < np
    ensures idx % pn < (if idx / pn + 1 == np then last else pn)
  {
    var q := idx / pn;
    var r := idx % pn;
    assert idx == q * pn + r;
    if q + 1 == np {
      assert q * pn + r < q * pn + last;
    }
  }

  /** Two indexes with the same page and the same offset are equal. */
  lemma SlotDistinct(pn: nat, i: nat, j: nat)
    requires pn >= 1 && i != j && i / pn == j / pn
    ensures i % pn != j % pn
  {
    assert i == (i / pn) * pn + i % pn;
    assert j == (j / pn) * pn + j % pn;
  }

  /** What element i reads as in a paged data block with pages of pn
      elements: its page's entry when the page exists, the fill value
      otherwise. */
  function PagedAt<E>(pn: nat, pageInit: seq<bool>, pages: map<nat, seq<E>>, fill: E, i: nat): E
    requires pn >= 1
  {
    var p := i / pn;
    var o := i % pn;
    if p < |pageInit| && pageInit[p] && p in pages && o < |pages[p]| then pages[p][o] else fill
  }

  /** Elements on page p of np pages of pn elements whose last page holds
      `last`. */
  function PageLenOf(np: nat, pn: nat, last: nat, p: nat): nat
  {
    if p + 1 == np then last else pn
  }

  /** A paged data block of np pages holding `contents`: one bit per page,
      a page exactly where its bit is set, each page of its length, and
      every element reading as PagedAt says. */
  ghost predicate PagedBlock<E>(np: nat, pn: nat, last: nat, pageInit: seq<bool>, pages: map<nat, seq<E>>,
                                fill: E, contents: seq<E>)
  {
    && pn >= 1
    && |pageInit| == np
    && (forall p :: p in pages <==> 0 <= p < |pageInit| && pageInit[p])
    && (forall p :: p in pages ==> |pages[p]| == PageLenOf(np, pn, last, p))
    && forall i :: 0 <= i < |contents| ==> contents[i] == PagedAt(pn, pageInit, pages, fill, i)
  }

  /** Writing v into the slot of element idx of an existing page changes
      what idx reads as, to v, and nothing else. */
  lemma PagedWrite<E>(np: nat, pn: nat, last: nat, pageInit: seq<bool>, pages: map<nat, seq<E>>,
                      fill: E, contents: seq<E>, idx: nat, v: E)
    requires PagedBlock(np, pn, last, pageInit, pages, fill, contents)
    requires idx < |contents| && idx / pn < np && pageInit[idx / pn]
    requires idx % pn < PageLenOf(np, pn, last, idx / pn)
    ensures idx / pn in pages && idx % pn < |pages[idx / pn]|
    ensures PagedBlock(np, pn, last, pageInit, pages[idx / pn := pages[idx / pn][idx % pn := v]],
                       fill, contents[idx := v])
  {
    var written := pages[idx / pn := pages[idx / pn][idx % pn := v]];
    forall i | 0 <= i < |contents|
      ensures contents[idx := v][i] == PagedAt(pn, pageInit, written, fill, i)
    {
      if i != idx && i / pn == idx / pn {
        SlotDistinct(pn, i, idx);
      }
    }
  }

  /** Creating page q, filled with the fill value, and setting its bit
      changes what no element reads as. */
  lemma PagedCreate<E>(np: nat, pn: nat, last: nat, pageInit: seq<bool>, pages: map<nat, seq<E>>,
                       fill: E, contents: seq<E>, q: nat)
    requires PagedBlock(np, pn, last, pageInit, pages, fill, contents)
    requires q < np && !pageInit[q]
    requires forall i :: 0 <= i < |contents| && i / pn == q ==> i % pn < PageLenOf(np, pn, last, q)
    ensures PagedBlock(np, pn, last, pageInit[q := true], pages[q := seq(PageLenOf(np, pn, last, q), _ => fill)],
                       fill, contents)
  {
  }

  /** The shared header of one fixed array, with its data block and pages. */
  class Header<E> {
    const cparam: CParam
    const fill: E
    /** Elements per data block page (dblk_page_nelmts). */
    const pageNelmts: nat
    /** Pages in the data block; 0 when it is not paged. */
    const npages: nat
    /** Elements on the last page (last_page_nelmts). */
    const lastPageNelmts: nat
    /** Whether the data block has been created (its address is defined). */
    var dblkDefined: bool
    /** Elements of an unpaged data block. */
    var elmts: array?<E>
    /** The page-initialised bitmap of a paged data block, one flag per page. */
    var pageInit: seq<bool>
    /** The created pages of a paged data block, by page index. */
    var pages: map<nat, seq<E>>
    /** File reference count and deletion state of the shared header. */
    var refs: L.RefState
    /** The array's value: element i for every i < nelmts. */
    ghost var contents: seq<E>

    /** The page geometry is the one the data block's file image has. */
    ghost predicate Geometry()
    {
      && pageNelmts == PageNelmts(cparam)
      && npages == NPages(cparam)
      && lastPageNelmts == LastPageNelmts(cparam)
    }

    /** The page geometry in plain arithmetic: pages of pageNelmts elements,
        and a last page completing the element count. */
    ghost predicate Shape()
    {
      && pageNelmts >= 1
      && (npages == 0 <==> cparam.nelmts <= pageNelmts)
      && 1 <= lastPageNelmts <= pageNelmts
      && (npages > 0 ==> (npages - 1) * pageNelmts + lastPageNelmts == cparam.nelmts)
    }

    /** Elements on page p. */
    function PageLen(p: nat): nat
    {
      PageLenOf(npages, pageNelmts, lastPageNelmts, p)
    }

    ghost predicate Valid()
      reads this, elmts
    {
      && Shape()
      && |contents| == cparam.nelmts
      && (!dblkDefined ==> forall i :: 0 <= i < |contents| ==> contents[i] == fill)
      && (dblkDefined && npages == 0 ==>
            && elmts != null && elmts.Length == cparam.nelmts
            && forall i :: 0 <= i < |contents| ==> contents[i] == elmts[i])
      && (dblkDefined && npages > 0 ==>
            PagedBlock(npages, pageNelmts, lastPageNelmts, pageInit, pages, fill, contents))
    }

    /** H5FA_create: a new header with no data block and one open handle;
        every element reads as the fill value. */
    constructor Create(cp: CParam, fillValue: E)
      ensures Valid() && Geometry()
      ensures cparam == cp && fill == fillValue
      ensures !dblkDefined
      ensures contents == seq(cp.nelmts, _ => fillValue)
      ensures refs == L.Created()
    {
      cparam := cp;
      fill := fillValue;
      pageNelmts := PageNelmts(cp);
      npages := NPages(cp);
      lastPageNelmts := LastPageNelmts(cp);
      dblkDefined := false;
      elmts := null;
      pageInit := [];
      pages := map[];
      refs := L.Created();
      contents := seq(cp.nelmts, _ => fillValue);
      new;
      if npages > 0 {
        LastPageSplit(cp);
      }
    }

    /** H5FA_get_nelmts: the element count kept in the header's statistics. */
    method GetNelmts() returns (n: nat)
      requires Valid()
      ensures n == |contents|
    {
      n := cparam.nelmts;
    }

    /** H5FA_set: stores an element, first creating the data block and, when
        paged, the element's page (whose bit it sets); nothing else changes. */
    method Set(idx: nat, v: E)
      requires Valid() && idx < cparam.nelmts
      modifies this, elmts
      ensures Valid()
      ensures contents == old(contents)[idx := v]
      ensures dblkDefined
      ensures npages > 0 ==>
                forall p :: 0 <= p < |pageInit| ==>
                  pageInit[p] == (p == idx / pageNelmts
                                  || (old(dblkDefined) && p < |old(pageInit)| && old(pageInit)[p]))
      ensures refs == old(refs)
    {
      if !dblkDefined {
        CreateDblock();
      }
      if npages == 0 {
        elmts[idx] := v;
        contents := contents[idx := v];
      } else {
        SetPaged(idx, v);
      }
    }

    /** Creating the data block on first write: every element of an unpaged
        block holds the fill value, and a paged block starts with no page
        created. What the array reads does not change. */
    method CreateDblock()
      requires Valid() && !dblkDefined
      modifies this
      ensures Valid() && dblkDefined
      ensures contents == old(contents) && refs == old(refs)
      ensures npages == 0 ==> fresh(elmts)
      ensures npages > 0 ==> pageInit == seq(npages, _ => false) && pages == map[]
    {
      dblkDefined := true;
      if npages == 0 {
        var f := fill;
        elmts := new E[cparam.nelmts](_ => f);
      } else {
        pageInit := seq(npages, _ => false);
        pages := map[];
      }
    }

    /** Stores an element of a paged data block, creating its page filled
        with the fill value when its bit is clear, and setting the bit. */
    method SetPaged(idx: nat, v: E)
      requires Valid() && dblkDefined && npages > 0 && idx < cparam.nelmts
      modifies this
      ensures Valid() && dblkDefined && elmts == old(elmts) && refs == old(refs)
      ensures contents == old(contents)[idx := v]
      ensures idx / pageNelmts < |old(pageInit)|
      ensures pageInit == old(pageInit)[idx / pageNelmts := true]
    {
      var pn := pageNelmts;
      var pageIdx := idx / pn;
      var elmtIdx := idx % pn;
      PageSlot(pn, npages, lastPageNelmts, cparam.nelmts, idx);
      if !pageInit[pageIdx] {
        CreatePage(pageIdx);
      }
      PagedWrite(npages, pn, lastPageNelmts, pageInit, pages, fill, contents, idx, v);
      pages := pages[pageIdx := pages[pageIdx][elmtIdx := v]];
      contents := contents[idx := v];
    }

    /** Creating page pageIdx of a paged data block on its first write: the
        page holds the fill value everywhere and its bit is set, so what the
        array reads does not change. */
    method CreatePage(pageIdx: nat)
      requires Valid() && dblkDefined && npages > 0
      requires pageIdx < |pageInit| && !pageInit[pageIdx]
      modifies this
      ensures Valid() && dblkDefined && elmts == old(elmts) && refs == old(refs)
      ensures contents == old(contents)
      ensures pageInit == old(pageInit)[pageIdx := true]
      ensures pages == old(pages)[pageIdx := seq(PageLen(pageIdx), _ => fill)]
    {
      var pn := pageNelmts;
      forall i | 0 <= i < |contents| && i / pn == pageIdx
        ensures i % pn < PageLen(pageIdx)
      {
        PageSlot(pn, npages, lastPageNelmts, cparam.nelmts, i);
      }
      PagedCreate(npages, pn, lastPageNelmts, pageInit, pages, fill, contents, pageIdx);
      pages := pages[pageIdx := seq(PageLen(pageIdx), _ => fill)];
      pageInit := pageInit[pageIdx := true];
    }

    /** H5FA_get: an element of the array; the fill value while the data
        block does not exist, or while the element's page does not. */
    method Get(idx: nat) returns (v: E)
      requires Valid() && (idx < cparam.nelmts || !dblkDefined)
      ensures v == if idx < cparam.nelmts then contents[idx] else fill
      ensures !dblkDefined ==> v == fill
      ensures dblkDefined && npages > 0 && idx / pageNelmts < |pageInit| && !pageInit[idx / pageNelmts] ==> v == fill
    {
      if !dblkDefined {
        v := fill;
      } else if npages == 0 {
        v := elmts[idx];
      } else {
        var pn := pageNelmts;
        var pageIdx := idx / pn;
        PageSlot(pn, npages, lastPageNelmts, cparam.nelmts, idx);
        if !pageInit[pageIdx] {
          v := fill;
        } else {
          var elmtIdx := idx % pn;
          v := pages[pageIdx][elmtIdx];
        }
      }
    }

    /** H5FA_iterate: calls op on every element in index order, stops at the
        first negative result and returns it; returns 0 when none is
        negative. */
    method Iterate(op: (nat, E) -> int) returns (ret: int)
      requires Valid()
      ensures ret <= 0
      ensures ret < 0 <==> exists u :: 0 <= u < |contents| && op(u, contents[u]) < 0
      ensures ret < 0 ==>
                exists u :: 0 <= u < |contents| && op(u, contents[u]) == ret
                            && forall j :: 0 <= j < u ==> op(j, contents[j]) >= 0
    {
      var n := GetNelmts();
      var u := 0;
      while u < n
        invariant 0 <= u <= n
        invariant forall j :: 0 <= j < u ==> op(j, contents[j]) >= 0
      {
        var e := Get(u);
        var cbRet := op(u, e);
        if cbRet < 0 {
          return cbRet;
        }
        u := u + 1;
      }
      return 0;
    }

    /** H5FA_open: a further handle on the header, refused when the header
        is gone or pending deletion. */
    method Open() returns (ok: bool)
      modifies this`refs
      ensures ok <==> L.Open(old(refs)).Ok?
      ensures refs == if ok then L.Open(old(refs)).value else old(refs)
    {
      var r := L.Open(refs);
      ok := r.Ok?;
      if ok {
        refs := r.value;
      }
    }

    /** H5FA_close: drops a handle; the last close of a pending array
        deletes it. */
    method Close()
      requires refs.fileRc > 0
      modifies this`refs
      ensures refs == L.Close(old(refs))
    {
      refs := L.Close(refs);
    }

    /** H5FA_delete: deletes the array now, or marks it pending while
        handles are open. */
    method Delete() returns (ok: bool)
      modifies this`refs
      ensures ok <==> L.Delete(old(refs)).Ok?
      ensures refs == if ok then L.Delete(old(refs)).value else old(refs)
    {
      var r := L.Delete(refs);
      ok := r.Ok?;
      if ok {
        refs := r.value;
      }
    }
  }

  /** Set then get: every element reads back as the last value written to
      it, and the elements around it keep theirs. */
  method SetThenGet<E>(a: Header<E>, idx: nat, other: nat, v: E) returns (got: E, kept: E)
    requires a.Valid() && idx < a.cparam.nelmts && other < a.cparam.nelmts && other != idx
    modifies a, a.elmts
    ensures got == v
    ensures kept == old(a.contents)[other]
  {
    a.Set(idx, v);
    got := a.Get(idx);
    kept := a.Get(other);
  }
}
