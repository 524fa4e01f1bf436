/**
  The on-disk images of the fixed array's three metadata objects (the
  header, the data block and the data block page) as the metadata cache
  reads and writes them: their sizes, their layouts, the checks a decoder
  makes in order, and the round trips between encoder and decoder.

  The checksum routine is a parameter (any function from the checked bytes
  to a 32-bit value); the client class's element encoder and decoder are
  taken to copy each element's raw file image unchanged, so an element is
  its rawElmtSize-byte image.
 */
module FixedArrayCache {
  import opened Bytes

  /** "FAHD": signature of a fixed array header. */
  const HdrMagic: seq<Byte> := [0x46, 0x41, 0x48, 0x44]
  /** "FADB": signature of a fixed array data block. */
  const DblockMagic: seq<Byte> := [0x46, 0x41, 0x44, 0x42]
  const HdrVersion: Byte := 0
  const DblockVersion: Byte := 0
  const SizeofMagic: nat := 4
  const SizeofChksum: nat := 4

  /** What a decoder needs from the file: the widths of addresses and of
      lengths, and how many client classes are registered. */
  datatype FileCtx = FileCtx(sizeofAddr: nat, sizeofSize: nat, numClasses: nat)

  /** Creation parameters stored in the header. */
  datatype CParam = CParam(clsId: Byte, rawElmtSize: Byte, maxDblkPageNelmtsBits: Byte, nelmts: nat)

  /** The header fields that reach the file, plus its own address and the
      data block size kept in its statistics. */
  datatype Hdr = Hdr(addr: Addr, cparam: CParam, statsNelmts: nat, dblkAddr: Addr, dblkSize: nat)

  /** A data block: its page count and page-initialised bitmap when paged,
      its elements when not, and its size in the file. */
  datatype Dblock = Dblock(addr: Addr, npages: nat, pageInitSize: nat, pageInit: seq<Byte>,
                           elmts: seq<seq<Byte>>, size: nat)

  /** A data block page: its elements and its size in the file. */
  datatype Page = Page(elmts: seq<seq<Byte>>, size: nat)

  datatype CodecError = WrongSignature | WrongVersion | WrongClass | WrongHeaderAddr | WrongChecksum

  datatype Result<T> = Ok(value: T) | Fail(err: CodecError)

  type Checksum = seq<Byte> -> Uint32

  // ---------------------------------------------------------------------
  // Page geometry shared with the fixed array operations

  function Pow2(n: nat): (r: nat)
    ensures r >= 1
  {
    if n == 0 then 1 else 2 * Pow2(n - 1)
  }

  /** Elements per data block page: 1 << max_dblk_page_nelmts_bits. */
  function PageNelmts(cp: CParam): (p: nat)
    ensures p >= 1
  {
    Pow2(cp.maxDblkPageNelmtsBits)
  }

  /** Number of pages: the array is paged only when it holds more elements
      than one page; then enough pages to hold them all, and no more. */
  function NPages(cp: CParam): (np: nat)
    ensures np == 0 <==> cp.nelmts <= PageNelmts(cp)
  {
    var p := PageNelmts(cp);
    if cp.nelmts > p then (cp.nelmts + p - 1) / p else 0
  }

  /** A paged data block has enough pages for all its elements, and no
      page to spare. */
  lemma NPagesBounds(cp: CParam)
    requires NPages(cp) > 0
    ensures (NPages(cp) - 1) * PageNelmts(cp) < cp.nelmts <= NPages(cp) * PageNelmts(cp)
  {
    CeilDiv(cp.nelmts, PageNelmts(cp));
  }

  /** Bytes of the page-initialised bitmap: one bit per page, rounded up. */
  function PageInitSize(np: nat): (n: nat)
    ensures np <= 8 * n < np + 8
  {
    (np + 7) / 8
  }

  /** Elements on the last page: the remainder, or a full page. */
  function LastPageNelmts(cp: CParam): (n: nat)
    ensures 1 <= n <= PageNelmts(cp)
  {
    var p := PageNelmts(cp);
    var r := cp.nelmts % p;
    if r == 0 then p else r
  }

  /** Elements on page pageIdx of a paged data block. */
  function PageNelmtsAt(cp: CParam, pageIdx: nat): (n: nat)
    ensures 1 <= n <= PageNelmts(cp)
  {
    if pageIdx + 1 == NPages(cp) then LastPageNelmts(cp) else PageNelmts(cp)
  }

  // ---------------------------------------------------------------------
  // Sizes

  /** Header size in the file: signature, version, class, the two
      configuration bytes, the element count, the data block address and
      the checksum. */
  function HeaderSize(ctx: FileCtx): nat
  {
    SizeofMagic + 1 + 1 + 1 + 1 + ctx.sizeofSize + ctx.sizeofAddr + SizeofChksum
  }

  /** Data block prefix: signature, version, class, owner address, bitmap,
      checksum. */
  function DblockPrefixSize(ctx: FileCtx, pageInitSize: nat): nat
  {
    SizeofMagic + 1 + 1 + SizeofChksum + ctx.sizeofAddr + pageInitSize
  }

  /** Data block size in the file: the prefix, every element, and one
      checksum per page. */
  function DblockSize(ctx: FileCtx, cp: CParam): nat
  {
    DblockPrefixSize(ctx, PageInitSize(NPages(cp))) + ElmtsSize(cp, cp.nelmts) + NPages(cp) * SizeofChksum
  }

  /** Bytes of n raw elements. */
  function ElmtsSize(cp: CParam, n: nat): nat
  {
    n * cp.rawElmtSize
  }

  /** Size of a page holding n elements: the elements and a checksum. */
  function PageSize(cp: CParam, n: nat): nat
  {
    ElmtsSize(cp, n) + SizeofChksum
  }

  /** H5FA__cache_dblock_get_load_size: the whole block when it is not paged,
      only its prefix when it is (the pages are separate cache entries). */
  function DblockLoadSize(ctx: FileCtx, cp: CParam): (n: nat)
    ensures NPages(cp) == 0 ==> n == DblockSize(ctx, cp)
    ensures NPages(cp) > 0 ==> n == DblockPrefixSize(ctx, PageInitSize(NPages(cp))) < DblockSize(ctx, cp)
  {
    if NPages(cp) == 0 then DblockSize(ctx, cp)
    else DblockPrefixSize(ctx, PageInitSize(NPages(cp)))
  }

  /** The load size field by field: signature, version, class, owning
      header address, then the bitmap when paged or the elements when not,
      then the checksum. */
  lemma DblockLoadSizeFields(ctx: FileCtx, cp: CParam)
    ensures DblockLoadSize(ctx, cp)
            == 6 + ctx.sizeofAddr
               + (if NPages(cp) > 0 then PageInitSize(NPages(cp)) else ElmtsSize(cp, cp.nelmts))
               + SizeofChksum
  {
  }

  /** H5FA__cache_dblock_image_len, from the data block's own fields. */
  function DblockImageLen(ctx: FileCtx, d: Dblock): nat
  {
    if d.npages == 0 then d.size else DblockPrefixSize(ctx, d.pageInitSize)
  }

  /** H5FA__cache_dblock_fsf_size: the file space of the whole block. */
  function DblockFsfSize(d: Dblock): nat
  {
    d.size
  }

  /** H5FA__cache_dblk_page_get_load_size. */
  function PageLoadSize(cp: CParam, n: nat): (len: nat)
    requires n > 0
    ensures len - SizeofChksum == n * cp.rawElmtSize
  {
    PageSize(cp, n)
  }

  /** H5FA__cache_dblk_page_image_len. */
  function PageImageLen(pg: Page): nat
  {
    pg.size
  }

  // ---------------------------------------------------------------------
  // Elements

  /** The raw images of the elements, one after another. */
  function Flatten(els: seq<seq<Byte>>): seq<Byte>
  {
    if els == [] then [] else els[0] + Flatten(els[1..])
  }

  predicate Sized(els: seq<seq<Byte>>, raw: nat)
  {
    forall i :: 0 <= i < |els| ==> |els[i]| == raw
  }

  /** The byte string cut into n elements of raw bytes each. */
  function Chunk(raw: nat, n: nat, s: seq<Byte>): (r: seq<seq<Byte>>)
    requires |s| == n * raw
    ensures |r| == n && Sized(r, raw)
    decreases n
  {
    if n == 0 then []
    else
      assert n * raw == (n - 1) * raw + raw;
      [s[..raw]] + Chunk(raw, n - 1, s[raw..])
  }

  lemma {:induction false} FlattenLength(els: seq<seq<Byte>>, raw: nat)
    requires Sized(els, raw)
    ensures |Flatten(els)| == |els| * raw
  {
    if els != [] {
      FlattenLength(els[1..], raw);
      assert |els| * raw == (|els| - 1) * raw + raw;
    }
  }

  /** Cutting undoes concatenation. */
  lemma {:induction false} ChunkFlatten(els: seq<seq<Byte>>, raw: nat)
    requires Sized(els, raw)
    ensures |Flatten(els)| == |els| * raw
    ensures Chunk(raw, |els|, Flatten(els)) == els
  {
    FlattenLength(els, raw);
    if els != [] {
      ChunkFlatten(els[1..], raw);
      var s := Flatten(els);
      assert s[..raw] == els[0];
      assert s[raw..] == Flatten(els[1..]);
    }
  }

  /** Concatenation undoes cutting. */
  lemma {:induction false} FlattenChunk(raw: nat, n: nat, s: seq<Byte>)
    requires |s| == n * raw
    ensures Flatten(Chunk(raw, n, s)) == s
    decreases n
  {
    if n > 0 {
      MulPred(n, raw);
      var rest := s[raw..];
      ChunkCons(raw, n - 1, s);
      FlattenChunk(raw, n - 1, rest);
      FlattenCons(s[..raw], Chunk(raw, n - 1, rest));
      assert s == s[..raw] + rest;
    }
  }

  /** Cutting m + 1 elements takes the first and cuts the rest. */
  lemma ChunkCons(raw: nat, m: nat, s: seq<Byte>)
    requires |s| >= raw && |s| - raw == m * raw
    ensures |s| == (m + 1) * raw
    ensures Chunk(raw, m + 1, s) == [s[..raw]] + Chunk(raw, m, s[raw..])
  {
    MulPred(m + 1, raw);
  }

  lemma FlattenCons(x: seq<Byte>, els: seq<seq<Byte>>)
    ensures Flatten([x] + els) == x + Flatten(els)
  {
    assert ([x] + els)[1..] == els;
  }

  lemma MulPred(n: nat, raw: nat)
    requires n >= 1
    ensures n * raw == (n - 1) * raw + raw
    ensures (n - 1) * raw >= 0
  {
  }

  // ---------------------------------------------------------------------
  // Header image

  /** The header bytes the checksum covers. */
  function HdrFields(ctx: FileCtx, h: Hdr): seq<Byte>
  {
    HdrPrefix(h.cparam) + EncodeLE(h.statsNelmts, ctx.sizeofSize) + EncodeAddr(h.dblkAddr, ctx.sizeofAddr)
  }

  /** The first eight header bytes: signature, version, class, element size
      and page-size bits. */
  function HdrPrefix(cp: CParam): seq<Byte>
  {
    HdrMagic + [HdrVersion] + [cp.clsId] + [cp.rawElmtSize] + [cp.maxDblkPageNelmtsBits]
  }

  /** The header image H5FA__cache_hdr_serialize writes: exactly the load
      size, ending in the little-endian checksum of everything before it. */
  function HdrImage(ctx: FileCtx, chk: Checksum, h: Hdr): (r: seq<Byte>)
    ensures |r| == HeaderSize(ctx)
    ensures r[..SizeofMagic] == HdrMagic
    ensures r[|r| - SizeofChksum..] == EncodeLE(chk(r[..|r| - SizeofChksum]), SizeofChksum)
  {
    var fields := HdrFields(ctx, h);
    fields + EncodeLE(chk(fields), SizeofChksum)
  }

  /** A header its own image can carry: a registered class, an element count
      and an address that fit their fields, the statistics that header
      initialisation derives, and its size entry for the data block. */
  predicate HdrWellFormed(ctx: FileCtx, h: Hdr)
  {
    && h.cparam.clsId < ctx.numClasses
    && h.statsNelmts == h.cparam.nelmts
    && h.cparam.nelmts < Pow256(ctx.sizeofSize)
    && AddrFits(h.dblkAddr, ctx.sizeofAddr)
    && h.dblkSize == (if h.dblkAddr.At? then DblockSize(ctx, h.cparam) else 0)
  }

  /** H5FA__cache_hdr_deserialize: signature, version and class are checked in
      that order, then the checksum; a decoded header has its statistics
      initialised from the creation parameters. */
  function DecodeHdr(ctx: FileCtx, chk: Checksum, addr: Addr, image: seq<Byte>): (r: Result<Hdr>)
    requires |image| == HeaderSize(ctx)
    ensures r == Fail(WrongSignature) <==> image[..SizeofMagic] != HdrMagic
    ensures r == Fail(WrongVersion) <==> image[..SizeofMagic] == HdrMagic && image[4] != HdrVersion
    ensures r == Fail(WrongClass) <==>
              image[..SizeofMagic] == HdrMagic && image[4] == HdrVersion && image[5] >= ctx.numClasses
    ensures r == Fail(WrongChecksum) <==>
              && image[..SizeofMagic] == HdrMagic && image[4] == HdrVersion && image[5] < ctx.numClasses
              && DecodeLE(image[|image| - SizeofChksum..]) != chk(image[..|image| - SizeofChksum])
    ensures r.Ok? ==> r.value.addr == addr && HdrWellFormed(ctx, r.value)
  {
    var ss := ctx.sizeofSize;
    var sa := ctx.sizeofAddr;
    var end := |image| - SizeofChksum;
    if image[..SizeofMagic] != HdrMagic then Fail(WrongSignature)
    else if image[4] != HdrVersion then Fail(WrongVersion)
    else if image[5] >= ctx.numClasses then Fail(WrongClass)
    else
      var cp := CParam(image[5], image[6], image[7], DecodeLE(image[8..8 + ss]));
      var dblkAddr := DecodeAddr(image[8 + ss..8 + ss + sa]);
      if DecodeLE(image[end..]) != chk(image[..end]) then Fail(WrongChecksum)
      else Ok(Hdr(addr, cp, cp.nelmts, dblkAddr, if dblkAddr.At? then DblockSize(ctx, cp) else 0))
  }

  /** What DecodeHdr returns once signature, version and class are accepted:
      the checksum decides between a checksum failure and the header. */
  lemma DecodeHdrAccepted(ctx: FileCtx, chk: Checksum, addr: Addr, image: seq<Byte>)
    requires |image| == HeaderSize(ctx)
    requires image[..SizeofMagic] == HdrMagic && image[4] == HdrVersion && image[5] < ctx.numClasses
    ensures var ss := ctx.sizeofSize;
            var end := |image| - SizeofChksum;
            var cp := CParam(image[5], image[6], image[7], DecodeLE(image[8..8 + ss]));
            var dblkAddr := DecodeAddr(image[8 + ss..end]);
            DecodeHdr(ctx, chk, addr, image)
            == if DecodeLE(image[end..]) != chk(image[..end]) then Fail(WrongChecksum)
               else Ok(Hdr(addr, cp, cp.nelmts, dblkAddr, if dblkAddr.At? then DblockSize(ctx, cp) else 0))
  {
  }

  /** Reading back a written header gives the same header. */
  lemma DecodeHdrImage(ctx: FileCtx, chk: Checksum, h: Hdr)
    requires HdrWellFormed(ctx, h)
    ensures DecodeHdr(ctx, chk, h.addr, HdrImage(ctx, chk, h)) == Ok(h)
  {
    HdrImageParts(ctx, chk, h);
    DecodeEncodeLE(h.statsNelmts, ctx.sizeofSize);
    DecodeEncodeAddr(h.dblkAddr, ctx.sizeofAddr);
  }

  /** Where each field of a written header image lies. */
  lemma HdrImageParts(ctx: FileCtx, chk: Checksum, h: Hdr)
    ensures var image := HdrImage(ctx, chk, h);
            var ss := ctx.sizeofSize;
            var end := |image| - SizeofChksum;
            && |image| == HeaderSize(ctx)
            && image[..SizeofMagic] == HdrMagic && image[4] == HdrVersion
            && image[5] == h.cparam.clsId && image[6] == h.cparam.rawElmtSize
            && image[7] == h.cparam.maxDblkPageNelmtsBits
            && image[8..8 + ss] == EncodeLE(h.statsNelmts, ss)
            && image[8 + ss..end] == EncodeAddr(h.dblkAddr, ctx.sizeofAddr)
            && DecodeLE(image[end..]) == chk(image[..end])
  {
    var ss := ctx.sizeofSize;
    var fields := HdrFields(ctx, h);
    var image := HdrImage(ctx, chk, h);
    HdrFieldsParts(ctx, h);
    PiecesOfThree(fields, EncodeLE(chk(fields), SizeofChksum), []);
    assert image[..8] == fields[..8];
    assert image[8..8 + ss] == fields[8..8 + ss];
    assert image[8 + ss..|fields|] == fields[8 + ss..];
    ChecksumField(chk(fields));
  }

  /** The header's fields, piece by piece. */
  lemma HdrFieldsParts(ctx: FileCtx, h: Hdr)
    ensures var fields := HdrFields(ctx, h);
            var ss := ctx.sizeofSize;
            && |fields| == 8 + ss + ctx.sizeofAddr
            && fields[..8] == HdrPrefix(h.cparam)
            && fields[..SizeofMagic] == HdrMagic && fields[4] == HdrVersion
            && fields[5] == h.cparam.clsId && fields[6] == h.cparam.rawElmtSize
            && fields[7] == h.cparam.maxDblkPageNelmtsBits
            && fields[8..8 + ss] == EncodeLE(h.statsNelmts, ss)
            && fields[8 + ss..] == EncodeAddr(h.dblkAddr, ctx.sizeofAddr)
  {
    PiecesOfThree(HdrPrefix(h.cparam), EncodeLE(h.statsNelmts, ctx.sizeofSize),
                  EncodeAddr(h.dblkAddr, ctx.sizeofAddr));
  }

  /** What a successful read of a header holds: the fields at their
      offsets, with the statistics set from the element count. */
  lemma DecodedHdrValue(ctx: FileCtx, chk: Checksum, addr: Addr, image: seq<Byte>)
    requires |image| == HeaderSize(ctx)
    requires DecodeHdr(ctx, chk, addr, image).Ok?
    ensures image[..SizeofMagic] == HdrMagic && image[4] == HdrVersion
    ensures DecodeLE(image[|image| - SizeofChksum..]) == chk(image[..|image| - SizeofChksum])
    ensures var ss := ctx.sizeofSize;
            var sa := ctx.sizeofAddr;
            var h := DecodeHdr(ctx, chk, addr, image).value;
            && h.cparam == CParam(image[5], image[6], image[7], DecodeLE(image[8..8 + ss]))
            && h.statsNelmts == h.cparam.nelmts
            && h.dblkAddr == DecodeAddr(image[8 + ss..8 + ss + sa])
  {
  }

  /** A header whose encoded fields are the pieces of an image has that
      image's bytes, up to the checksum, as its fields. */
  lemma HdrFieldsOfImage(ctx: FileCtx, image: seq<Byte>, h: Hdr)
    requires |image| == HeaderSize(ctx)
    requires HdrPrefix(h.cparam) == image[..8]
    requires EncodeLE(h.statsNelmts, ctx.sizeofSize) == image[8..8 + ctx.sizeofSize]
    requires EncodeAddr(h.dblkAddr, ctx.sizeofAddr)
             == image[8 + ctx.sizeofSize..8 + ctx.sizeofSize + ctx.sizeofAddr]
    ensures HdrFields(ctx, h) == image[..|image| - SizeofChksum]
  {
    var ss := ctx.sizeofSize;
    PrefixSplit(image, 8, 8 + ss);
    PrefixSplit(image, 8 + ss, |image| - SizeofChksum);
  }

  /** The first eight bytes of an accepted header image are the prefix of
      the parameters read from them. */
  lemma HdrPrefixOfImage(image: seq<Byte>, cp: CParam)
    requires |image| >= 8
    requires image[..SizeofMagic] == HdrMagic && image[4] == HdrVersion
    requires cp.clsId == image[5] && cp.rawElmtSize == image[6] && cp.maxDblkPageNelmtsBits == image[7]
    ensures HdrPrefix(cp) == image[..8]
  {
    PrefixStep(image, 4);
    PrefixStep(image, 5);
    PrefixStep(image, 6);
    PrefixStep(image, 7);
  }

  /** Writing a header that was read gives back the bytes it was read from:
      the decoder accepts only images the encoder can produce. */
  lemma EncodeDecodedHdr(ctx: FileCtx, chk: Checksum, addr: Addr, image: seq<Byte>)
    requires |image| == HeaderSize(ctx)
    requires DecodeHdr(ctx, chk, addr, image).Ok?
    ensures HdrImage(ctx, chk, DecodeHdr(ctx, chk, addr, image).value) == image
  {
    DecodedHdrValue(ctx, chk, addr, image);
    HdrOfImage(ctx, chk, image, DecodeHdr(ctx, chk, addr, image).value);
  }

  /** A header whose fields are what an accepted image decodes to encodes
      back to that image. */
  lemma HdrOfImage(ctx: FileCtx, chk: Checksum, image: seq<Byte>, h: Hdr)
    requires |image| == HeaderSize(ctx)
    requires image[..SizeofMagic] == HdrMagic && image[4] == HdrVersion
    requires DecodeLE(image[|image| - SizeofChksum..]) == chk(image[..|image| - SizeofChksum])
    requires h.cparam == CParam(image[5], image[6], image[7], DecodeLE(image[8..8 + ctx.sizeofSize]))
    requires h.statsNelmts == h.cparam.nelmts
    requires h.dblkAddr == DecodeAddr(image[8 + ctx.sizeofSize..8 + ctx.sizeofSize + ctx.sizeofAddr])
    ensures HdrImage(ctx, chk, h) == image
  {
    var ss := ctx.sizeofSize;
    HdrPrefixOfImage(image, h.cparam);
    EncodeDecodeLE(image[8..8 + ss]);
    EncodeDecodeAddr(image[8 + ss..8 + ss + ctx.sizeofAddr]);
    HdrFieldsOfImage(ctx, image, h);
    var end := |image| - SizeofChksum;
    WithChecksum(image, HdrFields(ctx, h), chk(image[..end]));
  }

  /** The stored checksum is four little-endian bytes that read back as the
      computed value. */
  lemma ChecksumField(c: Uint32)
    ensures |EncodeLE(c, SizeofChksum)| == SizeofChksum
    ensures DecodeLE(EncodeLE(c, SizeofChksum)) == c
  {
    assert Pow256(SizeofChksum) == 0x1_0000_0000;
    DecodeEncodeLE(c, SizeofChksum);
  }

  /** An image whose last four bytes read back as c is its fields followed
      by the little-endian encoding of c. */
  lemma WithChecksum(image: seq<Byte>, fields: seq<Byte>, c: nat)
    requires |image| >= SizeofChksum && image[..|image| - SizeofChksum] == fields
    requires DecodeLE(image[|image| - SizeofChksum..]) == c
    ensures image == fields + EncodeLE(c, SizeofChksum)
  {
    var end := |image| - SizeofChksum;
    EncodeDecodeLE(image[end..]);
    assert image == image[..end] + image[end..];
  }

  // ---------------------------------------------------------------------
  // Data block image

  /** Signature, version, class and owning header address. */
  function DblockHead(ctx: FileCtx, hdr: Hdr): seq<Byte>
  {
    DblockMagic + [DblockVersion] + [hdr.cparam.clsId] + EncodeAddr(hdr.addr, ctx.sizeofAddr)
  }

  /** The data block bytes the checksum covers: the bitmap only when paged,
      the elements only when not. */
  function DblockFields(ctx: FileCtx, hdr: Hdr, d: Dblock): seq<Byte>
  {
    DblockHead(ctx, hdr)
      + (if d.npages > 0 then d.pageInit else [])
      + (if d.npages == 0 then Flatten(d.elmts) else [])
  }

  /** The data block image H5FA__cache_dblock_serialize writes, ending in the
      checksum of everything before it. */
  function DblockImage(ctx: FileCtx, chk: Checksum, hdr: Hdr, d: Dblock): (r: seq<Byte>)
    ensures |r| >= SizeofChksum
    ensures r[..SizeofMagic] == DblockMagic
    ensures r[|r| - SizeofChksum..] == EncodeLE(chk(r[..|r| - SizeofChksum]), SizeofChksum)
  {
    var fields := DblockFields(ctx, hdr, d);
    fields + EncodeLE(chk(fields), SizeofChksum)
  }

  /** A data block as its header's geometry shapes it, owned by a header at
      a defined address (the owner check refuses every block of a header
      whose address is undefined). */
  predicate DblockWellFormed(ctx: FileCtx, hdr: Hdr, d: Dblock)
  {
    var cp := hdr.cparam;
    && hdr.addr.At?
    && AddrFits(hdr.addr, ctx.sizeofAddr)
    && d.npages == NPages(cp)
    && d.pageInitSize == PageInitSize(d.npages)
    && d.size == DblockSize(ctx, cp)
    && (d.npages > 0 ==> |d.pageInit| == d.pageInitSize && d.elmts == [])
    && (d.npages == 0 ==> d.pageInit == [] && |d.elmts| == cp.nelmts && Sized(d.elmts, cp.rawElmtSize))
  }

  /** H5FA__cache_dblock_deserialize: signature, version, class, owning header
      address, then checksum; the bitmap is read only when paged and the
      elements only when not.  The owner check uses the library's address
      inequality, which also fails a block whose header address is undefined. */
  function DecodeDblock(ctx: FileCtx, chk: Checksum, hdr: Hdr, dblkAddr: Addr, image: seq<Byte>): (r: Result<Dblock>)
    requires |image| == DblockLoadSize(ctx, hdr.cparam)
    ensures r == Fail(WrongSignature) <==> image[..SizeofMagic] != DblockMagic
    ensures r == Fail(WrongVersion) <==> image[..SizeofMagic] == DblockMagic && image[4] != DblockVersion
    ensures r == Fail(WrongClass) <==>
              image[..SizeofMagic] == DblockMagic && image[4] == DblockVersion && image[5] != hdr.cparam.clsId
    ensures r == Fail(WrongHeaderAddr) <==>
              && image[..SizeofMagic] == DblockMagic && image[4] == DblockVersion && image[5] == hdr.cparam.clsId
              && !AddrEq(DecodeAddr(image[6..6 + ctx.sizeofAddr]), hdr.addr)
    ensures r.Ok? ==> r.value.addr == dblkAddr && hdr.addr.At?
    ensures r.Ok? && AddrFits(hdr.addr, ctx.sizeofAddr) ==> DblockWellFormed(ctx, hdr, r.value)
    ensures r.Ok? ==> DecodeLE(image[|image| - SizeofChksum..]) == chk(image[..|image| - SizeofChksum])
  {
    var cp := hdr.cparam;
    var np := NPages(cp);
    var pis := PageInitSize(np);
    var body := 6 + ctx.sizeofAddr;
    var end := |image| - SizeofChksum;
    if image[..SizeofMagic] != DblockMagic then Fail(WrongSignature)
    else if image[4] != DblockVersion then Fail(WrongVersion)
    else if image[5] != cp.clsId then Fail(WrongClass)
    else if !AddrEq(DecodeAddr(image[6..body]), hdr.addr) then Fail(WrongHeaderAddr)
    else
      var bitmap := if np > 0 then image[body..body + pis] else [];
      var els := if np == 0 then Chunk(cp.rawElmtSize, cp.nelmts, image[body..end]) else [];
      if DecodeLE(image[end..]) != chk(image[..end]) then Fail(WrongChecksum)
      else Ok(Dblock(dblkAddr, np, pis, bitmap, els, DblockSize(ctx, cp)))
  }

  /** The load size, the image length and the written image agree for every
      well-formed data block, and the file space it frees is its full size. */
  lemma DblockLengths(ctx: FileCtx, chk: Checksum, hdr: Hdr, d: Dblock)
    requires DblockWellFormed(ctx, hdr, d)
    ensures |DblockImage(ctx, chk, hdr, d)| == DblockImageLen(ctx, d) == DblockLoadSize(ctx, hdr.cparam)
    ensures DblockFsfSize(d) == DblockSize(ctx, hdr.cparam)
  {
    if d.npages == 0 {
      FlattenLength(d.elmts, hdr.cparam.rawElmtSize);
    }
  }

  /** A written data block image is its fields followed by their checksum,
      and is as long as the reader expects. */
  lemma DblockImageSum(ctx: FileCtx, chk: Checksum, hdr: Hdr, d: Dblock)
    requires DblockWellFormed(ctx, hdr, d)
    ensures var image := DblockImage(ctx, chk, hdr, d);
            && |image| == DblockLoadSize(ctx, hdr.cparam)
            && image[..|image| - SizeofChksum] == DblockFields(ctx, hdr, d)
            && DecodeLE(image[|image| - SizeofChksum..]) == chk(image[..|image| - SizeofChksum])
  {
    DblockLengths(ctx, chk, hdr, d);
    var fields := DblockFields(ctx, hdr, d);
    var image := DblockImage(ctx, chk, hdr, d);
    assert image[..|fields|] == fields;
    ChecksumField(chk(fields));
  }

  /** The version, class and owning header address of a written data block
      read back as written. */
  lemma DblockImageHead(ctx: FileCtx, chk: Checksum, hdr: Hdr, d: Dblock)
    requires DblockWellFormed(ctx, hdr, d)
    ensures var image := DblockImage(ctx, chk, hdr, d);
            && |image| >= 6 + ctx.sizeofAddr
            && image[4] == DblockVersion && image[5] == hdr.cparam.clsId
            && AddrEq(DecodeAddr(image[6..6 + ctx.sizeofAddr]), hdr.addr)
  {
    var sa := ctx.sizeofAddr;
    var head := DblockHead(ctx, hdr);
    var image := DblockImage(ctx, chk, hdr, d);
    assert image == head + (image[|head|..]);
    assert image[6..6 + sa] == EncodeAddr(hdr.addr, sa);
    DecodeEncodeAddr(hdr.addr, sa);
  }

  /** The bytes between the owning header address and the checksum of a
      written data block read back as its bitmap, or as its elements. */
  lemma DblockImageMid(ctx: FileCtx, chk: Checksum, hdr: Hdr, d: Dblock)
    requires DblockWellFormed(ctx, hdr, d)
    ensures var image := DblockImage(ctx, chk, hdr, d);
            var body := 6 + ctx.sizeofAddr;
            && |image| == DblockLoadSize(ctx, hdr.cparam)
            && (d.npages > 0 ==> image[body..body + d.pageInitSize] == d.pageInit)
            && (d.npages == 0 ==>
                  Chunk(hdr.cparam.rawElmtSize, hdr.cparam.nelmts, image[body..|image| - SizeofChksum]) == d.elmts)
  {
    DblockImageSum(ctx, chk, hdr, d);
    var head := DblockHead(ctx, hdr);
    var mid := if d.npages > 0 then d.pageInit else Flatten(d.elmts);
    assert DblockFields(ctx, hdr, d) == head + mid;
    var image := DblockImage(ctx, chk, hdr, d);
    MidOfImage(image, |image| - SizeofChksum, head, mid);
    if d.npages == 0 {
      ChunkFlatten(d.elmts, hdr.cparam.rawElmtSize);
    }
  }

  /** Bytes up to `end` that are a head followed by a middle hold that
      middle right after the head. */
  lemma MidOfImage(image: seq<Byte>, end: nat, head: seq<Byte>, mid: seq<Byte>)
    requires end <= |image| && image[..end] == head + mid
    ensures |head| <= end && image[|head|..end] == mid
  {
    assert image[|head|..end] == (head + mid)[|head|..];
  }

  /** Reading back a written data block gives the same data block. */
  lemma DecodeDblockImage(ctx: FileCtx, chk: Checksum, hdr: Hdr, d: Dblock)
    requires DblockWellFormed(ctx, hdr, d)
    ensures |DblockImage(ctx, chk, hdr, d)| == DblockLoadSize(ctx, hdr.cparam)
    ensures DecodeDblock(ctx, chk, hdr, d.addr, DblockImage(ctx, chk, hdr, d)) == Ok(d)
  {
    DblockImageSum(ctx, chk, hdr, d);
    DblockImageHead(ctx, chk, hdr, d);
    DblockImageMid(ctx, chk, hdr, d);
  }

  /** Once the signature, version, class and owning header address are
      accepted, a data block read fails only on a wrong checksum, and
      otherwise holds the bytes between the owning header address and the
      checksum, as the bitmap or as the elements. */
  lemma DecodeDblockAccepted(ctx: FileCtx, chk: Checksum, hdr: Hdr, dblkAddr: Addr, image: seq<Byte>)
    requires |image| == DblockLoadSize(ctx, hdr.cparam)
    requires image[..SizeofMagic] == DblockMagic && image[4] == DblockVersion && image[5] == hdr.cparam.clsId
    requires AddrEq(DecodeAddr(image[6..6 + ctx.sizeofAddr]), hdr.addr)
    ensures var cp := hdr.cparam;
            var np := NPages(cp);
            var end := |image| - SizeofChksum;
            var mid := image[6 + ctx.sizeofAddr..end];
            DecodeDblock(ctx, chk, hdr, dblkAddr, image)
              == if DecodeLE(image[end..]) != chk(image[..end]) then Fail(WrongChecksum)
                 else Ok(Dblock(dblkAddr, np, PageInitSize(np),
                                if np > 0 then mid else [],
                                if np == 0 then Chunk(cp.rawElmtSize, cp.nelmts, mid) else [],
                                DblockSize(ctx, cp)))
  {
    DblockLoadSizeFields(ctx, hdr.cparam);
  }

  /** A data block whose head and middle are the pieces of an image has
      that image's bytes, up to the checksum, as its fields. */
  lemma DblockFieldsOfImage(ctx: FileCtx, hdr: Hdr, image: seq<Byte>, d: Dblock)
    requires 6 + ctx.sizeofAddr + SizeofChksum <= |image|
    requires DblockHead(ctx, hdr) == image[..6 + ctx.sizeofAddr]
    requires d.npages > 0 ==> d.pageInit == image[6 + ctx.sizeofAddr..|image| - SizeofChksum]
    requires d.npages == 0 ==> Flatten(d.elmts) == image[6 + ctx.sizeofAddr..|image| - SizeofChksum]
    ensures DblockFields(ctx, hdr, d) == image[..|image| - SizeofChksum]
  {
    PrefixSplit(image, 6 + ctx.sizeofAddr, |image| - SizeofChksum);
  }

  /** The first bytes of an accepted data block image are the head its
      owning header writes. */
  lemma DblockHeadOfImage(ctx: FileCtx, hdr: Hdr, image: seq<Byte>)
    requires 6 + ctx.sizeofAddr <= |image|
    requires image[..SizeofMagic] == DblockMagic && image[4] == DblockVersion && image[5] == hdr.cparam.clsId
    requires EncodeAddr(hdr.addr, ctx.sizeofAddr) == image[6..6 + ctx.sizeofAddr]
    ensures DblockHead(ctx, hdr) == image[..6 + ctx.sizeofAddr]
  {
    PrefixStep(image, 4);
    PrefixStep(image, 5);
    PrefixSplit(image, 6, 6 + ctx.sizeofAddr);
  }

  /** Writing a data block that was read gives back the bytes it was read from. */
  lemma EncodeDecodedDblock(ctx: FileCtx, chk: Checksum, hdr: Hdr, dblkAddr: Addr, image: seq<Byte>)
    requires |image| == DblockLoadSize(ctx, hdr.cparam)
    requires DecodeDblock(ctx, chk, hdr, dblkAddr, image).Ok?
    ensures DblockImage(ctx, chk, hdr, DecodeDblock(ctx, chk, hdr, dblkAddr, image).value) == image
  {
    var d := DecodeDblock(ctx, chk, hdr, dblkAddr, image).value;
    var cp := hdr.cparam;
    var body := 6 + ctx.sizeofAddr;
    var end := |image| - SizeofChksum;
    DblockLoadSizeFields(ctx, cp);
    DecodeDblockAccepted(ctx, chk, hdr, dblkAddr, image);
    EncodeDecodeAddr(image[6..body]);
    DblockHeadOfImage(ctx, hdr, image);
    if d.npages == 0 {
      FlattenChunk(cp.rawElmtSize, cp.nelmts, image[body..end]);
    }
    DblockFieldsOfImage(ctx, hdr, image, d);
    WithChecksum(image, DblockFields(ctx, hdr, d), chk(image[..end]));
  }

  // ---------------------------------------------------------------------
  // Data block page image

  /** The page image H5FA__cache_dblk_page_serialize writes: the elements and
      their checksum. */
  function PageImage(chk: Checksum, els: seq<seq<Byte>>): (r: seq<Byte>)
    ensures |r| >= SizeofChksum
    ensures r[|r| - SizeofChksum..] == EncodeLE(chk(r[..|r| - SizeofChksum]), SizeofChksum)
  {
    Flatten(els) + EncodeLE(chk(Flatten(els)), SizeofChksum)
  }

  /** H5FA__cache_dblk_page_deserialize: n elements, then the checksum; the
      page remembers the length it was read from as its size. */
  function DecodePage(chk: Checksum, cp: CParam, n: nat, image: seq<Byte>): (r: Result<Page>)
    requires n > 0
    requires |image| == PageLoadSize(cp, n)
    ensures r.Ok? <==> DecodeLE(image[n * cp.rawElmtSize..]) == chk(image[..n * cp.rawElmtSize])
    ensures r.Fail? ==> r.err == WrongChecksum
    ensures r.Ok? ==> |r.value.elmts| == n && Sized(r.value.elmts, cp.rawElmtSize)
    ensures r.Ok? ==> PageImageLen(r.value) == |image|
  {
    var end := n * cp.rawElmtSize;
    if DecodeLE(image[end..]) != chk(image[..end]) then Fail(WrongChecksum)
    else Ok(Page(Chunk(cp.rawElmtSize, n, image[..end]), |image|))
  }

  /** A written page reads back as the same elements, with the load size as
      its size. */
  lemma DecodePageImage(chk: Checksum, cp: CParam, els: seq<seq<Byte>>)
    requires |els| > 0 && Sized(els, cp.rawElmtSize)
    ensures |PageImage(chk, els)| == PageLoadSize(cp, |els|)
    ensures DecodePage(chk, cp, |els|, PageImage(chk, els)) == Ok(Page(els, PageLoadSize(cp, |els|)))
  {
    ChunkFlatten(els, cp.rawElmtSize);
    var image := PageImage(chk, els);
    var end := |els| * cp.rawElmtSize;
    assert image[..end] == Flatten(els);
    ChecksumField(chk(Flatten(els)));
  }

  /** Writing a page that was read gives back the bytes it was read from. */
  lemma EncodeDecodedPage(chk: Checksum, cp: CParam, n: nat, image: seq<Byte>)
    requires n > 0
    requires |image| == PageLoadSize(cp, n)
    requires DecodePage(chk, cp, n, image).Ok?
    ensures PageImage(chk, DecodePage(chk, cp, n, image).value.elmts) == image
  {
    var end := n * cp.rawElmtSize;
    FlattenChunk(cp.rawElmtSize, n, image[..end]);
    WithChecksum(image, image[..end], chk(image[..end]));
  }

  // ---------------------------------------------------------------------
  // Paged layout

  /** File space of pages [0, k) of a paged data block. */
  function PagesSpan(cp: CParam, k: nat): nat
  {
    if k == 0 then 0 else PagesSpan(cp, k - 1) + PageSize(cp, PageNelmtsAt(cp, k - 1))
  }

  /** Page pageIdx starts right after the prefix and the full pages before it. */
  function PageOffset(ctx: FileCtx, cp: CParam, pageIdx: nat): nat
  {
    DblockPrefixSize(ctx, PageInitSize(NPages(cp))) + pageIdx * PageSize(cp, PageNelmts(cp))
  }

  /** The pages of a paged data block tile its file space: each page starts
      where the previous one ends, and the last one ends exactly at the
      block's size. */
  lemma {:induction false} PagesTileDblock(ctx: FileCtx, cp: CParam, k: nat)
    requires 0 < k <= NPages(cp)
    ensures PageOffset(ctx, cp, k - 1) + PageSize(cp, PageNelmtsAt(cp, k - 1))
            == DblockPrefixSize(ctx, PageInitSize(NPages(cp))) + PagesSpan(cp, k)
    ensures k == NPages(cp) ==> DblockPrefixSize(ctx, PageInitSize(NPages(cp))) + PagesSpan(cp, k) == DblockSize(ctx, cp)
  {
    FullPagesSpan(cp, k - 1);
    if k == NPages(cp) {
      LastPageSplit(cp);
      PagesSum(k, PageNelmts(cp), cp.rawElmtSize, LastPageNelmts(cp), cp.nelmts);
    }
  }

  /** The first k pages before the last one are all full. */
  lemma {:induction false} FullPagesSpan(cp: CParam, k: nat)
    requires k < NPages(cp)
    ensures PagesSpan(cp, k) == k * PageSize(cp, PageNelmts(cp))
  {
    if k > 0 {
      FullPagesSpan(cp, k - 1);
      var x := PageSize(cp, PageNelmts(cp));
      assert k * x == (k - 1) * x + x;
    }
  }

  // ---------------------------------------------------------------------
  // Arithmetic helpers

  lemma CeilDiv(a: nat, p: nat)
    requires p >= 1 && a > p
    ensures ((a + p - 1) / p - 1) * p < a <= ((a + p - 1) / p) * p
  {
    var q := (a + p - 1) / p;
    var m := (a + p - 1) % p;
    assert a + p - 1 == q * p + m;
    assert (q - 1) * p == q * p - p;
  }

  /** The full pages and the last page hold exactly the array's elements. */
  lemma LastPageSplit(cp: CParam)
    requires NPages(cp) > 0
    ensures (NPages(cp) - 1) * PageNelmts(cp) + LastPageNelmts(cp) == cp.nelmts
  {
    PageSplit(cp.nelmts, PageNelmts(cp));
  }

  /** n elements in pages of p: ceil(n / p) - 1 full pages and a last page
      of the remainder, or of p when there is none. */
  lemma PageSplit(n: nat, p: nat)
    requires p >= 1
    ensures ((n + p - 1) / p - 1) * p + (if n % p == 0 then p else n % p) == n
  {
    var q := n / p;
    var r := n % p;
    assert n == q * p + r;
    if r == 0 {
      DivOf(n + p - 1, p, q, p - 1);
    } else {
      assert n + p - 1 == (q + 1) * p + (r - 1);
      DivOf(n + p - 1, p, q + 1, r - 1);
    }
  }

  /** A quotient and remainder pair determines the quotient. */
  lemma DivOf(a: int, p: int, q: int, r: int)
    requires p >= 1 && 0 <= r < p && a == q * p + r
    ensures a / p == q
  {
    var q' := a / p;
    var r' := a % p;
    assert (q - q') * p == r' - r;
    if q - q' >= 1 {
      MulCancel(0, q - q', p);
      assert (q - q') * p >= p by { MulAtLeast(q - q', p); }
    } else if q' - q >= 1 {
      assert (q' - q) * p >= p by { MulAtLeast(q' - q, p); }
    }
  }

  lemma MulAtLeast(k: int, p: int)
    requires k >= 1 && p >= 1
    ensures k * p >= p
  {
  }

  /** k - 1 full pages of p elements and a last page of `last` elements,
      each with its checksum, span the n elements and k checksums. */
  lemma PagesSum(k: nat, p: nat, raw: nat, last: nat, n: nat)
    requires k >= 1 && (k - 1) * p + last == n
    ensures (k - 1) * (p * raw + SizeofChksum) + (last * raw + SizeofChksum) == n * raw + k * SizeofChksum
  {
    assert (k - 1) * (p * raw + SizeofChksum) == (k - 1) * p * raw + (k - 1) * SizeofChksum;
    assert n * raw == (k - 1) * p * raw + last * raw;
  }

  lemma MulCancel(a: int, b: int, p: int)
    requires p >= 1 && a * p < b * p
    ensures a < b
  {
  }

  // ---------------------------------------------------------------------
  // The cache callbacks: a cursor walking the image buffer

  /** Copies bytes into the image at the cursor and returns the advanced
      cursor: what was written before the cursor is kept and the bytes
      follow it. */
  method PutBytes(image: array<Byte>, pos: nat, ghost written: seq<Byte>, bytes: seq<Byte>) returns (next: nat)
    requires pos + |bytes| <= image.Length
    requires image[..pos] == written
    modifies image
    ensures next == pos + |bytes|
    ensures image[..next] == written + bytes
  {
    var k := 0;
    while k < |bytes|
      invariant 0 <= k <= |bytes|
      invariant image[..pos + k] == written + bytes[..k]
    {
      image[pos + k] := bytes[k];
      assert image[..pos + k + 1] == image[..pos + k] + [bytes[k]];
      assert bytes[..k + 1] == bytes[..k] + [bytes[k]];
      k := k + 1;
    }
    next := pos + k;
  }

  /** H5FA__cache_hdr_serialize: fills the header's image buffer. */
  method SerializeHdr(ctx: FileCtx, chk: Checksum, h: Hdr, image: array<Byte>)
    requires image.Length == HeaderSize(ctx)
    modifies image
    ensures image[..] == HdrImage(ctx, chk, h)
  {
    var pos := PutHdrPrefix(h.cparam, image);
    ghost var w := HdrPrefix(h.cparam);
    pos := PutBytes(image, pos, w, EncodeLE(h.statsNelmts, ctx.sizeofSize));
    w := w + EncodeLE(h.statsNelmts, ctx.sizeofSize);
    pos := PutBytes(image, pos, w, EncodeAddr(h.dblkAddr, ctx.sizeofAddr));
    w := w + EncodeAddr(h.dblkAddr, ctx.sizeofAddr);
    var sum := chk(image[..pos]);
    pos := PutBytes(image, pos, w, EncodeLE(sum, SizeofChksum));
    assert image[..] == image[..pos];
  }

  /** The first bytes of a header image: signature, version, class id,
      element size and page-size bits. */
  method PutHdrPrefix(cp: CParam, image: array<Byte>) returns (pos: nat)
    requires image.Length >= 8
    modifies image
    ensures pos == 8 && image[..pos] == HdrPrefix(cp)
  {
    ghost var w: seq<Byte> := [];
    pos := PutBytes(image, 0, w, HdrMagic);
    w := w + HdrMagic;
    pos := PutBytes(image, pos, w, [HdrVersion]);
    w := w + [HdrVersion];
    pos := PutBytes(image, pos, w, [cp.clsId]);
    w := w + [cp.clsId];
    pos := PutBytes(image, pos, w, [cp.rawElmtSize]);
    w := w + [cp.rawElmtSize];
    pos := PutBytes(image, pos, w, [cp.maxDblkPageNelmtsBits]);
  }

  /** H5FA__cache_hdr_deserialize: reads the header from its image buffer. */
  method DeserializeHdr(ctx: FileCtx, chk: Checksum, addr: Addr, image: array<Byte>) returns (r: Result<Hdr>)
    requires image.Length == HeaderSize(ctx)
    ensures r == DecodeHdr(ctx, chk, addr, image[..])
  {
    var buf := image[..];
    if buf[..SizeofMagic] != HdrMagic {
      assert DecodeHdr(ctx, chk, addr, buf) == Fail(WrongSignature);
      return Fail(WrongSignature);
    }
    var pos := SizeofMagic;
    if buf[pos] != HdrVersion {
      assert DecodeHdr(ctx, chk, addr, buf) == Fail(WrongVersion);
      return Fail(WrongVersion);
    }
    pos := pos + 1;
    var id := buf[pos];
    if id >= ctx.numClasses {
      assert DecodeHdr(ctx, chk, addr, buf) == Fail(WrongClass);
      return Fail(WrongClass);
    }
    var raw := buf[pos + 1];
    var bits := buf[pos + 2];
    pos := pos + 3;
    var nelmts := DecodeLE(buf[pos..pos + ctx.sizeofSize]);
    pos := pos + ctx.sizeofSize;
    var dblkAddr := DecodeAddr(buf[pos..pos + ctx.sizeofAddr]);
    pos := pos + ctx.sizeofAddr;
    var cp := CParam(id, raw, bits, nelmts);
    var dblkSize := if dblkAddr.At? then DblockSize(ctx, cp) else 0;
    DecodeHdrAccepted(ctx, chk, addr, buf);
    var computed := chk(buf[..pos]);
    var stored := DecodeLE(buf[pos..]);
    if stored != computed {
      return Fail(WrongChecksum);
    }
    r := Ok(Hdr(addr, cp, cp.nelmts, dblkAddr, dblkSize));
  }

  /** H5FA__cache_dblock_serialize: fills the data block's image buffer. */
  method SerializeDblock(ctx: FileCtx, chk: Checksum, hdr: Hdr, d: Dblock, image: array<Byte>)
    requires image.Length == |DblockImage(ctx, chk, hdr, d)|
    modifies image
    ensures image[..] == DblockImage(ctx, chk, hdr, d)
  {
    ghost var w: seq<Byte> := [];
    var pos := PutBytes(image, 0, w, DblockMagic);
    w := w + DblockMagic;
    pos := PutBytes(image, pos, w, [DblockVersion]);
    w := w + [DblockVersion];
    pos := PutBytes(image, pos, w, [hdr.cparam.clsId]);
    w := w + [hdr.cparam.clsId];
    pos := PutBytes(image, pos, w, EncodeAddr(hdr.addr, ctx.sizeofAddr));
    w := w + EncodeAddr(hdr.addr, ctx.sizeofAddr);
    assert w == DblockHead(ctx, hdr);
    if d.npages > 0 {
      pos := PutBytes(image, pos, w, d.pageInit);
      w := w + d.pageInit;
    } else {
      pos := PutBytes(image, pos, w, Flatten(d.elmts));
      w := w + Flatten(d.elmts);
    }
    assert w == DblockFields(ctx, hdr, d);
    var sum := chk(image[..pos]);
    pos := PutBytes(image, pos, w, EncodeLE(sum, SizeofChksum));
    assert image[..] == image[..pos];
  }

  /** H5FA__cache_dblock_deserialize: reads the data block from its image
      buffer (the prefix only, when paged). */
  method DeserializeDblock(ctx: FileCtx, chk: Checksum, hdr: Hdr, dblkAddr: Addr, image: array<Byte>)
    returns (r: Result<Dblock>)
    requires image.Length == DblockLoadSize(ctx, hdr.cparam)
    ensures r == DecodeDblock(ctx, chk, hdr, dblkAddr, image[..])
  {
    var buf := image[..];
    DblockLoadSizeFields(ctx, hdr.cparam);
    if buf[..SizeofMagic] != DblockMagic {
      return Fail(WrongSignature);
    }
    var pos := SizeofMagic;
    if buf[pos] != DblockVersion {
      return Fail(WrongVersion);
    }
    if buf[pos + 1] != hdr.cparam.clsId {
      return Fail(WrongClass);
    }
    pos := pos + 2;
    var arrAddr := DecodeAddr(buf[pos..pos + ctx.sizeofAddr]);
    if !AddrEq(arrAddr, hdr.addr) {
      return Fail(WrongHeaderAddr);
    }
    r := DeserializeDblockBody(ctx, chk, hdr, dblkAddr, buf);
  }

  /** The rest of H5FA__cache_dblock_deserialize once the prefix is
      accepted: the bitmap when paged, the elements when not, then the
      checksum. */
  method DeserializeDblockBody(ctx: FileCtx, chk: Checksum, hdr: Hdr, dblkAddr: Addr, buf: seq<Byte>)
    returns (r: Result<Dblock>)
    requires |buf| == DblockLoadSize(ctx, hdr.cparam)
    requires buf[..SizeofMagic] == DblockMagic && buf[4] == DblockVersion && buf[5] == hdr.cparam.clsId
    requires AddrEq(DecodeAddr(buf[6..6 + ctx.sizeofAddr]), hdr.addr)
    ensures r == DecodeDblock(ctx, chk, hdr, dblkAddr, buf)
  {
    var cp := hdr.cparam;
    var np := NPages(cp);
    var pis := PageInitSize(np);
    DblockLoadSizeFields(ctx, cp);
    DecodeDblockAccepted(ctx, chk, hdr, dblkAddr, buf);
    var pos := 6 + ctx.sizeofAddr;
    var bitmap: seq<Byte> := [];
    if np > 0 {
      bitmap := buf[pos..pos + pis];
      pos := pos + pis;
    }
    var els: seq<seq<Byte>> := [];
    if np == 0 {
      els := Chunk(cp.rawElmtSize, cp.nelmts, buf[pos..pos + ElmtsSize(cp, cp.nelmts)]);
      pos := pos + ElmtsSize(cp, cp.nelmts);
    }
    var computed := chk(buf[..pos]);
    var stored := DecodeLE(buf[pos..]);
    if stored != computed {
      return Fail(WrongChecksum);
    }
    r := Ok(Dblock(dblkAddr, np, pis, bitmap, els, DblockSize(ctx, cp)));
  }

  /** H5FA__cache_dblk_page_serialize: fills a page's image buffer. */
  method SerializePage(chk: Checksum, els: seq<seq<Byte>>, image: array<Byte>)
    requires image.Length == |PageImage(chk, els)|
    modifies image
    ensures image[..] == PageImage(chk, els)
  {
    var pos := PutBytes(image, 0, [], Flatten(els));
    var sum := chk(image[..pos]);
    pos := PutBytes(image, pos, Flatten(els), EncodeLE(sum, SizeofChksum));
    assert image[..] == image[..pos];
  }

  /** H5FA__cache_dblk_page_deserialize: reads n elements and checks the
      page's checksum. */
  method DeserializePage(chk: Checksum, cp: CParam, n: nat, image: array<Byte>) returns (r: Result<Page>)
    requires n > 0
    requires image.Length == PageLoadSize(cp, n)
    ensures r == DecodePage(chk, cp, n, image[..])
  {
    var pos := ElmtsSize(cp, n);
    var els := Chunk(cp.rawElmtSize, n, image[..pos]);
    var computed := chk(image[..pos]);
    var stored := DecodeLE(image[pos..]);
    if stored != computed {
      return Fail(WrongChecksum);
    }
    r := Ok(Page(els, image.Length));
  }
}
