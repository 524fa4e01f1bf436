# Extensible and fixed arrays of an HDF5 chunk-index fork, in Dafny

This project models the two array structures an HDF5 fork uses to index the
chunks of a dataset. It also models the index-info object-header message
and the time helpers of the chunk-index benchmark.

- **Extensible array** (`extensible_array.dfy`, module `ExtensibleArray`).
  A shared header keeps its elements first in the index block, then in
  data blocks whose addresses the index block holds, then in data blocks
  reached through super blocks.
  - A super block's data blocks may be split into pages, which a
    page-initialised bitmap tracks.
  - `H5EA__lookup_elmt` walks from an element index to the piece of
    metadata holding it. With write access it creates whatever is missing
    on the way; with read-only access it creates nothing.
  - `H5EA_set` and `H5EA_get` sit on top of it, with `max_idx_set`
    deciding what reads as the fill value.
  - The class `ExtArray` keeps the created metadata as sets and maps.
  - The ghost field `contents` is the array's abstract value. `Valid()`
    ties every element's slot to it. The lookup arithmetic (`Locate`) is
    proved sound and injective, so a write changes exactly one element.
- **Fixed array** (`fixed_array.dfy`, module `FixedArray`).
  - A header with a fixed element count and one lazily created data block.
  - The data block is paged when the array holds more elements than one
    page. Its pages are created on first write, and a page-initialised bit
    marks each one.
  - Set, get (paged and unpaged), iterate, get_nelmts, open, close and
    delete are methods of the class `Header`.
- **Fixed array metadata codec** (`fa_cache.dfy`, module `FixedArrayCache`).
  - The header, data block and data block page images: their sizes, their
    layouts, and the checks each decoder makes, in order.
  - Round trips in both directions, and how the pages tile a paged data
    block.
  - Methods that walk a cursor over the image buffer are proved equal to
    the image functions.
- **Index-info message** (`idx_info.dfy`, module `IdxInfo`): decode,
  encode, size, copy and reset of `H5O_idxinfo_t`. Encode and decode
  disagree on where the metadata starts (see Findings).
- **Shared-header life cycle** (`lifecycle.dfy`, module `Lifecycle`): the
  file reference count, the pending-deletion flag and deletion. Open,
  close and delete of both arrays follow this protocol.
- **Benchmark time arithmetic** (`time_arith.dfy`, module `TimeArith`):
  `test_time_add` and `test_time_subtract`.
- `bytes.dfy` (module `Bytes`) holds the little-endian and file-address
  encodings the codecs share.

External inputs become parameters:
- the metadata checksum is any function from bytes to a 32-bit value;
- the widths of file addresses and lengths, and the number of registered
  client classes, come from a `FileCtx` value;
- the super block table (`sblk_info`) and the page size come from a
  `Geometry` value, under the invariant `GeometryOk`;
- a client class's fill value is a constant of the array.

## Model

| member | source | states |
|---|---|---|
| ExtensibleArray.SblkIdx | src/H5EA.c:418 | The super block chosen for an index past the index block is one whose element range contains that index. |
| ExtensibleArray.SblkIdxUnique | src/H5EA.c:418-424 | Only one super block contains a given index, so the offset into it is determined. |
| ExtensibleArray.LocateSound | src/H5EA.c:405-467 | Every index below the capacity has a location whose super block, data block, page and offset indexes are all in range, and which maps back to that same index. The location is in the index block exactly when idx < idx_blk_elmts. |
| ExtensibleArray.LocateInSblkSound | src/H5EA.c:424-440 | Within a super block: data block start_dblk + off/dblk_nelmts for index-block data blocks, and offset off mod dblk_nelmts. The location names the same element again. |
| ExtensibleArray.LocateInDblockSound | src/H5EA.c:540-559 | In a paged data block, the page is elmt/page_nelmts, the bit is dblk_idx*npages + page, and the offset is elmt mod page_nelmts. The bit is below the bitmap length and the location names the same element again. |
| ExtensibleArray.SameThingSameWhere | src/H5EA.c:435 | Two elements held by the same piece of metadata came through the same super block, data block and page. This includes the index block's data block addresses and the page-init bits. |
| ExtensibleArray.SlotUnique | src/H5EA.c:405-610 | Distinct indexes never share a piece of metadata and an offset. |
| ExtensibleArray.BitDblkOf | src/H5EA.c:556 | The page-init bit d*npages + page identifies data block d. |
| ExtensibleArray.FitsThingOf | src/H5EA.c:449-450 | A buffer sized by its kind (idx_blk_elmts, dblk_nelmts or page_nelmts) holds every element located in it. |
| ExtensibleArray.AddFillBuffer | src/H5EA.c:386-391 | Creating metadata whose elements hold the fill value changes what no element reads. |
| ExtensibleArray.SetValue | src/H5EA.c:702-707 | The array after setting idx to v: idx reads v; below the old length nothing else changes; at or past it the array grows to idx+1 with fill values in between. |
| ExtensibleArray.WriteSlot | src/H5EA.c:694-696 | Writing v at the element's offset in its buffer makes idx read v and changes no other element. |
| ExtensibleArray.ExtArray.BufferIffReachable | src/H5EA.c:381-395 | An element's buffer exists exactly when its lookup path exists: index block, data block address, super block address and page-init bit. |
| ExtensibleArray.ExtArray.Create | src/H5EA.c:125-180 | A new array has no index block, no elements and one file reference. |
| ExtensibleArray.ExtArray.GetNelmts | src/H5EA.c:267-284 | The count returned is max_idx_set, the length of the array's value. |
| ExtensibleArray.ExtArray.CreateIblock | src/H5EA.c:381-391 | Creating the index block adds its fill-valued elements and changes no element's value. |
| ExtensibleArray.ExtArray.CreateIblockDblock | src/H5EA.c:442-456 | Creating a data block addressed from the index block adds it with fill-valued elements and changes no element's value. |
| ExtensibleArray.ExtArray.CreateSblock | src/H5EA.c:482-497 | Creating a super block gives it an all-clear page-init bitmap, sized one bit per page of each data block. No page bit changes. |
| ExtensibleArray.ExtArray.CreateSblockDblock | src/H5EA.c:515-529 | Creating an unpaged data block of a super block adds its fill-valued elements and changes no element's value. |
| ExtensibleArray.ExtArray.CreatePagedDblock | src/H5EA.c:515-529 | Creating a paged data block adds no element buffer; its pages wait for their bits. |
| ExtensibleArray.ExtArray.CreateDblkPage | src/H5EA.c:575-584 | Creating a page sets exactly its own page-init bit and adds its fill-valued elements. |
| ExtensibleArray.ExtArray.LookupElmt | src/H5EA.c:339-643 | Read-write lookup always finds the element's metadata and offset, creating what is missing and setting the page bit. Read-only lookup changes nothing. It finds the metadata exactly when that already exists; otherwise it returns no metadata and offset 0. Existing buffers and bits are kept. |
| ExtensibleArray.ExtArray.LookupInSblock | src/H5EA.c:475-610 | The super block, data block and page part of the lookup. It succeeds exactly when it has write access or the whole path already exists, and then the path exists. |
| ExtensibleArray.ExtArray.LookupInIblockDblock | src/H5EA.c:441-460 | The index block's data block step. It succeeds exactly when it has write access or the data block already exists, and then the data block exists. Existing buffers and bits are kept, and no element changes. |
| ExtensibleArray.ExtArray.LookupSblockDblock | src/H5EA.c:514-610 | Once the super block exists: the data block step and then, when paged, the page step. It succeeds exactly when it has write access or the rest of the path already exists. No element changes. |
| ExtensibleArray.ExtArray.LookupDblkPage | src/H5EA.c:547-599 | The page step. A clear page bit is set, and its page created fill-valued, only with write access. It succeeds exactly when it has write access or the bit was already set. |
| ExtensibleArray.ExtArray.Set | src/H5EA.c:661-714 | After set, max_idx_set is idx+1 when idx ≥ the old value and unchanged otherwise. The array's value is SetValue of the old one, and the invariant is kept. |
| ExtensibleArray.ExtArray.Get | src/H5EA.c:732-790 | Get returns the element below max_idx_set and the fill value from there on, including when the element's metadata was never created. Nothing changes. |
| ExtensibleArray.ExtArray.Open | src/H5EA.c:199-249 | Open succeeds exactly when the header is neither deleted nor pending deletion, and then it adds one file reference. |
| ExtensibleArray.ExtArray.Close | src/H5EA.c:1004-1088 | Close drops one file reference. The last close of a pending array deletes it. |
| ExtensibleArray.ExtArray.Delete | src/H5EA.c:1106-1143 | Delete marks the array pending while files hold it open, and deletes it otherwise. |
| ExtensibleArray.SetThenGet | src/H5EA.c:686-782 | After set(idx, v): get(idx) is v, an element below the old length keeps its value, and one between the old length and idx reads as the fill value. |
| FixedArray.PageSlot | src/H5FA.c:381-392 | An element's page index is below npages, and its offset lies within that page, which may be a short last page. |
| FixedArray.SlotDistinct | src/H5FA.c:381-382 | Distinct indexes on the same page have distinct offsets. |
| FixedArray.Header.Create | src/H5FA.c:118-173 | A new array has no data block, every element reads as the fill value, and it has one file reference. The page geometry is that of its data block image. |
| FixedArray.Header.GetNelmts | src/H5FA.c:258-275 | The count returned is nelmts, the length of the array's value. |
| FixedArray.Header.Set | src/H5FA.c:327-426 | Requires idx < nelmts. Only element idx changes, and the data block then exists. When paged, exactly the written page's bit is newly set. |
| FixedArray.Header.CreateDblock | src/H5FA.c:352-360 | Creating the data block changes no element's value. An unpaged block is filled with the fill value; a paged one starts with all bits clear and no pages. |
| FixedArray.Header.SetPaged | src/H5FA.c:374-412 | The element's page is created fill-valued when its bit is clear, and its bit becomes set. Only element idx changes. |
| FixedArray.Header.CreatePage | src/H5FA.c:394-402 | Creating a page gives it the page's own length of fill values and sets exactly its bit. No element's value changes. |
| FixedArray.PagedWrite | src/H5FA.c:409-410 | Writing v at the element's offset on its existing page makes idx read v, keeps every other element's value, and keeps the paged block well formed. |
| FixedArray.Header.Get | src/H5FA.c:443-528 | Get returns the element. It returns the fill value before the data block exists, and while the element's page bit is clear. |
| FixedArray.Header.Iterate | src/H5FA.c:703-740 | Iterate visits elements in index order and returns the first negative callback result, from an element where every earlier callback was non-negative. It returns 0 when no callback is negative. |
| FixedArray.Header.Open | src/H5FA.c:191-241 | Open succeeds exactly when the header is neither deleted nor pending deletion, and then it adds one file reference. |
| FixedArray.Header.Close | src/H5FA.c:545-629 | Close drops one file reference. The last close of a pending array deletes it. |
| FixedArray.Header.Delete | src/H5FA.c:646-683 | Delete marks the array pending while files hold it open, and deletes it otherwise. |
| FixedArray.SetThenGet | src/H5FA.c:327-528 | After set(idx, v): get(idx) is v and every other element keeps its value. |
| FixedArrayCache.NPages | src/H5FAcache.c:278-282 | The data block has zero pages exactly when nelmts fits in one page. |
| FixedArrayCache.NPagesBounds | src/H5FAcache.c:484-486 | A paged data block has enough pages for all its elements and no page to spare. |
| FixedArrayCache.PageInitSize | src/H5FAcache.c:487 | The bitmap has one bit per page, rounded up to whole bytes. |
| FixedArrayCache.LastPageNelmts | src/H5FA.c:389-392 | The last page holds between 1 and page_nelmts elements. |
| FixedArrayCache.LastPageSplit | src/H5FA.c:389-392 | The full pages and the last page together hold exactly nelmts elements. |
| FixedArrayCache.DblockLoadSize | src/H5FAcache.c:460-496 | The load size is the whole block when unpaged, and only its prefix (strictly smaller) when paged. |
| FixedArrayCache.DblockLengths | src/H5FAcache.c:621-637 | For a well-formed block the image written, the image length and the load size are equal, and the space freed is the block's full size. |
| FixedArrayCache.PageLoadSize | src/H5FAcache.c:807-820 | A page's load size is its elements' raw bytes plus one checksum. |
| FixedArrayCache.HdrImage | src/H5FAcache.c:370-412 | The header image is exactly the header size, starts with the header signature, and ends with the checksum of the bytes before it. |
| FixedArrayCache.DecodeHdr | src/H5FAcache.c:219-321 | Errors are checked in this order: signature, then version, then class id ≥ the number of classes, then checksum. Each error occurs exactly under its condition. A decoded header has its own address and is well formed. |
| FixedArrayCache.DecodeHdrAccepted | src/H5FAcache.c:257-312 | Once signature, version and class are accepted, the checksum alone decides between a checksum error and the header read from its fields. |
| FixedArrayCache.DecodeHdrImage | src/H5FAcache.c:243-267 | Decoding the serialized image of a well-formed header returns that header. |
| FixedArrayCache.EncodeDecodedHdr | src/H5FAcache.c:384-407 | Serializing a decoded header reproduces the image it was decoded from. |
| FixedArrayCache.ChecksumField | src/H5FAcache.c:297-303 | The 4-byte little-endian checksum field reads back as the computed value. |
| FixedArrayCache.DblockImage | src/H5FAcache.c:655-711 | The data block image starts with the data block signature and ends with the checksum of the bytes before it. |
| FixedArrayCache.DecodeDblock | src/H5FAcache.c:515-603 | Errors are checked in this order: signature, version, class, owning header address, then checksum. The owner check fails whenever the decoded address is undefined or differs from the header's, so a header at an undefined address accepts no block. The bitmap is read only when paged and the elements only when not. A decoded block is well formed. |
| FixedArrayCache.DecodeDblockAccepted | src/H5FAcache.c:558-594 | Once signature, version, class and owning header address are accepted, the checksum alone decides between a checksum error and the block read from the bitmap or elements. |
| FixedArrayCache.DecodeDblockImage | src/H5FAcache.c:559-571 | Decoding the serialized image of a well-formed data block, owned by a header at a defined address, returns it. |
| FixedArrayCache.EncodeDecodedDblock | src/H5FAcache.c:683-698 | Serializing a decoded data block reproduces the image. |
| FixedArrayCache.PageImage | src/H5FAcache.c:949-983 | A page image is its elements followed by their checksum. |
| FixedArrayCache.DecodePage | src/H5FAcache.c:839-900 | A page decodes exactly when its checksum matches. It then holds n elements of raw size, and its size is the image length. |
| FixedArrayCache.DecodePageImage | src/H5FAcache.c:866-875 | Decoding a serialized page returns its elements, with the load size as its size. |
| FixedArrayCache.EncodeDecodedPage | src/H5FAcache.c:966-976 | Serializing a decoded page reproduces the image. |
| FixedArrayCache.PagesTileDblock | src/H5FA.c:385-386 | Page k starts at prefix + k*page_size, where the pages before it end. The last page ends at the data block size. |
| FixedArrayCache.FullPagesSpan | src/H5FA.c:385-386 | Every page before the last one is a full page. |
| FixedArrayCache.ChunkFlatten | src/H5FAcache.c:565-570 | Cutting the element bytes into raw-size elements undoes their concatenation. |
| FixedArrayCache.FlattenChunk | src/H5FAcache.c:565-570 | Concatenation undoes the cutting. |
| FixedArrayCache.PutBytes | src/H5FAcache.c:384-395 | The cursor advances by the bytes written, and what precedes it is kept. |
| FixedArrayCache.SerializeHdr | src/H5FAcache.c:370-412 | The buffer is filled with the header image. |
| FixedArrayCache.PutHdrPrefix | src/H5FAcache.c:384-395 | The first eight header bytes written are the signature, version, class id, element size and page-size bits. |
| FixedArrayCache.DeserializeHdr | src/H5FAcache.c:219-321 | Its result equals DecodeHdr on the buffer. |
| FixedArrayCache.SerializeDblock | src/H5FAcache.c:655-711 | The buffer is filled with the data block image. |
| FixedArrayCache.DeserializeDblock | src/H5FAcache.c:515-603 | Its result equals DecodeDblock on the buffer. |
| FixedArrayCache.DeserializeDblockBody | src/H5FAcache.c:558-594 | After the accepted prefix, the bitmap or elements and then the checksum are read. The result equals DecodeDblock on the buffer. |
| FixedArrayCache.SerializePage | src/H5FAcache.c:949-983 | The buffer is filled with the page image. |
| FixedArrayCache.DeserializePage | src/H5FAcache.c:839-900 | Its result equals DecodePage on the buffer. |
| IdxInfo.DecodeSpec | src/H5Oidxinfo.c:85-120 | Decode fails exactly when the plugin id is 0 or the size is 0. Otherwise the fields are bytes 0 and 1, and the metadata is the size bytes from offset 2. |
| IdxInfo.EncodeSpec | src/H5Oidxinfo.c:132-151 | Encode writes the plugin id at offset 0 and the size at offset 1, leaves bytes 2..8 unchanged, writes the metadata from offset 9, and changes nothing after it. |
| IdxInfo.Size | src/H5Oidxinfo.c:211-226 | The size is the plugin-id field, an 8-byte size slot and the metadata; with a plugin-id field of at least one byte it covers every byte encode writes. |
| IdxInfo.EncodeWithinSize | src/H5Oidxinfo.c:145-148 | A buffer of the reported size satisfies encode's precondition exactly when the plugin-id field is at least one byte wide, and the bytes encode writes into it are readable by decode. |
| IdxInfo.DecodeOfEncode | src/H5Oidxinfo.c:102-106 | Decoding what encode wrote recovers the plugin id and size. The metadata it reads is the untouched size-slot bytes followed by the start of the real metadata. |
| IdxInfo.EncodeDecodeMismatch | src/H5Oidxinfo.c:145-148 | A concrete message whose encode-then-decode differs from the original. |
| IdxInfo.EncodeCompact | src/H5Oidxinfo.c:104-106 | The corrected encoder writes the metadata from offset 2, where decode reads it. |
| IdxInfo.DecodeEncodeCompact | src/H5Oidxinfo.c:100-106 | With the corrected encoder, decode returns every decodable message. |
| IdxInfo.IdxInfoMsg.constructor | src/H5Oidxinfo.c:98 | A freshly allocated message is zeroed and has no metadata. |
| IdxInfo.IdxInfoMsg.Reset | src/H5Oidxinfo.c:245-260 | After reset both fields are zero and the metadata is released. |
| IdxInfo.Decode | src/H5Oidxinfo.c:85-120 | The cursor walk returns a fresh message exactly when DecodeSpec succeeds, with DecodeSpec's fields. |
| IdxInfo.Encode | src/H5Oidxinfo.c:132-151 | The cursor walk leaves the buffer equal to EncodeSpec of the old buffer. |
| IdxInfo.Copy | src/H5Oidxinfo.c:166-195 | The copy goes into the given destination or a fresh message, gets its own metadata buffer, and has the source's fields. |
| Lifecycle.Created | src/H5EA.c:161-164 | After create there is one file reference and nothing is pending. |
| Lifecycle.Open | src/H5EA.c:215-233 | Open fails on a deleted header (it cannot be protected) and on a pending one. Otherwise it adds one file reference and keeps the invariant. |
| Lifecycle.Close | src/H5EA.c:1019-1073 | Close drops one reference. The state becomes deleted exactly when it was pending and this was the last reference. |
| Lifecycle.Delete | src/H5EA.c:1121-1135 | Delete defers to pending while file_rc > 0, and deletes at once otherwise. |
| Lifecycle.DeferredDeleteAtLastClose | src/H5EA.c:1019-1073 | A pending array is deleted at its last close and at no earlier one, and every open in between is refused. |
| Lifecycle.DeleteWhileOpen | src/H5FA.c:561-613 | From create with n more opens: delete only marks pending, a later open fails with PendingDeletion, and the (n+1)-th close, and no earlier one, deletes the array. |
| Lifecycle.OpenTimesCounts | src/H5FA.c:211-230 | From creation, n opens all succeed and leave n+1 file references. |
| TimeArith.TimeAdd | test/test2d.c:65-76 | Total microseconds are conserved. The result carries one second exactly when the microsecond sum is > 1000000. Inputs in [0, 1000000] give a result in [0, 1000000]. |
| TimeArith.TimeSubtract | test/test2d.c:81-92 | Total microseconds are conserved. The result borrows one second exactly when the microsecond difference is < 0. Normal inputs give a normal result. |
| TimeArith.SubtractUndoesAdd | test/test2d.c:65-92 | For normal values, subtracting b from a+b gives a back. |
| TimeArith.AddMayLeaveFullSecond | test/test2d.c:71 | With the strict comparison, 0.5 s + 0.5 s is left as 0 s and 1000000 µs. |

## Left out

- Metadata cache machinery is not modelled: protect, unprotect, pinning, dependencies, flags and dirtiness. Neither are the failures of allocation, creation and protection, or the error paths they take (including the reset of the lookup's outputs on error). A successful create is taken as given.
- ExtensibleArray.ExtArray.Get: declared `modifies this` with `ensures unchanged(this)`, because it calls the shared lookup, which may create metadata when it has write access.
- ExtensibleArray.ExtArray.LookupElmt: does not model the address of a data block page, which is computed from the data block address, the prefix size and the page size. Pages are keyed by super block and page-init bit instead.
- Element buffers are sequences held in maps, not arrays. Aliasing between cache entries and the native element size are not modelled.
- Client class callbacks are not modelled beyond two stand-ins. The fill value is a constant of the array, and the element encode/decode routines copy raw bytes unchanged.
- The helpers in H5EAsblock.c, H5EAdblock.c, H5EAhdr.c, H5FAhdr.c, H5FAdblock.c and H5FApkg.h are not part of this model. `H5EA__dblock_sblk_idx` is modelled as a search over the super block table. `sblk_info` and the data block page count are given by `Geometry` under `GeometryOk`. The size macros are written out in `FixedArrayCache`.
- H5VM bit operations are modelled as a sequence of booleans for each super block or data block.
- The in-memory header reference count (`rc`) is not modelled; only `file_rc`, `pending_delete` and deletion are.
- `H5EA_get_addr`, `H5FA_get_addr`, the depend/undepend/support/unsupport calls, `free_icr` and the debug callback are cache or debug plumbing and are not modelled.
- FixedArray.Header.Iterate: the callback is a pure function of index and element; the user data pointer and side effects are not modelled.
- TimeArith.TimeAdd: C `long` overflow is not modelled; the integers are unbounded.
- FixedArrayCache.PageNelmts: the page length is 2 to the power of the page-bits byte over unbounded integers. The source shifts a `size_t` one left by that byte (src/H5FAcache.c:278, 484), which C leaves undefined for a byte of 64 or more. The model gives a definite page length for every byte 0..255, and FixedArrayCache.DecodeHdr accepts every such byte, as the source does.
- FixedArrayCache.NPages: the rounded-up division `(nelmts + page_nelmts - 1) / page_nelmts` (src/H5FAcache.c:280, 486) is `hsize_t` arithmetic in the source; the model does not wrap at 2^64.
- FixedArrayCache.ElmtsSize: the `size_t` product of the element count and the raw element size (src/H5FAcache.c:570, 697) is unbounded; wrap-around on overflow is not modelled.
- ExtensibleArray.ExtArray.Set: `max_idx_set = idx + 1` (src/H5EA.c:704) is `hsize_t` arithmetic in the source; the model does not wrap at 2^64.
- IdxInfo.Size: the width of the plugin-id field comes from the message structure, which is not part of this model, so it is a parameter.
- The JNI wrappers, the Java exception class, the chunk-index test driver and the dataset test helpers are not modelled.
- FixedArrayCache.DecodeHdr: the statistics that header initialisation fills in are given by `HdrWellFormed`, because the header module is not part of this model.

## Findings

| source | as written | input that shows it | evidently intended | confidence | as-written member | corrected member |
|---|---|---|---|---|---|---|
| src/H5Oidxinfo.c:145-148 | Encode writes the size as one byte at offset 1, then advances the cursor by `sizeof(uint64_t)` before copying the metadata, which therefore starts at offset 9. Decode reads the size byte and the metadata from offset 2. | plugin id 1, size 1, metadata [7], over a ten-byte zeroed buffer: decode returns metadata [0] | the cursor advances one byte after the size, so the metadata starts at offset 2 and encode-then-decode returns the message; the 8-byte size slot that the size routine counts suggests another fix, an 8-byte size written and read in both directions, which this model does not take | medium, not executed | IdxInfo.EncodeDecodeMismatch | IdxInfo.DecodeEncodeCompact |
