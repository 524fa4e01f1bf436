/**
  The index-info object-header message: a plugin id, a metadata size and
  that many bytes of plugin metadata.  The pure functions give the byte
  layouts that decode reads and encode writes; the class and the methods
  walk a cursor over the buffers the way the message callbacks do.
 */
module IdxInfo {
  import opened Bytes

  /** Width of the size slot that encode skips over (a 64-bit integer). */
  const SizeFieldWidth: nat := 8

  /** The contents of a message, as values. */
  datatype IdxInfoFields = IdxInfoFields(pluginId: nat, metadataSize: nat, metadata: seq<Byte>)

  /** The bytes decode reads: the plugin id, then (when it is nonzero) the
      size byte, then (when that is nonzero) that many metadata bytes. */
  predicate Readable(p: seq<Byte>)
  {
    && |p| >= 1
    && (p[0] != 0 ==> |p| >= 2 && |p| >= 2 + p[1] as int)
  }

  /** H5O_idxinfo_decode on a byte string: a zero plugin id or a zero size
      is refused; otherwise the metadata is the size bytes from offset 2. */
  function DecodeSpec(p: seq<Byte>): (r: Option<IdxInfoFields>)
    requires Readable(p)
    ensures r.None? <==> p[0] == 0 || p[1] == 0
    ensures r.Some? ==> 1 <= r.value.pluginId < 256 && 1 <= r.value.metadataSize < 256
    ensures r.Some? ==> r.value.pluginId == p[0] && r.value.metadataSize == p[1]
    ensures r.Some? ==> r.value.metadata == p[2..2 + p[1]] && |r.value.metadata| == r.value.metadataSize
  {
    if p[0] == 0 then None
    else if p[1] == 0 then None
    else Some(IdxInfoFields(p[0], p[1], p[2..2 + p[1]]))
  }

  /** What encode needs: the metadata holds at least the size it claims and
      the buffer reaches past the skipped size slot and the metadata. */
  predicate EncodeFits(m: IdxInfoFields, p: seq<Byte>)
  {
    |m.metadata| >= m.metadataSize && |p| >= 1 + SizeFieldWidth + m.metadataSize
  }

  /** H5O_idxinfo_encode on a byte string: the low byte of the plugin id at
      offset 0, the low byte of the size at offset 1, bytes 2..8 left as they
      were, and the metadata from offset 9. */
  function EncodeSpec(m: IdxInfoFields, p: seq<Byte>): (r: seq<Byte>)
    requires EncodeFits(m, p)
    ensures |r| == |p|
    ensures r[0] == m.pluginId % 256 && r[1] == m.metadataSize % 256
    ensures r[2..1 + SizeFieldWidth] == p[2..1 + SizeFieldWidth]
    ensures r[1 + SizeFieldWidth..1 + SizeFieldWidth + m.metadataSize] == m.metadata[..m.metadataSize]
    ensures r[1 + SizeFieldWidth + m.metadataSize..] == p[1 + SizeFieldWidth + m.metadataSize..]
  {
    var start := 1 + SizeFieldWidth;
    var r := [m.pluginId % 256, m.metadataSize % 256] + p[2..start]
      + m.metadata[..m.metadataSize] + p[start + m.metadataSize..];
    assert r[start..start + m.metadataSize] == m.metadata[..m.metadataSize];
    r
  }

  /** H5O_idxinfo_size: the plugin-id field, the size field and the
      metadata.  The plugin-id width is that of the message structure's
      field, which is not part of this model. */
  function Size(m: IdxInfoFields, pluginIdWidth: nat): (n: nat)
    ensures pluginIdWidth >= 1 ==> n >= 1 + SizeFieldWidth + m.metadataSize
    ensures n >= SizeFieldWidth + m.metadataSize
  {
    pluginIdWidth + SizeFieldWidth + m.metadataSize
  }

  /** A buffer of the reported size is one encode can write into exactly
      when the plugin-id field is at least one byte wide, and what encode
      writes there is a buffer decode can read. */
  lemma EncodeWithinSize(m: IdxInfoFields, pluginIdWidth: nat, p: seq<Byte>)
    requires |m.metadata| >= m.metadataSize
    requires |p| == Size(m, pluginIdWidth)
    ensures EncodeFits(m, p) <==> pluginIdWidth >= 1
    ensures pluginIdWidth >= 1 ==> Readable(EncodeSpec(m, p))
  {
  }

  /** Decoding what encode wrote recovers the plugin id and the size of a
      decodable message, but takes as metadata the seven bytes of the size
      slot that encode left untouched followed by the start of the metadata. */
  lemma DecodeOfEncode(m: IdxInfoFields, p: seq<Byte>)
    requires EncodeFits(m, p)
    requires 1 <= m.pluginId < 256 && 1 <= m.metadataSize < 256
    ensures Readable(EncodeSpec(m, p))
    ensures DecodeSpec(EncodeSpec(m, p))
      == Some(IdxInfoFields(m.pluginId, m.metadataSize,
                            (p[2..1 + SizeFieldWidth] + m.metadata[..m.metadataSize])[..m.metadataSize]))
  {
    var e := EncodeSpec(m, p);
    var n := m.metadataSize;
    var tail := p[2..1 + SizeFieldWidth] + m.metadata[..n];
    assert e[2..2 + n] == tail[..n] by {
      assert e[2..1 + SizeFieldWidth + n] == tail;
    }
  }

  /** As written, encode and decode do not agree: a one-byte message written
      over a zeroed buffer reads back with metadata 0 instead of 7. */
  lemma EncodeDecodeMismatch()
    ensures var m := IdxInfoFields(1, 1, [7]);
            var p: seq<Byte> := [0, 0, 0, 0, 0, 0, 0, 0, 0, 0];
            EncodeFits(m, p) && Readable(EncodeSpec(m, p)) && DecodeSpec(EncodeSpec(m, p)) != Some(m)
  {
    var m := IdxInfoFields(1, 1, [7]);
    var p: seq<Byte> := [0, 0, 0, 0, 0, 0, 0, 0, 0, 0];
    DecodeOfEncode(m, p);
    assert (p[2..9] + m.metadata[..1])[..1] == [0];
  }

  /** The encoder that decode expects: the cursor advances one byte past the
      size byte, so the metadata starts at offset 2. */
  function EncodeCompact(m: IdxInfoFields, p: seq<Byte>): (r: seq<Byte>)
    requires |m.metadata| >= m.metadataSize && |p| >= 2 + m.metadataSize
    ensures |r| == |p|
    ensures r[..2] == [m.pluginId % 256, m.metadataSize % 256]
    ensures r[2..2 + m.metadataSize] == m.metadata[..m.metadataSize]
    ensures r[2 + m.metadataSize..] == p[2 + m.metadataSize..]
  {
    var r := [m.pluginId % 256, m.metadataSize % 256] + m.metadata[..m.metadataSize] + p[2 + m.metadataSize..];
    assert r[2..2 + m.metadataSize] == m.metadata[..m.metadataSize];
    r
  }

  /** With the corrected encoder, decode returns every decodable message. */
  lemma DecodeEncodeCompact(m: IdxInfoFields, p: seq<Byte>)
    requires 1 <= m.pluginId < 256 && 1 <= m.metadataSize < 256
    requires |m.metadata| == m.metadataSize && |p| >= 2 + m.metadataSize
    ensures Readable(EncodeCompact(m, p))
    ensures DecodeSpec(EncodeCompact(m, p)) == Some(m)
  {
    assert m.metadata[..m.metadataSize] == m.metadata;
  }

  /** A native index-info message (H5O_idxinfo_t). */
  class IdxInfoMsg {
    var pluginId: nat
    var metadataSize: nat
    var metadata: array?<Byte>

    /** Without metadata the size is zero; with it, the buffer holds exactly
        the size in bytes. */
    ghost predicate Valid()
      reads this
    {
      && (metadata == null ==> metadataSize == 0)
      && (metadata != null ==> metadata.Length == metadataSize)
    }

    /** The message as a value. */
    ghost function Fields(): IdxInfoFields
      reads this, metadata
    {
      IdxInfoFields(pluginId, metadataSize, if metadata == null then [] else metadata[..])
    }

    /** A zero-filled message, as the allocator returns it. */
    constructor ()
      ensures Valid() && pluginId == 0 && metadataSize == 0 && metadata == null
    {
      pluginId, metadataSize, metadata := 0, 0, null;
    }

    /** H5O_idxinfo_reset: both fields zero and the metadata released. */
    method Reset()
      modifies this
      ensures Valid()
      ensures pluginId == 0 && metadataSize == 0 && metadata == null
      ensures Fields() == IdxInfoFields(0, 0, [])
    {
      pluginId := 0;
      metadataSize := 0;
      metadata := null;
    }
  }

  /** H5O_idxinfo_decode: walks a cursor over the buffer and builds a fresh
      message whose fields are those DecodeSpec reads. */
  method Decode(p: array<Byte>) returns (r: Option<IdxInfoMsg>)
    requires Readable(p[..])
    ensures r.None? <==> DecodeSpec(p[..]).None?
    ensures r.Some? ==> fresh(r.value) && fresh(r.value.metadata) && r.value.Valid()
    ensures r.Some? ==> r.value.Fields() == DecodeSpec(p[..]).value
  {
    var mesg := new IdxInfoMsg();
    var pos := 0;
    mesg.pluginId := p[pos];
    pos := pos + 1;
    if mesg.pluginId == 0 {
      return None;
    }
    mesg.metadataSize := p[pos];
    pos := pos + 1;
    if mesg.metadataSize == 0 {
      return None;
    }
    var buf := new Byte[mesg.metadataSize];
    var k := 0;
    while k < mesg.metadataSize
      modifies buf
      invariant 0 <= k <= buf.Length == mesg.metadataSize == p[1]
      invariant buf[..k] == p[pos..pos + k]
    {
      buf[k] := p[pos + k];
      k := k + 1;
    }
    mesg.metadata := buf;
    assert buf[..] == buf[..k] == p[..][2..2 + p[1]];
    return Some(mesg);
  }

  /** H5O_idxinfo_encode: writes the plugin id, writes the size into one
      byte, advances the cursor by a whole size slot, then copies the
      metadata. */
  method Encode(p: array<Byte>, mesg: IdxInfoMsg)
    requires mesg.Valid() && mesg.metadata != p
    requires EncodeFits(mesg.Fields(), p[..])
    modifies p
    ensures p[..] == EncodeSpec(mesg.Fields(), old(p[..]))
  {
    ghost var before := p[..];
    var pos := 0;
    p[pos] := mesg.pluginId % 256;
    pos := pos + 1;
    p[pos] := mesg.metadataSize % 256;
    pos := pos + SizeFieldWidth;
    var k := 0;
    while k < mesg.metadataSize
      invariant 0 <= k <= mesg.metadataSize
      invariant mesg.metadata != null ==> mesg.metadata[..] == old(mesg.metadata[..])
      invariant p[..2] == [mesg.pluginId % 256, mesg.metadataSize % 256]
      invariant p[2..pos] == before[2..pos]
      invariant mesg.metadata == null ==> k == 0
      invariant mesg.metadata != null ==> p[pos..pos + k] == mesg.metadata[..k]
      invariant p[pos + k..] == before[pos + k..]
    {
      ghost var prev := p[..];
      p[pos + k] := mesg.metadata[k];
      assert p[pos + k + 1..] == prev[pos + k + 1..] == prev[pos + k..][1..];
      assert p[pos..pos + k + 1] == prev[pos..pos + k] + [mesg.metadata[k]];
      k := k + 1;
    }
    SplitThree(p[..], 2, pos, pos + k);
  }

  /** H5O_idxinfo_copy: copies the fields into the caller's destination, or
      into a fresh message when none is given, and gives the copy its own
      metadata buffer with the same bytes. */
  method Copy(mesg: IdxInfoMsg, dest: IdxInfoMsg?) returns (r: IdxInfoMsg)
    requires mesg.Valid() && dest != mesg
    modifies dest
    ensures dest != null ==> r == dest
    ensures dest == null ==> fresh(r)
    ensures r.Valid() && fresh(r.metadata)
    ensures r.Fields() == old(mesg.Fields())
  {
    if dest == null {
      r := new IdxInfoMsg();
    } else {
      r := dest;
    }
    r.pluginId, r.metadataSize, r.metadata := mesg.pluginId, mesg.metadataSize, mesg.metadata;
    var buf := new Byte[r.metadataSize];
    var k := 0;
    while k < r.metadataSize
      modifies buf
      invariant 0 <= k <= buf.Length == r.metadataSize == mesg.metadataSize
      invariant mesg.metadata != null ==> mesg.metadata[..] == old(mesg.metadata[..])
      invariant mesg.metadata == null ==> k == 0
      invariant mesg.metadata != null ==> buf[..k] == mesg.metadata[..k]
    {
      buf[k] := mesg.metadata[k];
      k := k + 1;
    }
    r.metadata := buf;
    assert buf[..] == buf[..k];
  }
}
