/**
  Byte-level helpers shared by the metadata codecs: the byte and 32-bit
  word types, the little-endian integer encoding used for lengths and
  checksums, and the file-address encoding in which an undefined address
  is written as all 0xff bytes.
 */
module Bytes {

  type Byte = b: int | 0 <= b < 256
  type Uint32 = n: int | 0 <= n < 0x1_0000_0000

  datatype Option<T> = None | Some(value: T)

  /** 256 to the power w: the number of values a w-byte field can hold. */
  function Pow256(w: nat): (r: nat)
    ensures r >= 1
  {
    if w == 0 then 1 else 256 * Pow256(w - 1)
  }

  /** The low w bytes of v, least significant first (truncating, like the
      library's fixed-width encoders). */
  function EncodeLE(v: nat, w: nat): (r: seq<Byte>)
    ensures |r| == w
  {
    if w == 0 then [] else [v % 256] + EncodeLE(v / 256, w - 1)
  }

  /** The value of a little-endian byte string. */
  function DecodeLE(s: seq<Byte>): (v: nat)
    ensures v < Pow256(|s|)
  {
    if s == [] then 0 else s[0] + 256 * DecodeLE(s[1..])
  }

  /** Decoding undoes encoding for every value that fits the field. */
  lemma {:induction false} DecodeEncodeLE(v: nat, w: nat)
    requires v < Pow256(w)
    ensures DecodeLE(EncodeLE(v, w)) == v
  {
    if w > 0 {
      DecodeEncodeLE(v / 256, w - 1);
      assert EncodeLE(v, w)[1..] == EncodeLE(v / 256, w - 1);
    }
  }

  /** Encoding undoes decoding: every byte string is the encoding of its value. */
  lemma {:induction false} EncodeDecodeLE(s: seq<Byte>)
    ensures EncodeLE(DecodeLE(s), |s|) == s
  {
    if s != [] {
      var v := DecodeLE(s);
      assert v % 256 == s[0] && v / 256 == DecodeLE(s[1..]);
      EncodeDecodeLE(s[1..]);
    }
  }

  /** A prefix extended by the bytes that follow it. */
  lemma PrefixSplit(s: seq<Byte>, j: nat, k: nat)
    requires j <= k <= |s|
    ensures s[..k] == s[..j] + s[j..k]
  {
  }

  /** A prefix extended by one byte. */
  lemma PrefixStep(s: seq<Byte>, j: nat)
    requires j < |s|
    ensures s[..j + 1] == s[..j] + [s[j]]
  {
  }

  /** A byte string cut at three offsets is the concatenation of its four
      pieces. */
  lemma SplitThree(s: seq<Byte>, i: nat, j: nat, k: nat)
    requires i <= j <= k <= |s|
    ensures s == s[..i] + s[i..j] + s[j..k] + s[k..]
  {
    PrefixSplit(s, i, j);
    PrefixSplit(s, j, k);
    assert s == s[..k] + s[k..];
  }

  /** The three pieces of a concatenation, cut back out of it. */
  lemma PiecesOfThree(x: seq<Byte>, y: seq<Byte>, z: seq<Byte>)
    ensures (x + y + z)[..|x|] == x
    ensures (x + y + z)[|x|..|x| + |y|] == y
    ensures (x + y + z)[|x| + |y|..] == z
  {
  }

  /** A file address: defined, or the library's undefined address. */
  datatype Addr = Undef | At(a: nat)

  /** Address equality as the library tests it: an undefined address
      equals nothing, not even the undefined address, so the inequality
      test on two addresses holds whenever the first is undefined. */
  predicate AddrEq(x: Addr, y: Addr)
  {
    x.At? && x == y
  }

  /** All bytes 0xff, checked byte by byte from the first. */
  predicate AllOnes(s: seq<Byte>)
  {
    s == [] || (s[0] == 0xff && AllOnes(s[1..]))
  }

  /** w bytes of 0xff. */
  function Ones(w: nat): (r: seq<Byte>)
    ensures |r| == w && AllOnes(r)
  {
    if w == 0 then []
    else
      var t := Ones(w - 1);
      assert ([0xff] + t)[1..] == t;
      [0xff] + t
  }

  /** The only all-0xff string of a length is the one Ones builds. */
  lemma {:induction false} OnesOfAllOnes(s: seq<Byte>)
    requires AllOnes(s)
    ensures Ones(|s|) == s
  {
    if s != [] {
      OnesOfAllOnes(s[1..]);
      assert s == [s[0]] + s[1..];
    }
  }

  /** A defined address can be written in a w-byte field only when its
      encoding is not the all-0xff pattern reserved for the undefined address. */
  predicate AddrFits(x: Addr, w: nat)
  {
    x.At? ==> x.a < Pow256(w) - 1
  }

  /** The address encoder: all 0xff for the undefined address, little-endian
      otherwise. */
  function EncodeAddr(x: Addr, w: nat): (r: seq<Byte>)
    ensures |r| == w
    ensures x.Undef? ==> AllOnes(r)
  {
    match x
    case Undef => Ones(w)
    case At(a) => EncodeLE(a, w)
  }

  /** The address decoder: an all-0xff field is the undefined address. */
  function DecodeAddr(s: seq<Byte>): (x: Addr)
    ensures x.Undef? <==> AllOnes(s)
    ensures AddrFits(x, |s|)
  {
    if AllOnes(s) then Undef
    else
      AllOnesValue(s[..]);
      At(DecodeLE(s))
  }

  /** The all-0xff string is exactly the string of the largest value. */
  lemma {:induction false} AllOnesValue(s: seq<Byte>)
    ensures AllOnes(s) <==> DecodeLE(s) == Pow256(|s|) - 1
  {
    if s != [] {
      AllOnesValue(s[1..]);
    }
  }

  /** Address decoding undoes address encoding for every address that fits. */
  lemma DecodeEncodeAddr(x: Addr, w: nat)
    requires AddrFits(x, w)
    ensures DecodeAddr(EncodeAddr(x, w)) == x
  {
    if x.At? {
      DecodeEncodeLE(x.a, w);
      AllOnesValue(EncodeAddr(x, w));
    }
  }

  /** Address encoding undoes address decoding: the decoder accepts only the
      encoder's own images, so nothing is lost in a read followed by a write. */
  lemma EncodeDecodeAddr(s: seq<Byte>)
    ensures EncodeAddr(DecodeAddr(s), |s|) == s
  {
    if AllOnes(s) {
      OnesOfAllOnes(s);
    } else {
      EncodeDecodeLE(s);
    }
  }
}
