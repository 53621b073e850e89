/** `programs/passkeyauth/src/passkey.rs`: reading a secp256r1 precompile instruction. */
module Precompile {
  import opened Basics

  const IX_INDEX_SELF: nat := U16_MAX
  const OFFSETS_LEN: nat := 14
  const P256_PUBKEY_LEN: nat := 33

  datatype VerifiedCredential = VerifiedCredential(pubkey: seq<byte>, message: seq<byte>)

  /** `data.get(from..to)`. */
  function Get(data: seq<byte>, from: nat, to: nat): Option<seq<byte>> {
    if from <= to <= |data| then Some(data[from..to]) else None
  }

  function ReadU16(data: seq<byte>, at: nat): Option<nat> {
    match Get(data, at, at + 2)
    case None => None
    case Some(b) => Some(b[0] as nat + 256 * b[1] as nat)
  }

  function ExtractEmbedded(data: seq<byte>): Option<VerifiedCredential> {
    if data == [] || data[0] == 0 then None
    else
      var base := 2;
      match (ReadU16(data, base), ReadU16(data, base + 2), ReadU16(data, base + 4), ReadU16(data, base + 6))
      case (Some(_), Some(sigIx), Some(pkOff), Some(pkIx)) =>
        (match (ReadU16(data, base + 8), ReadU16(data, base + 10), ReadU16(data, base + 12))
         case (Some(msgOff), Some(msgSize), Some(msgIx)) =>
           if sigIx != IX_INDEX_SELF || pkIx != IX_INDEX_SELF || msgIx != IX_INDEX_SELF then None
           else if base + OFFSETS_LEN > |data| then None
           else
             (match (Get(data, pkOff, pkOff + P256_PUBKEY_LEN), Get(data, msgOff, msgOff + msgSize))
              case (Some(pubkey), Some(message)) => Some(VerifiedCredential(pubkey, message))
              case _ => None)
         case _ => None)
      case _ => None
  }

  type Word16 = w: int | 0 <= w < 65536

  /** The first 16 bytes of an instruction: counts, then one signature's offsets. */
  datatype Header = Header(numSigs: byte, pad: byte, sigOff: Word16, sigIx: Word16, pkOff: Word16, pkIx: Word16,
                           msgOff: Word16, msgSize: Word16, msgIx: Word16)

  function LittleEndian(w: Word16): (b: seq<byte>)
    ensures |b| == 2
  {
    [(w % 256) as byte, (w / 256) as byte]
  }

  function Encode(h: Header): (b: seq<byte>)
    ensures |b| == 16
  {
    [h.numSigs, h.pad] + LittleEndian(h.sigOff) + LittleEndian(h.sigIx) + LittleEndian(h.pkOff) + LittleEndian(h.pkIx)
      + LittleEndian(h.msgOff) + LittleEndian(h.msgSize) + LittleEndian(h.msgIx)
  }

  predicate SelfReferential(h: Header) {
    h.numSigs != 0 && h.sigIx == h.pkIx == h.msgIx == IX_INDEX_SELF
  }

  /** `data` starts with the encoding of `h`, whose two slices fit and are those of `vc`. */
  predicate LaidOut(data: seq<byte>, h: Header, vc: VerifiedCredential) {
    && Encode(h) <= data
    && SelfReferential(h)
    && h.pkOff + P256_PUBKEY_LEN <= |data| && data[h.pkOff..h.pkOff + P256_PUBKEY_LEN] == vc.pubkey
    && h.msgOff + h.msgSize <= |data| && data[h.msgOff..h.msgOff + h.msgSize] == vc.message
  }

  function WordAt(data: seq<byte>, at: nat): Word16
    requires at + 2 <= |data|
  {
    data[at] as int + 256 * data[at + 1] as int
  }

  function Decode(data: seq<byte>): Header
    requires |data| >= 16
  {
    Header(data[0], data[1], WordAt(data, 2), WordAt(data, 4), WordAt(data, 6), WordAt(data, 8),
           WordAt(data, 10), WordAt(data, 12), WordAt(data, 14))
  }

  function Words(h: Header): (words: seq<Word16>)
    ensures |words| == 7
  {
    [h.sigOff, h.sigIx, h.pkOff, h.pkIx, h.msgOff, h.msgSize, h.msgIx]
  }

  /** The bytes of the `i`-th word of the offsets block. */
  function WordSlice(data: seq<byte>, i: nat): (b: seq<byte>)
    requires i < 7 && |data| >= 16
    ensures |b| == 2
  {
    data[2 * i + 2..2 * i + 4]
  }

  lemma EncodedWord(h: Header, data: seq<byte>, i: nat)
    requires i < 7 && |data| >= 16
    ensures WordSlice(Encode(h), i) == WordSlice(data, i) <==> Words(h)[i] == WordAt(data, 2 * i + 2)
  {
    assert WordSlice(Encode(h), i) == LittleEndian(Words(h)[i]) by {
      hide LittleEndian;
    }
    hide *;
    WordBytes(data, i, Words(h)[i]);
  }

  lemma WordBytes(data: seq<byte>, i: nat, w: Word16)
    requires i < 7 && |data| >= 16
    ensures LittleEndian(w) == WordSlice(data, i) <==> w == WordAt(data, 2 * i + 2)
  {
    var b := WordSlice(data, i);
    assert b[0] == data[2 * i + 2] && b[1] == data[2 * i + 3];
    hide WordSlice;
    assert w == w % 256 + 256 * (w / 256);
    if w == WordAt(data, 2 * i + 2) {
      assert LittleEndian(w)[0] == b[0] && LittleEndian(w)[1] == b[1];
    }
  }

  lemma SameWords(e: seq<byte>, data: seq<byte>)
    requires |e| == 16 <= |data|
    ensures e <= data <==>
      e[0] == data[0] && e[1] == data[1] && forall i :: 0 <= i < 7 ==> WordSlice(e, i) == WordSlice(data, i)
  {
    if forall i :: 0 <= i < 7 ==> WordSlice(e, i) == WordSlice(data, i) {
      forall k | 2 <= k < 16
        ensures e[k] == data[k]
      {
        var i := k / 2 - 1;
        assert e[k] == WordSlice(e, i)[k % 2] && data[k] == WordSlice(data, i)[k % 2];
      }
    }
  }

  /** `h` agrees with `data` in its two single bytes and in each of its seven words. */
  ghost predicate SameFields(data: seq<byte>, h: Header)
    requires |data| >= 16
  {
    h.numSigs == data[0] && h.pad == data[1] && forall i :: 0 <= i < 7 ==> Words(h)[i] == WordAt(data, 2 * i + 2)
  }

  lemma DecodedFields(data: seq<byte>, h: Header)
    requires |data| >= 16
    ensures h == Decode(data) <==> SameFields(data, h)
  {
    hide WordAt;
    if SameFields(data, h) {
      var w := Words(h);
      assert w[0] == h.sigOff && w[1] == h.sigIx && w[2] == h.pkOff && w[3] == h.pkIx;
      assert w[4] == h.msgOff && w[5] == h.msgSize && w[6] == h.msgIx;
    }
  }

  lemma EncodedFields(data: seq<byte>, h: Header)
    requires |data| >= 16
    ensures Encode(h) <= data <==> SameFields(data, h)
  {
    assert Encode(h)[0] == h.numSigs && Encode(h)[1] == h.pad;
    hide Encode, WordAt, Words;
    hide WordSlice;
    SameWords(Encode(h), data);
    forall i | 0 <= i < 7
      ensures WordSlice(Encode(h), i) == WordSlice(data, i) <==> Words(h)[i] == WordAt(data, 2 * i + 2)
    {
      EncodedWord(h, data, i);
    }
  }

  lemma DecodeEncode(data: seq<byte>, h: Header)
    requires |data| >= 16
    ensures Encode(h) <= data <==> h == Decode(data)
  {
    hide *;
    EncodedFields(data, h);
    DecodedFields(data, h);
  }

  /** A credential comes out exactly when the data is a self-referential layout of it; the
      guard on the offsets block never refuses anything that got so far. */
  lemma ExtractExactly(data: seq<byte>, vc: VerifiedCredential)
    ensures ExtractEmbedded(data) == Some(vc) <==> exists h :: LaidOut(data, h, vc)
    ensures ReadU16(data, 14).Some? ==> !(2 + OFFSETS_LEN > |data|)
  {
    if |data| >= 16 {
      var h := Decode(data);
      DecodeEncode(data, h);
      if ExtractEmbedded(data) == Some(vc) {
        assert LaidOut(data, h, vc);
      }
      forall g | LaidOut(data, g, vc)
        ensures ExtractEmbedded(data) == Some(vc)
      {
        DecodeEncode(data, g);
      }
    }
  }

  /** The 16-bit number whose bytes are `lo` and `hi`. */
  function Number(lo: byte, hi: byte): int {
    lo as int + 256 * hi as int
  }

  /** The same on the bytes alone: at least one signature, all three instruction indices
      65535, and the key and the message are where bytes 6, 7 and 10 to 13 say, 33 bytes and
      as many as said. */
  lemma {:induction false} ExtractOnBytes(data: seq<byte>, vc: VerifiedCredential)
    ensures ExtractEmbedded(data) == Some(vc) <==>
      && |data| >= 16 && data[0] != 0
      && data[4] == data[5] == data[8] == data[9] == data[14] == data[15] == 255
      && var keyAt, messageAt, size := Number(data[6], data[7]), Number(data[10], data[11]), Number(data[12], data[13]);
         && keyAt + 33 <= |data| && data[keyAt..keyAt + 33] == vc.pubkey
         && messageAt + size <= |data| && data[messageAt..messageAt + size] == vc.message
  {
    if |data| >= 16 {
      AllOnes(data, 4);
      AllOnes(data, 8);
      AllOnes(data, 14);
    }
  }

  lemma AllOnes(data: seq<byte>, at: nat)
    requires at + 2 <= |data|
    ensures ReadU16(data, at) == Some(65535) <==> data[at] == data[at + 1] == 255
  {
  }

  /** Bytes after the parts that matter never change a successful result. */
  lemma ExtractIgnoresSuffix(data: seq<byte>, more: seq<byte>)
    requires ExtractEmbedded(data).Some?
    ensures ExtractEmbedded(data + more) == ExtractEmbedded(data)
  {
    var vc := ExtractEmbedded(data).value;
    ExtractExactly(data, vc);
    var h :| LaidOut(data, h, vc);
    var longer := data + more;
    assert Encode(h) <= longer;
    assert longer[h.pkOff..h.pkOff + P256_PUBKEY_LEN] == data[h.pkOff..h.pkOff + P256_PUBKEY_LEN];
    assert longer[h.msgOff..h.msgOff + h.msgSize] == data[h.msgOff..h.msgOff + h.msgSize];
    assert LaidOut(longer, h, vc);
    ExtractExactly(longer, vc);
  }

  const SEVENS: seq<byte> := [7, 7, 7, 7, 7, 7, 7, 7]
  const SIGNATURE := SEVENS + SEVENS + SEVENS + SEVENS + SEVENS + SEVENS + SEVENS + SEVENS

  lemma SignatureLength()
    ensures |SIGNATURE| == 64
    ensures forall i :: 0 <= i < 64 ==> SIGNATURE[i] == 7
  {
    assert forall i :: 0 <= i < 8 ==> SEVENS[i] == 7;
    hide SEVENS;
  }

  /** The header that `Blob` writes; lengths are cut to 16 bits. */
  function BlobHeader(pubkey: seq<byte>, message: seq<byte>): Header {
    Header(1, 0, 16, IX_INDEX_SELF, 80, IX_INDEX_SELF, (80 + |pubkey|) % 65536, |message| % 65536, IX_INDEX_SELF)
  }

  function BlobBytes(pubkey: seq<byte>, message: seq<byte>): seq<byte> {
    Encode(BlobHeader(pubkey, message)) + (SIGNATURE + pubkey + message)
  }

  /** Overwrites two bytes in place; `done` names what stands before them, `body` what
      follows the offsets block. */
  method WriteU16(d: seq<byte>, at: nat, w: Word16, ghost done: seq<byte>, ghost body: seq<byte>)
      returns (r: seq<byte>, ghost done': seq<byte>)
    requires at + 2 <= 16 <= |d| && |done| == at && done <= d && d[16..] == body
    ensures done' == done + LittleEndian(w) && done' <= r
    ensures |r| == |d| && r[16..] == body
  {
    r := d[at := (w % 256) as byte][at + 1 := (w / 256) as byte];
    done' := done + LittleEndian(w);
    assert r[16..] == d[16..];
  }

  /** The encoder: reserves the offsets block, appends the parts, then fills the block. */
  method Blob(pubkey: seq<byte>, message: seq<byte>) returns (d: seq<byte>)
    ensures d == BlobBytes(pubkey, message)
  {
    hide LittleEndian, SIGNATURE;
    d := [1, 0];
    ghost var done := d;
    var offsetsAt := |d|;
    d := d + [0, 0, 0, 0, 0, 0, 0, 0, 0, 0, 0, 0, 0, 0];
    var sigOff := |d| % 65536;
    d := d + SIGNATURE;
    SignatureLength();
    var pkOff := |d| % 65536;
    d := d + pubkey;
    var msgOff := |d| % 65536;
    d := d + message;
    ghost var body := SIGNATURE + pubkey + message;
    assert d[16..] == body;
    d, done := WriteU16(d, offsetsAt, sigOff, done, body);
    d, done := WriteU16(d, offsetsAt + 2, IX_INDEX_SELF, done, body);
    d, done := WriteU16(d, offsetsAt + 4, pkOff, done, body);
    d, done := WriteU16(d, offsetsAt + 6, IX_INDEX_SELF, done, body);
    d, done := WriteU16(d, offsetsAt + 8, msgOff, done, body);
    d, done := WriteU16(d, offsetsAt + 10, |message| % 65536, done, body);
    d, done := WriteU16(d, offsetsAt + 12, IX_INDEX_SELF, done, body);
    assert done == Encode(BlobHeader(pubkey, message));
    assert d == done + d[16..];
  }

  lemma Slices(e: seq<byte>, s: seq<byte>, p: seq<byte>, m: seq<byte>, n: nat)
    requires |e| == 16 && |s| == 64 && |p| == P256_PUBKEY_LEN && n <= |m|
    ensures var data := e + (s + p + m); e <= data && data[80..113] == p && data[113..113 + n] == m[..n]
  {
    var data := e + (s + p + m);
    assert data == (e + s) + p + m;
    assert data[80..113] == p;
    assert data[113..] == m;
    assert data[113..113 + n] == data[113..][..n];
  }

  lemma BlobLaidOut(pubkey: seq<byte>, message: seq<byte>)
    requires |pubkey| == P256_PUBKEY_LEN
    ensures LaidOut(BlobBytes(pubkey, message), BlobHeader(pubkey, message),
                    VerifiedCredential(pubkey, message[..|message| % 65536]))
  {
    SignatureLength();
    hide SIGNATURE, Encode;
    Slices(Encode(BlobHeader(pubkey, message)), SIGNATURE, pubkey, message, |message| % 65536);
  }

  /** One signature at byte 16, filled with sevens, then the key and the message. */
  lemma {:induction false} BlobOnBytes(pubkey: seq<byte>, message: seq<byte>)
    ensures var data := BlobBytes(pubkey, message);
      && |data| == 80 + |pubkey| + |message|
      && data[0] == 1 && data[1] == 0 && data[2] == 16 && data[3] == 0
      && (forall i :: 16 <= i < 80 ==> data[i] == 7)
      && data[80..] == pubkey + message
  {
    SignatureLength();
    hide SIGNATURE;
    var data, e := BlobBytes(pubkey, message), Encode(BlobHeader(pubkey, message));
    assert data == e + SIGNATURE + (pubkey + message);
    assert forall i :: 16 <= i < 80 ==> data[i] == SIGNATURE[i - 16];
  }

  /** Reading back an encoded key and message gives the key and the message cut to the
      16-bit length field: the very message exactly when it is at most 65535 bytes long. */
  lemma BlobRoundTrip(pubkey: seq<byte>, message: seq<byte>)
    requires |pubkey| == P256_PUBKEY_LEN
    ensures var data := BlobBytes(pubkey, message);
      && ExtractEmbedded(data) == Some(VerifiedCredential(pubkey, message[..|message| % 65536]))
      && (ExtractEmbedded(data) == Some(VerifiedCredential(pubkey, message)) <==> |message| <= U16_MAX)
  {
    hide *;
    var data, cut := BlobBytes(pubkey, message), message[..|message| % 65536];
    BlobLaidOut(pubkey, message);
    ExtractExactly(data, VerifiedCredential(pubkey, cut));
    if |message| <= 65535 {
      assert cut == message;
    } else {
      assert |cut| < |message|;
    }
    SixteenBits();
  }

  lemma SixteenBits()
    ensures U16_MAX == 65535
  {
  }
}
