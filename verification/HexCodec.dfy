/** `decode_hex` and `to_hex` of `offchain/crates/types`, over the bytes of a text. */
module HexCodec {
  import opened Basics

  /** The value of an ASCII hex digit of either case. */
  function DigitValue(c: byte): (v: Option<nat>)
    ensures v.Some? ==> v.value < 16
  {
    var n := c as nat;
    if 48 <= n <= 57 then Some(n - 48)
    else if 97 <= n <= 102 then Some(n - 87)
    else if 65 <= n <= 70 then Some(n - 55)
    else None
  }

  /** The lowercase hex digit of a value. */
  function DigitChar(v: nat): byte
    requires v < 16
  {
    if v < 10 then (48 + v) as byte else (87 + v) as byte
  }

  /** ASCII lowercase. */
  function Lower(c: byte): byte {
    if 65 <= c <= 90 then c + 32 else c
  }

  function Lowercase(s: seq<byte>): (t: seq<byte>)
    ensures |t| == |s|
  {
    if s == [] then [] else [Lower(s[0])] + Lowercase(s[1..])
  }

  /** `strip_prefix("0x")`, once. */
  function Strip(s: seq<byte>): seq<byte> {
    if |s| >= 2 && s[0] == 48 && s[1] == 120 then s[2..] else s
  }

  predicate IsHexByte(hi: byte, lo: byte) {
    DigitValue(hi).Some? && DigitValue(lo).Some?
  }

  function HexByte(hi: byte, lo: byte): byte
    requires IsHexByte(hi, lo)
  {
    (DigitValue(hi).value * 16 + DigitValue(lo).value) as byte
  }

  function DecodeDigits(s: seq<byte>): (r: Option<seq<byte>>)
    requires |s| % 2 == 0
    ensures r.Some? ==> 2 * |r.value| == |s|
  {
    if s == [] then Some([])
    else
      var rest := DecodeDigits(s[2..]);
      if IsHexByte(s[0], s[1]) && rest.Some? then Some([HexByte(s[0], s[1])] + rest.value) else None
  }

  /** What decoding to `n` bytes gives; `None` stands for `InvalidHex`. */
  function Decode(s: seq<byte>, n: nat): Option<seq<byte>> {
    if |Strip(s)| != 2 * n then None else DecodeDigits(Strip(s))
  }

  function Encode(bytes: seq<byte>): (s: seq<byte>)
    ensures |s| == 2 * |bytes|
  {
    if bytes == [] then []
    else [DigitChar(bytes[0] as nat / 16), DigitChar(bytes[0] as nat % 16)] + Encode(bytes[1..])
  }

  lemma DigitRoundTrip(v: nat)
    requires v < 16
    ensures DigitValue(DigitChar(v)) == Some(v) && DigitChar(v) != 120
  {
  }

  lemma CharRoundTrip(c: byte)
    requires DigitValue(c).Some?
    ensures DigitChar(DigitValue(c).value) == Lower(c)
  {
  }

  lemma {:induction false} DigitsRoundTrip(bytes: seq<byte>)
    ensures DecodeDigits(Encode(bytes)) == Some(bytes)
    decreases |bytes|
  {
    if bytes != [] {
      var b := bytes[0] as nat;
      DigitRoundTrip(b / 16);
      DigitRoundTrip(b % 16);
      DigitsRoundTrip(bytes[1..]);
      assert Encode(bytes)[2..] == Encode(bytes[1..]);
      assert bytes == [bytes[0]] + bytes[1..];
    }
  }

  /** Encoded text never starts with the prefix that decoding strips, and decodes back. */
  lemma {:induction false} DecodeOfEncode(bytes: seq<byte>)
    ensures Strip(Encode(bytes)) == Encode(bytes)
    ensures Decode(Encode(bytes), |bytes|) == Some(bytes)
  {
    if bytes != [] {
      DigitRoundTrip(bytes[0] as nat % 16);
    }
    DigitsRoundTrip(bytes);
  }

  lemma {:induction false} DigitsEncodeBack(s: seq<byte>)
    requires |s| % 2 == 0 && DecodeDigits(s).Some?
    ensures Encode(DecodeDigits(s).value) == Lowercase(s)
    decreases |s|
  {
    if s != [] {
      CharRoundTrip(s[0]);
      CharRoundTrip(s[1]);
      var bytes, rest := DecodeDigits(s).value, DecodeDigits(s[2..]).value;
      assert bytes[1..] == rest;
      DigitsEncodeBack(s[2..]);
      assert Lowercase(s) == [Lower(s[0]), Lower(s[1])] + Lowercase(s[2..]) by {
        assert s[1..][1..] == s[2..];
      }
    }
  }

  /** Encoding what a text decodes to gives the text without its prefix, in lowercase. */
  lemma {:induction false} EncodeOfDecode(s: seq<byte>, n: nat)
    requires Decode(s, n).Some?
    ensures |Decode(s, n).value| == n
    ensures Encode(Decode(s, n).value) == Lowercase(Strip(s))
  {
    DigitsEncodeBack(Strip(s));
  }

  /** Two accepted texts mean the same bytes exactly when they agree up to prefix and case. */
  lemma {:induction false} SameBytesIffSameText(s: seq<byte>, t: seq<byte>, n: nat)
    requires Decode(s, n).Some? && Decode(t, n).Some?
    ensures Decode(s, n) == Decode(t, n) <==> Lowercase(Strip(s)) == Lowercase(Strip(t))
  {
    EncodeOfDecode(s, n);
    EncodeOfDecode(t, n);
    DigitsRoundTrip(Decode(s, n).value);
    DigitsRoundTrip(Decode(t, n).value);
  }

  /** `0` to `9`, `A` to `F`, `a` to `f` in ASCII. */
  predicate HexDigit(c: byte) {
    48 <= c <= 57 || 65 <= c <= 70 || 97 <= c <= 102
  }

  lemma DigitsHaveValues()
    ensures forall c: byte :: DigitValue(c).Some? <==> HexDigit(c)
    ensures !HexDigit(120)
  {
  }

  /** Acceptance: `2 * n` hex digits, alone or after `0x`. */
  lemma {:induction false} AcceptedExactly(s: seq<byte>, n: nat)
    ensures Decode(s, n).Some? <==>
      || (|s| == 2 * n && forall i :: 0 <= i < |s| ==> HexDigit(s[i]))
      || (|s| == 2 * n + 2 && s[0] == 48 && s[1] == 120 && forall i :: 2 <= i < |s| ==> HexDigit(s[i]))
  {
    DigitsHaveValues();
    hide DigitValue, HexDigit;
    var t := Strip(s);
    if |t| == 2 * n {
      DigitsAccepted(t);
    }
    if t != s {
      assert forall i :: 2 <= i < |s| ==> s[i] == t[i - 2];
      assert forall i :: 0 <= i < |t| ==> t[i] == s[i + 2];
    }
  }

  /** The prefix is optional: it changes nothing in front of `2 * n` characters. */
  lemma {:induction false} PrefixIsOptional(s: seq<byte>, n: nat)
    requires |s| == 2 * n
    ensures Decode([48, 120] + s, n) == Decode(s, n)
    ensures forall bytes :: s == Encode(bytes) ==> Decode([48, 120] + s, n) == Some(bytes)
  {
    assert ([48, 120] + s)[2..] == s;
    DigitsHaveValues();
    if Strip(s) != s {
      DigitsAccepted(s);
    }
    forall bytes | s == Encode(bytes)
      ensures Decode([48, 120] + s, n) == Some(bytes)
    {
      DecodeOfEncode(bytes);
    }
  }

  /** Each byte is written as the two characters of `{:02x}`. */
  lemma {:induction false} EncodedAt(bytes: seq<byte>, k: nat)
    requires k < |bytes|
    ensures var digits, b := "0123456789abcdef", bytes[k] as int;
      && Encode(bytes)[2 * k] as int == digits[b / 16] as int
      && Encode(bytes)[2 * k + 1] as int == digits[b % 16] as int
    decreases k
  {
    if k > 0 {
      EncodedAt(bytes[1..], k - 1);
      assert Encode(bytes)[2..] == Encode(bytes[1..]);
    } else {
      DigitIsListed(bytes[0] as nat / 16);
      DigitIsListed(bytes[0] as nat % 16);
    }
  }

  lemma DigitIsListed(v: nat)
    requires v < 16
    ensures DigitChar(v) as int == "0123456789abcdef"[v] as int
  {
  }

  lemma {:induction false} DigitsAccepted(s: seq<byte>)
    requires |s| % 2 == 0
    ensures DecodeDigits(s).Some? <==> forall i :: 0 <= i < |s| ==> DigitValue(s[i]).Some?
    decreases |s|
  {
    if s != [] {
      DigitsAccepted(s[2..]);
      assert forall i :: 2 <= i < |s| ==> s[i] == s[2..][i - 2];
      if forall i :: 0 <= i < |s| ==> DigitValue(s[i]).Some? {
        forall i | 0 <= i < |s[2..]|
          ensures DigitValue(s[2..][i]).Some?
        {
          assert s[2..][i] == s[i + 2];
        }
      }
    }
  }

  /** The bytes that the digit pairs stand for are the decoded text. */
  lemma {:induction false} DecodeByPairs(s: seq<byte>, bytes: seq<byte>)
    requires |s| == 2 * |bytes|
    requires forall k :: 0 <= k < |bytes| ==>
      IsHexByte(s[2 * k], s[2 * k + 1]) && bytes[k] == HexByte(s[2 * k], s[2 * k + 1])
    ensures DecodeDigits(s) == Some(bytes)
    decreases |s|
  {
    if s != [] {
      forall k | 0 <= k < |bytes[1..]|
        ensures IsHexByte(s[2..][2 * k], s[2..][2 * k + 1])
             && bytes[1..][k] == HexByte(s[2..][2 * k], s[2..][2 * k + 1])
      {
        assert s[2..][2 * k] == s[2 * (k + 1)] && s[2..][2 * k + 1] == s[2 * (k + 1) + 1]
            && bytes[1..][k] == bytes[k + 1];
      }
      DecodeByPairs(s[2..], bytes[1..]);
      assert IsHexByte(s[2 * 0], s[2 * 0 + 1]) && bytes[0] == HexByte(s[2 * 0], s[2 * 0 + 1]);
      assert bytes == [bytes[0]] + bytes[1..];
    }
  }

  method DecodeHex(text: seq<byte>, n: nat) returns (r: Option<seq<byte>>)
    ensures r == Decode(text, n)
  {
    var s := Strip(text);
    if |s| != n * 2 {
      return None;
    }
    var out := new byte[n];
    for i := 0 to n
      invariant forall k :: 0 <= k < i ==>
        IsHexByte(s[2 * k], s[2 * k + 1]) && out[k] == HexByte(s[2 * k], s[2 * k + 1])
    {
      var hi, lo := DigitValue(s[2 * i]), DigitValue(s[2 * i + 1]);
      if hi.None? || lo.None? {
        DigitsAccepted(s);
        return None;
      }
      out[i] := (hi.value * 16 + lo.value) as byte;
    }
    DecodeByPairs(s, out[..]);
    return Some(out[..]);
  }

  method ToHex(bytes: seq<byte>) returns (s: seq<byte>)
    ensures s == Encode(bytes)
  {
    s := [];
    for i := 0 to |bytes|
      invariant s + Encode(bytes[i..]) == Encode(bytes)
    {
      assert bytes[i..][1..] == bytes[i + 1..];
      s := s + [DigitChar(bytes[i] as nat / 16), DigitChar(bytes[i] as nat % 16)];
    }
    assert bytes[|bytes|..] == [];
  }
}
