/** encodeUrl: percent-encoding as RFC 3986 section 2.1 describes it. */
module Url {
  import opened Bytes

  /** is_char_unsafe. */
  predicate IsUnsafe(c: byte) {
    // ! # $ & ' ( ) * + , / : ; = ? @ [ ]
    || c == 0x21 || c == 0x23 || c == 0x24 || c == 0x26 || c == 0x27
    || c == 0x28 || c == 0x29 || c == 0x2a || c == 0x2b || c == 0x2c
    || c == 0x2f || c == 0x3a || c == 0x3b || c == 0x3d || c == 0x3f
    || c == 0x40 || c == 0x5b || c == 0x5d
    // space DEL " % < > \ ^ ` { | }
    || c == 0x20 || c == 0x7f
    || c == 0x22 || c == 0x25 || c == 0x3c
    || c == 0x3e || c == 0x5c || c == 0x5e || c == 0x60
    || c == 0x7b || c == 0x7c || c == 0x7d
    || c < 0x20 || c >= 0x80
  }

  /** Unreserved characters (RFC 3986 section 2.3): letters, digits, hyphen, period, underscore, tilde. */
  predicate IsUnreserved(c: byte) {
    || 0x41 <= c <= 0x5a || 0x61 <= c <= 0x7a || IsDigit(c)
    || c == 0x2d || c == 0x2e || c == 0x5f || c == 0x7e
  }

  /** The list of unsafe characters is the complement of the unreserved ones. */
  lemma SafeIsUnreserved(c: byte)
    ensures !IsUnsafe(c) <==> IsUnreserved(c)
  {
  }

  function ToHex(d: nat): (r: byte)
    requires d < 16
    ensures r == Ascii("0123456789ABCDEF")[d]
  {
    if d < 10 then 0x30 + d else 0x41 + d - 10
  }

  function FromHex(c: byte): (r: Option<nat>)
    ensures r.Some? ==> r.value < 16
  {
    if IsDigit(c) then Some(c - 0x30)
    else if 0x41 <= c <= 0x46 then Some(c - 0x41 + 10)
    else if 0x61 <= c <= 0x66 then Some(c - 0x61 + 10)
    else None
  }

  function UrlByte(c: byte): bytes {
    if IsUnsafe(c) then [0x25, ToHex(c / 16), ToHex(c % 16)] else [c]
  }

  function UrlText(s: bytes): bytes {
    if s == [] then [] else UrlByte(s[0]) + UrlText(s[1..])
  }

  /** Decoding of percent-encoded octets; a percent sign must start one. */
  function PercentDecode(s: bytes): Option<bytes> {
    if s == [] then Some([])
    else if s[0] != 0x25 then
      match PercentDecode(s[1..])
      case Some(r) => Some([s[0]] + r)
      case None => None
    else if |s| < 3 || FromHex(s[1]).None? || FromHex(s[2]).None? then None
    else
      var b := 16 * FromHex(s[1]).value + FromHex(s[2]).value;
      match PercentDecode(s[3..])
      case Some(r) => Some([b as byte] + r)
      case None => None
  }

  method EncodeUrl(s: bytes) returns (r: bytes)
    ensures r == UrlText(s)
  {
    r := [];
    assert s[0..] == s;
    assert r + UrlText(s) == UrlText(s);
    for i := 0 to |s|
      invariant r + UrlText(s[i..]) == UrlText(s)
    {
      var c := s[i];
      ghost var before := r;
      assert s[i..][1..] == s[i + 1..];
      Assoc(before, UrlByte(c), UrlText(s[i + 1..]));
      if IsUnsafe(c) {
        r := r + [0x25];
        r := r + [ToHex(c / 16)];
        r := r + [ToHex(c % 16)];
      } else {
        r := r + [c];
      }
      assert r == before + UrlByte(c);
    }
    assert r + [] == r;
  }

  lemma PercentStep(c: byte, t: bytes)
    ensures PercentDecode(UrlByte(c) + t)
         == match PercentDecode(t) case Some(r) => Some([c] + r) case None => None
  {
    var s := UrlByte(c) + t;
    if IsUnsafe(c) {
      assert s[3..] == t;
      HexRoundTrip(c / 16);
      HexRoundTrip(c % 16);
    } else {
      assert s[1..] == t;
    }
  }

  lemma HexRoundTrip(d: nat)
    requires d < 16
    ensures FromHex(ToHex(d)) == Some(d)
  {
  }

  /** Percent-decoding recovers every byte string. */
  lemma {:induction false} UrlRoundTrip(s: bytes)
    ensures PercentDecode(UrlText(s)) == Some(s)
  {
    if s != [] {
      UrlRoundTrip(s[1..]);
      PercentStep(s[0], UrlText(s[1..]));
      assert s == [s[0]] + s[1..];
    }
  }

  /** The encoded text consists of unreserved characters and percent signs. */
  lemma {:induction false} UrlTextIsSafe(s: bytes)
    ensures forall k | 0 <= k < |UrlText(s)| :: IsUnreserved(UrlText(s)[k]) || UrlText(s)[k] == 0x25
    ensures s != [] ==> UrlText(s) != []
  {
    if s != [] {
      UrlTextIsSafe(s[1..]);
      SafeIsUnreserved(s[0]);
    }
  }

  /** Text without percent signs stands for itself. */
  lemma {:induction false} PlainIsDecoded(s: bytes)
    requires 0x25 !in s
    ensures PercentDecode(s) == Some(s)
  {
    if s != [] {
      assert s == [s[0]] + s[1..];
      PlainIsDecoded(s[1..]);
    }
  }
}
