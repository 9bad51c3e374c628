/** Bytes as unsigned values 0..255, byte strings, and the byte order of std::string. */
module Bytes {

  type byte = b: int | 0 <= b < 256

  type bytes = seq<byte>

  datatype Option<+T> = None | Some(value: T)

  /** The bytes of a literal made of 7-bit characters. */
  function Ascii(s: string): (r: bytes)
    requires forall i | 0 <= i < |s| :: s[i] as int < 128
    ensures |r| == |s|
    ensures forall i | 0 <= i < |s| :: r[i] == s[i] as int
  {
    seq(|s|, i requires 0 <= i < |s| => s[i] as int)
  }

  /** `s[k]` of a std::string: the index may equal the length, where a NUL is read. */
  function At(s: bytes, k: nat): byte
    requires k <= |s|
  {
    if k == |s| then 0 else s[k]
  }

  /** The first byte of the input that is left, or the terminating NUL. */
  function Peek(s: bytes): byte {
    At(s, 0)
  }

  /** What was read of `s` when `r` is left of it. */
  function Consumed(s: bytes, r: bytes): bytes
    requires |r| <= |s|
  {
    s[..|s| - |r|]
  }

  predicate IsSuffix(r: bytes, s: bytes) {
    |r| <= |s| && r == s[|s| - |r|..]
  }

  lemma Rejoin(s: bytes, r: bytes)
    requires IsSuffix(r, s)
    ensures s == Consumed(s, r) + r
  {
  }

  lemma ConsumedTwice(s: bytes, r: bytes, t: bytes)
    requires IsSuffix(r, s) && IsSuffix(t, r)
    ensures IsSuffix(t, s) && Consumed(s, t) == Consumed(s, r) + Consumed(r, t)
  {
    Rejoin(s, r);
    Rejoin(r, t);
    assert s[|s| - |r|..][|r| - |t|..] == s[|s| - |t|..];
  }

  lemma Assoc(a: bytes, b: bytes, c: bytes)
    ensures a + b + c == a + (b + c)
  {
  }

  /** The bitwise or of two naturals. */
  function BitOr(x: nat, y: nat): nat {
    if x == 0 then y
    else if y == 0 then x
    else 2 * BitOr(x / 2, y / 2) + (if x % 2 == 1 || y % 2 == 1 then 1 else 0)
  }

  lemma BitOrZero(x: nat)
    ensures BitOr(x, 0) == x
  {
  }

  /** The or of an even number: halve both, and keep the last bit of the other. */
  lemma BitOrEven(h: nat, y: nat)
    ensures BitOr(2 * h, y) == 2 * BitOr(h, y / 2) + y % 2
  {
    if h == 0 {
    } else if y == 0 {
      BitOrZero(h);
    } else {
      assert 2 * h / 2 == h && 2 * h % 2 == 0;
    }
  }

  /** The or of numbers without common bits is their sum. */
  lemma BitOr4(q: nat, y: nat)
    requires y < 4
    ensures BitOr(4 * q, y) == 4 * q + y
  {
    hide BitOr;
    BitOrEven(2 * q, y);
    BitOrEven(q, y / 2);
    BitOrZero(q);
    assert y / 2 / 2 == 0;
  }

  lemma BitOr16(q: nat, y: nat)
    requires y < 16
    ensures BitOr(16 * q, y) == 16 * q + y
  {
    hide BitOr;
    BitOrEven(8 * q, y);
    BitOrEven(4 * q, y / 2);
    BitOr4(q, y / 2 / 2);
  }

  lemma BitOr64(q: nat, y: nat)
    requires y < 64
    ensures BitOr(64 * q, y) == 64 * q + y
  {
    hide BitOr;
    BitOrEven(32 * q, y);
    BitOrEven(16 * q, y / 2);
    BitOr16(q, y / 2 / 2);
  }

  predicate IsDigit(b: byte) {
    0x30 <= b <= 0x39
  }

  /** operator< of std::string, which compares bytes as unsigned values. */
  predicate LexLess(a: bytes, b: bytes) {
    if b == [] then false
    else if a == [] then true
    else a[0] < b[0] || (a[0] == b[0] && LexLess(a[1..], b[1..]))
  }

  lemma {:induction false} LexTrichotomy(a: bytes, b: bytes)
    ensures a == b ==> !LexLess(a, b)
    ensures a != b ==> LexLess(a, b) != LexLess(b, a)
  {
    if a != [] && b != [] && a[0] == b[0] {
      LexTrichotomy(a[1..], b[1..]);
      assert a == [a[0]] + a[1..] && b == [b[0]] + b[1..];
    }
  }

  lemma {:induction false} LexTransitive(a: bytes, b: bytes, c: bytes)
    requires LexLess(a, b) && LexLess(b, c)
    ensures LexLess(a, c)
  {
    if a != [] && a[0] == b[0] == c[0] {
      LexTransitive(a[1..], b[1..], c[1..]);
    }
  }

  /** The strings agree before `p`, where the first one ends or has the smaller byte. */
  predicate BytesBelowAt(a: bytes, b: bytes, p: nat) {
    p <= |a| && p < |b| && a[..p] == b[..p] && (p == |a| || a[p] < b[p])
  }

  lemma {:induction false} LexLessIsFirstDifference(a: bytes, b: bytes)
    ensures LexLess(a, b) <==> exists p: nat :: BytesBelowAt(a, b, p)
  {
    if a == [] || b == [] {
      assert BytesBelowAt(a, b, 0) <==> a == [] && b != [];
    } else {
      LexLessIsFirstDifference(a[1..], b[1..]);
      if p: nat :| BytesBelowAt(a[1..], b[1..], p) {
        if a[0] == b[0] {
          assert a[..p + 1] == [a[0]] + a[1..][..p] && b[..p + 1] == [b[0]] + b[1..][..p];
          assert BytesBelowAt(a, b, p + 1);
        }
      }
      if p: nat :| BytesBelowAt(a, b, p) {
        if p > 0 {
          assert a[0] == a[..p][0] == b[..p][0] == b[0];
          assert a[1..][..p - 1] == a[..p][1..] && b[1..][..p - 1] == b[..p][1..];
          assert BytesBelowAt(a[1..], b[1..], p - 1);
        }
      }
      if a[0] < b[0] {
        assert BytesBelowAt(a, b, 0);
      }
    }
  }
}
