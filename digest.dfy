/**
 * Content digests: `GenHash` and `CompareHash` (pkg/helpers/helpers.go).
 *
 * SHA-256 (FIPS 180-4) is not modelled: the hash function is a parameter,
 * any total function from content to 32 bytes. What is modelled is the `%x`
 * rendering of the digest and the case-insensitive comparison.
 */
module Digest {
  import opened Common

  /** A SHA-256 digest: 32 bytes. */
  type Sha256Digest = d: seq<byte> | |d| == 32 witness seq(32, _ => 0)

  /** `sha256.New()` + `Write` + `Sum(nil)`, supplied by the caller. */
  type Sha256 = seq<byte> -> Sha256Digest

  /** The digit `%x` writes for a nibble: lower-case hexadecimal. */
  function HexDigit(n: nat): (c: char)
    requires n < 16
    ensures IsLowerHex(c)
  {
    if n < 10 then ('0' as int + n) as char else ('a' as int + n - 10) as char
  }

  /** A character `%x` may write. */
  predicate IsLowerHex(c: char)
  {
    '0' <= c <= '9' || 'a' <= c <= 'f'
  }

  /** `fmt.Sprintf("%x", bytes)`: two lower-case hex digits per byte, high nibble first. */
  function Hex(bytes: seq<byte>): (s: string)
    ensures |s| == 2 * |bytes|
    ensures forall i :: 0 <= i < |s| ==> IsLowerHex(s[i])
  {
    if bytes == [] then ""
    else [HexDigit(bytes[0] / 16), HexDigit(bytes[0] % 16)] + Hex(bytes[1..])
  }

  /** The value of a hexadecimal digit of either case. */
  function DigitValue(c: char): (v: Option<nat>)
    ensures v.Some? ==> v.value < 16
  {
    if '0' <= c <= '9' then Some(c as int - '0' as int)
    else if 'a' <= c <= 'f' then Some(c as int - 'a' as int + 10)
    else if 'A' <= c <= 'F' then Some(c as int - 'A' as int + 10)
    else None
  }

  /** Reads a hexadecimal string of either case back into bytes; `None` if it is not one. */
  function Unhex(s: string): Option<seq<byte>>
  {
    if s == [] then Some([])
    else if |s| == 1 then None
    else
      var hi, lo, rest := DigitValue(s[0]), DigitValue(s[1]), Unhex(s[2..]);
      if hi.None? || lo.None? || rest.None? then None
      else Some([hi.value * 16 + lo.value] + rest.value)
  }

  /** ASCII lower-casing. */
  function ToLower(c: char): char
  {
    if 'A' <= c <= 'Z' then (c as int - 'A' as int + 'a' as int) as char else c
  }

  /** ASCII upper-casing. */
  function ToUpper(c: char): char
  {
    if 'a' <= c <= 'z' then (c as int - 'a' as int + 'A' as int) as char else c
  }

  /** A string upper-cased character by character. */
  function Upper(s: string): (u: string)
    ensures |u| == |s| && forall i :: 0 <= i < |s| ==> u[i] == ToUpper(s[i])
  {
    seq(|s|, i requires 0 <= i < |s| => ToUpper(s[i]))
  }

  /** A string lower-cased character by character. */
  function Lower(s: string): (l: string)
    ensures |l| == |s| && forall i :: 0 <= i < |s| ==> l[i] == ToLower(s[i])
  {
    seq(|s|, i requires 0 <= i < |s| => ToLower(s[i]))
  }

  /** `strings.EqualFold` restricted to ASCII case folding: equal once both are lower-cased. */
  predicate EqualFold(a: string, b: string): (r: bool)
    ensures r <==> Lower(a) == Lower(b)
  {
    assert Lower(a) == Lower(b) ==> forall i :: 0 <= i < |a| ==> Lower(a)[i] == Lower(b)[i];
    SameUpToCase(a, b)
  }

  /** Position by position, the two strings agree once lower-cased. */
  predicate SameUpToCase(a: string, b: string)
  {
    |a| == |b| && forall i :: 0 <= i < |a| ==> ToLower(a[i]) == ToLower(b[i])
  }

  /** Case-insensitive equality is an equivalence. */
  lemma EqualFoldEquivalence(a: string, b: string, c: string)
    ensures EqualFold(a, a)
    ensures EqualFold(a, b) ==> EqualFold(b, a)
    ensures EqualFold(a, b) && EqualFold(b, c) ==> EqualFold(a, c)
  {
  }

  /** `GenHash`: the digest of `content` as `%x` renders it. */
  function GenHash(sha256: Sha256, content: seq<byte>): (h: string)
    ensures |h| == 64
    ensures forall i :: 0 <= i < |h| ==> IsLowerHex(h[i])
    ensures Unhex(h) == Some(sha256(content))
  {
    UnhexHex(sha256(content));
    Hex(sha256(content))
  }

  /** `CompareHash`: whether `hashed` names the digest of `content`, ignoring case. */
  function CompareHash(sha256: Sha256, hashed: string, content: seq<byte>): (r: bool)
    ensures r <==> Unhex(hashed) == Some(sha256(content))
  {
    EqualFoldHex(hashed, sha256(content));
    EqualFold(hashed, Hex(sha256(content)))
  }

  /** A digit, lower-cased, is the `%x` digit of its value. */
  lemma DigitValueLower(c: char, n: nat)
    requires n < 16
    ensures DigitValue(c) == Some(n) <==> ToLower(c) == HexDigit(n)
  {
  }

  /** A byte is its high nibble times sixteen plus its low nibble, and only those two. */
  lemma Nibbles(b: byte, hi: nat, lo: nat)
    requires hi < 16 && lo < 16
    ensures b == hi * 16 + lo <==> hi == b / 16 && lo == b % 16
  {
  }

  /** Hex rendering followed by reading back gives the bytes again. */
  lemma {:induction false} UnhexHex(bytes: seq<byte>)
    ensures Unhex(Hex(bytes)) == Some(bytes)
  {
    if bytes != [] {
      var b := bytes[0];
      DigitValueLower(HexDigit(b / 16), b / 16);
      DigitValueLower(HexDigit(b % 16), b % 16);
      Nibbles(b, b / 16, b % 16);
      UnhexHex(bytes[1..]);
      assert Hex(bytes)[2..] == Hex(bytes[1..]);
      assert [b] + bytes[1..] == bytes;
    }
  }

  /** A string equals the rendering of `d` up to case exactly when it reads back as `d`. */
  lemma {:induction false} EqualFoldHex(s: string, d: seq<byte>)
    ensures SameUpToCase(s, Hex(d)) <==> Unhex(s) == Some(d)
  {
    if d == [] {
    } else if |s| < 2 {
    } else {
      var b := d[0];
      var hx := Hex(d);
      assert hx[2..] == Hex(d[1..]);
      assert hx[0] == HexDigit(b / 16) && hx[1] == HexDigit(b % 16);
      DigitValueLower(s[0], b / 16);
      DigitValueLower(s[1], b % 16);
      DigitValueLower(hx[0], b / 16);
      DigitValueLower(hx[1], b % 16);
      EqualFoldHex(s[2..], d[1..]);
      if DigitValue(s[0]).Some? && DigitValue(s[1]).Some? {
        Nibbles(b, DigitValue(s[0]).value, DigitValue(s[1]).value);
      }
      if SameUpToCase(s, hx) {
        assert SameUpToCase(s[2..], hx[2..]) by {
          forall i | 0 <= i < |s| - 2 ensures ToLower(s[2..][i]) == ToLower(hx[2..][i]) {
            assert s[2..][i] == s[i + 2] && hx[2..][i] == hx[i + 2];
          }
        }
        assert [b] + d[1..] == d;
      }
      if Unhex(s) == Some(d) {
        assert SameUpToCase(s, hx) by {
          forall i | 0 <= i < |s| ensures ToLower(s[i]) == ToLower(hx[i]) {
            if i >= 2 {
              assert s[2..][i - 2] == s[i] && hx[2..][i - 2] == hx[i];
            }
          }
        }
      }
    }
  }

  /** A freshly generated digest verifies its own content. */
  lemma CompareOwnHash(sha256: Sha256, content: seq<byte>)
    ensures CompareHash(sha256, GenHash(sha256, content), content)
  {
  }

  /** Verification ignores case: the upper-cased digest verifies too. */
  lemma CompareUpperHash(sha256: Sha256, content: seq<byte>)
    ensures CompareHash(sha256, Upper(GenHash(sha256, content)), content)
  {
    var h := GenHash(sha256, content);
    assert EqualFold(Upper(h), h);
    assert EqualFold(Upper(h), Hex(sha256(content)));
  }

  /** Two contents get the same digest string exactly when SHA-256 gives them the same digest. */
  lemma GenHashInjective(sha256: Sha256, a: seq<byte>, b: seq<byte>)
    ensures GenHash(sha256, a) == GenHash(sha256, b) <==> sha256(a) == sha256(b)
  {
  }

  /** A digest string verifies only contents whose digest it names. */
  lemma CompareHashNamesDigest(sha256: Sha256, a: seq<byte>, b: seq<byte>)
    ensures CompareHash(sha256, GenHash(sha256, a), b) <==> sha256(a) == sha256(b)
  {
  }
}
