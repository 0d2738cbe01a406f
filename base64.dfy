/**
 * Go's `base64.RawStdEncoding.DecodeString`, as the token extractors use it:
 * the standard alphabet of section 4 of RFC 4648 with padding omitted
 * (section 3.2 of RFC 4648). Like Go's decoder it skips '\r' and '\n',
 * rejects '=' and every other character outside the alphabet, rejects a final
 * group of one character, and ignores the unused low bits of a final group of
 * two or three characters.
 */
module Base64 {
  import opened Common

  /** The value of a character of the standard alphabet. */
  function SextetOf(c: char): (v: Option<nat>)
    ensures v.Some? ==> v.value < 64
  {
    if 'A' <= c <= 'Z' then Some(c as int - 'A' as int)
    else if 'a' <= c <= 'z' then Some(c as int - 'a' as int + 26)
    else if '0' <= c <= '9' then Some(c as int - '0' as int + 52)
    else if c == '+' then Some(62)
    else if c == '/' then Some(63)
    else None
  }

  /** The character of the standard alphabet with value `n`. */
  function AlphabetChar(n: nat): (c: char)
    requires n < 64
    ensures SextetOf(c) == Some(n)
  {
    if n < 26 then ('A' as int + n) as char
    else if n < 52 then ('a' as int + n - 26) as char
    else if n < 62 then ('0' as int + n - 52) as char
    else if n == 62 then '+'
    else '/'
  }

  /** `s` with every '\r' and '\n' removed. */
  function StripNewlines(s: string): (t: string)
    ensures |t| <= |s|
    ensures forall i :: 0 <= i < |t| ==> t[i] != '\r' && t[i] != '\n'
  {
    if s == [] then []
    else if s[0] == '\r' || s[0] == '\n' then StripNewlines(s[1..])
    else [s[0]] + StripNewlines(s[1..])
  }

  /** Decodes groups of four characters; a final group of two or three carries one or two bytes. */
  function DecodeGroups(s: string): (r: Option<seq<byte>>)
    ensures r.Some? ==> |s| % 4 != 1 && |r.value| == |s| * 3 / 4
    decreases |s|
  {
    if s == [] then Some([])
    else if |s| == 1 then None
    else
      var a, b := SextetOf(s[0]), SextetOf(s[1]);
      if a.None? || b.None? then None
      else
        var b0: byte := a.value * 4 + b.value / 16;
        if |s| == 2 then Some([b0])
        else
          var c := SextetOf(s[2]);
          if c.None? then None
          else
            var b1: byte := (b.value % 16) * 16 + c.value / 4;
            if |s| == 3 then Some([b0, b1])
            else
              var d := SextetOf(s[3]);
              var rest := DecodeGroups(s[4..]);
              if d.None? || rest.None? then None
              else Some([b0, b1, (c.value % 4) * 64 + d.value] + rest.value)
  }

  /** Every character of `t` is in the standard alphabet. */
  predicate InAlphabet(t: string)
  {
    forall i :: 0 <= i < |t| ==> SextetOf(t[i]).Some?
  }

  /**
   * `RawStdEncoding.DecodeString`; `None` stands for the `CorruptInputError` it
   * returns. Once line breaks are dropped, it succeeds exactly on text of the
   * alphabet that does not end in a group of one character, whatever the
   * unused bits of a final group of two or three.
   */
  function DecodeString(s: string): (r: Option<seq<byte>>)
    ensures r.Some? <==> InAlphabet(StripNewlines(s)) && |StripNewlines(s)| % 4 != 1
  {
    DecodeGroupsSucceeds(StripNewlines(s));
    DecodeGroups(StripNewlines(s))
  }

  /** Group decoding succeeds exactly on text of the alphabet that does not end in a group of one. */
  lemma DecodeGroupsSucceeds(t: string)
    ensures DecodeGroups(t).Some? <==> InAlphabet(t) && |t| % 4 != 1
  {
    if InAlphabet(t) && |t| % 4 != 1 {
      DecodeGroupsAccepts(t);
    } else if !InAlphabet(t) {
      var j :| 0 <= j < |t| && SextetOf(t[j]).None?;
      DecodeGroupsRejects(t, j);
    }
  }

  /** Group decoding succeeds on every text of the alphabet that does not end in a group of one. */
  lemma {:induction false} DecodeGroupsAccepts(t: string)
    requires InAlphabet(t) && |t| % 4 != 1
    ensures DecodeGroups(t).Some?
    decreases |t|
  {
    if |t| >= 4 {
      DecodeGroupsAccepts(t[4..]);
    }
  }

  /** `RawStdEncoding.EncodeToString`: four characters per three bytes, two or three for the rest, no padding. */
  function EncodeToString(bytes: seq<byte>): (s: string)
    ensures forall i :: 0 <= i < |s| ==> SextetOf(s[i]).Some?
    ensures |s| % 4 != 1
  {
    if bytes == [] then ""
    else if |bytes| == 1 then
      [AlphabetChar(bytes[0] / 4), AlphabetChar((bytes[0] % 4) * 16)]
    else if |bytes| == 2 then
      [AlphabetChar(bytes[0] / 4), AlphabetChar((bytes[0] % 4) * 16 + bytes[1] / 16),
       AlphabetChar((bytes[1] % 16) * 4)]
    else
      Quad(bytes[0], bytes[1], bytes[2]) + EncodeToString(bytes[3..])
  }

  /** The four characters that carry a full group of three bytes. */
  function Quad(b0: byte, b1: byte, b2: byte): string
  {
    [AlphabetChar(b0 / 4), AlphabetChar((b0 % 4) * 16 + b1 / 16),
     AlphabetChar((b1 % 16) * 4 + b2 / 64), AlphabetChar(b2 % 64)]
  }

  /** Text with no line breaks passes `StripNewlines` unchanged. */
  lemma {:induction false} StripNewlinesNone(s: string)
    requires forall i :: 0 <= i < |s| ==> s[i] != '\r' && s[i] != '\n'
    ensures StripNewlines(s) == s
  {
    if s != [] {
      StripNewlinesNone(s[1..]);
    }
  }

  /** The three ways the encoder splits bytes into sextets are undone by the decoder's arithmetic. */
  lemma Regroup(b0: byte, b1: byte, b2: byte)
    ensures (b0 / 4) * 4 + ((b0 % 4) * 16 + b1 / 16) / 16 == b0
    ensures (((b0 % 4) * 16 + b1 / 16) % 16) * 16 + ((b1 % 16) * 4 + b2 / 64) / 4 == b1
    ensures (((b1 % 16) * 4 + b2 / 64) % 4) * 64 + b2 % 64 == b2
  {
  }

  /** Decoding the encoding of bytes gives those bytes back. */
  lemma {:induction false} DecodeEncode(bytes: seq<byte>)
    ensures DecodeString(EncodeToString(bytes)) == Some(bytes)
  {
    StripNewlinesNone(EncodeToString(bytes));
    DecodeGroupsEncode(bytes);
  }

  lemma {:induction false} DecodeGroupsEncode(bytes: seq<byte>)
    ensures DecodeGroups(EncodeToString(bytes)) == Some(bytes)
  {
    if |bytes| == 1 {
      assert bytes == [bytes[0]];
      DecodeOneByte(bytes[0]);
    } else if |bytes| == 2 {
      assert bytes == [bytes[0], bytes[1]];
      DecodeTwoBytes(bytes[0], bytes[1]);
    } else if |bytes| >= 3 {
      var rest := bytes[3..];
      DecodeGroupsEncode(rest);
      assert bytes == [bytes[0], bytes[1], bytes[2]] + rest;
      DecodeFullGroup(bytes[0], bytes[1], bytes[2], EncodeToString(rest), rest);
    }
  }

  /** A final byte travels in two characters. */
  lemma DecodeOneByte(b0: byte)
    ensures DecodeGroups(EncodeToString([b0])) == Some([b0])
  {
    Regroup(b0, 0, 0);
  }

  /** Two final bytes travel in three characters. */
  lemma DecodeTwoBytes(b0: byte, b1: byte)
    ensures DecodeGroups(EncodeToString([b0, b1])) == Some([b0, b1])
  {
    var s := EncodeToString([b0, b1]);
    var b, c := (b0 % 4) * 16 + b1 / 16, (b1 % 16) * 4;
    Regroup(b0, b1, 0);
    assert s == [AlphabetChar(b0 / 4), AlphabetChar(b), AlphabetChar(c)];
    assert (b % 16) * 16 + c / 4 == b1;
  }

  /** Three bytes travel in four characters, ahead of the characters of the rest. */
  lemma DecodeFullGroup(b0: byte, b1: byte, b2: byte, tail: string, rest: seq<byte>)
    requires DecodeGroups(tail) == Some(rest)
    ensures DecodeGroups(Quad(b0, b1, b2) + tail) == Some([b0, b1, b2] + rest)
  {
    var a, b, c, d := b0 / 4, (b0 % 4) * 16 + b1 / 16, (b1 % 16) * 4 + b2 / 64, b2 % 64;
    var s := Quad(b0, b1, b2) + tail;
    assert SextetOf(s[0]) == Some(a) && SextetOf(s[1]) == Some(b);
    assert SextetOf(s[2]) == Some(c) && SextetOf(s[3]) == Some(d);
    assert s[4..] == tail;
    assert a * 4 + b / 16 == b0 && (b % 16) * 16 + c / 4 == b1 && (c % 4) * 64 + d == b2 by {
      Regroup(b0, b1, b2);
    }
  }

  /**
   * A character outside the standard alphabet other than a line break makes
   * decoding fail: '=' (no padding) and the URL-safe '-' and '_' among them.
   */
  lemma {:induction false} RejectsOutsideAlphabet(s: string, i: nat)
    requires i < |s| && SextetOf(s[i]).None? && s[i] != '\r' && s[i] != '\n'
    ensures DecodeString(s) == None
  {
    var j := StripKeeps(s, i);
    DecodeGroupsRejects(StripNewlines(s), j);
  }

  /** A character other than a line break survives `StripNewlines`, at some position. */
  lemma {:induction false} StripKeeps(s: string, i: nat) returns (j: nat)
    requires i < |s| && s[i] != '\r' && s[i] != '\n'
    ensures j < |StripNewlines(s)| && StripNewlines(s)[j] == s[i]
  {
    if i == 0 {
      j := 0;
    } else {
      var k := StripKeeps(s[1..], i - 1);
      j := if s[0] == '\r' || s[0] == '\n' then k else k + 1;
    }
  }

  /** Group decoding fails on any character outside the alphabet. */
  lemma {:induction false} DecodeGroupsRejects(t: string, j: nat)
    requires j < |t| && SextetOf(t[j]).None?
    ensures DecodeGroups(t) == None
    decreases |t|
  {
    if j >= 4 {
      DecodeGroupsRejects(t[4..], j - 4);
    }
  }

  /** `StripNewlines` works character by character: it drops line breaks, keeps the rest in order. */
  lemma {:induction false} StripNewlinesAppend(a: string, b: string)
    ensures StripNewlines(a + b) == StripNewlines(a) + StripNewlines(b)
  {
    if a != [] {
      assert (a + b)[1..] == a[1..] + b;
      StripNewlinesAppend(a[1..], b);
    } else {
      assert a + b == b;
    }
  }

  /** A single character: a line break is dropped, any other character kept. */
  lemma StripNewlinesChar(c: char)
    ensures StripNewlines([c]) == if c == '\r' || c == '\n' then [] else [c]
  {
  }

  /** The decoder is not strict: "QR" has non-zero unused bits and decodes like the canonical "QQ". */
  lemma TrailingBitsIgnored()
    ensures DecodeString("QR") == DecodeString("QQ") == Some([65])
  {
    assert StripNewlines("QR") == "QR" && StripNewlines("QQ") == "QQ" by {
      StripNewlinesNone("QR");
      StripNewlinesNone("QQ");
    }
  }
}
