/** UTF-8 from the other side: the bytes of a character as a function of its code point (RFC 3629,
    section 3), and what that says of the decoder in Utf8. */
module Utf8Chars {
  import opened PoolModel
  import opened Utf8

  /** A code point that is a character: no surrogate. */
  predicate Scalar(c: int) {
    0 <= c < 0xD800 || 0xE000 <= c <= 0x10FFFF
  }

  function EncodeChar(c: int): (bs: seq<byte>)
    requires Scalar(c)
    ensures 1 <= |bs| <= 4
  {
    if c < 0x80 then [c]
    else if c < 0x800 then [0xC0 + c / 64, 0x80 + c % 64]
    else if c < 0x10000 then [0xE0 + c / 4096, 0x80 + c / 64 % 64, 0x80 + c % 64]
    else [0xF0 + c / 262144, 0x80 + c / 4096 % 64, 0x80 + c / 64 % 64, 0x80 + c % 64]
  }

  predicate Text(cs: seq<int>) {
    forall i :: 0 <= i < |cs| ==> Scalar(cs[i])
  }

  function EncodeText(cs: seq<int>): seq<byte>
    requires Text(cs)
  {
    if cs == [] then [] else EncodeChar(cs[0]) + EncodeText(cs[1..])
  }

  /** The decoder takes the bytes of a character for one character. */
  lemma CharIsPiece(c: int)
    requires Scalar(c)
    ensures FirstPiece(EncodeChar(c)) == (|EncodeChar(c)|, true)
  {
    if 0x800 <= c < 0x10000 {
      ThreeBytes(c, c / 4096, c / 64 % 64);
    } else if 0x10000 <= c {
      FourBytes(c, c / 262144, c / 4096 % 64);
    }
  }

  /** The second byte of three tells overlong forms and surrogates apart. */
  lemma ThreeBytes(c: int, a: int, b: int)
    requires 0x800 <= c < 0x10000 && Scalar(c) && a == c / 4096 && b == c / 64 % 64
    ensures 0 <= a < 16 && 0 <= b < 64 && SecondOk(0xE0 + a, 0x80 + b)
  {
    assert c / 64 == 64 * a + b;
  }

  lemma FourBytes(c: int, a: int, b: int)
    requires 0x10000 <= c <= 0x10FFFF && a == c / 262144 && b == c / 4096 % 64
    ensures 0 <= a < 5 && 0 <= b < 64 && SecondOk(0xF0 + a, 0x80 + b)
  {
    assert c / 4096 == 64 * a + b;
  }

  lemma CharOfTwo(b0: int, b1: int)
    requires 0xC2 <= b0 < 0xE0 && 0x80 <= b1 < 0xC0
    ensures var c := (b0 - 0xC0) * 64 + (b1 - 0x80); Scalar(c) && EncodeChar(c) == [b0, b1]
  {
  }

  lemma CharOfThree(b0: int, b1: int, b2: int)
    requires 0xE0 <= b0 < 0xF0 && 0x80 <= b1 < 0xC0 && 0x80 <= b2 < 0xC0 && SecondOk(b0, b1)
    ensures var c := (b0 - 0xE0) * 4096 + (b1 - 0x80) * 64 + (b2 - 0x80); Scalar(c) && EncodeChar(c) == [b0, b1, b2]
  {
    Digits(b0 - 0xE0, b1 - 0x80, b2 - 0x80);
  }

  lemma CharOfFour(b0: int, b1: int, b2: int, b3: int)
    requires 0xF0 <= b0 < 0xF5 && 0x80 <= b1 < 0xC0 && 0x80 <= b2 < 0xC0 && 0x80 <= b3 < 0xC0 && SecondOk(b0, b1)
    ensures var c := ((b0 - 0xF0) * 64 + (b1 - 0x80)) * 4096 + (b2 - 0x80) * 64 + (b3 - 0x80);
            Scalar(c) && EncodeChar(c) == [b0, b1, b2, b3]
  {
    Digits((b0 - 0xF0) * 64 + (b1 - 0x80), b2 - 0x80, b3 - 0x80);
  }

  /** What it takes for a character are the bytes of one. */
  lemma PieceIsChar(s: seq<byte>) returns (c: int)
    requires s != [] && FirstPiece(s).1
    ensures Scalar(c) && EncodeChar(c) == s[..FirstPiece(s).0]
  {
    hide EncodeChar, Scalar, SecondOk;
    var n := FirstPiece(s).0;
    var b0: int := s[0];
    if n == 1 {
      c := b0;
      CharOfOne(b0);
    } else if n == 2 {
      var b1: int := s[1];
      c := (b0 - 0xC0) * 64 + (b1 - 0x80);
      SecondIsContinuation(b0, b1);
      CharOfTwo(b0, b1);
    } else if n == 3 {
      var b1: int, b2: int := s[1], s[2];
      c := (b0 - 0xE0) * 4096 + (b1 - 0x80) * 64 + (b2 - 0x80);
      SecondIsContinuation(b0, b1);
      CharOfThree(b0, b1, b2);
    } else {
      var b1: int, b2: int, b3: int := s[1], s[2], s[3];
      c := ((b0 - 0xF0) * 64 + (b1 - 0x80)) * 4096 + (b2 - 0x80) * 64 + (b3 - 0x80);
      SecondIsContinuation(b0, b1);
      CharOfFour(b0, b1, b2, b3);
    }
  }

  lemma CharOfOne(b: int)
    requires 0 <= b < 0x80
    ensures Scalar(b) && EncodeChar(b) == [b]
  {
  }

  lemma SecondIsContinuation(lead: byte, b: byte)
    requires SecondOk(lead, b)
    ensures Continuation(b)
  {
  }

  lemma Digits(a: int, b: int, d: int)
    requires 0 <= a && 0 <= b < 64 && 0 <= d < 64
    ensures var c := a * 4096 + b * 64 + d; c / 4096 == a && c / 64 % 64 == b && c % 64 == d && c / 64 == a * 64 + b
  {
  }

  /** Well-formed bytes are exactly the texts. */
  lemma {:induction false} ValidIsText(s: seq<byte>)
    ensures ValidUtf8(s) <==> exists cs :: Text(cs) && EncodeText(cs) == s
  {
    if ValidUtf8(s) {
      var cs := TextOf(s);
    }
    if cs :| Text(cs) && EncodeText(cs) == s {
      TextIsValid(cs);
    }
  }

  lemma {:induction false} TextOf(s: seq<byte>) returns (cs: seq<int>)
    requires ValidUtf8(s)
    ensures Text(cs) && EncodeText(cs) == s
    decreases |s|
  {
    hide FirstPiece, EncodeChar;
    cs := [];
    if s != [] {
      var n := FirstPiece(s).0;
      var c := PieceIsChar(s);
      var rest := TextOf(s[n..]);
      cs := [c] + rest;
      assert cs[1..] == rest && s == s[..n] + s[n..];
    }
  }

  lemma {:induction false} TextIsValid(cs: seq<int>)
    requires Text(cs)
    ensures ValidUtf8(EncodeText(cs))
  {
    hide FirstPiece, EncodeChar;
    if cs != [] {
      var c, rest := EncodeChar(cs[0]), EncodeText(cs[1..]);
      CharIsPiece(cs[0]);
      PieceOfWhole(c, rest);
      TextIsValid(cs[1..]);
      assert (c + rest)[|c|..] == rest;
    }
  }

  /** Each of them becomes the character U+FFFD. */
  lemma ReplacementCharacter()
    ensures EncodeChar(0xFFFD) == REPLACEMENT
  {
  }

  /** Bytes that begin the encoding of some character. */
  ghost predicate BeginsChar(s: seq<byte>) {
    exists c :: Scalar(c) && s <= EncodeChar(c)
  }

  /** Ill-formed bytes are replaced in the longest pieces that could have become a character, or one by
      one: the maximal subparts of The Unicode Standard, section 3.9. */
  lemma LongestPiece(s: seq<byte>)
    requires s != [] && !FirstPiece(s).1
    ensures var n := FirstPiece(s).0;
            && (n == 1 || BeginsChar(s[..n]))
            && forall m :: n < m <= |s| ==> !BeginsChar(s[..m])
  {
    var n := FirstPiece(s).0;
    if n > 1 {
      Completed(s);
    }
    forall m | n < m <= |s|
      ensures !BeginsChar(s[..m])
    {
      if BeginsChar(s[..m]) {
        var c :| Scalar(c) && s[..m] <= EncodeChar(c);
        PrefixOfChar(s, m, c);
      }
    }
  }

  /** An unfinished character can be finished. */
  lemma Completed(s: seq<byte>)
    requires s != [] && !FirstPiece(s).1 && FirstPiece(s).0 > 1
    ensures BeginsChar(s[..FirstPiece(s).0])
  {
    var n := FirstPiece(s).0;
    var whole := s[..n] + (if CharLength(s[0]) == n + 1 then [0x80] else [0x80, 0x80]);
    assert FirstPiece(whole) == (|whole|, true);
    var c := PieceIsChar(whole);
    assert s[..n] <= EncodeChar(c);
  }

  lemma PrefixOfChar(s: seq<byte>, m: int, c: int)
    requires s != [] && !FirstPiece(s).1 && FirstPiece(s).0 < m <= |s| && Scalar(c)
    ensures !(s[..m] <= EncodeChar(c))
  {
    var e, p := EncodeChar(c), s[..m];
    CharIsPiece(c);
    if p <= e {
      assert forall i :: 0 <= i < m ==> s[i] == p[i] == e[i];
    }
  }

  /** The decoder step by step: a character at the front is kept; if there is none, the longest piece that
      could have become one, or else one byte, turns into U+FFFD. */
  lemma ReplacedStep(s: seq<byte>)
    requires s != []
    ensures || (exists c :: Scalar(c) && EncodeChar(c) <= s && Replaced(s) == EncodeChar(c) + Replaced(s[|EncodeChar(c)|..]))
            || ((forall c :: Scalar(c) ==> !(EncodeChar(c) <= s)) &&
                exists m :: 1 <= m <= |s| && (m == 1 || BeginsChar(s[..m])) && (forall k :: m < k <= |s| ==> !BeginsChar(s[..k]))
                            && Replaced(s) == EncodeChar(0xFFFD) + Replaced(s[m..]))
  {
    hide EncodeChar, FirstPiece, BeginsChar;
    var n := FirstPiece(s).0;
    if FirstPiece(s).1 {
      var c := PieceIsChar(s);
      assert EncodeChar(c) <= s;
    } else {
      LongestPiece(s);
      ReplacementCharacter();
      forall c | Scalar(c)
        ensures !(EncodeChar(c) <= s)
      {
        NoCharAhead(s, c);
      }
      assert 1 <= n <= |s| && Replaced(s) == EncodeChar(0xFFFD) + Replaced(s[n..]);
    }
  }

  lemma NoCharAhead(s: seq<byte>, c: int)
    requires s != [] && !FirstPiece(s).1 && Scalar(c)
    ensures !(EncodeChar(c) <= s)
  {
    hide EncodeChar, FirstPiece;
    if EncodeChar(c) <= s {
      assert EncodeChar(c) + s[|EncodeChar(c)|..] == s;
      CharIsPiece(c);
      PieceOfWhole(EncodeChar(c), s[|EncodeChar(c)|..]);
    }
  }
}
