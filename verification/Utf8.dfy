/** UTF-8 as Python's bytes.decode("utf-8", errors="replace") reads it: every maximal piece of an
    ill-formed character becomes one replacement character (The Unicode Standard, section 3.9). */
module Utf8 {
  import opened PoolModel

  /** U+FFFD */
  const REPLACEMENT: seq<byte> := [0xEF, 0xBF, 0xBD]

  predicate Continuation(b: byte) {
    0x80 <= b < 0xC0
  }

  /** How many bytes a character with this first byte has, 0 if there is none. */
  function CharLength(lead: byte): nat {
    if lead < 0x80 then 1
    else if lead < 0xC2 then 0
    else if lead < 0xE0 then 2
    else if lead < 0xF0 then 3
    else if lead < 0xF5 then 4
    else 0
  }

  /** Overlong forms, surrogates and code points past U+10FFFF show in the second byte. */
  predicate SecondOk(lead: byte, b: byte) {
    if lead == 0xE0 then 0xA0 <= b < 0xC0
    else if lead == 0xED then 0x80 <= b < 0xA0
    else if lead == 0xF0 then 0x90 <= b < 0xC0
    else if lead == 0xF4 then 0x80 <= b < 0x90
    else Continuation(b)
  }

  /** The length of the first character of s, or of the piece of one that stands in its place, and
      whether it is a whole character. */
  function FirstPiece(s: seq<byte>): (r: (nat, bool))
    requires s != []
    ensures 1 <= r.0 <= |s|
  {
    var n := CharLength(s[0]);
    if n == 0 then (1, false)
    else if n == 1 then (1, true)
    else if |s| < 2 || !SecondOk(s[0], s[1]) then (1, false)
    else if n == 2 then (2, true)
    else if |s| < 3 || !Continuation(s[2]) then (2, false)
    else if n == 3 then (3, true)
    else if |s| < 4 || !Continuation(s[3]) then (3, false)
    else (4, true)
  }

  predicate ValidUtf8(s: seq<byte>) {
    s == [] || (FirstPiece(s).1 && ValidUtf8(s[FirstPiece(s).0..]))
  }

  /** The UTF-8 bytes of the string that the decoder returns. */
  function Replaced(s: seq<byte>): seq<byte> {
    if s == [] then []
    else
      var (n, whole) := FirstPiece(s);
      (if whole then s[..n] else REPLACEMENT) + Replaced(s[n..])
  }

  lemma PieceOfWhole(c: seq<byte>, s: seq<byte>)
    requires c != [] && FirstPiece(c) == (|c|, true)
    ensures FirstPiece(c + s) == (|c|, true)
  {
  }

  /** Decoding gives back the bytes exactly if they are well-formed. */
  lemma {:induction false} ReplacedIdentity(s: seq<byte>)
    ensures Replaced(s) == s <==> ValidUtf8(s)
    decreases |s|
  {
    if s != [] {
      var (n, whole) := FirstPiece(s);
      ReplacedIdentity(s[n..]);
      assert s == s[..n] + s[n..];
      if whole {
        assert Replaced(s)[n..] == Replaced(s[n..]);
      } else {
        assert Replaced(s)[0] == 0xEF && Replaced(s)[1] == 0xBF && Replaced(s)[2] == 0xBD;
      }
    }
  }

  /** What the decoder returns is always a string. */
  lemma {:induction false} ReplacedIsValid(s: seq<byte>)
    ensures ValidUtf8(Replaced(s))
    decreases |s|
  {
    if s != [] {
      var (n, whole) := FirstPiece(s);
      var c := if whole then s[..n] else REPLACEMENT;
      ReplacedIsValid(s[n..]);
      PieceOfWhole(c, Replaced(s[n..]));
      assert (c + Replaced(s[n..]))[|c|..] == Replaced(s[n..]);
    }
  }

  /** A string cut after n bytes is a string exactly if the cut does not fall inside a character. */
  lemma {:induction false} CutIsValid(s: seq<byte>, n: nat)
    requires ValidUtf8(s) && n < |s|
    ensures ValidUtf8(s[..n]) <==> !Continuation(s[n])
    decreases |s|
  {
    var k := FirstPiece(s).0;
    if n >= k {
      if n > k {
        CutIsValid(s[k..], n - k);
      }
      assert s[..n][k..] == s[k..][..n - k];
      assert FirstPiece(s[..n]) == (k, true);
    }
  }
}
