/**
 UTF-8 for names in UCS-2, in the one- to three-byte forms of section 2 of RFC 2279.

 Characters and bytes are numbers; the bits of a lead or trailing byte are added, which
 is the same as setting them.
 */
module Utf8 {

  predicate IsUcs2(c: nat) { c < 0x1_0000 }

  ghost predicate AllUcs2(s: seq<nat>) { forall i :: 0 <= i < |s| ==> IsUcs2(s[i]) }

  /** The bytes of a character; a NUL has none. */
  function EncodeChar(c: nat): seq<nat> {
    if c == 0 then []
    else if c < 0x80 then [c]
    else if c < 0x800 then [c / 0x40 + 0xc0, c % 0x40 + 0x80]
    else [c / 0x1000 + 0xe0, c / 0x40 % 0x40 + 0x80, c % 0x40 + 0x80]
  }

  function Encode(s: seq<nat>): seq<nat> {
    if s == [] then [] else Encode(s[..|s| - 1]) + EncodeChar(s[|s| - 1])
  }

  function WithoutNuls(s: seq<nat>): seq<nat> {
    if s == [] then [] else if s[0] == 0 then WithoutNuls(s[1..]) else [s[0]] + WithoutNuls(s[1..])
  }

  /** Room that utf_encodestr asks for before it writes a character. */
  function Room(c: nat): nat { if c < 0x80 then 1 else if c < 0x800 then 2 else 3 }

  /** Some leading characters take up the whole buffer. */
  ghost predicate FillsExactly(ucs: seq<nat>, bufsize: nat) {
    exists n: nat :: n <= |ucs| && |Encode(ucs[..n])| == bufsize
  }

  lemma {:induction false} EncodeGrows(ucs: seq<nat>, n: nat, m: nat)
    requires n <= m <= |ucs|
    ensures |Encode(ucs[..n])| <= |Encode(ucs[..m])|
    decreases m
  {
    if n < m {
      EncodeGrows(ucs, n, m - 1);
      assert ucs[..m][..m - 1] == ucs[..m - 1];
    }
  }

  /** Once the characters up to one that does not fit are written, the buffer is full only
      if they fill it: no more characters could have done so. */
  lemma FullIff(ucs: seq<nat>, n: nat, bufsize: nat)
    requires n <= |ucs| && |Encode(ucs[..n])| <= bufsize
    requires n < |ucs| ==> |Encode(ucs[..n])| + Room(ucs[n]) > bufsize
    ensures FillsExactly(ucs, bufsize) <==> |Encode(ucs[..n])| == bufsize
  {
    if m: nat :| m <= |ucs| && |Encode(ucs[..m])| == bufsize {
      if m <= n {
        EncodeGrows(ucs, m, n);
      } else {
        EncodeGrows(ucs, n + 1, m);
        assert ucs[..n + 1][..n] == ucs[..n];
      }
    }
  }

  lemma EncodeNext(ucs: seq<nat>, i: nat)
    requires i < |ucs|
    ensures Encode(ucs[..i + 1]) == Encode(ucs[..i]) + EncodeChar(ucs[i])
  {
    assert ucs[..i + 1][..i] == ucs[..i];
  }

  lemma EncodeNone(ucs: seq<nat>)
    ensures Encode(ucs[..0]) == []
  {
  }

  /** utf_encodestr: the characters that fit, and a NUL, which goes one byte past the
      buffer exactly when some leading characters fill the buffer. */
  method EncodeString(ucs: seq<nat>, bufsize: nat) returns (utf8: seq<nat>)
    ensures exists n: nat :: n <= |ucs| && utf8 == Encode(ucs[..n]) + [0] &&
              |Encode(ucs[..n])| <= bufsize && (n < |ucs| ==> |Encode(ucs[..n])| + Room(ucs[n]) > bufsize)
    ensures bufsize >= 3 * |ucs| ==> utf8 == Encode(ucs) + [0]
    ensures |utf8| <= bufsize + 1 && (|utf8| == bufsize + 1 <==> FillsExactly(ucs, bufsize))
  {
    hide Encode, FillsExactly;
    utf8 := [];
    EncodeNone(ucs);
    var i := 0;
    while i < |ucs|
      invariant i <= |ucs| && utf8 == Encode(ucs[..i]) && |utf8| <= bufsize && |utf8| <= 3 * i
    {
      var c := ucs[i];
      EncodeNext(ucs, i);
      if c < 0x80 {
        if |utf8| >= bufsize {
          break;
        }
        if c != 0 {
          utf8 := utf8 + [c];
        }
      } else if c < 0x800 {
        if |utf8| + 1 >= bufsize {
          break;
        }
        utf8 := utf8 + [c / 0x40 + 0xc0, c % 0x40 + 0x80];
      } else {
        if |utf8| + 2 >= bufsize {
          break;
        }
        utf8 := utf8 + [c / 0x1000 + 0xe0, c / 0x40 % 0x40 + 0x80, c % 0x40 + 0x80];
      }
      i := i + 1;
    }
    assert ucs[..|ucs|] == ucs;
    FullIff(ucs, i, bufsize);
    utf8 := utf8 + [0];
  }

  predicate IsTrailing(b: nat) { 0x80 <= b < 0xc0 }

  /** What utf_decodestr makes of a string: it stops at a NUL, at a byte that starts no
      character, and at a trailing byte that is missing.  A byte after the end of the
      sequence counts as a NUL. */
  function Decode(s: seq<nat>): seq<nat> {
    if s == [] || s[0] == 0 then []
    else if s[0] < 0x80 then [s[0]] + Decode(s[1..])
    else if 0xc0 <= s[0] < 0xe0 then
      if |s| < 2 || !IsTrailing(s[1]) then [] else [s[0] % 0x20 * 0x40 + s[1] % 0x40] + Decode(s[2..])
    else if 0xe0 <= s[0] < 0xf0 then
      if |s| < 3 || !IsTrailing(s[1]) || !IsTrailing(s[2]) then []
      else [(s[0] % 0x10 * 0x40 + s[1] % 0x40) * 0x40 + s[2] % 0x40] + Decode(s[3..])
    else []
  }

  /** The bytes are NUL-terminated, and are bytes. */
  ghost predicate CString(s: seq<nat>) { s != [] && s[|s| - 1] == 0 && forall i :: 0 <= i < |s| ==> s[i] < 0x100 }

  /** The body of the loop of utf_decodestr: one character, unless it is malformed. */
  method DecodeOne(utf8: seq<nat>, from: nat) returns (ok: bool, c: nat, p: nat)
    requires CString(utf8) && from < |utf8| && utf8[from] != 0
    ensures ok ==> from < p < |utf8| && Decode(utf8[from..]) == [c] + Decode(utf8[p..])
    ensures !ok ==> Decode(utf8[from..]) == []
  {
    ghost var s := utf8[from..];
    var byte := utf8[from];
    ok, c, p := true, byte, from + 1;
    if byte < 0x80 {
      assert s[1..] == utf8[p..];
      return;
    }
    if byte / 0x10 == 0xc || byte / 0x10 == 0xd {
      c := byte % 0x20 * 0x40;
    } else if byte / 0x10 == 0xe {
      c := byte % 0x10 * 0x40;
      if !IsTrailing(utf8[p]) {
        ok := false;
        return;
      }
      c := (c + utf8[p] % 0x40) * 0x40;
      p := p + 1;
    } else {
      ok := false;
      return;
    }
    if !IsTrailing(utf8[p]) {
      ok := false;
      return;
    }
    c := c + utf8[p] % 0x40;
    p := p + 1;
    assert s[p - from..] == utf8[p..];
  }

  /** utf_decodestr: as much of the decoded string as there is room for; the size of the
      buffer is in bytes. */
  method DecodeString(utf8: seq<nat>, bufsize: nat) returns (ucs: seq<nat>)
    requires CString(utf8)
    ensures ucs <= Decode(utf8)
    ensures ucs == Decode(utf8) || |ucs| * 2 >= bufsize
    ensures |ucs| * 2 < bufsize + 2
  {
    hide Decode;
    ucs := [];
    var p := 0;
    assert utf8[0..] == utf8;
    while utf8[p] != 0
      invariant 0 <= p < |utf8| && Decode(utf8) == ucs + Decode(utf8[p..]) && |ucs| * 2 < bufsize + 2
      decreases |utf8| - p
    {
      if |ucs| * 2 >= bufsize {
        return;
      }
      var ok, c, q := DecodeOne(utf8, p);
      if !ok {
        return;
      }
      p := q;
      ucs := ucs + [c];
    }
    AtNul(utf8[p..]);
  }

  lemma AtNul(s: seq<nat>)
    requires s != [] && s[0] == 0
    ensures Decode(s) == []
  {
  }

  // ------------------------------------------------------------------------ round trip

  lemma {:induction false} EncodeFirst(c: nat, s: seq<nat>)
    ensures Encode([c] + s) == EncodeChar(c) + Encode(s)
  {
    hide EncodeChar;
    if s == [] {
      assert [c] + s == [c] && [c][..0] == [];
      assert Encode([c]) == [] + EncodeChar(c);
    } else {
      var init := s[..|s| - 1];
      assert ([c] + s)[..|s|] == [c] + init;
      EncodeFirst(c, init);
    }
  }

  lemma DecodeChar(c: nat, rest: seq<nat>)
    requires 0 < c && IsUcs2(c)
    ensures Decode(EncodeChar(c) + rest) == [c] + Decode(rest)
  {
    var e := EncodeChar(c);
    assert (e + rest)[|e|..] == rest;
    if c >= 0x800 {
      ThreeBytes(c);
      DecodeThree(e, rest);
    } else if c >= 0x80 {
      TwoBytes(c);
      DecodeTwo(e, rest);
    }
  }

  lemma TwoBytes(c: nat)
    requires 0x80 <= c < 0x800
    ensures 0xc0 <= c / 0x40 + 0xc0 < 0xe0 && (c / 0x40 + 0xc0) % 0x20 == c / 0x40
    ensures IsTrailing(c % 0x40 + 0x80) && (c % 0x40 + 0x80) % 0x40 == c % 0x40 && c == c / 0x40 * 0x40 + c % 0x40
  {
  }

  lemma ThreeBytes(c: nat)
    requires 0x800 <= c < 0x1_0000
    ensures 0xe0 <= c / 0x1000 + 0xe0 < 0xf0 && (c / 0x1000 + 0xe0) % 0x10 == c / 0x1000
    ensures IsTrailing(c / 0x40 % 0x40 + 0x80) && (c / 0x40 % 0x40 + 0x80) % 0x40 == c / 0x40 % 0x40
    ensures IsTrailing(c % 0x40 + 0x80) && (c % 0x40 + 0x80) % 0x40 == c % 0x40
    ensures c == (c / 0x1000 * 0x40 + c / 0x40 % 0x40) * 0x40 + c % 0x40
  {
  }

  lemma DecodeTwo(e: seq<nat>, rest: seq<nat>)
    requires |e| == 2 && 0xc0 <= e[0] < 0xe0 && IsTrailing(e[1])
    ensures Decode(e + rest) == [e[0] % 0x20 * 0x40 + e[1] % 0x40] + Decode(rest)
  {
    assert (e + rest)[2..] == rest;
  }

  lemma DecodeThree(e: seq<nat>, rest: seq<nat>)
    requires |e| == 3 && 0xe0 <= e[0] < 0xf0 && IsTrailing(e[1]) && IsTrailing(e[2])
    ensures Decode(e + rest) == [(e[0] % 0x10 * 0x40 + e[1] % 0x40) * 0x40 + e[2] % 0x40] + Decode(rest)
  {
    assert (e + rest)[3..] == rest;
  }

  lemma EncodedBytes(c: nat)
    requires IsUcs2(c)
    ensures forall i :: 0 <= i < |EncodeChar(c)| ==> 0 < EncodeChar(c)[i] < 0x100
  {
  }

  lemma {:induction false} AllEncodedBytes(s: seq<nat>)
    requires AllUcs2(s)
    ensures forall i :: 0 <= i < |Encode(s)| ==> 0 < Encode(s)[i] < 0x100
  {
    hide EncodeChar;
    if s != [] {
      AllEncodedBytes(s[..|s| - 1]);
      EncodedBytes(s[|s| - 1]);
    }
  }

  /** An encoded name is a NUL-terminated string of bytes with no NUL before its end. */
  lemma EncodedString(s: seq<nat>)
    requires AllUcs2(s)
    ensures CString(Encode(s) + [0]) && forall i :: 0 <= i < |Encode(s)| ==> Encode(s)[i] != 0
  {
    hide Encode;
    AllEncodedBytes(s);
  }

  /** Decoding an encoded name gives the name without its NULs. */
  lemma {:induction false} RoundTrip(s: seq<nat>)
    requires AllUcs2(s)
    ensures Decode(Encode(s) + [0]) == WithoutNuls(s)
  {
    hide EncodeChar, Decode;
    if s == [] {
      AtNul([0]);
      assert Encode(s) + [0] == [0];
    } else {
      var c, t := s[0], s[1..];
      assert s == [c] + t;
      RoundTrip(t);
      EncodeFirst(c, t);
      assert (EncodeChar(c) + Encode(t)) + [0] == EncodeChar(c) + (Encode(t) + [0]);
      if c == 0 {
        NulIsSkipped();
        assert EncodeChar(c) + (Encode(t) + [0]) == Encode(t) + [0];
      } else {
        DecodeChar(c, Encode(t) + [0]);
      }
    }
  }

  lemma NulIsSkipped()
    ensures EncodeChar(0) == []
  {
  }
}
