/** Byte strings, and the operations on them that Go's libraries supply. */
module Bytes {
  type Byte = b: int | 0 <= b < 0x100

  type Text = seq<Byte>

  const BACKSPACE: Byte := 0x08
  const TAB: Byte := 0x09
  const NEWLINE: Byte := 0x0A
  const FORM_FEED: Byte := 0x0C
  const RETURN: Byte := 0x0D
  const SPACE: Byte := 0x20
  const QUOTE: Byte := 0x22
  const HASH: Byte := 0x23
  const PERCENT: Byte := 0x25
  const AMPERSAND: Byte := 0x26
  const APOSTROPHE: Byte := 0x27
  const STAR: Byte := 0x2A
  const COMMA: Byte := 0x2C
  const DOT: Byte := 0x2E
  const SLASH: Byte := 0x2F
  const ZERO: Byte := 0x30
  const NINE: Byte := 0x39
  const COLON: Byte := 0x3A
  const SEMICOLON: Byte := 0x3B
  const LESS: Byte := 0x3C
  const EQUALS: Byte := 0x3D
  const GREATER: Byte := 0x3E
  const QUESTION: Byte := 0x3F
  const AT_SIGN: Byte := 0x40
  const UPPER_A: Byte := 0x41
  const UPPER_F: Byte := 0x46
  const UPPER_U: Byte := 0x55
  const OPEN_BRACKET: Byte := 0x5B
  const BACKSLASH: Byte := 0x5C
  const CLOSE_BRACKET: Byte := 0x5D
  const UNDERSCORE: Byte := 0x5F
  const LOWER_A: Byte := 0x61
  const LOWER_B: Byte := 0x62
  const LOWER_F: Byte := 0x66
  const LOWER_N: Byte := 0x6E
  const LOWER_R: Byte := 0x72
  const LOWER_T: Byte := 0x74
  const LOWER_U: Byte := 0x75
  const LOWER_X: Byte := 0x78
  const OPEN_BRACE: Byte := 0x7B
  const CLOSE_BRACE: Byte := 0x7D

  /** t stands in s at position i. */
  predicate At(s: Text, i: nat, t: Text) {
    i + |t| <= |s| && s[i..i + |t|] == t
  }

  lemma AtSplit(s: Text, i: nat, a: Text, b: Text)
    requires At(s, i, a + b)
    ensures At(s, i, a) && At(s, i + |a|, b)
  {
    assert s[i..i + |a|] == (a + b)[..|a|] == a;
    assert s[i + |a|..i + |a| + |b|] == (a + b)[|a|..] == b;
  }

  /** Pieces written one after the other. */
  function Joined(pieces: seq<Text>): Text {
    if pieces == [] then [] else pieces[0] + Joined(pieces[1..])
  }

  lemma {:induction false} JoinedAppend(pieces: seq<Text>, piece: Text)
    ensures Joined(pieces + [piece]) == Joined(pieces) + piece
  {
    if pieces == [] {
      assert [piece][1..] == [];
    } else {
      JoinedAppend(pieces[1..], piece);
      assert (pieces + [piece])[1..] == pieces[1..] + [piece];
    }
  }

  lemma Regroup(a: Text, b: Text, c: Text)
    ensures a + (b + c) == (a + b) + c
  {
  }

  lemma Split(t: Text, rest: Text)
    requires t != []
    ensures t + rest == [t[0]] + (t[1..] + rest)
  {
  }

  // ---- searching and replacing ------------------------------------------------------

  predicate Contains(s: Text, p: Text) {
    p <= s || (s != [] && Contains(s[1..], p))
  }

  /** strings.ReplaceAll for a non-empty pattern. */
  function ReplaceAll(s: Text, old_: Text, new_: Text): Text
    requires old_ != []
  {
    if s == [] then []
    else if old_ <= s then new_ + ReplaceAll(s[|old_|..], old_, new_)
    else [s[0]] + ReplaceAll(s[1..], old_, new_)
  }

  /** A pattern none of whose occurrences can start. */
  lemma {:induction false} NothingToReplace(s: Text, old_: Text, new_: Text)
    requires old_ != [] && old_[0] !in s
    ensures ReplaceAll(s, old_, new_) == s
  {
    if s != [] {
      NothingToReplace(s[1..], old_, new_);
      assert [s[0]] + s[1..] == s;
    }
  }

  lemma {:induction false} ContainsAt(s: Text, p: Text, i: nat)
    requires i <= |s| && p <= s[i..]
    ensures Contains(s, p)
  {
    if i > 0 {
      assert s[1..][i - 1..] == s[i..];
      ContainsAt(s[1..], p, i - 1);
    }
  }

  lemma {:induction false} Occurrence(s: Text, p: Text) returns (i: nat)
    requires Contains(s, p)
    ensures i <= |s| && p <= s[i..]
  {
    if p <= s {
      i := 0;
    } else {
      i := Occurrence(s[1..], p);
      i := i + 1;
      assert s[1..][i - 1..] == s[i..];
    }
  }

  /** How many bytes of a leading Unicode space s starts with; 0 if it starts with none. */
  function LeadingSpace(s: Text): (n: nat)
    ensures n <= |s|
  {
    if |s| >= 1 && (0x09 <= s[0] <= 0x0D || s[0] == SPACE) then 1
    else if |s| >= 2 && IsSpace2(s[0], s[1]) then 2
    else if |s| >= 3 && IsSpace3(s[0], s[1], s[2]) then 3
    else 0
  }

  /** U+0085 and U+00A0. */
  predicate IsSpace2(a: Byte, b: Byte) {
    a == 0xC2 && (b == 0x85 || b == 0xA0)
  }

  /** U+1680, U+2000 to U+200A, U+2028, U+2029, U+202F, U+205F and U+3000. */
  predicate IsSpace3(a: Byte, b: Byte, c: Byte) {
    || (a == 0xE1 && b == 0x9A && c == 0x80)
    || (a == 0xE2 && b == 0x80 && (0x80 <= c <= 0x8A || c == 0xA8 || c == 0xA9 || c == 0xAF))
    || (a == 0xE2 && b == 0x81 && c == 0x9F)
    || (a == 0xE3 && b == 0x80 && c == 0x80)
  }

  function TrailingSpace(s: Text): (n: nat)
    ensures n <= |s|
  {
    var m := |s|;
    if m >= 1 && (0x09 <= s[m - 1] <= 0x0D || s[m - 1] == SPACE) then 1
    else if m >= 2 && IsSpace2(s[m - 2], s[m - 1]) then 2
    else if m >= 3 && IsSpace3(s[m - 3], s[m - 2], s[m - 1]) then 3
    else 0
  }

  function TrimLeft(s: Text): Text {
    if LeadingSpace(s) == 0 then s else TrimLeft(s[LeadingSpace(s)..])
  }

  lemma {:induction false} TrimLeftIsSuffix(s: Text) returns (i: nat)
    ensures i <= |s| && TrimLeft(s) == s[i..]
  {
    var n := LeadingSpace(s);
    if n == 0 {
      i := 0;
    } else {
      var j := TrimLeftIsSuffix(s[n..]);
      SuffixOfSuffix(s, n, j);
      i := n + j;
    }
  }

  lemma SuffixOfSuffix(s: Text, i: nat, j: nat)
    requires i + j <= |s|
    ensures s[i..][j..] == s[i + j..]
  {
  }

  function TrimRight(s: Text): (r: Text)
    ensures r <= s
  {
    if TrailingSpace(s) == 0 then s else TrimRight(s[..|s| - TrailingSpace(s)])
  }

  /** strings.TrimSpace. */
  function TrimSpace(s: Text): Text {
    TrimRight(TrimLeft(s))
  }

  lemma TrimmedIsInside(s: Text) returns (i: nat, j: nat)
    ensures i <= j <= |s| && TrimSpace(s) == s[i..j]
  {
    i := TrimLeftIsSuffix(s);
    var both := TrimRight(s[i..]);
    j := i + |both|;
    PrefixOfSuffix(s, i, |both|);
  }

  lemma PrefixOfSuffix(s: Text, i: nat, n: nat)
    requires i + n <= |s|
    ensures s[i..][..n] == s[i..i + n]
  {
  }

  /** Between tokens; also the white space of section 2 of RFC 8259. */
  predicate IsBlank(c: Byte) {
    c == SPACE || c == TAB || c == NEWLINE || c == RETURN
  }

  // ---- hexadecimal -----------------------------------------------------------------

  predicate IsDigit(c: Byte) {
    ZERO <= c <= NINE
  }

  predicate IsHex(c: Byte) {
    IsDigit(c) || LOWER_A <= c <= LOWER_F || UPPER_A <= c <= UPPER_F
  }

  function HexValue(c: Byte): (v: nat)
    requires IsHex(c)
    ensures v < 16
  {
    if IsDigit(c) then c - ZERO else if c <= UPPER_F then c - UPPER_A + 10 else c - LOWER_A + 10
  }

  /** Four hexadecimal digits at a position, and the number they write. */
  predicate HexAt(s: Text, i: nat) {
    i + 4 <= |s| && IsHex(s[i]) && IsHex(s[i + 1]) && IsHex(s[i + 2]) && IsHex(s[i + 3])
  }

  function HexRune(s: Text, i: nat): nat
    requires HexAt(s, i)
  {
    HexValue(s[i]) * 0x1000 + HexValue(s[i + 1]) * 0x100 + HexValue(s[i + 2]) * 0x10 + HexValue(s[i + 3])
  }

  function UpperHex(v: nat): (c: Byte)
    requires v < 16
    ensures IsHex(c) && HexValue(c) == v
  {
    if v < 10 then ZERO + v else UPPER_A + (v - 10)
  }

  function LowerHex(v: nat): (c: Byte)
    requires v < 16
    ensures IsHex(c) && HexValue(c) == v
  {
    if v < 10 then ZERO + v else LOWER_A + (v - 10)
  }

  // ---- UTF-8 and UTF-16 ---------------------------------------------------------------

  predicate IsSurrogate(r: nat) {
    0xD800 <= r < 0xE000
  }

  predicate IsRune(r: nat) {
    r <= 0x10FFFF && !IsSurrogate(r)
  }

  /** n continuation bytes, six bits each. */
  function Continuation(r: nat, n: nat): Text {
    if n == 0 then [] else Continuation(r / 0x40, n - 1) + [0x80 + r % 0x40]
  }

  /** utf8.AppendRune: a value that is no rune becomes U+FFFD. */
  function RuneBytes(r: nat): Text {
    if r < 0x80 then [r]
    else if r < 0x800 then [0xC0 + r / 0x40] + Continuation(r, 1)
    else if !IsRune(r) then [0xEF, 0xBF, 0xBD]
    else if r < 0x10000 then [0xE0 + r / 0x1000] + Continuation(r, 2)
    else [0xF0 + r / 0x40000] + Continuation(r, 3)
  }

  predicate IsContinuation(c: Byte) {
    0x80 <= c < 0xC0
  }

  /** The length of the valid UTF-8 encoding of one rune s starts with; 0 if there is none. */
  function RuneLength(s: Text): (n: nat)
    ensures n <= |s| && n <= 4
    ensures n > 0 && s[0] >= 0x80 ==> n >= 2 && forall i :: 1 <= i < n ==> IsContinuation(s[i])
    ensures n > 0 && s[0] < 0x80 ==> n == 1
    ensures n > 0 ==> s[0] < 0x80 || s[0] >= 0xC2
  {
    if s == [] then 0
    else if s[0] < 0x80 then 1
    else if 0xC2 <= s[0] < 0xE0 && |s| >= 2 && IsContinuation(s[1]) then 2
    else if 0xE0 <= s[0] < 0xF0 && |s| >= 3 && IsContinuation(s[1]) && IsContinuation(s[2])
            && (s[0] == 0xE0 ==> s[1] >= 0xA0) && (s[0] == 0xED ==> s[1] < 0xA0) then 3
    else if 0xF0 <= s[0] < 0xF5 && |s| >= 4 && IsContinuation(s[1]) && IsContinuation(s[2]) && IsContinuation(s[3])
            && (s[0] == 0xF0 ==> s[1] >= 0x90) && (s[0] == 0xF4 ==> s[1] < 0x90) then 4
    else 0
  }

  /** utf8.Valid. */
  predicate IsUtf8(s: Text) {
    s == [] || (RuneLength(s) > 0 && IsUtf8(s[RuneLength(s)..]))
  }

  /** utf16.DecodeRune; -1 where it answers U+FFFD. */
  function SurrogatePair(hi: nat, lo: nat): (r: int)
    ensures r != -1 ==> 0x10000 <= r <= 0x10FFFF
  {
    if 0xD800 <= hi < 0xDC00 && 0xDC00 <= lo < 0xE000 then (hi - 0xD800) * 0x400 + (lo - 0xDC00) + 0x10000 else -1
  }
}
