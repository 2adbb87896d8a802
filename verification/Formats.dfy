/** The file formats byte by byte: what single characters, escapes, entities and numbers are
    written as and read as, in whatever text they stand. Characters are given by their codes. */
module Formats {
  import opened Wrappers
  import opened Bytes
  import AndroidCodec
  import StringsCodec
  import JsonCodec
  import AppVersions

  lemma Cons(c: Byte, rest: Text)
    ensures ([c] + rest)[0] == c && ([c] + rest)[1..] == rest
  {
  }

  lemma Cons2(c: Byte, d: Byte, rest: Text)
    ensures ([c, d] + rest)[0] == c && ([c, d] + rest)[1] == d
    ensures ([c, d] + rest)[1..] == [d] + rest && ([c, d] + rest)[2..] == rest
  {
  }

  // ---- UTF-8 and UTF-16 ------------------------------------------------------------------------

  /** Six payload bits more. */
  function Six(high: int, b: Byte): int {
    var low: int := b;
    high * 64 + (low - 0x80)
  }

  /** What a UTF-8 sequence stands for: the payload bits of its bytes. */
  function RuneOf(b: Text): int
    requires 1 <= |b| <= 4
  {
    var lead: int := b[0];
    if |b| == 1 then lead
    else if |b| == 2 then Six(lead - 0xC0, b[1])
    else if |b| == 3 then Six(Six(lead - 0xE0, b[1]), b[2])
    else Six(Six(Six(lead - 0xF0, b[1]), b[2]), b[3])
  }

  lemma {:induction false} Continued(r: nat)
    ensures Continuation(r, 1) == [0x80 + r % 64]
    ensures Continuation(r, 2) == [0x80 + r / 64 % 64, 0x80 + r % 64]
    ensures Continuation(r, 3) == [0x80 + r / 64 / 64 % 64, 0x80 + r / 64 % 64, 0x80 + r % 64]
  {
    assert Continuation(r, 0) == [] && Continuation(r / 64, 0) == [] && Continuation(r / 64 / 64, 0) == [];
    assert Continuation(r / 64, 1) == [0x80 + r / 64 % 64] && Continuation(r / 64 / 64, 1) == [0x80 + r / 64 / 64 % 64];
    assert Continuation(r / 64, 2) == [0x80 + r / 64 / 64 % 64, 0x80 + r / 64 % 64];
  }

  lemma Divided(r: nat)
    ensures r / 0x1000 == r / 64 / 64 && r / 0x40000 == r / 64 / 64 / 64
    ensures (r / 64) * 64 + r % 64 == r
    ensures ((r / 64 / 64) * 64 + r / 64 % 64) * 64 + r % 64 == r
    ensures (((r / 64 / 64 / 64) * 64 + r / 64 / 64 % 64) * 64 + r / 64 % 64) * 64 + r % 64 == r
  {
  }

  lemma LongRunes(r: nat)
    requires 0x800 <= r < 0x110000 && !(0xD800 <= r < 0xE000)
    ensures |RuneBytes(r)| == if r < 0x10000 then 3 else 4
    ensures RuneOf(RuneBytes(r)) == r
  {
    Continued(r);
    Divided(r);
  }

  lemma LongRunesAreValid(r: nat)
    requires 0x800 <= r < 0x110000 && !(0xD800 <= r < 0xE000)
    ensures RuneLength(RuneBytes(r)) == |RuneBytes(r)|
  {
    Continued(r);
    Divided(r);
  }

  /** Every character is written as its shortest valid UTF-8 sequence and stands for itself;
      what is no character is written as U+FFFD. */
  lemma RunesRoundTrip(r: nat)
    ensures IsRune(r) <==> r < 0xD800 || 0xE000 <= r < 0x110000
    ensures IsRune(r) ==>
              && |RuneBytes(r)| == (if r < 0x80 then 1 else if r < 0x800 then 2 else if r < 0x10000 then 3 else 4)
              && RuneOf(RuneBytes(r)) == r && RuneLength(RuneBytes(r)) == |RuneBytes(r)|
    ensures !IsRune(r) ==> RuneBytes(r) == [0xEF, 0xBF, 0xBD]
  {
    if r < 0x800 {
      Continued(r);
    } else if IsRune(r) {
      LongRunes(r);
      LongRunesAreValid(r);
    }
  }

  /** The halves of a character beyond U+FFFF make it up again, and no other two numbers make
      up anything. */
  lemma PairsRoundTrip(r: nat, hi: nat, lo: nat)
    ensures 0x10000 <= r < 0x110000 ==> SurrogatePair(0xD800 + (r - 0x10000) / 1024, 0xDC00 + (r - 0x10000) % 1024) == r
    ensures SurrogatePair(hi, lo) != -1 <==> 0xD800 <= hi < 0xDC00 && 0xDC00 <= lo < 0xE000
    ensures var p := SurrogatePair(hi, lo);
            p != -1 ==>
              0x10000 <= p < 0x110000 && hi == 0xD800 + (p - 0x10000) / 1024 && lo == 0xDC00 + (p - 0x10000) % 1024
  {
  }

  // ---- numbers ------------------------------------------------------------------------------------

  /** A number in decimal, without leading zeros. */
  function Decimal(n: nat): (d: Text)
    ensures d != [] && forall i :: 0 <= i < |d| ==> 0x30 <= d[i] <= 0x39
  {
    if n < 10 then [0x30 + n] else Decimal(n / 10) + [0x30 + n % 10]
  }

  /** And in hexadecimal, with lower-case digits. */
  function Hexadecimal(n: nat): (d: Text)
    ensures d != [] && forall i :: 0 <= i < |d| ==> 0x30 <= d[i] <= 0x39 || 0x61 <= d[i] <= 0x66
  {
    var digit := [if n % 16 < 10 then 0x30 + n % 16 else 0x61 + (n % 16 - 10)];
    if n < 16 then digit else Hexadecimal(n / 16) + digit
  }

  lemma {:induction false} HexDigits(c: Byte)
    ensures IsHex(c) <==> 0x30 <= c <= 0x39 || 0x61 <= c <= 0x66 || 0x41 <= c <= 0x46
    ensures IsHex(c) ==>
              HexValue(c) == if c <= 0x39 then c - 0x30 else if c <= 0x46 then c - 0x41 + 10 else c - 0x61 + 10
  {
  }

  // ---- Android ------------------------------------------------------------------------------------

  /** Newline, tab, apostrophe and quote are written behind a backslash. */
  lemma {:induction false} AndroidWrites(rest: Text)
    ensures AndroidCodec.Body([0x0A] + rest) == [0x5C, 0x6E] + AndroidCodec.Body(rest)
    ensures AndroidCodec.Body([0x09] + rest) == [0x5C, 0x74] + AndroidCodec.Body(rest)
    ensures AndroidCodec.Body([0x27] + rest) == [0x5C, 0x27] + AndroidCodec.Body(rest)
    ensures AndroidCodec.Body([0x22] + rest) == [0x5C, 0x22] + AndroidCodec.Body(rest)
  {
    Cons(0x0A, rest);
    Cons(0x09, rest);
    Cons(0x27, rest);
    Cons(0x22, rest);
  }

  lemma {:induction false} AndroidWritesPlain(c: Byte, rest: Text)
    requires c != 0x0A && c != 0x09 && c != 0x27 && c != 0x22 && c != 0x5C
    ensures AndroidCodec.Body([c] + rest) == [c] + AndroidCodec.Body(rest)
  {
    Cons(c, rest);
  }

  predicate FourHex(s: Text) {
    |s| >= 4 && forall i :: 0 <= i < 4 ==> 0x30 <= s[i] <= 0x39 || 0x61 <= s[i] <= 0x66 || 0x41 <= s[i] <= 0x46
  }

  /** A backslash is doubled unless u and four hexadecimal digits follow: such an escape stays
      as it is. */
  lemma {:induction false} AndroidWritesBackslash(rest: Text)
    ensures AndroidCodec.Body([0x5C] + rest) ==
            if rest != [] && rest[0] == 0x75 && FourHex(rest[1..])
            then [0x5C] + rest[..5] + AndroidCodec.Body(rest[5..])
            else [0x5C, 0x5C] + AndroidCodec.Body(rest)
  {
    var s := [0x5C] + rest;
    Cons(0x5C, rest);
    if |rest| >= 5 {
      assert s[1] == rest[0] && s[2] == rest[1..][0] && s[3] == rest[1..][1] && s[4] == rest[1..][2]
          && s[5] == rest[1..][3];
      assert s[..6] == [0x5C] + rest[..5] && s[6..] == rest[5..];
    }
  }

  /** A first @ or ? is written behind a backslash, and nothing else is put before a value. */
  lemma {:induction false} AndroidWritesReference(s: Text)
    ensures AndroidCodec.Backslashed(s) ==
            (if s != [] && (s[0] == 0x40 || s[0] == 0x3F) then [0x5C] else []) + AndroidCodec.Body(s)
  {
    assert [] + AndroidCodec.Body(s) == AndroidCodec.Body(s);
  }

  /** What the letter behind a backslash stands for. */
  lemma {:induction false} AndroidReads(c: Byte, rest: Text)
    ensures AndroidCodec.UnescapedAll([0x5C, c] + rest) ==
            (if c == 0x6E then [0x0A]
             else if c == 0x74 then [0x09]
             else if c == 0x27 || c == 0x22 || c == 0x5C || c == 0x40 || c == 0x3F then [c]
             else [0x5C, c]) + AndroidCodec.UnescapedAll(rest)
    ensures c != 0x5C ==> AndroidCodec.UnescapedAll([c] + rest) == [c] + AndroidCodec.UnescapedAll(rest)
    ensures AndroidCodec.UnescapedAll([0x5C]) == [0x5C]
  {
    Cons2(0x5C, c, rest);
    Cons(c, rest);
    assert [0x5C][1..] == [];
  }

  /** <b>, </b>, <u> or </u> in front. */
  predicate Tagged(s: Text) {
    || (|s| >= 3 && s[0] == 0x3C && (s[1] == 0x62 || s[1] == 0x75) && s[2] == 0x3E)
    || (|s| >= 4 && s[0] == 0x3C && s[1] == 0x2F && (s[2] == 0x62 || s[2] == 0x75) && s[3] == 0x3E)
  }

  /** & < and > become entities, a tag for bold or underlined text stays a tag, everything else
      stays as it is. */
  lemma {:induction false} AndroidMarks(c: Byte, rest: Text)
    ensures var s := [c] + rest;
            if Tagged(s) then
              var n := if s[1] == 0x2F then 4 else 3;
              AndroidCodec.Marked(s) == s[..n] + AndroidCodec.Marked(s[n..])
            else
              AndroidCodec.Marked(s) ==
                (if c == 0x26 then [0x26, 0x61, 0x6D, 0x70, 0x3B]
                 else if c == 0x3C then [0x26, 0x6C, 0x74, 0x3B]
                 else if c == 0x3E then [0x26, 0x67, 0x74, 0x3B]
                 else [c]) + AndroidCodec.Marked(rest)
  {
    Cons(c, rest);
  }

  /** The five named entities. */
  function Named(): seq<(Text, Byte)> {
    [([0x26, 0x6C, 0x74, 0x3B], 0x3C), ([0x26, 0x67, 0x74, 0x3B], 0x3E), ([0x26, 0x71, 0x75, 0x6F, 0x74, 0x3B], 0x22),
     ([0x26, 0x61, 0x70, 0x6F, 0x73, 0x3B], 0x27), ([0x26, 0x61, 0x6D, 0x70, 0x3B], 0x26)]
  }

  lemma {:induction false} PlainStays(a: Text, rest: Text, old_: Text, new_: Text)
    requires 0x26 !in a && old_ != [] && old_[0] == 0x26
    ensures ReplaceAll(a + rest, old_, new_) == a + ReplaceAll(rest, old_, new_)
  {
    AndroidCodec.PlainKept(a, rest, old_, new_);
  }

  /** One entity between texts without an ampersand: replaced where it is the one looked for,
      left alone where it is not. */
  lemma {:induction false} OneReplaced(a: Text, entity: Text, b: Text, old_: Text, c: Byte, k: nat)
    requires 0x26 !in a && 0x26 !in b && entity != [] && entity[0] == 0x26 && 0x26 !in entity[1..]
    requires old_ != [] && old_[0] == 0x26
    requires entity == old_ || (k < |entity| && k < |old_| && entity[k] != old_[k])
    ensures ReplaceAll(a + (entity + b), old_, [c]) == a + ((if entity == old_ then [c] else entity) + b)
  {
    PlainStays(a, entity + b, old_, [c]);
    NothingToReplace(b, old_, [c]);
    if entity == old_ {
      AndroidCodec.EntityReplaced(old_, b, [c]);
    } else {
      AndroidCodec.EntityKept(entity, b, old_, [c], k);
    }
  }

  lemma OtherStart(t: Text, p: Text, i: nat)
    requires i < |p| && (|t| <= i || t[i] != p[i])
    ensures !(p <= t)
  {
  }

  lemma {:induction false} NoneContained(t: Text)
    requires 0x26 !in t
    ensures !Contains(t, AndroidCodec.REF)
  {
    OtherStart(t, AndroidCodec.REF, 0);
    if t != [] {
      NoneContained(t[1..]);
    }
  }

  lemma {:induction false} AmpNoRef(a: Text, b: Text)
    requires 0x26 !in a && 0x26 !in b
    ensures !Contains(a + (AndroidCodec.AMP + b), AndroidCodec.REF)
  {
    var t := a + (AndroidCodec.AMP + b);
    if a == [] {
      OtherStart(t, AndroidCodec.REF, 1);
      assert t[1..] == AndroidCodec.AMP[1..] + b;
      NoneContained(t[1..]);
    } else {
      OtherStart(t, AndroidCodec.REF, 0);
      assert t[1..] == a[1..] + (AndroidCodec.AMP + b);
      AmpNoRef(a[1..], b);
    }
  }

  /** The replacements of the reader, the first n of them. */
  function Replacing(t: Text, n: nat): Text
    requires n <= 4
  {
    if n == 0 then t else ReplaceAll(Replacing(t, n - 1), Named()[n - 1].0, [Named()[n - 1].1])
  }

  lemma {:induction false} Replacing4(t: Text)
    requires 0x26 in t
    ensures AndroidCodec.EntitiesResolved(t)
            == ReplaceAll(AndroidCodec.RefsResolved(Replacing(t, 4)), Named()[4].0, [Named()[4].1])
  {
    assert Replacing(t, 0) == t;
    assert Replacing(t, 1) == ReplaceAll(t, AndroidCodec.LT, [LESS]);
    assert Replacing(t, 2) == ReplaceAll(Replacing(t, 1), AndroidCodec.GT, [GREATER]);
    assert Replacing(t, 3) == ReplaceAll(Replacing(t, 2), AndroidCodec.QUOT, [QUOTE]);
    assert Replacing(t, 4) == ReplaceAll(Replacing(t, 3), AndroidCodec.APOS, [APOSTROPHE]);
  }

  /** Where entity i differs from the one replacement n looks for. */
  lemma EntitiesDiffer(i: nat, n: nat)
    requires i < 5 && n < 5 && i != n
    ensures var (a, b, k) := (Named()[i].0, Named()[n].0, if i + n == 7 then 2 else 1);
            k < |a| && k < |b| && a[k] != b[k]
  {
  }

  lemma EntityForm(i: nat)
    requires i < 5
    ensures Named()[i].0 != [] && Named()[i].0[0] == 0x26 && 0x26 !in Named()[i].0[1..]
  {
  }

  /** Entity i stays until its own replacement. */
  lemma {:induction false} StaysOrReplaced(a: Text, b: Text, i: nat, n: nat)
    requires 0x26 !in a && 0x26 !in b && i < 5 && n <= 4
    ensures Replacing(a + (Named()[i].0 + b), n) == a + ((if i < n then [Named()[i].1] else Named()[i].0) + b)
  {
    if n > 0 {
      StaysOrReplaced(a, b, i, n - 1);
      var (entity, old_, c) := (Named()[i].0, Named()[n - 1].0, Named()[n - 1].1);
      EntityForm(i);
      EntityForm(n - 1);
      if i < n - 1 {
        NothingToReplace(a + ([Named()[i].1] + b), old_, [c]);
      } else if i == n - 1 {
        OneReplaced(a, entity, b, old_, c, 0);
      } else {
        EntitiesDiffer(i, n - 1);
        OneReplaced(a, entity, b, old_, c, if i + (n - 1) == 7 then 2 else 1);
      }
    }
  }

  /** Each of the five named entities is read as its character, wherever it stands. */
  lemma AndroidReadsNamed(a: Text, b: Text, i: nat)
    requires 0x26 !in a && 0x26 !in b && i < 5
    ensures AndroidCodec.EntitiesResolved(a + (Named()[i].0 + b)) == a + ([Named()[i].1] + b)
  {
    var t := a + (Named()[i].0 + b);
    assert t[|a|] == 0x26;
    Replacing4(t);
    StaysOrReplaced(a, b, i, 4);
    if i < 4 {
      var read := a + ([Named()[i].1] + b);
      NoneContained(read);
      AndroidCodec.NoRefs(read);
      NothingToReplace(read, Named()[4].0, [Named()[4].1]);
    } else {
      AmpNoRef(a, b);
      AndroidCodec.NoRefs(t);
      OneReplaced(a, Named()[4].0, b, Named()[4].0, Named()[4].1, 1);
    }
  }

  // ---- numeric references ------------------------------------------------------------------------

  lemma {:induction false} DigitsUpTo(d: Text, c: Byte, rest: Text, hex: bool)
    requires forall i :: 0 <= i < |d| ==> AndroidCodec.IsRefDigit(d[i], hex)
    requires !AndroidCodec.IsRefDigit(c, hex)
    ensures AndroidCodec.Digits(d + ([c] + rest), hex) == |d|
  {
    var s := d + ([c] + rest);
    if d == [] {
      assert s[0] == c;
    } else {
      assert s[0] == d[0] && s[1..] == d[1..] + ([c] + rest);
      DigitsUpTo(d[1..], c, rest, hex);
    }
  }

  lemma {:induction false} DecimalReads(n: nat)
    ensures AndroidCodec.NumberOf(Decimal(n), false) == n
    decreases n
  {
    var d := Decimal(n);
    if n >= 10 {
      DecimalReads(n / 10);
      assert d[..|d| - 1] == Decimal(n / 10) && d[|d| - 1] == 0x30 + n % 10;
    } else {
      assert d[..0] == [];
    }
  }

  lemma {:induction false} HexadecimalReads(n: nat)
    ensures AndroidCodec.NumberOf(Hexadecimal(n), true) == n
    decreases n
  {
    var d := Hexadecimal(n);
    if n >= 16 {
      HexadecimalReads(n / 16);
      assert d[..|d| - 1] == Hexadecimal(n / 16);
    } else {
      assert d[..0] == [];
    }
  }

  lemma Pieces(start: Text, d: Text, rest: Text)
    requires d != []
    ensures var s := start + (d + ([0x3B] + rest));
            && |s| == |start| + |d| + 1 + |rest| && s[|start|..] == d + ([0x3B] + rest)
            && s[..|start|] == start && s[|start|] == d[0] && s[|start| + |d|] == 0x3B
            && s[|start|..|start| + |d|] == d && s[|start| + |d| + 1..] == rest
  {
  }

  lemma {:induction false} CharRefReads(s: Text, n: nat, d: Text, hex: bool)
    requires |s| > n + |d| && d != [] && s[n..n + |d|] == d && s[n + |d|] == 0x3B
            && AndroidCodec.Digits(s[n..], hex) == |d|
    requires s[0] == 0x26 && s[1] == 0x23 && n == (if hex then 3 else 2) && (s[2] == 0x78 <==> hex)
    requires IsRune(AndroidCodec.NumberOf(d, hex))
    ensures AndroidCodec.CharRef(s) == Some((AndroidCodec.NumberOf(d, hex), n + |d| + 1))
  {
  }

  lemma {:induction false} ReferenceReads(start: Text, d: Text, rest: Text, hex: bool)
    requires start == (if hex then [0x26, 0x23, 0x78] else [0x26, 0x23]) && d != []
    requires forall i :: 0 <= i < |d| ==> AndroidCodec.IsRefDigit(d[i], hex)
    requires IsRune(AndroidCodec.NumberOf(d, hex))
    ensures AndroidCodec.RefsResolved(start + (d + ([0x3B] + rest)))
            == RuneBytes(AndroidCodec.NumberOf(d, hex)) + AndroidCodec.RefsResolved(rest)
  {
    var s := start + (d + ([0x3B] + rest));
    Pieces(start, d, rest);
    DigitsUpTo(d, 0x3B, rest, hex);
    assert s[..|start|][0] == 0x26 && s[..|start|][1] == 0x23;
    CharRefReads(s, |start|, d, hex);
  }

  /** &#n; and &#xn; are read as character n. */
  lemma {:induction false} AndroidReadsNumeric(n: nat, rest: Text)
    requires n < 0xD800 || 0xE000 <= n < 0x110000
    ensures AndroidCodec.RefsResolved([0x26, 0x23] + (Decimal(n) + ([0x3B] + rest)))
            == RuneBytes(n) + AndroidCodec.RefsResolved(rest)
    ensures AndroidCodec.RefsResolved([0x26, 0x23, 0x78] + (Hexadecimal(n) + ([0x3B] + rest)))
            == RuneBytes(n) + AndroidCodec.RefsResolved(rest)
  {
    DecimalReads(n);
    ReferenceReads([0x26, 0x23], Decimal(n), rest, false);
    HexadecimalReads(n);
    ReferenceReads([0x26, 0x23, 0x78], Hexadecimal(n), rest, true);
  }

  // ---- CDATA ----------------------------------------------------------------------------------------

  /** <![CDATA[ and ]]> */
  function Opening(): Text { [0x3C, 0x21, 0x5B, 0x43, 0x44, 0x41, 0x54, 0x41, 0x5B] }

  function Closing(): Text { [0x5D, 0x5D, 0x3E] }

  /** The wrapped form has no entities: only the backslash escapes, between the markers. */
  lemma AndroidWraps(v: Text)
    ensures AndroidCodec.CdataText(v) == Opening() + AndroidCodec.Backslashed(v) + Closing()
  {
  }

  /** What is between markers that enclose the whole value is read without entities; markers
      that do not enclose it, or not just once, are refused. */
  lemma {:induction false} AndroidReadsWrapped(inner: Text)
    ensures Contains(inner, Opening()) || Contains(inner, Closing()) || Opening() <= TrimSpace(inner)
            <==> AndroidCodec.Decoded(inner).Failure? || AndroidCodec.Decoded(inner).value.1.Cdata?
    ensures AndroidCodec.Decoded(inner).Success? && AndroidCodec.Decoded(inner).value.1.Cdata? ==>
              exists v :: TrimSpace(inner) == Opening() + v + Closing()
                  && !Contains(v, Opening()) && !Contains(v, Closing())
                          && AndroidCodec.Decoded(inner).value.0 == AndroidCodec.UnescapedAll(v)
  {
    var t := TrimSpace(inner);
    if Opening() <= t {
      if AndroidCodec.EndsWith(t, Closing()) {
        AndroidCodec.WrapperLength(t);
        var v := t[9..|t| - 3];
        assert v == AndroidCodec.Unwrapped(t);
        assert t[..9] == Opening() && t[|t| - 3..] == Closing() && t == t[..9] + v + t[|t| - 3..];
      }
    }
  }

  // ---- .strings -----------------------------------------------------------------------------------------

  /** Backslash, quote, newline, return and tab have short escapes; other control characters are
      written as \U and their four upper-case hexadecimal digits. */
  lemma StringsWrites(c: Byte)
    ensures StringsCodec.Escaped(c) ==
            if c == 0x5C then [0x5C, 0x5C]
            else if c == 0x22 then [0x5C, 0x22]
            else if c == 0x0A then [0x5C, 0x6E]
            else if c == 0x0D then [0x5C, 0x72]
            else if c == 0x09 then [0x5C, 0x74]
            else if c < 0x10 then [0x5C, 0x55, 0x30, 0x30, 0x30, if c < 10 then 0x30 + c else 0x41 + (c - 10)]
            else if c < 0x20 then [0x5C, 0x55, 0x30, 0x30, 0x31, if c < 26 then 0x30 + (c - 16) else 0x41 + (c - 26)]
            else [c]
  {
  }

  /** "key" = "value"; and a line ending. */
  lemma StringsFrames(key: Text, value: Text, end: Text)
    ensures StringsCodec.Framed(key, value, end)
            == [0x22] + key + [0x22, 0x20, 0x3D, 0x20, 0x22] + value + [0x22, 0x3B] + end
    ensures StringsCodec.Ending(StringsCodec.LF) == [0x0A] && StringsCodec.Ending(StringsCodec.CRLF) == [0x0D, 0x0A]
  {
  }

  /** The number four hexadecimal digits write. */
  function Four(s: Text, i: nat): nat
    requires HexAt(s, i)
  {
    ((HexValue(s[i]) * 16 + HexValue(s[i + 1])) * 16 + HexValue(s[i + 2])) * 16 + HexValue(s[i + 3])
  }

  /** The escape whose letter stands at i. */
  lemma StringsReads(s: Text, i: nat)
    requires i < |s|
    ensures var (e, r) := (s[i], StringsCodec.EscapeAt(s, i));
            if e == 0x6E then r == ([0x0A], i + 1)
            else if e == 0x74 then r == ([0x09], i + 1)
            else if e == 0x72 then r == ([0x0D], i + 1)
            else if e == 0x22 || e == 0x5C then r == ([e], i + 1)
            else if (e == 0x55 || e == 0x75) && HexAt(s, i + 1) then
              var high := Four(s, i + 1);
              if high < 0xD800 || 0xE000 <= high then r == (RuneBytes(high), i + 5)
              else if i + 11 <= |s| && s[i + 5] == 0x5C && (s[i + 6] == 0x55 || s[i + 6] == 0x75) && HexAt(s, i + 7)
                      && high < 0xDC00 && 0xDC00 <= Four(s, i + 7) < 0xE000 then
                r == (RuneBytes(0x10000 + (high - 0xD800) * 1024 + (Four(s, i + 7) - 0xDC00)), i + 11)
              else r == ([0x5C, e] + s[i + 1..i + 5], i + 5)
            else r == ([0x5C, e], i + 1)
  {
  }

  /** From just past a quote: the value ends at the next quote, a backslash begins an escape,
      everything else is itself. */
  lemma {:induction false} StringsQuotes(s: Text, i: nat)
    requires i <= |s|
    ensures var r := StringsCodec.Quoted(s, i);
            if i == |s| then r == Failure(StringsCodec.UnterminatedString)
            else if s[i] == 0x22 then r == Success(([], i + 1))
            else if s[i] == 0x5C && i + 1 == |s| then r == Failure(StringsCodec.DanglingEscape)
            else
              var (bytes, next) := if s[i] == 0x5C then StringsCodec.EscapeAt(s, i + 1) else ([s[i]], i + 1);
              var rest := StringsCodec.Quoted(s, next);
              r == if rest.Success? then Success((bytes + rest.value.0, rest.value.1)) else rest
  {
  }

  /** The first newline from i on. */
  ghost predicate NewlineAt(s: Text, i: nat, n: nat) {
    i <= n < |s| && s[n] == 0x0A && forall j :: i <= j < n ==> s[j] != 0x0A
  }

  ghost predicate CommentEnds(s: Text, i: nat, n: nat) {
    && i <= n && n + 1 < |s| && s[n] == 0x2A && s[n + 1] == 0x2F
    && forall j :: i <= j < n ==> !(s[j] == 0x2A && s[j + 1] == 0x2F)
  }

  lemma {:induction false} LineEnds(s: Text, i: nat, n: nat)
    requires NewlineAt(s, i, n)
    ensures StringsCodec.LineEnd(s, i) == n + 1
    decreases n - i
  {
    if i < n {
      LineEnds(s, i + 1, n);
    }
  }

  lemma {:induction false} NoLineEnd(s: Text, i: nat)
    requires i <= |s| && forall j :: i <= j < |s| ==> s[j] != 0x0A
    ensures StringsCodec.LineEnd(s, i) == |s|
    decreases |s| - i
  {
    if i < |s| {
      NoLineEnd(s, i + 1);
    }
  }

  lemma {:induction false} BlockEnds(s: Text, i: nat, n: nat)
    requires CommentEnds(s, i, n)
    ensures StringsCodec.CommentEnd(s, i) == Some(n + 2)
    decreases n - i
  {
    if i < n {
      BlockEnds(s, i + 1, n);
    }
  }

  lemma {:induction false} BlockOpen(s: Text, i: nat)
    requires i <= |s| && forall j :: i <= j && j + 1 < |s| ==> !(s[j] == 0x2A && s[j + 1] == 0x2F)
    ensures StringsCodec.CommentEnd(s, i) == None
    decreases |s| - i
  {
    if i < |s| {
      BlockOpen(s, i + 1);
    }
  }

  /** Between tokens a blank, a comment to the end of its line and a comment to the next star and
      slash do not count; a comment that is not closed is an error. */
  lemma {:induction false} StringsSkips(s: Text, i: nat, n: nat)
    requires i < |s|
    ensures s[i] == 0x20 || s[i] == 0x09 || s[i] == 0x0A || s[i] == 0x0D ==>
              StringsCodec.Skipped(s, i) == StringsCodec.Skipped(s, i + 1)
    ensures i + 1 < |s| && s[i] == 0x2F && s[i + 1] == 0x2F && NewlineAt(s, i + 2, n) ==>
              StringsCodec.Skipped(s, i) == StringsCodec.Skipped(s, n + 1)
    ensures i + 1 < |s| && s[i] == 0x2F && s[i + 1] == 0x2F && (forall j :: i + 2 <= j < |s| ==> s[j] != 0x0A) ==>
              StringsCodec.Skipped(s, i) == Success(|s|)
    ensures i + 1 < |s| && s[i] == 0x2F && s[i + 1] == 0x2A && CommentEnds(s, i + 2, n) ==>
              StringsCodec.Skipped(s, i) == StringsCodec.Skipped(s, n + 2)
    ensures i + 1 < |s| && s[i] == 0x2F && s[i + 1] == 0x2A
            && (forall j :: i + 2 <= j && j + 1 < |s| ==> !(s[j] == 0x2A && s[j + 1] == 0x2F)) ==>
              StringsCodec.Skipped(s, i) == Failure(StringsCodec.UnterminatedComment)
  {
    if i + 1 < |s| && s[i] == 0x2F && s[i + 1] == 0x2F {
      if NewlineAt(s, i + 2, n) {
        LineEnds(s, i + 2, n);
      } else if forall j :: i + 2 <= j < |s| ==> s[j] != 0x0A {
        NoLineEnd(s, i + 2);
      }
    }
    if i + 1 < |s| && s[i] == 0x2F && s[i + 1] == 0x2A {
      if CommentEnds(s, i + 2, n) {
        BlockEnds(s, i + 2, n);
      } else if forall j :: i + 2 <= j && j + 1 < |s| ==> !(s[j] == 0x2A && s[j + 1] == 0x2F) {
        BlockOpen(s, i + 2);
      }
    }
  }

  /** Nothing else is skipped. */
  lemma {:induction false} StringsStops(s: Text, i: nat)
    requires i <= |s|
    requires i < |s| ==> s[i] != 0x20 && s[i] != 0x09 && s[i] != 0x0A && s[i] != 0x0D
    requires i + 1 < |s| && s[i] == 0x2F ==> s[i + 1] != 0x2F && s[i + 1] != 0x2A
    ensures StringsCodec.Skipped(s, i) == Success(i)
  {
  }

  // ---- JSON ------------------------------------------------------------------------------------------------

  /** Backslash, quote and slash are written behind a backslash, the five control characters that
      have a letter as that letter, the others as \u and four lower-case hexadecimal digits. */
  lemma JsonWrites(c: Byte)
    ensures JsonCodec.Escaped(c) ==
            if c == 0x5C || c == 0x22 || c == 0x2F then [0x5C, c]
            else if c == 0x08 then [0x5C, 0x62]
            else if c == 0x0C then [0x5C, 0x66]
            else if c == 0x0A then [0x5C, 0x6E]
            else if c == 0x0D then [0x5C, 0x72]
            else if c == 0x09 then [0x5C, 0x74]
            else if c < 0x10 then [0x5C, 0x75, 0x30, 0x30, 0x30, if c < 10 then 0x30 + c else 0x61 + (c - 10)]
            else if c < 0x20 then [0x5C, 0x75, 0x30, 0x30, 0x31, if c < 26 then 0x30 + (c - 16) else 0x61 + (c - 26)]
            else [c]
  {
  }

  /** U+2028 and U+2029 are written as \u2028 and \u2029, everything else byte by byte. */
  lemma {:induction false} JsonWritesAll(c: Byte, rest: Text)
    ensures JsonCodec.EscapedAll([c] + rest) ==
            if c == 0xE2 && [0x80, 0xA8] <= rest then
              [0x5C, 0x75, 0x32, 0x30, 0x32, 0x38] + JsonCodec.EscapedAll(rest[2..])
            else if c == 0xE2 && [0x80, 0xA9] <= rest then
              [0x5C, 0x75, 0x32, 0x30, 0x32, 0x39] + JsonCodec.EscapedAll(rest[2..])
            else JsonCodec.Escaped(c) + JsonCodec.EscapedAll(rest)
  {
    var s := [c] + rest;
    Cons(c, rest);
    if |rest| >= 2 {
      assert s[1] == rest[0] && s[2] == rest[1] && s[3..] == rest[2..];
    }
  }

  /** Four spaces, "key": "value", and a comma behind all but the last. */
  lemma JsonFrames(key: Text, value: Text)
    ensures JsonCodec.Member(key, value, false)
            == [0x20, 0x20, 0x20, 0x20, 0x22] + key + [0x22, 0x3A, 0x20, 0x22] + value + [0x22, 0x2C, 0x0A]
    ensures JsonCodec.Member(key, value, true)
            == [0x20, 0x20, 0x20, 0x20, 0x22] + key + [0x22, 0x3A, 0x20, 0x22] + value + [0x22, 0x0A]
    ensures JsonCodec.START == [0x7B, 0x0A] && JsonCodec.FINISH == [0x7D, 0x0A]
  {
  }

  /** One character of a string as sections 7 and 8 of RFC 8259 have it. */
  lemma JsonReads(s: Text)
    ensures var r := JsonCodec.CharAt(s);
            if s == [] || s[0] < 0x20 || s[0] == 0x22 then r == None
            else if s[0] != 0x5C then
              if RuneLength(s) > 0 then r == Some((s[..RuneLength(s)], RuneLength(s)))
              else r == Some(([0xEF, 0xBF, 0xBD], 1))
            else if |s| == 1 then r == None
            else if s[1] == 0x22 || s[1] == 0x5C || s[1] == 0x2F then r == Some(([s[1]], 2))
            else if s[1] == 0x62 then r == Some(([0x08], 2))
            else if s[1] == 0x66 then r == Some(([0x0C], 2))
            else if s[1] == 0x6E then r == Some(([0x0A], 2))
            else if s[1] == 0x72 then r == Some(([0x0D], 2))
            else if s[1] == 0x74 then r == Some(([0x09], 2))
            else if s[1] != 0x75 || !HexAt(s, 2) then r == None
            else if |s| >= 12 && s[6] == 0x5C && s[7] == 0x75 && HexAt(s, 8)
                    && 0xD800 <= Four(s, 2) < 0xDC00 && 0xDC00 <= Four(s, 8) < 0xE000 then
              r == Some((RuneBytes(0x10000 + (Four(s, 2) - 0xD800) * 1024 + (Four(s, 8) - 0xDC00)), 12))
            else r == Some((RuneBytes(Four(s, 2)), 6))
  {
  }

  // ---- spaces ------------------------------------------------------------------------------------------------

  /** The characters TrimSpace removes. */
  predicate SpaceRune(r: nat) {
    || 0x09 <= r <= 0x0D || r == 0x20 || r == 0x85 || r == 0xA0 || r == 0x1680 || 0x2000 <= r <= 0x200A
    || r == 0x2028 || r == 0x2029 || r == 0x202F || r == 0x205F || r == 0x3000
  }

  lemma ThreeBytes(a: Byte, b: Byte, c: Byte, r: nat)
    requires 0x800 <= r < 0x10000 && !(0xD800 <= r < 0xE000) && RuneBytes(r) == [a, b, c]
    ensures IsSpace3(a, b, c) <==> SpaceRune(r)
  {
    Continued(r);
    LongRunes(r);
    SpacePayload(a, b, c, r);
  }

  lemma SpacePayload(a: Byte, b: Byte, c: Byte, r: int)
    requires 0x800 <= r && 0x80 <= b < 0xC0 && 0x80 <= c < 0xC0 && 0xE0 <= a < 0xF0
    requires var lead: int := a; r == Six(Six(lead - 0xE0, b), c)
    ensures IsSpace3(a, b, c) <==> SpaceRune(r)
  {
  }

  /** A leading character is a space exactly when it is one of those. */
  lemma LeadingSpaces(r: nat, rest: Text)
    requires IsRune(r)
    ensures LeadingSpace(RuneBytes(r) + rest) == if SpaceRune(r) then |RuneBytes(r)| else 0
  {
    var (b, s) := (RuneBytes(r), RuneBytes(r) + rest);
    RunesRoundTrip(r);
    assert forall i :: 0 <= i < |b| ==> s[i] == b[i];
    if 0x800 <= r < 0x10000 {
      ThreeBytes(b[0], b[1], b[2], r);
    }
    Continued(r);
    Divided(r);
  }

  /** So is a trailing one. */
  lemma TrailingSpaces(rest: Text, r: nat)
    requires IsRune(r)
    ensures TrailingSpace(rest + RuneBytes(r)) == if SpaceRune(r) then |RuneBytes(r)| else 0
  {
    var (b, s, n) := (RuneBytes(r), rest + RuneBytes(r), |rest|);
    RunesRoundTrip(r);
    assert forall i :: 0 <= i < |b| ==> s[n + i] == b[i];
    if 0x800 <= r < 0x10000 {
      ThreeBytes(b[0], b[1], b[2], r);
    }
    Continued(r);
    Divided(r);
  }

  /** Trimming removes leading and trailing spaces, one after the other, until there is none. */
  lemma {:induction false} Trims(s: Text, r: nat)
    requires IsRune(r) && SpaceRune(r)
    ensures TrimLeft(RuneBytes(r) + s) == TrimLeft(s) && TrimRight(s + RuneBytes(r)) == TrimRight(s)
    ensures TrimSpace(RuneBytes(r) + s) == TrimSpace(s)
  {
    LeadingSpaces(r, s);
    TrailingSpaces(s, r);
    RunesRoundTrip(r);
    assert (RuneBytes(r) + s)[|RuneBytes(r)|..] == s;
    assert (s + RuneBytes(r))[..|s + RuneBytes(r)| - |RuneBytes(r)|] == s;
  }

  lemma {:induction false} TrimStops(s: Text)
    ensures LeadingSpace(TrimLeft(s)) == 0
    decreases |s|
  {
    if LeadingSpace(s) > 0 {
      TrimStops(s[LeadingSpace(s)..]);
    }
  }

  lemma {:induction false} TrimStopsBehind(s: Text)
    ensures TrailingSpace(TrimRight(s)) == 0
    decreases |s|
  {
    if TrailingSpace(s) > 0 {
      TrimStopsBehind(s[..|s| - TrailingSpace(s)]);
    }
  }

  // ---- app versions --------------------------------------------------------------------------------------------

  lemma {:induction false} DigitsOfDecimal(n: nat)
    ensures AppVersions.Digits(Decimal(n)) == n
    decreases n
  {
    var d := Decimal(n);
    if n >= 10 {
      DigitsOfDecimal(n / 10);
      assert d[..|d| - 1] == Decimal(n / 10) && d[|d| - 1] == 0x30 + n % 10;
    } else {
      assert d[..0] == [] && AppVersions.Digits([]) == 0;
    }
  }

  predicate AllDigits(d: Text) {
    forall i :: 0 <= i < |d| ==> 0x30 <= d[i] <= 0x39
  }

  /** Leading zeros do not change a number. */
  lemma {:induction false} ZerosCount(d: Text)
    requires AllDigits(d)
    ensures AppVersions.Digits([0x30] + d) == AppVersions.Digits(d) >= 0
  {
    var z := [0x30] + d;
    if d == [] {
      assert z[..0] == [] && AppVersions.Digits([]) == 0;
    } else {
      ZerosCount(d[..|d| - 1]);
      assert z[..|z| - 1] == [0x30] + d[..|d| - 1] && z[|z| - 1] == d[|d| - 1];
    }
  }

  /** A number is one digit or more, behind one sign or none. */
  lemma {:induction false} NumbersAre(s: Text)
    ensures AppVersions.Number(s) ==
            if s != [] && AllDigits(s) then Some(AppVersions.Digits(s))
            else if |s| > 1 && s[0] == 0x2B && AllDigits(s[1..]) then Some(AppVersions.Digits(s[1..]))
            else if |s| > 1 && s[0] == 0x2D && AllDigits(s[1..]) then Some(-AppVersions.Digits(s[1..]))
            else None
  {
    DigitsOrNot(s);
    if s != [] {
      DigitsOrNot(s[1..]);
    }
  }

  lemma DigitsOrNot(d: Text)
    ensures AppVersions.AllDigits(d) <==> d != [] && AllDigits(d)
  {
  }

  /** A component is a number that is not negative and fits 64 bits. */
  lemma ComponentsAre(s: Text)
    ensures AppVersions.IsComponent(s) <==>
              AppVersions.Number(s).Some? && 0 <= AppVersions.Number(s).value < 0x8000_0000_0000_0000
    ensures AppVersions.CastPart(s) ==
            if AppVersions.Number(s).Some? && -0x8000_0000 <= AppVersions.Number(s).value < 0x8000_0000
            then AppVersions.Number(s) else None
  {
  }

  lemma {:induction false} DecimalIsNumber(n: nat)
    ensures AppVersions.Number(Decimal(n)) == Some(n)
    ensures AppVersions.IsComponent(Decimal(n)) <==> n < 0x8000_0000_0000_0000
    ensures AppVersions.CastPart(Decimal(n)) == if n < 0x8000_0000 then Some(n) else None
  {
    NumbersAre(Decimal(n));
    DigitsOfDecimal(n);
  }

  lemma {:induction false} SplitAtDot(a: Text, rest: Text)
    requires 0x2E !in a
    ensures AppVersions.Split(a + ([0x2E] + rest)) == [a] + AppVersions.Split(rest)
  {
    var s := a + ([0x2E] + rest);
    if a == [] {
      assert s[0] == 0x2E && s[1..] == rest;
    } else {
      assert s[0] == a[0] && s[1..] == a[1..] + ([0x2E] + rest);
      SplitAtDot(a[1..], rest);
      assert [a[0]] + a[1..] == a;
    }
  }

  lemma DigitsAreNoSpace(s: Text)
    requires s != [] && 0x30 <= s[0] <= 0x39 && 0x30 <= s[|s| - 1] <= 0x39
    ensures TrimSpace(s) == s
  {
  }

  function Dotted(a: Text, b: Text, c: Text): Text {
    a + ([0x2E] + (b + ([0x2E] + c)))
  }

  lemma SplitThree(a: Text, b: Text, c: Text)
    requires 0x2E !in a && 0x2E !in b && 0x2E !in c
    ensures AppVersions.Split(Dotted(a, b, c)) == [a, b, c]
  {
    SplitAtDot(a, b + ([0x2E] + c));
    SplitAtDot(b, c);
    AppVersions.SplitPlain(c);
  }

  lemma {:induction false} ValidThree(text: Text, parts: seq<Text>)
    requires TrimSpace(text) == text && text != [] && AppVersions.Split(text) == parts && |parts| == 3
    ensures AppVersions.Validated(text) ==
            if AppVersions.IsComponent(parts[0]) && AppVersions.IsComponent(parts[1])
                && AppVersions.IsComponent(parts[2])
            then AppVersions.Floor(text) else AppVersions.Refused
  {
  }

  lemma {:induction false} CastThree(parts: seq<Text>, x: int, y: int, z: int)
    requires |parts| == 3
    ensures AppVersions.Cast(parts) == Some([x, y, z]) <==>
              && AppVersions.CastPart(parts[0]) == Some(x) && AppVersions.CastPart(parts[1]) == Some(y)
              && AppVersions.CastPart(parts[2]) == Some(z)
    ensures AppVersions.Cast(parts) == None <==>
              || AppVersions.CastPart(parts[0]) == None || AppVersions.CastPart(parts[1]) == None
              || AppVersions.CastPart(parts[2]) == None
  {
    var r := AppVersions.Cast(parts);
    if r.Some? && r.value[0] == x && r.value[1] == y && r.value[2] == z {
      assert r.value == [x, y, z];
    }
  }

  lemma DottedEnds(a: Text, b: Text, c: Text)
    requires a != [] && c != []
    ensures Dotted(a, b, c) != [] && Dotted(a, b, c)[0] == a[0]
    ensures Dotted(a, b, c)[|Dotted(a, b, c)| - 1] == c[|c| - 1]
  {
  }

  /** Three numbers with dots between them: accepted exactly if each fits 64 bits, castable
      exactly if each fits 32, and cast to these numbers. */
  lemma {:induction false} VersionsRead(a: nat, b: nat, c: nat)
    ensures var text := Dotted(Decimal(a), Decimal(b), Decimal(c));
            && AppVersions.Validated(text) ==
               (if a < 0x8000_0000_0000_0000 && b < 0x8000_0000_0000_0000 && c < 0x8000_0000_0000_0000
                then AppVersions.Floor(text) else AppVersions.Refused)
            && AppVersions.Cast(AppVersions.Split(text)) ==
               if a < 0x8000_0000 && b < 0x8000_0000 && c < 0x8000_0000 then Some([a, b, c]) else None
  {
    var text := Dotted(Decimal(a), Decimal(b), Decimal(c));
    DottedEnds(Decimal(a), Decimal(b), Decimal(c));
    DigitsAreNoSpace(text);
    SplitThree(Decimal(a), Decimal(b), Decimal(c));
    ValidThree(text, [Decimal(a), Decimal(b), Decimal(c)]);
    CastThree([Decimal(a), Decimal(b), Decimal(c)], a, b, c);
    DecimalIsNumber(a);
    DecimalIsNumber(b);
    DecimalIsNumber(c);
  }
}
