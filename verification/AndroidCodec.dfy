/** The Android value writer and reader: backslash escapes under XML entities, or
    under one CDATA wrapper. */
module AndroidCodec {
  import opened Wrappers
  import opened Bytes
  import opened Schema

  // <![CDATA[ and ]]>
  const OPEN: Text := [LESS, 0x21, OPEN_BRACKET, 0x43, 0x44, UPPER_A, 0x54, UPPER_A, OPEN_BRACKET]
  const CLOSE: Text := [CLOSE_BRACKET, CLOSE_BRACKET, GREATER]

  const AMP: Text := [AMPERSAND, LOWER_A, 0x6D, 0x70, SEMICOLON]
  const LT: Text := [AMPERSAND, 0x6C, LOWER_T, SEMICOLON]
  const GT: Text := [AMPERSAND, 0x67, LOWER_T, SEMICOLON]
  const QUOT: Text := [AMPERSAND, 0x71, LOWER_U, 0x6F, LOWER_T, SEMICOLON]
  const APOS: Text := [AMPERSAND, LOWER_A, 0x70, 0x6F, 0x73, SEMICOLON]

  // ---- writer: backslash escapes ----------------------------------------------------

  /** A backslash, u and four hexadecimal digits. */
  predicate UnicodeEscape(s: Text) {
    |s| >= 6 && s[0] == BACKSLASH && s[1] == LOWER_U && IsHex(s[2]) && IsHex(s[3]) && IsHex(s[4]) && IsHex(s[5])
  }

  function Escaped(c: Byte): Text {
    if c == BACKSLASH then [BACKSLASH, BACKSLASH]
    else if c == APOSTROPHE then [BACKSLASH, APOSTROPHE]
    else if c == NEWLINE then [BACKSLASH, LOWER_N]
    else if c == TAB then [BACKSLASH, LOWER_T]
    else if c == QUOTE then [BACKSLASH, QUOTE]
    else [c]
  }

  /** Byte by byte, but for the \uXXXX escapes aapt resolves itself. */
  function Body(s: Text): Text {
    if s == [] then []
    else if UnicodeEscape(s) then s[..6] + Body(s[6..])
    else Escaped(s[0]) + Body(s[1..])
  }

  predicate IsReference(s: Text) {
    s != [] && (s[0] == AT_SIGN || s[0] == QUESTION)
  }

  /** A first @ or ? would make the value a resource reference. */
  function Backslashed(s: Text): Text {
    if IsReference(s) then [BACKSLASH] + Body(s) else Body(s)
  }

  method EscapeBackslashes(s: Text) returns (b: Text)
    ensures b == Backslashed(s)
  {
    b := [];
    if |s| > 0 && (s[0] == AT_SIGN || s[0] == QUESTION) {
      b := [BACKSLASH];
    }
    ghost var head := b;
    var i := 0;
    while i < |s|
      invariant i <= |s| && b + Body(s[i..]) == head + Body(s)
    {
      ghost var before := b;
      if UnicodeEscape(s[i..]) {
        b := b + s[i..i + 6];
        assert s[i..][..6] == s[i..i + 6] && s[i..][6..] == s[i + 6..];
        assert b + Body(s[i + 6..]) == before + Body(s[i..]);
        i := i + 6;
      } else {
        b := b + Escaped(s[i]);
        assert s[i..][1..] == s[i + 1..];
        assert b + Body(s[i + 1..]) == before + Body(s[i..]);
        i := i + 1;
      }
    }
    assert b + Body(s[i..]) == b;
  }

  // ---- writer: entities and markup ------------------------------------------------------

  predicate IsMarkupChar(c: Byte) {
    c == AMPERSAND || c == LESS || c == GREATER
  }

  function Entity(c: Byte): Text {
    if c == AMPERSAND then AMP else if c == LESS then LT else if c == GREATER then GT else [c]
  }

  function Entities(s: Text): Text {
    if s == [] then [] else Entity(s[0]) + Entities(s[1..])
  }

  /** The length of the inline tag s starts with, b or u, opening or closing; 0 if none. */
  function MarkupLength(s: Text): (n: nat)
    ensures n <= |s| && (n == 0 || n == 3 || n == 4)
  {
    if |s| >= 3 && s[0] == LESS && (s[1] == LOWER_B || s[1] == LOWER_U) && s[2] == GREATER then 3
    else if |s| >= 4 && s[0] == LESS && s[1] == SLASH && (s[2] == LOWER_B || s[2] == LOWER_U) && s[3] == GREATER then 4
    else 0
  }

  /** Entities everywhere but in inline tags. */
  function Marked(s: Text): Text {
    if s == [] then []
    else if MarkupLength(s) > 0 then s[..MarkupLength(s)] + Marked(s[MarkupLength(s)..])
    else Entity(s[0]) + Marked(s[1..])
  }

  /** escapeXMLEntities: three replacements, the ampersand first. */
  function Replaced(s: Text): Text {
    if AMPERSAND !in s && LESS !in s && GREATER !in s then s
    else ReplaceAll(ReplaceAll(ReplaceAll(s, [AMPERSAND], AMP), [LESS], LT), [GREATER], GT)
  }

  /** Replacing one character touches nothing but that character. */
  lemma {:induction false} ReplaceAppend(a: Text, b: Text, c: Byte, new_: Text)
    ensures ReplaceAll(a + b, [c], new_) == ReplaceAll(a, [c], new_) + ReplaceAll(b, [c], new_)
  {
    if a == [] {
      assert a + b == b;
    } else {
      ReplaceAppend(a[1..], b, c, new_);
      assert (a + b)[1..] == a[1..] + b;
      assert [c] <= a <==> [c] <= a + b;
    }
  }

  lemma {:induction false} ReplaceOther(c: Byte, other: Byte, new_: Text)
    requires c != other
    ensures ReplaceAll([other], [c], new_) == [other]
  {
    NothingToReplace([other], [c], new_);
  }

  lemma OneReplaced(c: Byte)
    ensures ReplaceAll(ReplaceAll(ReplaceAll([c], [AMPERSAND], AMP), [LESS], LT), [GREATER], GT) == Entity(c)
  {
    if c == AMPERSAND {
      assert ReplaceAll([c], [AMPERSAND], AMP) == AMP;
      NothingToReplace(AMP, [LESS], LT);
      NothingToReplace(AMP, [GREATER], GT);
    } else {
      ReplaceOther(AMPERSAND, c, AMP);
      if c == LESS {
        assert ReplaceAll([c], [LESS], LT) == LT;
        NothingToReplace(LT, [GREATER], GT);
      } else {
        ReplaceOther(LESS, c, LT);
        if c == GREATER {
          assert ReplaceAll([c], [GREATER], GT) == GT;
        } else {
          ReplaceOther(GREATER, c, GT);
        }
      }
    }
  }

  lemma {:induction false} NoMarkupChars(s: Text)
    requires AMPERSAND !in s && LESS !in s && GREATER !in s
    ensures Entities(s) == s
  {
    if s != [] {
      NoMarkupChars(s[1..]);
      assert [s[0]] + s[1..] == s;
    }
  }

  /** The chain of replacements is the byte-by-byte escaping: the order loses nothing. */
  lemma {:induction false} ChainIsEntities(s: Text)
    ensures ReplaceAll(ReplaceAll(ReplaceAll(s, [AMPERSAND], AMP), [LESS], LT), [GREATER], GT) == Entities(s)
  {
    if s != [] {
      var (a, b) := ([s[0]], s[1..]);
      assert a + b == s;
      ReplaceAppend(a, b, AMPERSAND, AMP);
      var (a1, b1) := (ReplaceAll(a, [AMPERSAND], AMP), ReplaceAll(b, [AMPERSAND], AMP));
      ReplaceAppend(a1, b1, LESS, LT);
      ReplaceAppend(ReplaceAll(a1, [LESS], LT), ReplaceAll(b1, [LESS], LT), GREATER, GT);
      OneReplaced(s[0]);
      ChainIsEntities(b);
    }
  }

  lemma {:induction false} ReplacedIsEntities(s: Text)
    ensures Replaced(s) == Entities(s)
  {
    if AMPERSAND !in s && LESS !in s && GREATER !in s {
      NoMarkupChars(s);
    } else {
      ChainIsEntities(s);
    }
  }

  /** The first inline tag at or behind `from`: where it starts and ends. */
  function NextMarkup(s: Text, from: nat): (m: Option<(nat, nat)>)
    requires from <= |s|
    ensures m.Some? ==> from <= m.value.0 < m.value.1 <= |s|
    ensures m.Some? ==> MarkupLength(s[m.value.0..]) == m.value.1 - m.value.0
    ensures forall i :: from <= i < (if m.Some? then m.value.0 else |s|) ==> MarkupLength(s[i..]) == 0
    decreases |s| - from
  {
    if from == |s| then None
    else if MarkupLength(s[from..]) > 0 then Some((from, from + MarkupLength(s[from..])))
    else NextMarkup(s, from + 1)
  }

  /** Up to the next tag nothing is tag. */
  lemma {:induction false} MarkedUpTo(s: Text, from: nat, to: nat)
    requires from <= to <= |s| && forall i :: from <= i < to ==> MarkupLength(s[i..]) == 0
    ensures Marked(s[from..]) == Entities(s[from..to]) + Marked(s[to..])
    decreases |s| - from
  {
    if from < to {
      MarkedUpTo(s, from + 1, to);
      assert s[from..][1..] == s[from + 1..] && s[from..to][1..] == s[from + 1..to];
    }
  }

  lemma MarkedTag(s: Text, from: nat, to: nat)
    requires from < to <= |s| && MarkupLength(s[from..]) == to - from
    ensures Marked(s[from..]) == s[from..to] + Marked(s[to..])
  {
    assert s[from..][..to - from] == s[from..to] && s[from..][to - from..] == s[to..];
  }

  /** The value of a plain <string> element. */
  function PlainText(v: Text): Text {
    Marked(Backslashed(v))
  }

  lemma {:induction false} MarkedStep(s: Text, last: nat, from: nat, to: nat)
    requires last <= |s| && NextMarkup(s, last) == Some((from, to))
    ensures Marked(s[last..]) == Replaced(s[last..from]) + s[from..to] + Marked(s[to..])
  {
    MarkedUpTo(s, last, from);
    MarkedTag(s, from, to);
    ReplacedIsEntities(s[last..from]);
  }

  lemma {:induction false} MarkedEnd(s: Text, last: nat)
    requires last <= |s| && NextMarkup(s, last) == None
    ensures Marked(s[last..]) == Replaced(s[last..])
  {
    MarkedUpTo(s, last, |s|);
    ReplacedIsEntities(s[last..]);
    assert s[last..|s|] == s[last..] && Marked(s[|s|..]) == [];
  }

  method WriteValue(v: Text) returns (b: Text)
    ensures b == PlainText(v)
  {
    var s := EscapeBackslashes(v);
    b := [];
    var last := 0;
    var found := NextMarkup(s, last);
    while found.Some?
      invariant last <= |s| && b + Marked(s[last..]) == Marked(s) && found == NextMarkup(s, last)
      decreases |s| - last
    {
      var (from, to) := found.value;
      MarkedStep(s, last, from, to);
      Regroup(b, Replaced(s[last..from]) + s[from..to], Marked(s[to..]));
      Regroup(b, Replaced(s[last..from]), s[from..to]);
      b := b + Replaced(s[last..from]);
      b := b + s[from..to];
      last := to;
      found := NextMarkup(s, last);
    }
    MarkedEnd(s, last);
    b := b + Replaced(s[last..]);
  }

  /** The value of a CDATA-wrapped <string> element. */
  function CdataText(v: Text): Text {
    OPEN + Backslashed(v) + CLOSE
  }

  method WriteCdata(v: Text) returns (b: Text)
    ensures b == CdataText(v)
  {
    b := OPEN;
    var escaped := EscapeBackslashes(v);
    b := b + escaped;
    b := b + CLOSE;
  }

  // ---- reader: backslash escapes -----------------------------------------------------------

  /** What a backslash and c stand for; an unknown escape keeps both. */
  function Unescaped(c: Byte): Text {
    if c == LOWER_N then [NEWLINE]
    else if c == LOWER_T then [TAB]
    else if c == APOSTROPHE || c == QUOTE || c == BACKSLASH || c == AT_SIGN || c == QUESTION then [c]
    else [BACKSLASH, c]
  }

  function UnescapedAll(s: Text): Text {
    if s == [] then []
    else if s[0] != BACKSLASH || |s| == 1 then [s[0]] + UnescapedAll(s[1..])
    else Unescaped(s[1]) + UnescapedAll(s[2..])
  }

  lemma {:induction false} NoBackslash(s: Text)
    requires BACKSLASH !in s
    ensures UnescapedAll(s) == s
  {
    if s != [] {
      NoBackslash(s[1..]);
      assert [s[0]] + s[1..] == s;
    }
  }

  /** One turn of the loop: what is written for the bytes from i to next. */
  lemma UnescapeStep(s: Text, i: nat, written: Text, next: nat)
    requires i < |s|
    requires if s[i] != BACKSLASH || i + 1 >= |s| then written == [s[i]] && next == i + 1
             else written == Unescaped(s[i + 1]) && next == i + 2
    ensures UnescapedAll(s[i..]) == written + UnescapedAll(s[next..])
  {
    assert s[i..][next - i..] == s[next..];
  }

  method Unescape(s: Text) returns (b: Text)
    ensures b == UnescapedAll(s)
  {
    if BACKSLASH !in s {
      NoBackslash(s);
      return s;
    }
    b := [];
    var i := 0;
    while i < |s|
      invariant i <= |s| && b + UnescapedAll(s[i..]) == UnescapedAll(s)
    {
      ghost var start := i;
      var written;
      if s[i] != BACKSLASH || i + 1 >= |s| {
        written := [s[i]];
      } else {
        i := i + 1;
        written := Unescaped(s[i]);
      }
      i := i + 1;
      UnescapeStep(s, start, written, i);
      Regroup(b, written, UnescapedAll(s[i..]));
      b := b + written;
    }
    assert b + UnescapedAll(s[i..]) == b;
  }

  // ---- reader: entities -----------------------------------------------------------------------

  predicate IsRefDigit(c: Byte, hex: bool) {
    IsDigit(c) || (hex && IsHex(c))
  }

  /** How many digits s starts with. */
  function Digits(s: Text, hex: bool): (n: nat)
    ensures n <= |s| && forall i :: 0 <= i < n ==> IsRefDigit(s[i], hex)
    ensures n < |s| ==> !IsRefDigit(s[n], hex)
  {
    if s != [] && IsRefDigit(s[0], hex) then 1 + Digits(s[1..], hex) else 0
  }

  function NumberOf(digits: Text, hex: bool): nat {
    if digits == [] then 0
    else
      var last := digits[|digits| - 1];
      NumberOf(digits[..|digits| - 1], hex) * (if hex then 16 else 10) + if IsHex(last) then HexValue(last) else 0
  }

  /** The character reference s starts with: its code point and its length. */
  function CharRef(s: Text): (r: Option<(nat, nat)>)
    ensures r.Some? ==> 0 < r.value.1 <= |s| && IsRune(r.value.0)
  {
    if |s| < 2 || s[0] != AMPERSAND || s[1] != HASH then None
    else
      var hex := |s| > 2 && s[2] == LOWER_X;
      var start := if hex then 3 else 2;
      var n := Digits(s[start..], hex);
      if n == 0 || start + n >= |s| || s[start + n] != SEMICOLON then None
      else
        var v := NumberOf(s[start..start + n], hex);
        if IsRune(v) then Some((v, start + n + 1)) else None
  }

  function RefsResolved(s: Text): Text {
    if s == [] then []
    else if CharRef(s).Some? then RuneBytes(CharRef(s).value.0) + RefsResolved(s[CharRef(s).value.1..])
    else [s[0]] + RefsResolved(s[1..])
  }

  const REF: Text := [AMPERSAND, HASH]

  lemma RefStarts(s: Text)
    ensures CharRef(s).Some? ==> REF <= s
  {
  }

  lemma {:induction false} NoRefs(s: Text)
    requires !Contains(s, REF)
    ensures RefsResolved(s) == s
  {
    if s != [] {
      RefStarts(s);
      NoRefs(s[1..]);
      assert [s[0]] + s[1..] == s;
    }
  }

  /** Past the digits that stand at start. */
  method ScanDigits(s: Text, start: nat, hex: bool) returns (j: nat)
    requires start <= |s|
    ensures j == start + Digits(s[start..], hex)
  {
    j := start;
    ghost var digits := Digits(s[start..], hex);
    while j < |s| && IsRefDigit(s[j], hex)
      invariant start <= j <= start + digits
    {
      assert s[start..][j - start] == s[j];
      j := j + 1;
    }
    if j < |s| {
      assert s[start..][j - start] == s[j];
    }
  }

  /** The reference whose & stands at i: its code point and the position past it. */
  method ScanCharRef(s: Text, i: nat) returns (r: Option<(nat, nat)>)
    requires i < |s|
    ensures r == match CharRef(s[i..]) case None => None case Some((v, n)) => Some((v, i + n))
  {
    if s[i] != AMPERSAND || i + 1 >= |s| || s[i + 1] != HASH {
      return None;
    }
    var j := i + 2;
    var hex := j < |s| && s[j] == LOWER_X;
    if hex {
      j := j + 1;
    }
    var start := j;
    assert s[i..][start - i..] == s[start..];
    j := ScanDigits(s, start, hex);
    assert s[i..][start - i..j - i] == s[start..j];
    if j == start || j >= |s| || s[j] != SEMICOLON {
      return None;
    }
    var v := NumberOf(s[start..j], hex);
    if !IsRune(v) {
      return None;
    }
    r := Some((v, j + 1));
  }

  lemma {:induction false} RefStep(s: Text, written: Text, rest: Text)
    requires s != []
    requires if CharRef(s).Some? then written == RuneBytes(CharRef(s).value.0) && rest == s[CharRef(s).value.1..]
             else written == [s[0]] && rest == s[1..]
    ensures RefsResolved(s) == written + RefsResolved(rest)
  {
  }

  method ResolveNumericCharRefs(s: Text) returns (b: Text)
    ensures b == RefsResolved(s)
  {
    if !Contains(s, REF) {
      NoRefs(s);
      return s;
    }
    b := [];
    var i := 0;
    while i < |s|
      invariant i <= |s| && b + RefsResolved(s[i..]) == RefsResolved(s)
      decreases |s| - i
    {
      var ref := ScanCharRef(s, i);
      var written, next := [s[i]], i + 1;
      if ref.Some? {
        written, next := RuneBytes(ref.value.0), ref.value.1;
      }
      assert s[i..][next - i..] == s[next..];
      RefStep(s[i..], written, s[next..]);
      Regroup(b, written, RefsResolved(s[next..]));
      b, i := b + written, next;
    }
    assert b + RefsResolved(s[i..]) == b;
  }

  /** unescapeXMLEntities: &amp; is resolved last. */
  function EntitiesResolved(s: Text): Text {
    if AMPERSAND !in s then s
    else
      var two := ReplaceAll(ReplaceAll(s, LT, [LESS]), GT, [GREATER]);
      var four := ReplaceAll(ReplaceAll(two, QUOT, [QUOTE]), APOS, [APOSTROPHE]);
      ReplaceAll(RefsResolved(four), AMP, [AMPERSAND])
  }

  method UnescapeEntities(s: Text) returns (r: Text)
    ensures r == EntitiesResolved(s)
  {
    if AMPERSAND !in s {
      return s;
    }
    r := ReplaceAll(s, LT, [LESS]);
    r := ReplaceAll(r, GT, [GREATER]);
    r := ReplaceAll(r, QUOT, [QUOTE]);
    r := ReplaceAll(r, APOS, [APOSTROPHE]);
    r := ResolveNumericCharRefs(r);
    r := ReplaceAll(r, AMP, [AMPERSAND]);
  }

  // ---- reader ------------------------------------------------------------------------------------

  datatype DecodeError = UnterminatedCdata | MultipleCdata | PartialCdata

  predicate EndsWith(s: Text, suffix: Text) {
    |s| >= |suffix| && s[|s| - |suffix|..] == suffix
  }

  /** The two markers cannot overlap. */
  lemma WrapperLength(s: Text)
    requires OPEN <= s && EndsWith(s, CLOSE)
    ensures |s| >= |OPEN| + |CLOSE|
  {
    assert s[|s| - 3..][0] == CLOSE_BRACKET && s[|s| - 3..][1] == CLOSE_BRACKET && s[|s| - 3..][2] == GREATER;
    assert s[8] == OPEN_BRACKET && s[7] == UPPER_A && s[6] == 0x54;
  }

  /** What is between the markers. */
  function Unwrapped(s: Text): Text
    requires OPEN <= s && EndsWith(s, CLOSE)
  {
    WrapperLength(s);
    s[|OPEN|..|s| - |CLOSE|]
  }

  function DecodedWrapper(trimmed: Text): Result<(Text, Hint), DecodeError>
    requires OPEN <= trimmed
  {
    if !EndsWith(trimmed, CLOSE) then Failure(UnterminatedCdata)
    else if Contains(Unwrapped(trimmed), OPEN) || Contains(Unwrapped(trimmed), CLOSE) then Failure(MultipleCdata)
    else Success((UnescapedAll(Unwrapped(trimmed)), Cdata))
  }

  function DecodedPlain(inner: Text): Result<(Text, Hint), DecodeError> {
    if Contains(inner, OPEN) || Contains(inner, CLOSE) then Failure(PartialCdata)
    else Success((UnescapedAll(EntitiesResolved(inner)), Plain))
  }

  function Decoded(inner: Text): Result<(Text, Hint), DecodeError> {
    if OPEN <= TrimSpace(inner) then DecodedWrapper(TrimSpace(inner)) else DecodedPlain(inner)
  }

  method Decode(inner: Text) returns (r: Result<(Text, Hint), DecodeError>)
    ensures r == Decoded(inner)
  {
    var trimmed := TrimSpace(inner);
    if OPEN <= trimmed {
      if !EndsWith(trimmed, CLOSE) {
        return Failure(UnterminatedCdata);
      }
      var raw := Unwrapped(trimmed);
      if Contains(raw, OPEN) || Contains(raw, CLOSE) {
        return Failure(MultipleCdata);
      }
      var value := Unescape(raw);
      return Success((value, Cdata));
    }
    if Contains(inner, OPEN) || Contains(inner, CLOSE) {
      return Failure(PartialCdata);
    }
    var resolved := UnescapeEntities(inner);
    var value := Unescape(resolved);
    r := Success((value, Plain));
  }

  // ---- the backslash layer ---------------------------------------------------------------------

  lemma {:induction false} HexStays(digits: Text, rest: Text)
    requires forall i :: 0 <= i < |digits| ==> IsHex(digits[i])
    ensures UnescapedAll(digits + rest) == digits + UnescapedAll(rest)
  {
    if digits == [] {
      assert digits + rest == rest;
    } else {
      HexStays(digits[1..], rest);
      assert (digits + rest)[1..] == digits[1..] + rest;
      assert [digits[0]] + digits[1..] == digits;
    }
  }

  /** A \uXXXX escape passes through both layers unchanged. */
  lemma {:induction false} UnicodeStays(escape: Text, rest: Text)
    requires |escape| == 6 && UnicodeEscape(escape)
    ensures UnescapedAll(escape + rest) == escape + UnescapedAll(rest)
  {
    var digits := escape[2..];
    assert (escape + rest)[2..] == digits + rest;
    HexStays(digits, rest);
    assert [BACKSLASH, LOWER_U] + digits == escape;
    Regroup([BACKSLASH, LOWER_U], digits, UnescapedAll(rest));
  }

  lemma {:induction false} EscapedStays(c: Byte, rest: Text)
    ensures UnescapedAll(Escaped(c) + rest) == [c] + UnescapedAll(rest)
  {
    assert (Escaped(c) + rest)[|Escaped(c)|..] == rest;
  }

  lemma {:induction false} BodyRoundTrip(v: Text)
    ensures UnescapedAll(Body(v)) == v
    decreases |v|
  {
    if v == [] {
    } else if UnicodeEscape(v) {
      UnicodeStays(v[..6], Body(v[6..]));
      BodyRoundTrip(v[6..]);
      assert v[..6] + v[6..] == v;
    } else {
      EscapedStays(v[0], Body(v[1..]));
      BodyRoundTrip(v[1..]);
      assert [v[0]] + v[1..] == v;
    }
  }

  /** Unescaping undoes the backslash escapes of every byte string. */
  lemma BackslashRoundTrip(v: Text)
    ensures UnescapedAll(Backslashed(v)) == v
  {
    BodyRoundTrip(v);
    if IsReference(v) {
      assert ([BACKSLASH] + Body(v))[2..] == Body(v)[1..];
      assert UnescapedAll(Body(v)) == [v[0]] + UnescapedAll(Body(v)[1..]);
    }
  }

  // ---- the entity layer ---------------------------------------------------------------------------

  /** A byte of the escaped text, and whether it is written as an entity. */
  datatype Item = Item(c: Byte, coded: bool)

  /** How far reading has got: each stage has resolved one entity more. */
  datatype Stage = AllCoded | LessRead | GreaterRead | AllRead

  predicate IsCoded(item: Item, stage: Stage) {
    item.coded && match stage
                  case AllCoded => item.c == AMPERSAND || item.c == LESS || item.c == GREATER
                  case LessRead => item.c == AMPERSAND || item.c == GREATER
                  case GreaterRead => item.c == AMPERSAND
                  case AllRead => false
  }

  function ItemText(item: Item, stage: Stage): Text {
    if IsCoded(item, stage) then Entity(item.c) else [item.c]
  }

  function Rendered(items: seq<Item>, stage: Stage): Text {
    if items == [] then [] else ItemText(items[0], stage) + Rendered(items[1..], stage)
  }

  function Raw(s: Text): seq<Item> {
    seq(|s|, i requires 0 <= i < |s| => Item(s[i], false))
  }

  function Items(s: Text): seq<Item> {
    if s == [] then []
    else if MarkupLength(s) > 0 then Raw(s[..MarkupLength(s)]) + Items(s[MarkupLength(s)..])
    else [Item(s[0], IsMarkupChar(s[0]))] + Items(s[1..])
  }

  /** Every ampersand is coded. */
  ghost predicate AmpsCoded(items: seq<Item>) {
    forall i :: 0 <= i < |items| && items[i].c == AMPERSAND ==> items[i].coded
  }

  lemma {:induction false} RenderedRaw(s: Text, items: seq<Item>, stage: Stage)
    ensures Rendered(Raw(s) + items, stage) == s + Rendered(items, stage)
  {
    if s == [] {
      assert Raw(s) + items == items;
    } else {
      RenderedRaw(s[1..], items, stage);
      assert (Raw(s) + items)[1..] == Raw(s[1..]) + items;
      Split(s, Rendered(items, stage));
    }
  }

  lemma {:induction false} ItemsRender(s: Text)
    ensures Rendered(Items(s), AllCoded) == Marked(s)
    ensures Rendered(Items(s), AllRead) == s
    ensures AmpsCoded(Items(s))
    decreases |s|
  {
    if s == [] {
    } else if MarkupLength(s) > 0 {
      ItemsRender(s[MarkupLength(s)..]);
      MarkupRenders(s, MarkupLength(s));
    } else {
      ItemsRender(s[1..]);
      assert Items(s)[1..] == Items(s[1..]);
      assert [s[0]] + s[1..] == s;
    }
  }

  lemma {:induction false} MarkupRenders(s: Text, n: nat)
    requires 0 < n == MarkupLength(s) <= |s| && AmpsCoded(Items(s[n..]))
    requires Rendered(Items(s[n..]), AllCoded) == Marked(s[n..]) && Rendered(Items(s[n..]), AllRead) == s[n..]
    ensures Rendered(Items(s), AllCoded) == Marked(s)
    ensures Rendered(Items(s), AllRead) == s
    ensures AmpsCoded(Items(s))
  {
    var (raw, rest) := (Raw(s[..n]), Items(s[n..]));
    RenderedRaw(s[..n], rest, AllCoded);
    RenderedRaw(s[..n], rest, AllRead);
    assert s[..n] + s[n..] == s;
    assert Items(s) == raw + rest;
    RawHasNoAmps(s, n);
    BothCoded(raw, rest);
  }

  lemma {:induction false} RawHasNoAmps(s: Text, n: nat)
    requires 0 < n == MarkupLength(s) <= |s|
    ensures AmpsCoded(Raw(s[..n]))
  {
  }

  lemma BothCoded(a: seq<Item>, b: seq<Item>)
    requires AmpsCoded(a) && AmpsCoded(b)
    ensures AmpsCoded(a + b)
  {
  }

  lemma {:induction false} CharKept(c: Byte, rest: Text, old_: Text, new_: Text)
    requires old_ != [] && old_[0] == AMPERSAND && c != AMPERSAND
    ensures ReplaceAll([c] + rest, old_, new_) == [c] + ReplaceAll(rest, old_, new_)
  {
    assert ([c] + rest)[1..] == rest;
  }

  lemma {:induction false} PlainKept(t: Text, rest: Text, old_: Text, new_: Text)
    requires old_ != [] && old_[0] == AMPERSAND && AMPERSAND !in t
    ensures ReplaceAll(t + rest, old_, new_) == t + ReplaceAll(rest, old_, new_)
  {
    if t == [] {
      assert t + rest == rest;
    } else {
      PlainKept(t[1..], rest, old_, new_);
      CharKept(t[0], t[1..] + rest, old_, new_);
      Split(t, rest);
      Split(t, ReplaceAll(rest, old_, new_));
    }
  }

  lemma DiffersAt(s: Text, old_: Text, k: nat)
    requires k < |s| && k < |old_| && s[k] != old_[k]
    ensures !(old_ <= s)
  {
  }

  /** An entity that differs from the pattern at byte k is left alone. */
  lemma {:induction false} EntityKept(t: Text, rest: Text, old_: Text, new_: Text, k: nat)
    requires old_ != [] && old_[0] == AMPERSAND
    requires k < |t| && k < |old_| && t[k] != old_[k] && AMPERSAND !in t[1..]
    ensures ReplaceAll(t + rest, old_, new_) == t + ReplaceAll(rest, old_, new_)
  {
    PlainKept(t[1..], rest, old_, new_);
    DiffersAt(t + rest, old_, k);
    assert (t + rest)[1..] == t[1..] + rest;
    Split(t, ReplaceAll(rest, old_, new_));
  }

  lemma {:induction false} EntityReplaced(old_: Text, rest: Text, new_: Text)
    requires old_ != []
    ensures ReplaceAll(old_ + rest, old_, new_) == new_ + ReplaceAll(rest, old_, new_)
  {
    assert (old_ + rest)[|old_|..] == rest;
  }

  /** The next stage, the entity it resolves and the character that stands for. */
  ghost predicate Resolves(before: Stage, after: Stage, entity: Text, c: Byte) {
    || (before == AllCoded && after == LessRead && entity == LT && c == LESS)
    || (before == LessRead && after == GreaterRead && entity == GT && c == GREATER)
    || (before == GreaterRead && after == GreaterRead && entity == QUOT && c == QUOTE)
    || (before == GreaterRead && after == GreaterRead && entity == APOS && c == APOSTROPHE)
    || (before == GreaterRead && after == AllRead && entity == AMP && c == AMPERSAND)
  }

  lemma {:induction false} ItemResolved(item: Item, before: Stage, after: Stage, entity: Text, c: Byte, rest: Text)
    requires Resolves(before, after, entity, c) && (item.c == AMPERSAND ==> item.coded)
    ensures ReplaceAll(ItemText(item, before) + rest, entity, [c])
            == ItemText(item, after) + ReplaceAll(rest, entity, [c])
  {
    var t := ItemText(item, before);
    if t == entity {
      EntityReplaced(entity, rest, [c]);
    } else if |t| == 1 {
      PlainKept(t, rest, entity, [c]);
    } else if t[1] != entity[1] {
      EntityKept(t, rest, entity, [c], 1);
    } else {
      EntityKept(t, rest, entity, [c], 2);
    }
  }

  lemma {:induction false} StageResolved(items: seq<Item>, before: Stage, after: Stage, entity: Text, c: Byte)
    requires Resolves(before, after, entity, c) && AmpsCoded(items)
    ensures ReplaceAll(Rendered(items, before), entity, [c]) == Rendered(items, after)
  {
    if items != [] {
      ItemResolved(items[0], before, after, entity, c, Rendered(items[1..], before));
      StageResolved(items[1..], before, after, entity, c);
    }
  }

  lemma {:induction false} CharHasNoRef(c: Byte, rest: Text)
    requires c != AMPERSAND
    ensures RefsResolved([c] + rest) == [c] + RefsResolved(rest)
  {
    assert ([c] + rest)[1..] == rest;
  }

  lemma {:induction false} PlainHasNoRef(t: Text, rest: Text)
    requires AMPERSAND !in t
    ensures RefsResolved(t + rest) == t + RefsResolved(rest)
  {
    if t == [] {
      assert t + rest == rest;
    } else {
      PlainHasNoRef(t[1..], rest);
      CharHasNoRef(t[0], t[1..] + rest);
      Split(t, rest);
      Split(t, RefsResolved(rest));
    }
  }

  lemma {:induction false} AmpHasNoRef(rest: Text)
    ensures RefsResolved(AMP + rest) == AMP + RefsResolved(rest)
  {
    PlainHasNoRef(AMP[1..], rest);
    assert (AMP + rest)[1] == LOWER_A && CharRef(AMP + rest).None?;
    assert (AMP + rest)[1..] == AMP[1..] + rest;
    Split(AMP, RefsResolved(rest));
  }

  lemma {:induction false} NoRefsLeft(items: seq<Item>)
    requires AmpsCoded(items)
    ensures RefsResolved(Rendered(items, GreaterRead)) == Rendered(items, GreaterRead)
  {
    if items != [] {
      NoRefsLeft(items[1..]);
      if items[0].c == AMPERSAND {
        AmpHasNoRef(Rendered(items[1..], GreaterRead));
      } else {
        PlainHasNoRef([items[0].c], Rendered(items[1..], GreaterRead));
      }
    }
  }

  /** Without an ampersand the chain of replacements changes nothing, as its guard has it. */
  lemma {:induction false} ChainOf(s: Text)
    ensures var two := ReplaceAll(ReplaceAll(s, LT, [LESS]), GT, [GREATER]);
            var four := ReplaceAll(ReplaceAll(two, QUOT, [QUOTE]), APOS, [APOSTROPHE]);
            EntitiesResolved(s) == ReplaceAll(RefsResolved(four), AMP, [AMPERSAND])
  {
    if AMPERSAND !in s {
      NothingToReplace(s, LT, [LESS]);
      NothingToReplace(s, GT, [GREATER]);
      NothingToReplace(s, QUOT, [QUOTE]);
      NothingToReplace(s, APOS, [APOSTROPHE]);
      PlainHasNoRef(s, []);
      assert s + [] == s && RefsResolved([]) == [];
      NothingToReplace(s, AMP, [AMPERSAND]);
    }
  }

  /** Resolving entities undoes the entity layer, tags included, for every byte string. */
  lemma {:induction false} EntityRoundTrip(s: Text)
    ensures EntitiesResolved(Marked(s)) == s
  {
    var items := Items(s);
    ItemsRender(s);
    StageResolved(items, AllCoded, LessRead, LT, LESS);
    StageResolved(items, LessRead, GreaterRead, GT, GREATER);
    StageResolved(items, GreaterRead, GreaterRead, QUOT, QUOTE);
    StageResolved(items, GreaterRead, GreaterRead, APOS, APOSTROPHE);
    NoRefsLeft(items);
    StageResolved(items, GreaterRead, AllRead, AMP, AMPERSAND);
    ChainOf(Marked(s));
  }

  // ---- plain values ----------------------------------------------------------------------------------

  /** No < before a !, no ] before a >. */
  ghost predicate NoMarker(s: Text) {
    && (forall i :: 0 <= i < |s| - 1 && s[i] == LESS ==> s[i + 1] != 0x21)
    && (forall i :: 0 < i < |s| && s[i] == GREATER ==> s[i - 1] != CLOSE_BRACKET)
  }

  lemma NoMarkerInside(s: Text, i: nat, j: nat)
    requires NoMarker(s) && i <= j <= |s|
    ensures !(OPEN <= s[i..j]) && !(CLOSE <= s[i..j])
  {
    assert OPEN[0] == LESS && OPEN[1] == 0x21 && CLOSE[1] == CLOSE_BRACKET && CLOSE[2] == GREATER;
    if j - i >= 3 {
      assert s[i..j][0] == s[i] && s[i..j][1] == s[i + 1] && s[i..j][2] == s[i + 2];
    }
  }

  /** A piece of the plain writer's output. */
  ghost predicate Closed(t: Text) {
    NoMarker(t) && t != [] && t[0] != GREATER && t[|t| - 1] != LESS
  }

  lemma ClosedThen(t: Text, rest: Text)
    requires Closed(t) && NoMarker(rest) && (rest != [] ==> rest[0] != GREATER)
    ensures NoMarker(t + rest) && (t + rest)[0] != GREATER
  {
    var whole := t + rest;
    assert forall i :: 0 <= i < |t| ==> whole[i] == t[i];
    forall i | 0 <= i < |whole| - 1 && whole[i] == LESS
      ensures whole[i + 1] != 0x21
    {
      if i >= |t| {
        assert whole[i] == rest[i - |t|] && whole[i + 1] == rest[i - |t| + 1];
      }
    }
    forall i | 0 < i < |whole| && whole[i] == GREATER
      ensures whole[i - 1] != CLOSE_BRACKET
    {
      if i > |t| {
        assert whole[i] == rest[i - |t|] && whole[i - 1] == rest[i - |t| - 1];
      }
    }
  }

  lemma EntityClosed(c: Byte)
    ensures Closed(Entity(c))
  {
  }

  lemma TagClosed(s: Text)
    requires MarkupLength(s) > 0
    ensures Closed(s[..MarkupLength(s)])
  {
    assert forall i :: 0 <= i < MarkupLength(s) ==> s[..MarkupLength(s)][i] == s[i];
  }

  /** The plain writer leaves neither marker in its output. */
  lemma {:induction false} MarkedHasNoMarker(s: Text)
    ensures NoMarker(Marked(s)) && (Marked(s) != [] ==> Marked(s)[0] != GREATER)
    decreases |s|
  {
    if s == [] {
    } else if MarkupLength(s) > 0 {
      MarkedHasNoMarker(s[MarkupLength(s)..]);
      TagClosed(s);
      ClosedThen(s[..MarkupLength(s)], Marked(s[MarkupLength(s)..]));
    } else {
      MarkedHasNoMarker(s[1..]);
      EntityClosed(s[0]);
      ClosedThen(Entity(s[0]), Marked(s[1..]));
    }
  }

  lemma {:induction false} MarkerFree(s: Text)
    requires NoMarker(s)
    ensures !Contains(s, OPEN) && !Contains(s, CLOSE) && !(OPEN <= TrimSpace(s))
  {
    forall i | 0 <= i <= |s|
      ensures !(OPEN <= s[i..]) && !(CLOSE <= s[i..])
    {
      assert s[i..|s|] == s[i..];
      NoMarkerInside(s, i, |s|);
    }
    if Contains(s, OPEN) {
      var i := Occurrence(s, OPEN);
    }
    if Contains(s, CLOSE) {
      var i := Occurrence(s, CLOSE);
    }
    var i, j := TrimmedIsInside(s);
    NoMarkerInside(s, i, j);
  }

  /** A plain value reads back as itself, whatever its bytes. */
  lemma PlainRoundTrip(v: Text)
    ensures Decoded(PlainText(v)) == Success((v, Plain))
  {
    MarkedHasNoMarker(Backslashed(v));
    MarkerFree(PlainText(v));
    EntityRoundTrip(Backslashed(v));
    BackslashRoundTrip(v);
  }

  // ---- CDATA values -------------------------------------------------------------------------------------

  /** Bytes the backslash layer writes as they are and never puts behind a backslash. */
  ghost predicate Untouched(p: Text) {
    forall i :: 0 <= i < |p| ==> Escaped(p[i]) == [p[i]]
  }

  /** A marker begins with a byte no escape contains. */
  ghost predicate Marker(p: Text) {
    p != [] && Untouched(p) && !IsHex(p[0]) && p[0] != LOWER_N && p[0] != LOWER_T && p[0] != LOWER_U
  }

  lemma {:induction false} BodyPrefix(v: Text, p: Text)
    requires Untouched(p)
    ensures p <= v <==> p <= Body(v)
  {
    if p != [] && v != [] {
      var b := Body(v);
      assert Escaped(p[0]) == [p[0]];
      if UnicodeEscape(v) {
        assert b[0] == v[0] == BACKSLASH;
      } else if Escaped(v[0]) == [v[0]] {
        assert b[0] == v[0] && b[1..] == Body(v[1..]);
        BodyPrefix(v[1..], p[1..]);
        PrefixStep(p, v);
        PrefixStep(p, b);
      } else {
        assert b[0] == BACKSLASH;
      }
    }
  }

  lemma PrefixStep(p: Text, s: Text)
    requires p != [] && s != []
    ensures p <= s <==> p[0] == s[0] && p[1..] <= s[1..]
  {
    if p[0] == s[0] && p[1..] <= s[1..] {
      assert forall i :: 1 <= i < |p| ==> p[i] == p[1..][i - 1] && s[i] == s[1..][i - 1];
    }
  }

  /** No occurrence starts inside t. */
  lemma {:induction false} ContainsBehind(t: Text, rest: Text, p: Text)
    requires p != [] && p[0] !in t
    ensures Contains(t + rest, p) <==> Contains(rest, p)
  {
    if t == [] {
      assert t + rest == rest;
    } else {
      ContainsBehind(t[1..], rest, p);
      assert (t + rest)[1..] == t[1..] + rest;
    }
  }

  lemma {:induction false} BodyContains(v: Text, p: Text)
    requires Marker(p)
    ensures Contains(v, p) <==> Contains(Body(v), p)
    decreases |v|
  {
    if v == [] {
    } else if UnicodeEscape(v) {
      BodyContains(v[6..], p);
      assert v[..6] + v[6..] == v;
      ContainsBehind(v[..6], v[6..], p);
      ContainsBehind(v[..6], Body(v[6..]), p);
    } else if Escaped(v[0]) == [v[0]] {
      BodyContains(v[1..], p);
      BodyPrefix(v, p);
      assert Body(v)[1..] == Body(v[1..]);
    } else {
      BodyContains(v[1..], p);
      assert [v[0]] + v[1..] == v;
      ContainsBehind([v[0]], v[1..], p);
      ContainsBehind(Escaped(v[0]), Body(v[1..]), p);
    }
  }

  lemma MarkersAre()
    ensures Marker(OPEN) && Marker(CLOSE)
  {
  }

  /** The backslash layer neither makes nor hides a marker. */
  lemma {:induction false} BackslashedContains(v: Text, p: Text)
    requires Marker(p)
    ensures Contains(v, p) <==> Contains(Backslashed(v), p)
  {
    BodyContains(v, p);
    if IsReference(v) {
      ContainsBehind([BACKSLASH], Body(v), p);
    }
  }

  lemma TrimsNothing(s: Text)
    requires s != [] && s[0] == LESS && s[|s| - 1] == GREATER
    ensures TrimSpace(s) == s
  {
    assert LeadingSpace(s) == 0 && TrailingSpace(s) == 0;
    assert TrimLeft(s) == s && TrimRight(s) == s;
  }

  lemma Wrapping(open: Text, raw: Text, close: Text)
    ensures var s := open + raw + close;
            open <= s && EndsWith(s, close) && s[|open|..|s| - |close|] == raw
  {
  }

  lemma WrapperTrimsNothing(raw: Text)
    ensures TrimSpace(OPEN + raw + CLOSE) == OPEN + raw + CLOSE
  {
    var s := OPEN + raw + CLOSE;
    assert s[0] == OPEN[0] && s[|s| - 1] == CLOSE[2];
    TrimsNothing(s);
  }

  lemma {:induction false} UnwrappedReads(s: Text, raw: Text)
    requires OPEN <= s && EndsWith(s, CLOSE) && Unwrapped(s) == raw
    ensures DecodedWrapper(s) == if Contains(raw, OPEN) || Contains(raw, CLOSE) then Failure(MultipleCdata)
                                 else Success((UnescapedAll(raw), Cdata))
  {
  }

  lemma WrapperReads(s: Text)
    requires OPEN <= s && TrimSpace(s) == s
    ensures Decoded(s) == DecodedWrapper(s)
  {
  }

  lemma {:induction false} WrappedReads(raw: Text)
    ensures Decoded(OPEN + raw + CLOSE) == if Contains(raw, OPEN) || Contains(raw, CLOSE) then Failure(MultipleCdata)
                                           else Success((UnescapedAll(raw), Cdata))
  {
    WrapperTrimsNothing(raw);
    Wrapping(OPEN, raw, CLOSE);
    WrapperReads(OPEN + raw + CLOSE);
    UnwrappedReads(OPEN + raw + CLOSE, raw);
  }

  lemma {:induction false} MarkersKept(v: Text)
    ensures Contains(v, OPEN) <==> Contains(Backslashed(v), OPEN)
    ensures Contains(v, CLOSE) <==> Contains(Backslashed(v), CLOSE)
  {
    MarkersAre();
    BackslashedContains(v, OPEN);
    BackslashedContains(v, CLOSE);
  }

  /** A CDATA value reads back as itself exactly when it contains neither marker; otherwise
      the reader refuses it and never answers another value. */
  lemma {:induction false} CdataRoundTrip(v: Text)
    ensures Decoded(CdataText(v)) ==
            if !Contains(v, OPEN) && !Contains(v, CLOSE) then Success((v, Cdata)) else Failure(MultipleCdata)
  {
    var raw := Backslashed(v);
    MarkersKept(v);
    BackslashRoundTrip(v);
    WrappedReads(raw);
  }
}
