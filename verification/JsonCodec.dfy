/** The Flutter JSON writer, and a reader of JSON objects of strings as RFC 8259 has them. */
module JsonCodec {
  import opened Wrappers
  import opened Bytes
  import opened Files

  // ---- writer -------------------------------------------------------------------------

  /** U+2028 or U+2029. */
  predicate IsSeparator(s: Text) {
    |s| >= 3 && s[0] == 0xE2 && s[1] == 0x80 && (s[2] == 0xA8 || s[2] == 0xA9)
  }

  function SeparatorEscape(last: Byte): Text
    requires last == 0xA8 || last == 0xA9
  {
    [BACKSLASH, LOWER_U, 0x32, ZERO, 0x32, 0x38 + (last - 0xA8)]
  }

  function Escaped(c: Byte): Text {
    if c == BACKSLASH || c == QUOTE || c == SLASH then [BACKSLASH, c]
    else if c == NEWLINE then [BACKSLASH, LOWER_N]
    else if c == RETURN then [BACKSLASH, LOWER_R]
    else if c == TAB then [BACKSLASH, LOWER_T]
    else if c == BACKSPACE then [BACKSLASH, LOWER_B]
    else if c == FORM_FEED then [BACKSLASH, LOWER_F]
    else if c < 0x20 then [BACKSLASH, LOWER_U, ZERO, ZERO, LowerHex(c / 16), LowerHex(c % 16)]
    else [c]
  }

  function EscapedAll(s: Text): Text {
    if s == [] then []
    else if IsSeparator(s) then SeparatorEscape(s[2]) + EscapedAll(s[3..])
    else Escaped(s[0]) + EscapedAll(s[1..])
  }

  method WriteString(s: Text) returns (b: Text)
    ensures b == EscapedAll(s)
  {
    b := [];
    var i := 0;
    while i < |s|
      invariant i <= |s| && b + EscapedAll(s[i..]) == EscapedAll(s)
    {
      var c := s[i];
      ghost var start := i;
      var written := Escaped(c);
      if c == 0xE2 && i + 2 < |s| && s[i + 1] == 0x80 && (s[i + 2] == 0xA8 || s[i + 2] == 0xA9) {
        written := SeparatorEscape(s[i + 2]);
        i := i + 2;
      }
      i := i + 1;
      assert s[start..][i - start..] == s[i..];
      Regroup(b, written, EscapedAll(s[i..]));
      b := b + written;
    }
    assert b + EscapedAll(s[i..]) == b;
  }

  const START: Text := [OPEN_BRACE, NEWLINE]
  const FINISH: Text := [CLOSE_BRACE, NEWLINE]

  /** One member on its own line; all but the last with a comma. */
  function Member(key: Text, value: Text, last: bool): Text {
    [SPACE, SPACE, SPACE, SPACE, QUOTE] + key + [QUOTE, COLON, SPACE, QUOTE] + value
    + (if last then [QUOTE, NEWLINE] else [QUOTE, COMMA, NEWLINE])
  }

  function Members(entries: seq<FileEntry>): Text {
    if entries == [] then []
    else Member(EscapedAll(entries[0].key), EscapedAll(entries[0].value), |entries| == 1) + Members(entries[1..])
  }

  function FileText(entries: seq<FileEntry>): Text {
    START + Members(entries) + FINISH
  }

  method WriteMember(e: FileEntry, last: bool) returns (b: Text)
    ensures b == Member(EscapedAll(e.key), EscapedAll(e.value), last)
  {
    b := [SPACE, SPACE, SPACE, SPACE, QUOTE];
    var key := WriteString(e.key);
    b := b + key;
    b := b + [QUOTE, COLON, SPACE, QUOTE];
    var value := WriteString(e.value);
    b := b + value;
    b := b + if last then [QUOTE, NEWLINE] else [QUOTE, COMMA, NEWLINE];
  }

  method Write(entries: seq<FileEntry>) returns (b: Text)
    ensures b == FileText(entries)
  {
    b := START;
    for i := 0 to |entries|
      invariant b + Members(entries[i..]) == START + Members(entries)
    {
      var member := WriteMember(entries[i], i == |entries| - 1);
      assert entries[i..][1..] == entries[i + 1..];
      Regroup(b, member, Members(entries[i + 1..]));
      b := b + member;
    }
    assert entries[|entries|..] == [] && b + [] == b;
    b := b + FINISH;
  }

  // ---- reader ---------------------------------------------------------------------------

  /** Insignificant whitespace, section 2 of RFC 8259. */
  function Trimmed(s: Text): (r: Text)
    ensures |r| <= |s|
    ensures r != [] ==> !IsBlank(r[0])
  {
    if s != [] && IsBlank(s[0]) then Trimmed(s[1..]) else s
  }

  /** The letter of a two-character escape, section 7 of RFC 8259. */
  function ShortEscape(c: Byte): Option<Byte> {
    if c == QUOTE || c == BACKSLASH || c == SLASH then Some(c)
    else if c == LOWER_B then Some(BACKSPACE)
    else if c == LOWER_F then Some(FORM_FEED)
    else if c == LOWER_N then Some(NEWLINE)
    else if c == LOWER_R then Some(RETURN)
    else if c == LOWER_T then Some(TAB)
    else None
  }

  const REPLACEMENT: Text := [0xEF, 0xBF, 0xBD]

  /** A character of a string: the bytes it stands for, and how many it takes. A lone
      surrogate and a byte that is not UTF-8 read as U+FFFD. */
  function CharAt(s: Text): (r: Option<(Text, nat)>)
    ensures r.Some? ==> 0 < r.value.1 <= |s|
  {
    if s == [] || s[0] < 0x20 || s[0] == QUOTE then None
    else if s[0] == BACKSLASH then
      if |s| < 2 then None
      else if s[1] != LOWER_U then
        if ShortEscape(s[1]).Some? then Some(([ShortEscape(s[1]).value], 2)) else None
      else if !HexAt(s, 2) then None
      else if |s| >= 12 && s[6] == BACKSLASH && s[7] == LOWER_U && HexAt(s, 8)
              && SurrogatePair(HexRune(s, 2), HexRune(s, 8)) >= 0 then
        Some((RuneBytes(SurrogatePair(HexRune(s, 2), HexRune(s, 8))), 12))
      else Some((RuneBytes(HexRune(s, 2)), 6))
    else if RuneLength(s) > 0 then Some((s[..RuneLength(s)], RuneLength(s)))
    else Some((REPLACEMENT, 1))
  }

  /** From behind an opening quote: the string, and what is left behind the closing one. */
  function StringAt(s: Text): (r: Option<(Text, Text)>)
    ensures r.Some? ==> |r.value.1| < |s|
    decreases |s|
  {
    if s != [] && s[0] == QUOTE then Some(([], s[1..]))
    else if CharAt(s).None? then None
    else Before(CharAt(s).value.0, StringAt(s[CharAt(s).value.1..]))
  }

  function Before(bytes: Text, rest: Option<(Text, Text)>): Option<(Text, Text)> {
    match rest
    case Some((text, left)) => Some((bytes + text, left))
    case None => None
  }

  /** A token: the string that stands behind whitespace. */
  function StringToken(s: Text): (r: Option<(Text, Text)>)
    ensures r.Some? ==> |r.value.1| < |s|
  {
    var t := Trimmed(s);
    if t != [] && t[0] == QUOTE then StringAt(t[1..]) else None
  }

  /** What is left behind the given structural character. */
  function Behind(s: Text, c: Byte): (r: Option<Text>)
    ensures r.Some? ==> |r.value| < |s|
  {
    var t := Trimmed(s);
    if t != [] && t[0] == c then Some(t[1..]) else None
  }

  /** name : string */
  function MemberAt(s: Text): (r: Option<(FileEntry, Text)>)
    ensures r.Some? ==> |r.value.1| < |s|
  {
    var key := StringToken(s);
    if key.None? then None
    else
      var colon := Behind(key.value.1, COLON);
      if colon.None? then None
      else
        var value := StringToken(colon.value);
        if value.None? then None else Some((FileEntry(key.value.0, value.value.0), value.value.1))
  }

  /** The members from here on, up to the closing brace with nothing but whitespace behind it. */
  function MembersAt(s: Text): Option<seq<FileEntry>>
    decreases |s|
  {
    var first := MemberAt(s);
    if first.None? then None
    else
      var comma := Behind(first.value.1, COMMA);
      if comma.Some? then Onto(first.value.0, MembersAt(comma.value))
      else if Closes(first.value.1) then Some([first.value.0])
      else None
  }

  function Onto(e: FileEntry, rest: Option<seq<FileEntry>>): Option<seq<FileEntry>> {
    if rest.Some? then Some([e] + rest.value) else None
  }

  predicate Closes(s: Text) {
    Behind(s, CLOSE_BRACE).Some? && Trimmed(Behind(s, CLOSE_BRACE).value) == []
  }

  /** A whole text: one object whose values are strings. */
  function Parsed(s: Text): Option<seq<FileEntry>> {
    var open := Behind(s, OPEN_BRACE);
    if open.None? then None
    else if Behind(open.value, CLOSE_BRACE).Some? then
      if Closes(open.value) then Some([]) else None
    else MembersAt(open.value)
  }

  /** Steps through the tokens, collecting members. */
  method Read(s: Text) returns (r: Option<seq<FileEntry>>)
    ensures r == Parsed(s)
  {
    var open := Behind(s, OPEN_BRACE);
    if open.None? {
      return None;
    }
    var left := open.value;
    var entries: seq<FileEntry> := [];
    var more := Behind(left, CLOSE_BRACE).None?;
    OntoNothing(MembersAt(left));
    while more
      invariant more ==> OntoAll(entries, MembersAt(left)) == Parsed(s)
      invariant !more ==> Parsed(s) == if Closes(left) then Some(entries) else None
      decreases more, |left|
    {
      var member := MemberAt(left);
      if member.None? {
        return None;
      }
      ghost var here := left;
      var comma := Behind(member.value.1, COMMA);
      if comma.Some? {
        OntoTwice(entries, member.value.0, MembersAt(comma.value));
        left := comma.value;
      } else {
        left := member.value.1;
        more := false;
      }
      entries := entries + [member.value.0];
    }
    r := if Closes(left) then Some(entries) else None;
  }

  function OntoAll(entries: seq<FileEntry>, rest: Option<seq<FileEntry>>): Option<seq<FileEntry>> {
    if rest.Some? then Some(entries + rest.value) else None
  }

  lemma OntoNothing(rest: Option<seq<FileEntry>>)
    ensures OntoAll([], rest) == rest
  {
    if rest.Some? {
      assert [] + rest.value == rest.value;
    }
  }

  lemma OntoTwice(entries: seq<FileEntry>, e: FileEntry, rest: Option<seq<FileEntry>>)
    ensures OntoAll(entries, Onto(e, rest)) == OntoAll(entries + [e], rest)
  {
    if rest.Some? {
      assert entries + ([e] + rest.value) == (entries + [e]) + rest.value;
    }
  }

  // ---- what the writer's strings contain ---------------------------------------------------

  /** Characters of section 7 of RFC 8259, with no control character, no slash and no
      U+2028 or U+2029 but in escaped form. */
  predicate Clean(t: Text) {
    if t == [] then true
    else if t[0] == BACKSLASH then
      || (|t| >= 2 && ShortEscape(t[1]).Some? && Clean(t[2..]))
      || (|t| >= 6 && t[1] == LOWER_U && HexAt(t, 2) && Clean(t[6..]))
    else t[0] >= 0x20 && t[0] != QUOTE && t[0] != SLASH && !IsSeparator(t) && Clean(t[1..])
  }

  lemma {:induction false} EscapeClean(escape: Text, rest: Text)
    requires Clean(rest) && |escape| >= 2 && escape[0] == BACKSLASH
    requires (|escape| == 2 && ShortEscape(escape[1]).Some?)
            || (|escape| == 6 && escape[1] == LOWER_U && HexAt(escape, 2))
    ensures Clean(escape + rest)
  {
    assert (escape + rest)[|escape|..] == rest;
    assert forall i :: 0 <= i < |escape| ==> (escape + rest)[i] == escape[i];
  }

  /** Bytes written raw stand side by side, so a separator would have been one before. */
  lemma RawSeparator(s: Text)
    requires s != [] && !IsSeparator(s)
    ensures !IsSeparator([s[0]] + EscapedAll(s[1..]))
  {
    var rest := EscapedAll(s[1..]);
    if |s| >= 2 && |rest| >= 2 && s[1] >= 0x80 && s[1] != 0xE2 {
      assert rest == [s[1]] + EscapedAll(s[2..]);
      assert s[1..][1..] == s[2..];
      if |s| >= 3 && s[2] >= 0x80 && !IsSeparator(s[2..]) {
        assert EscapedAll(s[2..])[0] == s[2];
      }
    }
  }

  lemma RawClean(s: Text)
    requires s != [] && !IsSeparator(s) && Escaped(s[0]) == [s[0]] && Clean(EscapedAll(s[1..]))
    ensures Clean([s[0]] + EscapedAll(s[1..]))
  {
    RawSeparator(s);
    assert ([s[0]] + EscapedAll(s[1..]))[1..] == EscapedAll(s[1..]);
  }

  lemma EscapeForms(c: Byte)
    requires Escaped(c) != [c]
    ensures var e := Escaped(c);
            && |e| >= 2 && e[0] == BACKSLASH
            && ((|e| == 2 && ShortEscape(e[1]).Some?) || (|e| == 6 && e[1] == LOWER_U && HexAt(e, 2)))
  {
  }

  /** Whatever the bytes, the written string is clean. */
  lemma {:induction false} WrittenClean(s: Text)
    ensures Clean(EscapedAll(s))
    decreases |s|
  {
    if s == [] {
    } else if IsSeparator(s) {
      WrittenClean(s[3..]);
      EscapeClean(SeparatorEscape(s[2]), EscapedAll(s[3..]));
    } else {
      WrittenClean(s[1..]);
      if Escaped(s[0]) == [s[0]] {
        RawClean(s);
      } else {
        EscapeForms(s[0]);
        EscapeClean(Escaped(s[0]), EscapedAll(s[1..]));
      }
    }
  }

  // ---- round trip ---------------------------------------------------------------------------

  lemma SeparatorReads(last: Byte, rest: Text)
    requires last == 0xA8 || last == 0xA9
    ensures CharAt(SeparatorEscape(last) + rest) == Some(([0xE2, 0x80, last], 6))
  {
    var t := SeparatorEscape(last) + rest;
    assert forall i :: 0 <= i < 6 ==> t[i] == SeparatorEscape(last)[i];
    var r := 0x2028 + (last - 0xA8);
    assert HexAt(t, 2) && HexRune(t, 2) == r;
    assert Continuation(r, 2) == Continuation(0x80, 1) + [last];
    assert Continuation(0x80, 1) == [] + [0x80];
    assert RuneBytes(r) == [0xE2, 0x80, last];
  }

  lemma ControlReads(c: Byte, rest: Text)
    requires |Escaped(c)| == 6
    ensures CharAt(Escaped(c) + rest) == Some(([c], 6))
  {
    var t := Escaped(c) + rest;
    assert forall i :: 0 <= i < 6 ==> t[i] == Escaped(c)[i];
    assert HexAt(t, 2) && HexRune(t, 2) == c;
    assert RuneBytes(c) == [c];
  }

  lemma AsciiReads(c: Byte, rest: Text)
    requires c < 0x80
    ensures CharAt(Escaped(c) + rest) == Some(([c], |Escaped(c)|))
  {
    if |Escaped(c)| == 6 {
      ControlReads(c, rest);
    } else {
      var t := Escaped(c) + rest;
      assert forall i :: 0 <= i < |Escaped(c)| ==> t[i] == Escaped(c)[i];
      if |Escaped(c)| == 1 {
        assert RuneLength(t) == 1 && t[..1] == [c];
      }
    }
  }

  lemma RuneReads(rune: Text, rest: Text)
    requires rune != [] && rune[0] >= 0x80 && RuneLength(rune) == |rune|
    ensures CharAt(rune + rest) == Some((rune, |rune|))
  {
    var t := rune + rest;
    assert forall i :: 0 <= i < |rune| ==> t[i] == rune[i];
    assert t[..|rune|] == rune;
  }

  lemma {:induction false} RawStays(s: Text)
    requires s != [] && IsContinuation(s[0])
    ensures EscapedAll(s) == [s[0]] + EscapedAll(s[1..])
  {
  }

  lemma {:induction false} ContinuationsStay(bytes: Text, s: Text)
    requires forall i :: 0 <= i < |bytes| ==> IsContinuation(bytes[i])
    ensures EscapedAll(bytes + s) == bytes + EscapedAll(s)
  {
    if bytes == [] {
      assert bytes + s == s;
    } else {
      ContinuationsStay(bytes[1..], s);
      RawStays(bytes + s);
      assert (bytes + s)[1..] == bytes[1..] + s;
      Split(bytes, EscapedAll(s));
    }
  }

  /** A rune of several bytes that is no separator is written as it is. */
  lemma {:induction false} RuneStays(rune: Text, s: Text)
    requires rune != [] && rune[0] >= 0xC2 && !IsSeparator(rune + s)
    requires forall i :: 1 <= i < |rune| ==> IsContinuation(rune[i])
    ensures EscapedAll(rune + s) == rune + EscapedAll(s)
  {
    ContinuationsStay(rune[1..], s);
    Split(rune, s);
    assert (rune + s)[1..] == rune[1..] + s;
    Split(rune, EscapedAll(s));
  }

  /** One read character, then the rest. */
  lemma {:induction false} StringStep(written: Text, bytes: Text, more: Text, v: Text, left: Text)
    requires CharAt(written + more) == Some((bytes, |written|)) && StringAt(more) == Some((v, left))
    ensures StringAt(written + more) == Some((bytes + v, left))
  {
    assert (written + more)[|written|..] == more;
  }

  lemma {:induction false} StringReads(v: Text, left: Text)
    requires IsUtf8(v)
    ensures StringAt(EscapedAll(v) + ([QUOTE] + left)) == Some((v, left))
    decreases |v|
  {
    if v == [] {
      var tail := [QUOTE] + left;
      assert EscapedAll(v) + tail == tail && tail[1..] == left;
    } else if IsSeparator(v) {
      SeparatorStringReads(v, left);
    } else if v[0] < 0x80 {
      AsciiStringReads(v, left);
    } else {
      RuneStringReads(v, left);
    }
  }

  lemma {:induction false} SeparatorStringReads(v: Text, left: Text)
    requires IsUtf8(v) && IsSeparator(v)
    ensures StringAt(EscapedAll(v) + ([QUOTE] + left)) == Some((v, left))
    decreases |v|, 0
  {
    var tail := [QUOTE] + left;
    var more := EscapedAll(v[3..]) + tail;
    assert RuneLength(v) == 3;
    StringReads(v[3..], left);
    SeparatorReads(v[2], more);
    StringStep(SeparatorEscape(v[2]), [0xE2, 0x80, v[2]], more, v[3..], left);
    Regroup(SeparatorEscape(v[2]), EscapedAll(v[3..]), tail);
    assert [0xE2, 0x80, v[2]] + v[3..] == v;
  }

  lemma {:induction false} AsciiStringReads(v: Text, left: Text)
    requires IsUtf8(v) && v != [] && v[0] < 0x80
    ensures StringAt(EscapedAll(v) + ([QUOTE] + left)) == Some((v, left))
    decreases |v|, 0
  {
    var tail := [QUOTE] + left;
    var more := EscapedAll(v[1..]) + tail;
    StringReads(v[1..], left);
    AsciiReads(v[0], more);
    StringStep(Escaped(v[0]), [v[0]], more, v[1..], left);
    Regroup(Escaped(v[0]), EscapedAll(v[1..]), tail);
    assert [v[0]] + v[1..] == v;
  }

  lemma {:induction false} RuneStringReads(v: Text, left: Text)
    requires IsUtf8(v) && v != [] && v[0] >= 0x80 && !IsSeparator(v)
    ensures StringAt(EscapedAll(v) + ([QUOTE] + left)) == Some((v, left))
    decreases |v|, 0
  {
    var n := RuneLength(v);
    var (rune, rest, tail) := (v[..n], v[n..], [QUOTE] + left);
    var more := EscapedAll(rest) + tail;
    assert rune + rest == v;
    StringReads(rest, left);
    PrefixRune(v);
    RuneStays(rune, rest);
    RuneReads(rune, more);
    StringStep(rune, rune, more, rest, left);
    Regroup(rune, EscapedAll(rest), tail);
  }

  lemma PrefixRune(v: Text)
    ensures RuneLength(v[..RuneLength(v)]) == RuneLength(v)
  {
    assert forall i :: 0 <= i < RuneLength(v) ==> v[..RuneLength(v)][i] == v[i];
  }

  // ---- whole files ------------------------------------------------------------------------------

  ghost predicate AllUtf8(entries: seq<FileEntry>) {
    forall e :: e in entries ==> IsUtf8(e.key) && IsUtf8(e.value)
  }

  function Comma(last: bool): Text {
    if last then [] else [COMMA]
  }

  /** A member from its opening quote on, piece by piece. */
  lemma MemberLayout(key: Text, value: Text, last: bool, left: Text)
    ensures Member(key, value, last) + left
         == [SPACE, SPACE, SPACE, SPACE, QUOTE]
            + (key + ([QUOTE] + ([COLON, SPACE, QUOTE] + (value + ([QUOTE] + (Comma(last) + ([NEWLINE] + left)))))))
  {
  }

  lemma {:induction false} BlanksEndAtQuote(s: Text)
    ensures Trimmed([SPACE, SPACE, SPACE, SPACE, QUOTE] + s) == [QUOTE] + s
  {
    var t := [SPACE, SPACE, SPACE, SPACE, QUOTE] + s;
    assert t[1..] == [SPACE, SPACE, SPACE, QUOTE] + s;
    assert t[1..][1..] == [SPACE, SPACE, QUOTE] + s;
    assert t[1..][1..][1..] == [SPACE, QUOTE] + s;
    assert t[1..][1..][1..][1..] == [QUOTE] + s;
    assert Trimmed([SPACE, QUOTE] + s) == [QUOTE] + s;
    assert Trimmed([SPACE, SPACE, QUOTE] + s) == [QUOTE] + s;
    assert Trimmed([SPACE, SPACE, SPACE, QUOTE] + s) == [QUOTE] + s;
  }

  lemma {:induction false} OpeningReads(s: Text)
    ensures StringToken([SPACE, SPACE, SPACE, SPACE, QUOTE] + s) == StringAt(s)
  {
    BlanksEndAtQuote(s);
    assert ([QUOTE] + s)[1..] == s;
  }

  lemma {:induction false} ColonReads(s: Text)
    ensures Behind([COLON, SPACE, QUOTE] + s, COLON) == Some([SPACE, QUOTE] + s)
    ensures StringToken([SPACE, QUOTE] + s) == StringAt(s)
  {
    assert ([COLON, SPACE, QUOTE] + s)[1..] == [SPACE, QUOTE] + s;
    assert ([SPACE, QUOTE] + s)[1..] == [QUOTE] + s;
    assert Trimmed([QUOTE] + s) == [QUOTE] + s;
    assert ([QUOTE] + s)[1..] == s;
  }

  lemma MemberReads(e: FileEntry, last: bool, left: Text)
    requires IsUtf8(e.key) && IsUtf8(e.value)
    ensures MemberAt(Member(EscapedAll(e.key), EscapedAll(e.value), last) + left)
            == Some((e, Comma(last) + ([NEWLINE] + left)))
  {
    var (key, value) := (EscapedAll(e.key), EscapedAll(e.value));
    var behindValue := Comma(last) + ([NEWLINE] + left);
    var fromValue := value + ([QUOTE] + behindValue);
    MemberLayout(key, value, last, left);
    OpeningReads(key + ([QUOTE] + ([COLON, SPACE, QUOTE] + fromValue)));
    StringReads(e.key, [COLON, SPACE, QUOTE] + fromValue);
    ColonReads(fromValue);
    StringReads(e.value, behindValue);
  }

  lemma FinishReads()
    ensures Behind([NEWLINE] + FINISH, COMMA) == None && Closes([NEWLINE] + FINISH)
  {
    assert FINISH[0] == CLOSE_BRACE && FINISH[1..] == [NEWLINE];
    assert ([NEWLINE] + FINISH)[1..] == FINISH;
    assert Trimmed(FINISH) == FINISH && Trimmed([NEWLINE] + FINISH) == FINISH;
    assert [NEWLINE][1..] == [] && Trimmed([NEWLINE]) == Trimmed([]) == [];
  }

  lemma CommaReads(left: Text)
    ensures Behind([COMMA] + ([NEWLINE] + left), COMMA) == Some([NEWLINE] + left)
  {
    assert ([COMMA] + ([NEWLINE] + left))[1..] == [NEWLINE] + left;
  }

  /** A line break before a member is skipped. */
  lemma {:induction false} NewlineReads(s: Text)
    ensures MembersAt([NEWLINE] + s) == MembersAt(s)
  {
    assert ([NEWLINE] + s)[1..] == s;
    assert MemberAt([NEWLINE] + s) == MemberAt(s);
  }

  lemma {:induction false} MembersStep(s: Text, e: FileEntry, behind: Text)
    requires MemberAt(s) == Some((e, behind))
    ensures Behind(behind, COMMA).Some? ==> MembersAt(s) == Onto(e, MembersAt(Behind(behind, COMMA).value))
    ensures Behind(behind, COMMA).None? && Closes(behind) ==> MembersAt(s) == Some([e])
  {
  }

  /** A member with the comma, the line break and the members behind it. */
  lemma {:induction false} MemberThenRest(e: FileEntry, left: Text, rest: seq<FileEntry>)
    requires IsUtf8(e.key) && IsUtf8(e.value) && MembersAt(left) == Some(rest)
    ensures MembersAt(Member(EscapedAll(e.key), EscapedAll(e.value), false) + left) == Some([e] + rest)
  {
    MemberReads(e, false, left);
    CommaReads(left);
    NewlineReads(left);
    MembersStep(Member(EscapedAll(e.key), EscapedAll(e.value), false) + left, e, [COMMA] + ([NEWLINE] + left));
  }

  lemma LastMember(e: FileEntry)
    requires IsUtf8(e.key) && IsUtf8(e.value)
    ensures MembersAt(Member(EscapedAll(e.key), EscapedAll(e.value), true) + FINISH) == Some([e])
  {
    MemberReads(e, true, FINISH);
    assert [] + ([NEWLINE] + FINISH) == [NEWLINE] + FINISH;
    FinishReads();
    MembersStep(Member(EscapedAll(e.key), EscapedAll(e.value), true) + FINISH, e, [NEWLINE] + FINISH);
  }

  lemma {:induction false} MembersRead(entries: seq<FileEntry>)
    requires entries != [] && AllUtf8(entries)
    ensures MembersAt(Members(entries) + FINISH) == Some(entries)
    decreases |entries|
  {
    var (e, rest) := (entries[0], entries[1..]);
    assert e in entries && [e] + rest == entries;
    Regroup(Member(EscapedAll(e.key), EscapedAll(e.value), |entries| == 1), Members(rest), FINISH);
    if |entries| == 1 {
      assert [e] == entries && Members(rest) + FINISH == FINISH;
      LastMember(e);
    } else {
      MembersRead(rest);
      MemberThenRest(e, Members(rest) + FINISH, rest);
    }
  }

  /** Reading a written file gives back its entries, in order, for entries that are UTF-8. */
  lemma RoundTrip(entries: seq<FileEntry>)
    requires AllUtf8(entries)
    ensures Parsed(FileText(entries)) == Some(entries)
  {
    var left := Members(entries) + FINISH;
    assert FileText(entries)[1..] == [NEWLINE] + left;
    assert Behind(FileText(entries), OPEN_BRACE) == Some([NEWLINE] + left);
    if entries == [] {
      assert left == FINISH;
      FinishReads();
    } else {
      MembersRead(entries);
      NewlineReads(left);
      assert left[0] == SPACE && ([NEWLINE] + left)[1..] == left;
      NoBraceYet(entries);
    }
  }

  lemma {:induction false} NoBraceYet(entries: seq<FileEntry>)
    requires entries != []
    ensures Behind([NEWLINE] + (Members(entries) + FINISH), CLOSE_BRACE) == None
  {
    var e := entries[0];
    var left := Members(entries) + FINISH;
    var behind := Members(entries[1..]) + FINISH;
    var (key, value, last) := (EscapedAll(e.key), EscapedAll(e.value), |entries| == 1);
    Regroup(Member(key, value, last), Members(entries[1..]), FINISH);
    MemberLayout(key, value, last, behind);
    var closed := [QUOTE] + (Comma(last) + ([NEWLINE] + behind));
    BlanksEndAtQuote(key + ([QUOTE] + ([COLON, SPACE, QUOTE] + (value + closed))));
    assert ([NEWLINE] + left)[1..] == left;
  }
}
