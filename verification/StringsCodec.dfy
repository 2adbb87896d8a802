/** The iOS `.strings` writer and reader. */
module StringsCodec {
  import opened Wrappers
  import opened Bytes
  import opened Files

  datatype LineEnding = LF | CRLF

  function Ending(le: LineEnding): Text {
    match le
    case LF => [NEWLINE]
    case CRLF => [RETURN, NEWLINE]
  }

  // ---- writer -----------------------------------------------------------------------

  /** What one byte is written as; control characters without a short form as \U00XX. */
  function Escaped(c: Byte): Text {
    if c == BACKSLASH then [BACKSLASH, BACKSLASH]
    else if c == QUOTE then [BACKSLASH, QUOTE]
    else if c == NEWLINE then [BACKSLASH, LOWER_N]
    else if c == RETURN then [BACKSLASH, LOWER_R]
    else if c == TAB then [BACKSLASH, LOWER_T]
    else if c < 0x20 then [BACKSLASH, UPPER_U, ZERO, ZERO, UpperHex(c / 16), UpperHex(c % 16)]
    else [c]
  }

  function EscapedAll(s: Text): Text {
    if s == [] then [] else Escaped(s[0]) + EscapedAll(s[1..])
  }

  function Framed(key: Text, value: Text, end: Text): Text {
    [QUOTE] + key + [QUOTE, SPACE, EQUALS, SPACE, QUOTE] + value + [QUOTE, SEMICOLON] + end
  }

  function Statement(e: FileEntry, le: LineEnding): Text {
    Framed(EscapedAll(e.key), EscapedAll(e.value), Ending(le))
  }

  function Statements(entries: seq<FileEntry>, le: LineEnding): seq<Text> {
    seq(|entries|, i requires 0 <= i < |entries| => Statement(entries[i], le))
  }

  function FileText(entries: seq<FileEntry>, le: LineEnding): Text {
    Joined(Statements(entries, le))
  }

  lemma {:induction false} EscapedAppend(s: Text, c: Byte)
    ensures EscapedAll(s + [c]) == EscapedAll(s) + Escaped(c)
  {
    if s == [] {
      assert [c][1..] == [];
    } else {
      EscapedAppend(s[1..], c);
      assert (s + [c])[0] == s[0] && (s + [c])[1..] == s[1..] + [c];
      Regroup(Escaped(s[0]), EscapedAll(s[1..]), Escaped(c));
    }
  }

  method WriteEscaped(s: Text) returns (b: Text)
    ensures b == EscapedAll(s)
  {
    b := [];
    for i := 0 to |s|
      invariant b == EscapedAll(s[..i])
    {
      EscapedAppend(s[..i], s[i]);
      assert s[..i + 1] == s[..i] + [s[i]];
      var c := s[i];
      if c == BACKSLASH {
        b := b + [BACKSLASH, BACKSLASH];
      } else if c == QUOTE {
        b := b + [BACKSLASH, QUOTE];
      } else if c == NEWLINE {
        b := b + [BACKSLASH, LOWER_N];
      } else if c == RETURN {
        b := b + [BACKSLASH, LOWER_R];
      } else if c == TAB {
        b := b + [BACKSLASH, LOWER_T];
      } else if c < 0x20 {
        b := b + [BACKSLASH, UPPER_U, ZERO, ZERO, UpperHex(c / 16), UpperHex(c % 16)];
      } else {
        b := b + [c];
      }
    }
    assert s[..|s|] == s;
  }

  method WriteStatement(e: FileEntry, le: LineEnding) returns (b: Text)
    ensures b == Statement(e, le)
  {
    b := [QUOTE];
    var key := WriteEscaped(e.key);
    b := b + key;
    b := b + [QUOTE, SPACE, EQUALS, SPACE, QUOTE];
    var value := WriteEscaped(e.value);
    b := b + value;
    b := b + [QUOTE, SEMICOLON];
    b := b + Ending(le);
  }

  method Write(entries: seq<FileEntry>, le: LineEnding) returns (b: Text)
    ensures b == FileText(entries, le)
  {
    b := [];
    ghost var written := Statements(entries, le);
    for i := 0 to |entries|
      invariant b == Joined(written[..i])
    {
      JoinedAppend(written[..i], written[i]);
      assert written[..i + 1] == written[..i] + [written[i]];
      var statement := WriteStatement(entries[i], le);
      assert statement == written[i];
      b := b + statement;
    }
    assert written[..|entries|] == written;
  }

  // ---- reader: what it accepts ---------------------------------------------------------

  datatype SyntaxError =
    | UnterminatedComment
    | KeyExpected
    | EqualsExpected
    | ValueExpected
    | SemicolonExpected
    | DanglingEscape
    | UnterminatedString

  /** Past the next newline, or at the end. */
  function LineEnd(s: Text, pos: nat): (next: nat)
    requires pos <= |s|
    ensures pos <= next <= |s|
    decreases |s| - pos
  {
    if pos == |s| then pos else if s[pos] == NEWLINE then pos + 1 else LineEnd(s, pos + 1)
  }

  /** Past the next star-slash, if there is one. */
  function CommentEnd(s: Text, pos: nat): (next: Option<nat>)
    requires pos <= |s|
    ensures next.Some? ==> pos < next.value <= |s|
    decreases |s| - pos
  {
    if pos + 2 > |s| then None
    else if Stands(s, pos, STAR) && Stands(s, pos + 1, SLASH) then Some(pos + 2)
    else CommentEnd(s, pos + 1)
  }

  /** Past blanks and comments. */
  function Skipped(s: Text, pos: nat): (next: Result<nat, SyntaxError>)
    requires pos <= |s|
    ensures next.Success? ==> pos <= next.value <= |s|
    decreases |s| - pos
  {
    if pos == |s| then Success(pos)
    else if IsBlank(s[pos]) then Skipped(s, pos + 1)
    else if Stands(s, pos, SLASH) && Stands(s, pos + 1, SLASH) then Skipped(s, LineEnd(s, pos + 2))
    else if Stands(s, pos, SLASH) && Stands(s, pos + 1, STAR) then
      if CommentEnd(s, pos + 2).None? then Failure(UnterminatedComment)
      else Skipped(s, CommentEnd(s, pos + 2).value)
    else Success(pos)
  }

  /** The rune of a second \uXXXX escape that completes the half hi, or -1. */
  function PairedAt(s: Text, pos: nat, hi: nat): (r: int)
    ensures r >= 0 ==> pos + 6 <= |s|
  {
    if pos + 1 >= |s| || s[pos] != BACKSLASH || (s[pos + 1] != LOWER_U && s[pos + 1] != UPPER_U) then -1
    else if !HexAt(s, pos + 2) then -1
    else SurrogatePair(hi, HexRune(s, pos + 2))
  }

  /** The escape whose letter stands at pos: its bytes, and the position past it. */
  function EscapeAt(s: Text, pos: nat): (r: (Text, nat))
    requires pos < |s|
    ensures pos < r.1 <= |s|
  {
    var e := s[pos];
    if e == LOWER_N then ([NEWLINE], pos + 1)
    else if e == LOWER_T then ([TAB], pos + 1)
    else if e == LOWER_R then ([RETURN], pos + 1)
    else if e == QUOTE || e == BACKSLASH then ([e], pos + 1)
    else if (e == UPPER_U || e == LOWER_U) && HexAt(s, pos + 1) then
      var r := HexRune(s, pos + 1);
      if !IsSurrogate(r) then (RuneBytes(r), pos + 5)
      else if PairedAt(s, pos + 5, r) >= 0 then (RuneBytes(PairedAt(s, pos + 5, r)), pos + 11)
      else ([BACKSLASH, e] + s[pos + 1..pos + 5], pos + 5)
    else ([BACKSLASH, e], pos + 1)
  }

  /** What was read, put before what is read next. */
  function After(bytes: Text, rest: Result<(Text, nat), SyntaxError>): Result<(Text, nat), SyntaxError> {
    match rest
    case Success((text, next)) => Success((bytes + text, next))
    case Failure(e) => Failure(e)
  }

  /** From just past an opening quote: the value and the position past the closing one. */
  function Quoted(s: Text, pos: nat): (r: Result<(Text, nat), SyntaxError>)
    requires pos <= |s|
    ensures r.Success? ==> pos < r.value.1 <= |s|
    decreases |s| - pos
  {
    if pos == |s| then Failure(UnterminatedString)
    else if s[pos] == QUOTE then Success(([], pos + 1))
    else if s[pos] == BACKSLASH then
      if pos + 1 == |s| then Failure(DanglingEscape)
      else
        var (bytes, next) := EscapeAt(s, pos + 1);
        After(bytes, Quoted(s, next))
    else
      After([s[pos]], Quoted(s, pos + 1))
  }

  predicate Stands(s: Text, pos: nat, c: Byte) {
    pos < |s| && s[pos] == c
  }

  /** One statement, from its opening quote to past its semicolon. */
  function StatementAt(s: Text, pos: nat): (r: Result<(FileEntry, nat), SyntaxError>)
    requires pos < |s|
    ensures r.Success? ==> pos < r.value.1 <= |s|
  {
    if s[pos] != QUOTE then Failure(KeyExpected)
    else
      var key :- Quoted(s, pos + 1);
      var equals :- Skipped(s, key.1);
      if !Stands(s, equals, EQUALS) then Failure(EqualsExpected)
      else
        var open :- Skipped(s, equals + 1);
        if !Stands(s, open, QUOTE) then Failure(ValueExpected)
        else
          var value :- Quoted(s, open + 1);
          var end :- Skipped(s, value.1);
          if !Stands(s, end, SEMICOLON) then Failure(SemicolonExpected)
          else Success((FileEntry(key.0, value.0), end + 1))
  }

  function Parsed(s: Text, pos: nat := 0): Result<seq<FileEntry>, SyntaxError>
    requires pos <= |s|
    decreases |s| - pos
  {
    var start :- Skipped(s, pos);
    if start == |s| then Success([])
    else
      var first :- StatementAt(s, start);
      var rest :- Parsed(s, first.1);
      Success([first.0] + rest)
  }

  // ---- reader: the scans ---------------------------------------------------------------

  method SkipInsignificant(s: Text, start: nat) returns (r: Result<nat, SyntaxError>)
    requires start <= |s|
    ensures r == Skipped(s, start)
  {
    var pos := start;
    while pos < |s|
      invariant start <= pos <= |s| && Skipped(s, pos) == Skipped(s, start)
      decreases |s| - pos
    {
      if IsBlank(s[pos]) {
        pos := pos + 1;
      } else if pos + 1 < |s| && s[pos] == SLASH && s[pos + 1] == SLASH {
        pos := LineEnd(s, pos + 2);
      } else if pos + 1 < |s| && s[pos] == SLASH && s[pos + 1] == STAR {
        var end := CommentEnd(s, pos + 2);
        if end.None? {
          return Failure(UnterminatedComment);
        }
        pos := end.value;
      } else {
        return Success(pos);
      }
    }
    r := Success(pos);
  }

  /** Four hexadecimal digits, or -1. */
  method Hex4(s: Text, pos: nat) returns (r: int)
    ensures r == if HexAt(s, pos) then HexRune(s, pos) else -1
  {
    if pos + 4 > |s| {
      return -1;
    }
    r := 0;
    var i := pos;
    while i < pos + 4
      invariant pos <= i <= pos + 4
      invariant forall j :: pos <= j < i ==> IsHex(s[j])
      invariant i == pos ==> r == 0
      invariant i == pos + 1 ==> r == HexValue(s[pos])
      invariant i == pos + 2 ==> r == HexValue(s[pos]) * 0x10 + HexValue(s[pos + 1])
      invariant i == pos + 3 ==> r == HexValue(s[pos]) * 0x100 + HexValue(s[pos + 1]) * 0x10 + HexValue(s[pos + 2])
      invariant i == pos + 4 ==> HexAt(s, pos) && r == HexRune(s, pos)
    {
      if !IsHex(s[i]) {
        return -1;
      }
      r := r * 0x10 + HexValue(s[i]);
      i := i + 1;
    }
  }

  method PairedLowSurrogate(s: Text, pos: nat, hi: nat) returns (r: int)
    ensures r == PairedAt(s, pos, hi)
  {
    if pos + 1 >= |s| || s[pos] != BACKSLASH || (s[pos + 1] != LOWER_U && s[pos + 1] != UPPER_U) {
      return -1;
    }
    var lo := Hex4(s, pos + 2);
    if lo < 0 {
      return -1;
    }
    r := SurrogatePair(hi, lo);
  }

  lemma AfterNothing(rest: Result<(Text, nat), SyntaxError>)
    ensures After([], rest) == rest
  {
    if rest.Success? {
      assert [] + rest.value.0 == rest.value.0;
    }
  }

  lemma AfterTwice(a: Text, b: Text, rest: Result<(Text, nat), SyntaxError>)
    ensures After(a, After(b, rest)) == After(a + b, rest)
  {
    if rest.Success? {
      assert a + (b + rest.value.0) == (a + b) + rest.value.0;
    }
  }

  /** The escape whose letter stands at start. */
  method ScanEscape(s: Text, start: nat) returns (bytes: Text, pos: nat)
    requires start < |s|
    ensures (bytes, pos) == EscapeAt(s, start)
  {
    pos := start;
    var e := s[pos];
    if e == LOWER_N {
      bytes := [NEWLINE];
    } else if e == LOWER_T {
      bytes := [TAB];
    } else if e == LOWER_R {
      bytes := [RETURN];
    } else if e == QUOTE || e == BACKSLASH {
      bytes := [e];
    } else if e == UPPER_U || e == LOWER_U {
      var r := Hex4(s, pos + 1);
      if r < 0 {
        bytes := [BACKSLASH, e];
      } else if IsSurrogate(r) {
        var pair := PairedLowSurrogate(s, pos + 5, r);
        if pair >= 0 {
          bytes := RuneBytes(pair);
          pos := pos + 4 + 6;
        } else {
          bytes := [BACKSLASH, e] + s[pos + 1..pos + 5];
          pos := pos + 4;
        }
      } else {
        bytes := RuneBytes(r);
        pos := pos + 4;
      }
    } else {
      bytes := [BACKSLASH, e];
    }
    pos := pos + 1;
  }

  method ScanQuoted(s: Text, open: nat) returns (r: Result<(Text, nat), SyntaxError>)
    requires Stands(s, open, QUOTE)
    ensures r == Quoted(s, open + 1)
  {
    var b: Text := [];
    var pos := open + 1;
    AfterNothing(Quoted(s, pos));
    while pos < |s|
      invariant open < pos <= |s| && After(b, Quoted(s, pos)) == Quoted(s, open + 1)
      decreases |s| - pos
    {
      if s[pos] == QUOTE {
        assert b + [] == b;
        return Success((b, pos + 1));
      }
      var bytes, next := [s[pos]], pos + 1;
      if s[pos] == BACKSLASH {
        if pos + 1 >= |s| {
          return Failure(DanglingEscape);
        }
        bytes, next := ScanEscape(s, pos + 1);
      }
      AfterTwice(b, bytes, Quoted(s, next));
      b, pos := b + bytes, next;
    }
    r := Failure(UnterminatedString);
  }

  /** Entries already read, before what is read from here on. */
  function Behind(entries: seq<FileEntry>, rest: Result<seq<FileEntry>, SyntaxError>)
    : Result<seq<FileEntry>, SyntaxError>
  {
    if rest.Success? then Success(entries + rest.value) else rest
  }

  lemma {:induction false} ParsedNext(s: Text, pos: nat, start: nat, first: Result<(FileEntry, nat), SyntaxError>)
    requires pos <= |s| && Skipped(s, pos) == Success(start) && start < |s| && first == StatementAt(s, start)
    ensures Parsed(s, pos) == match first
                              case Success((e, next)) => Behind([e], Parsed(s, next))
                              case Failure(e) => Failure(e)
  {
  }

  method ScanStatement(s: Text, start: nat) returns (r: Result<(FileEntry, nat), SyntaxError>)
    requires start < |s|
    ensures r == StatementAt(s, start)
  {
    if s[start] != QUOTE {
      return Failure(KeyExpected);
    }
    var key :- ScanQuoted(s, start);
    var pos :- SkipInsignificant(s, key.1);
    if pos >= |s| || s[pos] != EQUALS {
      return Failure(EqualsExpected);
    }
    pos :- SkipInsignificant(s, pos + 1);
    if pos >= |s| || s[pos] != QUOTE {
      return Failure(ValueExpected);
    }
    var value :- ScanQuoted(s, pos);
    pos :- SkipInsignificant(s, value.1);
    if pos >= |s| || s[pos] != SEMICOLON {
      return Failure(SemicolonExpected);
    }
    r := Success((FileEntry(key.0, value.0), pos + 1));
  }

  /** Reads a whole file; it ends on every input. */
  method Read(s: Text) returns (r: Result<seq<FileEntry>, SyntaxError>)
    ensures r == Parsed(s)
  {
    var entries: seq<FileEntry> := [];
    var pos := 0;
    BehindNothing(Parsed(s));
    while true
      invariant pos <= |s| && Behind(entries, Parsed(s, pos)) == Parsed(s)
      decreases |s| - pos
    {
      var start :- SkipInsignificant(s, pos);
      if start >= |s| {
        assert entries + [] == entries;
        return Success(entries);
      }
      var first := ScanStatement(s, start);
      ParsedNext(s, pos, start, first);
      if first.Failure? {
        return Failure(first.error);
      }
      BehindTwice(entries, first.value.0, Parsed(s, first.value.1));
      entries, pos := entries + [first.value.0], first.value.1;
    }
  }

  lemma BehindNothing(rest: Result<seq<FileEntry>, SyntaxError>)
    ensures Behind([], rest) == rest
  {
    if rest.Success? {
      assert [] + rest.value == rest.value;
    }
  }

  lemma BehindTwice(entries: seq<FileEntry>, e: FileEntry, rest: Result<seq<FileEntry>, SyntaxError>)
    ensures Behind(entries, Behind([e], rest)) == Behind(entries + [e], rest)
  {
    if rest.Success? {
      assert entries + ([e] + rest.value) == (entries + [e]) + rest.value;
    }
  }

  // ---- round trip -------------------------------------------------------------------------

  lemma ControlReads(s: Text, pos: nat, c: Byte)
    requires At(s, pos, Escaped(c)) && |Escaped(c)| == 6
    ensures s[pos] == BACKSLASH && EscapeAt(s, pos + 1) == ([c], pos + 6)
  {
    assert forall i :: 0 <= i < 6 ==> s[pos + i] == Escaped(c)[i];
    assert s[pos + 1] == UPPER_U;
    assert HexAt(s, pos + 2) && HexRune(s, pos + 2) == c;
    assert RuneBytes(c) == [c];
  }

  lemma ShortReads(s: Text, pos: nat, c: Byte)
    requires At(s, pos, Escaped(c)) && |Escaped(c)| == 2
    ensures s[pos] == BACKSLASH && EscapeAt(s, pos + 1) == ([c], pos + 2)
  {
    assert s[pos..pos + 2][0] == Escaped(c)[0] && s[pos..pos + 2][1] == Escaped(c)[1];
  }

  /** One written byte reads back as itself, and reading goes on behind it. */
  lemma {:induction false} EscapedReads(s: Text, pos: nat, c: Byte, next: nat)
    requires At(s, pos, Escaped(c)) && next == pos + |Escaped(c)| < |s|
    ensures Quoted(s, pos) == After([c], Quoted(s, next))
  {
    if |Escaped(c)| == 6 {
      ControlReads(s, pos, c);
    } else if |Escaped(c)| == 2 {
      ShortReads(s, pos, c);
    } else {
      assert s[pos] == s[pos..next][0];
    }
  }

  /** An escaped text followed by a quote. */
  ghost predicate WrittenAt(s: Text, pos: nat, v: Text) {
    At(s, pos, EscapedAll(v)) && Stands(s, pos + |EscapedAll(v)|, QUOTE)
  }

  lemma {:induction false} EscapedLength(v: Text)
    requires v != []
    ensures |EscapedAll(v)| == |Escaped(v[0])| + |EscapedAll(v[1..])|
  {
  }

  /** The parts of a text that stands in s and ends at a quote. */
  lemma PartsStand(s: Text, pos: nat, head: Text, rest: Text)
    requires At(s, pos, head + rest) && Stands(s, pos + |head + rest|, QUOTE)
    ensures At(s, pos, head) && At(s, pos + |head|, rest) && Stands(s, pos + |head| + |rest|, QUOTE)
  {
    AtSplit(s, pos, head, rest);
  }

  lemma WrittenRest(s: Text, pos: nat, v: Text)
    requires WrittenAt(s, pos, v) && v != []
    ensures At(s, pos, Escaped(v[0])) && WrittenAt(s, pos + |Escaped(v[0])|, v[1..])
  {
    PartsStand(s, pos, Escaped(v[0]), EscapedAll(v[1..]));
  }

  lemma {:induction false} QuotedStep(s: Text, pos: nat, v: Text, between: nat, next: nat)
    requires v != [] && At(s, pos, Escaped(v[0])) && between == pos + |Escaped(v[0])| < |s|
    requires Quoted(s, between) == Success((v[1..], next))
    ensures Quoted(s, pos) == Success((v, next))
  {
    EscapedReads(s, pos, v[0], between);
    assert [v[0]] + v[1..] == v;
  }

  lemma {:induction false} QuotedReads(s: Text, pos: nat, v: Text, next: nat)
    requires WrittenAt(s, pos, v) && next == pos + |EscapedAll(v)| + 1
    ensures Quoted(s, pos) == Success((v, next))
    decreases |v|
  {
    if v == [] {
      assert Quoted(s, pos) == Success(([], pos + 1));
    } else {
      EscapedLength(v);
      WrittenRest(s, pos, v);
      QuotedReads(s, pos + |Escaped(v[0])|, v[1..], next);
      QuotedStep(s, pos, v, pos + |Escaped(v[0])|, next);
    }
  }

  /** The fixed bytes of a statement, its key's and value's quotes closed at colon and semicolon. */
  ghost predicate Shape(s: Text, pos: nat, colon: nat, open: nat, semicolon: nat) {
    && Stands(s, pos, QUOTE)
    && Stands(s, colon, SPACE) && Stands(s, colon + 1, EQUALS) && Stands(s, colon + 2, SPACE)
    && open == colon + 3 && Stands(s, open, QUOTE)
    && Stands(s, semicolon, SEMICOLON)
  }

  lemma {:induction false} SkipsBlank(s: Text, pos: nat)
    requires Stands(s, pos, SPACE) && (Stands(s, pos + 1, EQUALS) || Stands(s, pos + 1, QUOTE))
    ensures Skipped(s, pos) == Success(pos + 1)
  {
  }

  lemma {:induction false} SkipsNothing(s: Text, pos: nat)
    requires Stands(s, pos, EQUALS) || Stands(s, pos, QUOTE) || Stands(s, pos, SEMICOLON)
    ensures Skipped(s, pos) == Success(pos)
  {
  }

  /** A statement from what its two scans return. */
  lemma {:induction false} StatementFrom(s: Text, pos: nat, colon: nat, open: nat, semicolon: nat, key: Text,
                                         value: Text)
    requires Shape(s, pos, colon, open, semicolon)
    requires Quoted(s, pos + 1) == Success((key, colon)) && Quoted(s, open + 1) == Success((value, semicolon))
    ensures StatementAt(s, pos) == Success((FileEntry(key, value), semicolon + 1))
  {
    SkipsBlank(s, colon);
    SkipsBlank(s, colon + 2);
    SkipsNothing(s, semicolon);
  }

  lemma {:induction false} KeyReads(s: Text, pos: nat, e: FileEntry, colon: nat, open: nat, semicolon: nat)
    requires Shape(s, pos, colon, open, semicolon)
    requires WrittenAt(s, pos + 1, e.key) && colon == pos + 1 + |EscapedAll(e.key)| + 1
    requires Quoted(s, open + 1) == Success((e.value, semicolon))
    ensures StatementAt(s, pos) == Success((e, semicolon + 1))
  {
    QuotedReads(s, pos + 1, e.key, colon);
    StatementFrom(s, pos, colon, open, semicolon, e.key, e.value);
  }

  lemma StatementReads(s: Text, pos: nat, e: FileEntry, colon: nat, open: nat, semicolon: nat)
    requires Shape(s, pos, colon, open, semicolon)
    requires WrittenAt(s, pos + 1, e.key) && colon == pos + 1 + |EscapedAll(e.key)| + 1
    requires WrittenAt(s, open + 1, e.value) && semicolon == open + 1 + |EscapedAll(e.value)| + 1
    ensures StatementAt(s, pos) == Success((e, semicolon + 1))
  {
    QuotedReads(s, open + 1, e.value, semicolon);
    KeyReads(s, pos, e, colon, open, semicolon);
  }

  lemma SeparatorStands(s: Text, pos: nat)
    requires At(s, pos, [QUOTE, SPACE, EQUALS, SPACE, QUOTE])
    ensures Stands(s, pos, QUOTE) && Stands(s, pos + 1, SPACE) && Stands(s, pos + 2, EQUALS)
    ensures Stands(s, pos + 3, SPACE) && Stands(s, pos + 4, QUOTE)
  {
    var t := [QUOTE, SPACE, EQUALS, SPACE, QUOTE];
    assert forall i :: 0 <= i < 5 ==> s[pos..pos + 5][i] == t[i];
  }

  lemma CloseStands(s: Text, pos: nat)
    requires At(s, pos, [QUOTE, SEMICOLON])
    ensures Stands(s, pos, QUOTE) && Stands(s, pos + 1, SEMICOLON)
  {
    assert forall i :: 0 <= i < 2 ==> s[pos..pos + 2][i] == [QUOTE, SEMICOLON][i];
  }

  /** Where the five parts of a statement and its ending stand. */
  lemma FramedParts(s: Text, pos: nat, key: Text, value: Text, ending: Text)
    requires At(s, pos, Framed(key, value, ending))
    ensures At(s, pos, [QUOTE]) && At(s, pos + 1, key)
    ensures At(s, pos + 1 + |key|, [QUOTE, SPACE, EQUALS, SPACE, QUOTE])
    ensures At(s, pos + 6 + |key|, value)
    ensures At(s, pos + 6 + |key| + |value|, [QUOTE, SEMICOLON])
    ensures At(s, pos + 8 + |key| + |value|, ending)
  {
    var opening := [QUOTE] + key;
    var separated := opening + [QUOTE, SPACE, EQUALS, SPACE, QUOTE];
    AtSplit(s, pos, separated + value + [QUOTE, SEMICOLON], ending);
    AtSplit(s, pos, separated + value, [QUOTE, SEMICOLON]);
    AtSplit(s, pos, separated, value);
    AtSplit(s, pos, opening, [QUOTE, SPACE, EQUALS, SPACE, QUOTE]);
    AtSplit(s, pos, [QUOTE], key);
  }

  lemma FramedShape(s: Text, pos: nat, key: Text, value: Text, ending: Text, colon: nat, open: nat, semicolon: nat)
    requires At(s, pos, Framed(key, value, ending))
    requires colon == pos + 1 + |key| + 1 && open == colon + 3 && semicolon == open + 1 + |value| + 1
    ensures Shape(s, pos, colon, open, semicolon) && semicolon + 1 == pos + |Framed(key, value, ending)| - |ending|
    ensures At(s, pos + 1, key) && Stands(s, colon - 1, QUOTE)
    ensures At(s, open + 1, value) && Stands(s, semicolon - 1, QUOTE)
    ensures At(s, semicolon + 1, ending)
  {
    FramedParts(s, pos, key, value, ending);
    SeparatorStands(s, colon - 1);
    CloseStands(s, semicolon - 1);
    assert s[pos] == s[pos..pos + 1][0];
  }

  lemma EntryShape(s: Text, pos: nat, key: Text, value: Text, ending: Text, colon: nat, end: nat)
    requires At(s, pos, Framed(key, value, ending))
    requires colon == pos + 1 + |key| + 1 && end == pos + |Framed(key, value, ending)| - |ending|
    ensures end == colon + 4 + |value| + 2
    ensures Shape(s, pos, colon, colon + 3, end - 1)
    ensures At(s, pos + 1, key) && Stands(s, colon - 1, QUOTE)
    ensures At(s, colon + 4, value) && Stands(s, end - 2, QUOTE) && At(s, end, ending)
  {
    FramedShape(s, pos, key, value, ending, colon, colon + 3, colon + 4 + |value| + 1);
  }

  lemma EntryPlaces(s: Text, pos: nat, e: FileEntry, key: Text, value: Text, ending: Text, colon: nat, end: nat)
    requires key == EscapedAll(e.key) && value == EscapedAll(e.value)
    requires At(s, pos, Framed(key, value, ending))
    requires colon == pos + 1 + |key| + 1 && end == pos + |Framed(key, value, ending)| - |ending|
    ensures end == colon + 4 + |value| + 2
    ensures Shape(s, pos, colon, colon + 3, end - 1)
    ensures WrittenAt(s, pos + 1, e.key) && WrittenAt(s, colon + 4, e.value) && At(s, end, ending)
  {
    EntryShape(s, pos, key, value, ending, colon, end);
  }

  lemma EntryReads(s: Text, pos: nat, e: FileEntry, le: LineEnding, end: nat)
    requires At(s, pos, Statement(e, le)) && end == pos + |Statement(e, le)| - |Ending(le)|
    ensures Stands(s, pos, QUOTE) && StatementAt(s, pos) == Success((e, end)) && At(s, end, Ending(le))
  {
    var (key, value) := (EscapedAll(e.key), EscapedAll(e.value));
    var colon := pos + 1 + |key| + 1;
    EntryPlaces(s, pos, e, key, value, Ending(le), colon, end);
    StatementReads(s, pos, e, colon, colon + 3, end - 1);
  }

  lemma {:induction false} SkipsEnding(s: Text, pos: nat, le: LineEnding, next: nat)
    requires At(s, pos, Ending(le)) && next == pos + |Ending(le)|
    ensures Skipped(s, pos) == Skipped(s, next)
  {
    assert s[pos] == Ending(le)[0];
    if le.CRLF? {
      assert s[pos + 1] == Ending(le)[1];
    }
  }

  lemma {:induction false} ParsedFirst(s: Text, pos: nat, e: FileEntry, end: nat, next: nat, rest: seq<FileEntry>)
    requires Stands(s, pos, QUOTE) && StatementAt(s, pos) == Success((e, end)) && end <= next <= |s|
    requires Skipped(s, end) == Skipped(s, next) && Parsed(s, next) == Success(rest)
    ensures Parsed(s, pos) == Success([e] + rest)
  {
    SkipsNothing(s, pos);
    assert Parsed(s, end) == Success(rest);
  }

  lemma {:induction false} FirstReads(s: Text, pos: nat, e: FileEntry, le: LineEnding, next: nat, rest: seq<FileEntry>)
    requires At(s, pos, Statement(e, le)) && next == pos + |Statement(e, le)|
    requires Parsed(s, next) == Success(rest)
    ensures Parsed(s, pos) == Success([e] + rest)
  {
    var end := next - |Ending(le)|;
    EntryReads(s, pos, e, le, end);
    SkipsEnding(s, end, le, next);
    ParsedFirst(s, pos, e, end, next, rest);
  }

  /** The pieces stand in s from pos to its end. */
  ghost predicate Ends(s: Text, pos: nat, pieces: seq<Text>) {
    At(s, pos, Joined(pieces)) && pos + |Joined(pieces)| == |s|
  }

  lemma EndsRest(s: Text, pos: nat, pieces: seq<Text>, next: nat)
    requires Ends(s, pos, pieces) && pieces != [] && next == pos + |pieces[0]|
    ensures At(s, pos, pieces[0]) && Ends(s, next, pieces[1..])
  {
    AtSplit(s, pos, pieces[0], Joined(pieces[1..]));
  }

  lemma StatementsRest(entries: seq<FileEntry>, le: LineEnding)
    requires entries != []
    ensures Statements(entries, le)[1..] == Statements(entries[1..], le)
    ensures [entries[0]] + entries[1..] == entries
  {
  }

  lemma {:induction false} FileReads(s: Text, pos: nat, entries: seq<FileEntry>, le: LineEnding)
    requires Ends(s, pos, Statements(entries, le))
    ensures Parsed(s, pos) == Success(entries)
    decreases |entries|
  {
    if entries == [] {
      assert Parsed(s, |s|) == Success([]);
    } else {
      var (e, rest) := (entries[0], entries[1..]);
      var next := pos + |Statement(e, le)|;
      StatementsRest(entries, le);
      EndsRest(s, pos, Statements(entries, le), next);
      FileReads(s, next, rest, le);
      FirstReads(s, pos, e, le, next, rest);
    }
  }

  /** Reading a written file gives back its entries, in order, duplicates included. */
  lemma RoundTrip(entries: seq<FileEntry>, le: LineEnding)
    ensures Parsed(FileText(entries, le)) == Success(entries)
  {
    FileReads(FileText(entries, le), 0, entries, le);
  }
}
