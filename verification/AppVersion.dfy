/** The app-version floor of a manual release: what a publish accepts, and what the serving
    query can compare. */
module AppVersions {
  import opened Wrappers
  import opened Bytes

  const PLUS: Byte := 0x2B
  const MINUS: Byte := 0x2D

  const INT64_MAX: int := 0x7FFF_FFFF_FFFF_FFFF
  const INT32_MAX: int := 0x7FFF_FFFF

  /** strings.Split at every dot; string_to_array cuts the same way. */
  function Split(s: Text): (parts: seq<Text>)
    ensures |parts| >= 1
  {
    if s == [] then [[]]
    else
      var rest := Split(s[1..]);
      if s[0] == DOT then [[]] + rest else [[s[0]] + rest[0]] + rest[1..]
  }

  function Digits(s: Text): int {
    if s == [] then 0 else Digits(s[..|s| - 1]) * 10 + (s[|s| - 1] - ZERO)
  }

  predicate AllDigits(s: Text) {
    s != [] && forall i :: 0 <= i < |s| ==> IsDigit(s[i])
  }

  /** An optional sign and at least one digit. */
  function Number(s: Text): Option<int> {
    var signed := s != [] && (s[0] == PLUS || s[0] == MINUS);
    var digits := if signed then s[1..] else s;
    if !AllDigits(digits) then None
    else Some(if signed && s[0] == MINUS then -Digits(digits) else Digits(digits))
  }

  /** strconv.Atoi on a 64-bit platform. */
  function Atoi(s: Text): Option<int> {
    if Number(s).Some? && -INT64_MAX - 1 <= Number(s).value <= INT64_MAX then Number(s) else None
  }

  /** A component the publish accepts. */
  predicate IsComponent(s: Text) {
    Atoi(s).Some? && Atoi(s).value >= 0
  }

  datatype Floor = NoFloor | Floor(text: Text) | Refused

  ghost predicate AllComponents(parts: seq<Text>, n: nat)
    requires n <= |parts|
  {
    forall i :: 0 <= i < n ==> IsComponent(parts[i])
  }

  ghost function Validated(raw: Text): Floor {
    var trimmed := TrimSpace(raw);
    if trimmed == [] then NoFloor
    else if |Split(trimmed)| == 3 && AllComponents(Split(trimmed), 3) then Floor(trimmed)
    else Refused
  }

  /** validateMinAppVersion. */
  method Validate(raw: Text) returns (floor: Floor)
    ensures floor == Validated(raw)
  {
    var trimmed := TrimSpace(raw);
    if trimmed == [] {
      return NoFloor;
    }
    var parts := Split(trimmed);
    if |parts| != 3 {
      return Refused;
    }
    var ok := CheckParts(parts);
    floor := if ok then Floor(trimmed) else Refused;
  }

  method CheckParts(parts: seq<Text>) returns (ok: bool)
    ensures ok <==> AllComponents(parts, |parts|)
  {
    for i := 0 to |parts|
      invariant AllComponents(parts, i)
    {
      if !IsComponent(parts[i]) {
        return false;
      }
    }
    ok := true;
  }

  /** A component as a 32-bit int of the database; None where the cast fails. */
  function CastPart(s: Text): Option<int> {
    if Number(s).Some? && -INT32_MAX - 1 <= Number(s).value <= INT32_MAX then Number(s) else None
  }

  /** string_to_array(text, '.')::int[]; None where the query fails. */
  function Cast(parts: seq<Text>): (r: Option<seq<int>>)
    ensures r.Some? <==> forall i :: 0 <= i < |parts| ==> CastPart(parts[i]).Some?
    ensures r.Some? ==> |r.value| == |parts| && forall i :: 0 <= i < |parts| ==> r.value[i] == CastPart(parts[i]).value
  {
    if parts == [] then Some([])
    else
      var before := Cast(parts[..|parts| - 1]);
      var last := CastPart(parts[|parts| - 1]);
      assert forall i :: 0 <= i < |parts| - 1 ==> parts[i] == parts[..|parts| - 1][i];
      if before.None? || last.None? then None else Some(before.value + [last.value])
  }

  /** Every accepted floor has three components, none negative; the serving query can cast
      it exactly when each of them fits 32 bits, which the publish does not look at. */
  lemma AcceptedFloorCasts(raw: Text)
    requires Validated(raw).Floor?
    ensures var parts := Split(Validated(raw).text);
            && |parts| == 3
            && (forall i :: 0 <= i < 3 ==> IsComponent(parts[i]))
            && (Cast(parts).Some? <==> forall i :: 0 <= i < 3 ==> Atoi(parts[i]).value <= INT32_MAX)
            && (Cast(parts).Some? ==> forall i :: 0 <= i < 3 ==> Cast(parts).value[i] == Atoi(parts[i]).value >= 0)
  {
    var parts := Split(Validated(raw).text);
    forall i | 0 <= i < 3
      ensures CastPart(parts[i]).Some? <==> Atoi(parts[i]).value <= INT32_MAX
    {
      assert IsComponent(parts[i]);
    }
  }

  /** 0.0.2147483648 */
  const TOO_WIDE: Text := [ZERO, DOT, ZERO, DOT, 0x32, 0x31, 0x34, 0x37, 0x34, 0x38, 0x33, 0x36, 0x34, 0x38]

  lemma {:induction false} SplitPlain(s: Text)
    requires DOT !in s
    ensures Split(s) == [s]
  {
    if s != [] {
      SplitPlain(s[1..]);
      assert [s[0]] + s[1..] == s;
    }
  }

  lemma {:induction false} TenDigits(s: Text)
    requires s == [0x32, 0x31, 0x34, 0x37, 0x34, 0x38, 0x33, 0x36, 0x34, 0x38]
    ensures Digits(s) == 2147483648 && Number(s) == Some(2147483648)
  {
    assert s[..9][..8] == s[..8] && s[..8][..7] == s[..7] && s[..7][..6] == s[..6] && s[..6][..5] == s[..5];
    assert s[..5][..4] == s[..4] && s[..4][..3] == s[..3] && s[..3][..2] == s[..2] && s[..2][..1] == s[..1]
        && s[..1][..0] == [];
    assert Digits(s[..1]) == 2;
    assert Digits(s[..2]) == 21;
    assert Digits(s[..3]) == 214;
    assert Digits(s[..4]) == 2147;
    assert Digits(s[..5]) == 21474;
    assert Digits(s[..6]) == 214748;
    assert Digits(s[..7]) == 2147483;
    assert Digits(s[..8]) == 21474836;
    assert Digits(s[..9]) == 214748364;
    assert Digits(s) == Digits(s[..9]) * 10 + 8;
    assert forall i :: 0 <= i < |s| ==> IsDigit(s[i]);
  }

  lemma {:induction false} SplitDot(s: Text)
    requires s != [] && s[0] == DOT
    ensures Split(s) == [[]] + Split(s[1..])
  {
  }

  lemma {:induction false} SplitZero(s: Text, rest: seq<Text>)
    requires |s| >= 2 && s[0] == ZERO && s[1] == DOT && Split(s[2..]) == rest
    ensures Split(s) == [[ZERO]] + rest
  {
    assert s[1..][1..] == s[2..];
    SplitDot(s[1..]);
    assert [ZERO] + [] == [ZERO];
    assert ([[]] + rest)[1..] == rest;
  }

  lemma TooWideSplit()
    ensures Split(TOO_WIDE) == [[ZERO], [ZERO], TOO_WIDE[4..]]
  {
    SplitPlain(TOO_WIDE[4..]);
    assert TOO_WIDE[2..][2..] == TOO_WIDE[4..];
    SplitZero(TOO_WIDE[2..], [TOO_WIDE[4..]]);
    SplitZero(TOO_WIDE, [[ZERO]] + [TOO_WIDE[4..]]);
  }

  lemma ZeroIsNumber()
    ensures Number([ZERO]) == Some(0)
  {
    assert [ZERO][..0] == [] && Digits([]) == 0 && Digits([ZERO]) == 0;
    assert IsDigit([ZERO][0]);
  }

  /** A floor the publish accepts and no query can compare. */
  lemma TooWideIsAccepted()
    ensures Validated(TOO_WIDE) == Floor(TOO_WIDE) && Cast(Split(TOO_WIDE)) == None
  {
    TooWideSplit();
    TenDigits(TOO_WIDE[4..]);
    ZeroIsNumber();
    assert LeadingSpace(TOO_WIDE) == 0 && TrailingSpace(TOO_WIDE) == 0;
    assert CastPart(Split(TOO_WIDE)[2]).None?;
  }
}
