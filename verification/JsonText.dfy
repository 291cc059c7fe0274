/**
 JSON as text: what the platform's printer emits for a tree, and a parser of the whole grammar of
 RFC 8259 that takes it back.  A number is kept as its numeral, so nothing here rounds.
 */
module JsonText {

  import opened Options
  import opened UnicodeText

  datatype Json =
    | Null
    | Boolean(truth: bool)
    | Number(numeral: Text)
    | String(text: Text)
    | Array(items: seq<Json>)
    | Object(members: seq<Member>)

  datatype Member = Member(key: Text, value: Json)

  const QUOTE: CodeUnit := 0x22
  const BACKSLASH: CodeUnit := 0x5C
  const COMMA: CodeUnit := 0x2C
  const COLON: CodeUnit := 0x3A
  const OPEN_BRACKET: CodeUnit := 0x5B
  const CLOSE_BRACKET: CodeUnit := 0x5D
  const OPEN_BRACE: CodeUnit := 0x7B
  const CLOSE_BRACE: CodeUnit := 0x7D
  const LETTER_U: CodeUnit := 0x75

  const NULL_WORD: Text := [0x6E, 0x75, 0x6C, 0x6C]
  const TRUE_WORD: Text := [0x74, 0x72, 0x75, 0x65]
  const FALSE_WORD: Text := [0x66, 0x61, 0x6C, 0x73, 0x65]

  // ---- Numerals --------------------------------------------------------------------------------

  predicate IsDigit(u: CodeUnit) {
    0x30 <= u <= 0x39
  }

  predicate IsExponentMark(u: CodeUnit) {
    u == 0x65 || u == 0x45
  }

  /** The number of digits a text starts with. */
  function Digits(s: Text): (n: nat)
    ensures n <= |s|
    ensures n > 0 <==> s != [] && IsDigit(s[0])
  {
    if s == [] || !IsDigit(s[0]) then 0 else 1 + Digits(s[1..])
  }

  function Whole(s: Text): (n: nat)
    ensures n <= |s|
  {
    if s != [] && s[0] == 0x30 then 1 else Digits(s)
  }

  function Fraction(s: Text): (n: nat)
    ensures n <= |s|
  {
    if s == [] || s[0] != 0x2E || Digits(s[1..]) == 0 then 0 else 1 + Digits(s[1..])
  }

  function Exponent(s: Text): (n: nat)
    ensures n <= |s|
  {
    if s == [] || !IsExponentMark(s[0]) then 0
    else
      var sign := if |s| > 1 && (s[1] == 0x2B || s[1] == 0x2D) then 1 else 0;
      var digits := Digits(s[1 + sign..]);
      if digits == 0 then 0 else 1 + sign + digits
  }

  /** The length of the numeral a text starts with; 0 when it starts with none. */
  function NumeralLength(s: Text): (n: nat)
    ensures n <= |s|
  {
    var sign := if s != [] && s[0] == 0x2D then 1 else 0;
    var whole := sign + Whole(s[sign..]);
    if whole == sign then 0
    else
      var fraction := whole + Fraction(s[whole..]);
      fraction + Exponent(s[fraction..])
  }

  predicate IsNumeral(t: Text) {
    t != [] && NumeralLength(t) == |t|
  }

  /** No numeral continues with what comes next. */
  predicate EndsNumeral(rest: Text) {
    rest == [] ||
    !(IsDigit(rest[0]) || IsExponentMark(rest[0]) || rest[0] == 0x2B || rest[0] == 0x2D || rest[0] == 0x2E)
  }

  // ---- Printing --------------------------------------------------------------------------------

  function HexDigit(n: nat): CodeUnit
    requires n < 16
  {
    if n < 10 then 0x30 + n else 0x61 + n - 10
  }

  /** Section 3.2.2.2 of RFC 8785. */
  function Escape(u: CodeUnit): Text {
    if u == QUOTE || u == BACKSLASH then [BACKSLASH, u]
    else if u == 0x08 then [BACKSLASH, 0x62]
    else if u == 0x09 then [BACKSLASH, 0x74]
    else if u == 0x0A then [BACKSLASH, 0x6E]
    else if u == 0x0C then [BACKSLASH, 0x66]
    else if u == 0x0D then [BACKSLASH, 0x72]
    else if u < 0x20 then [BACKSLASH, LETTER_U, 0x30, 0x30, HexDigit(u / 16), HexDigit(u % 16)]
    else [u]
  }

  function EscapeAll(s: Text): Text {
    if s == [] then [] else Escape(s[0]) + EscapeAll(s[1..])
  }

  function Quote(s: Text): Text {
    [QUOTE] + EscapeAll(s) + [QUOTE]
  }

  function Print(v: Json): Text {
    match v
    case Null => NULL_WORD
    case Boolean(truth) => if truth then TRUE_WORD else FALSE_WORD
    case Number(numeral) => numeral
    case String(text) => Quote(text)
    case Array(items) => [OPEN_BRACKET] + PrintItems(items) + [CLOSE_BRACKET]
    case Object(members) => [OPEN_BRACE] + PrintMembers(members) + [CLOSE_BRACE]
  }

  function PrintItems(items: seq<Json>): Text {
    if items == [] then []
    else Print(items[0]) + (if |items| == 1 then [] else [COMMA] + PrintItems(items[1..]))
  }

  function PrintMember(member: Member): Text {
    Quote(member.key) + [COLON] + Print(member.value)
  }

  function PrintMembers(members: seq<Member>): Text {
    if members == [] then []
    else PrintMember(members[0]) + (if |members| == 1 then [] else [COMMA] + PrintMembers(members[1..]))
  }

  /** Every number is a numeral. */
  predicate WellFormed(v: Json) {
    match v
    case Number(numeral) => IsNumeral(numeral)
    case Array(items) => forall i :: 0 <= i < |items| ==> WellFormed(items[i])
    case Object(members) => forall i :: 0 <= i < |members| ==> WellFormed(members[i].value)
    case _ => true
  }

  // ---- Parsing ---------------------------------------------------------------------------------

  predicate IsSpace(u: CodeUnit) {
    u == 0x20 || u == 0x09 || u == 0x0A || u == 0x0D
  }

  function SkipSpace(s: Text): (rest: Text)
    ensures |rest| <= |s|
    ensures rest == [] || !IsSpace(rest[0])
  {
    if s != [] && IsSpace(s[0]) then SkipSpace(s[1..]) else s
  }

  predicate StartsWith(s: Text, u: CodeUnit) {
    s != [] && s[0] == u
  }

  function HexValue(u: CodeUnit): Option<nat> {
    if IsDigit(u) then Some(u - 0x30)
    else if 0x61 <= u <= 0x66 then Some(u - 0x61 + 10)
    else if 0x41 <= u <= 0x46 then Some(u - 0x41 + 10)
    else None
  }

  /** The code unit an escape sequence stands for, and its length after the backslash. */
  function Unescape(s: Text): (r: Option<(CodeUnit, nat)>)
    ensures r.Some? ==> 1 <= r.value.1 <= |s|
  {
    if s == [] then None
    else if s[0] == QUOTE || s[0] == BACKSLASH || s[0] == 0x2F then Some((s[0], 1))
    else if s[0] == 0x62 then Some((0x08, 1))
    else if s[0] == 0x66 then Some((0x0C, 1))
    else if s[0] == 0x6E then Some((0x0A, 1))
    else if s[0] == 0x72 then Some((0x0D, 1))
    else if s[0] == 0x74 then Some((0x09, 1))
    else if s[0] == LETTER_U && |s| >= 5 then Hexadecimal(s[1], s[2], s[3], s[4])
    else None
  }

  function Hexadecimal(a: CodeUnit, b: CodeUnit, c: CodeUnit, d: CodeUnit): (r: Option<(CodeUnit, nat)>)
    ensures r.Some? ==> r.value.1 == 5
  {
    match (HexValue(a), HexValue(b), HexValue(c), HexValue(d))
    case (Some(w), Some(x), Some(y), Some(z)) => Some((w * 0x1000 + x * 0x100 + y * 0x10 + z, 5))
    case _ => None
  }

  /** The rest of a string whose opening quote has been read. */
  function ParseString(s: Text): (r: Option<(Text, Text)>)
    ensures r.Some? ==> |r.value.1| < |s|
    decreases |s|
  {
    if s == [] || s[0] < 0x20 then None
    else if s[0] == QUOTE then Some(([], s[1..]))
    else if s[0] == BACKSLASH then
      match Unescape(s[1..])
      case None => None
      case Some((unit, length)) => Prepend(unit, ParseString(s[1 + length..]))
    else Prepend(s[0], ParseString(s[1..]))
  }

  function Prepend(unit: CodeUnit, parsed: Option<(Text, Text)>): Option<(Text, Text)> {
    match parsed
    case None => None
    case Some((text, rest)) => Some(([unit] + text, rest))
  }

  /** The value a text starts with, and what follows it. */
  function ParseValue(s: Text): (r: Option<(Json, Text)>)
    ensures r.Some? ==> |r.value.1| < |s|
    decreases |s|, 0
  {
    if s == [] then None
    else if s[0] == OPEN_BRACE then
      var inner := SkipSpace(s[1..]);
      if StartsWith(inner, CLOSE_BRACE) then Some((Object([]), inner[1..]))
      else
        match ParseMembers(inner)
        case None => None
        case Some((members, rest)) => Some((Object(members), rest))
    else if s[0] == OPEN_BRACKET then
      var inner := SkipSpace(s[1..]);
      if StartsWith(inner, CLOSE_BRACKET) then Some((Array([]), inner[1..]))
      else
        match ParseItems(inner)
        case None => None
        case Some((items, rest)) => Some((Array(items), rest))
    else if s[0] == QUOTE then
      match ParseString(s[1..])
      case None => None
      case Some((text, rest)) => Some((String(text), rest))
    else ParseScalar(s)
  }

  function ParseScalar(s: Text): (r: Option<(Json, Text)>)
    ensures r.Some? ==> |r.value.1| < |s|
  {
    if NULL_WORD <= s then Some((Null, s[4..]))
    else if TRUE_WORD <= s then Some((Boolean(true), s[4..]))
    else if FALSE_WORD <= s then Some((Boolean(false), s[5..]))
    else if NumeralLength(s) > 0 then Some((Number(s[..NumeralLength(s)]), s[NumeralLength(s)..]))
    else None
  }

  /** One or more items up to and including the closing bracket. */
  function ParseItems(s: Text): (r: Option<(seq<Json>, Text)>)
    ensures r.Some? ==> |r.value.1| < |s|
    decreases |s|, 1
  {
    match ParseValue(s)
    case None => None
    case Some((item, rest)) =>
      var next := SkipSpace(rest);
      if StartsWith(next, CLOSE_BRACKET) then Some(([item], next[1..]))
      else if !StartsWith(next, COMMA) then None
      else
        match ParseItems(SkipSpace(next[1..]))
        case None => None
        case Some((items, last)) => Some(([item] + items, last))
  }

  /** A key, its colon and its value. */
  function ParseMember(s: Text): (r: Option<(Member, Text)>)
    ensures r.Some? ==> |r.value.1| < |s|
    decreases |s|, 1
  {
    if !StartsWith(s, QUOTE) then None
    else
      match ParseString(s[1..])
      case None => None
      case Some((key, rest)) =>
        var colon := SkipSpace(rest);
        if !StartsWith(colon, COLON) then None
        else
          match ParseValue(SkipSpace(colon[1..]))
          case None => None
          case Some((value, last)) => Some((Member(key, value), last))
  }

  /** One or more members up to and including the closing brace. */
  function ParseMembers(s: Text): (r: Option<(seq<Member>, Text)>)
    ensures r.Some? ==> |r.value.1| < |s|
    decreases |s|, 2
  {
    match ParseMember(s)
    case None => None
    case Some((member, rest)) =>
      var next := SkipSpace(rest);
      if StartsWith(next, CLOSE_BRACE) then Some(([member], next[1..]))
      else if !StartsWith(next, COMMA) then None
      else
        match ParseMembers(SkipSpace(next[1..]))
        case None => None
        case Some((members, last)) => Some(([member] + members, last))
  }

  /** A whole document, with white space allowed around the value. */
  function Parse(s: Text): Option<Json> {
    match ParseValue(SkipSpace(s))
    case None => None
    case Some((value, rest)) => if SkipSpace(rest) == [] then Some(value) else None
  }

  // ---- What is printed reads back ----------------------------------------------------------------

  lemma {:induction false} DigitsStop(t: Text, rest: Text)
    requires EndsNumeral(rest)
    ensures Digits(t + rest) == Digits(t)
    decreases |t|
  {
    if t == [] {
      assert t + rest == rest;
    } else {
      assert (t + rest)[1..] == t[1..] + rest;
      DigitsStop(t[1..], rest);
    }
  }

  lemma FractionStops(t: Text, rest: Text)
    requires EndsNumeral(rest)
    ensures Fraction(t + rest) == Fraction(t)
  {
    if t == [] {
      assert t + rest == rest;
    } else {
      assert (t + rest)[1..] == t[1..] + rest;
      DigitsStop(t[1..], rest);
    }
  }

  lemma ExponentStops(t: Text, rest: Text)
    requires EndsNumeral(rest)
    ensures Exponent(t + rest) == Exponent(t)
  {
    if t == [] {
      assert t + rest == rest;
    } else {
      assert (t + rest)[1..] == t[1..] + rest;
      DigitsStop(t[1..], rest);
      if |t| > 1 {
        assert (t + rest)[2..] == t[2..] + rest;
        DigitsStop(t[2..], rest);
      }
    }
  }

  lemma NumeralStops(t: Text, rest: Text)
    requires IsNumeral(t) && EndsNumeral(rest)
    ensures NumeralLength(t + rest) == |t|
    ensures t[0] == 0x2D || IsDigit(t[0])
  {
    hide Digits, Fraction, Exponent;
    var sign := if t[0] == 0x2D then 1 else 0;
    assert (t + rest)[sign..] == t[sign..] + rest;
    DigitsStop(t[sign..], rest);
    var whole := sign + Whole(t[sign..]);
    assert whole > sign;
    assert (t + rest)[whole..] == t[whole..] + rest;
    FractionStops(t[whole..], rest);
    var fraction := whole + Fraction(t[whole..]);
    assert (t + rest)[fraction..] == t[fraction..] + rest;
    ExponentStops(t[fraction..], rest);
  }

  lemma EscapeReadsBack(u: CodeUnit, rest: Text)
    ensures ParseString(Escape(u) + rest) == Prepend(u, ParseString(rest))
  {
    var s := Escape(u) + rest;
    if Escape(u)[0] == BACKSLASH {
      var length := |Escape(u)| - 1;
      assert s[1 + length..] == rest;
      assert Unescape(s[1..]) == Some((u, length));
    } else {
      assert s[1..] == rest;
    }
  }

  lemma {:induction false} StringReadsBack(text: Text, rest: Text)
    ensures ParseString(EscapeAll(text) + [QUOTE] + rest) == Some((text, rest))
    decreases |text|
  {
    hide Escape, Unescape;
    if text == [] {
      assert EscapeAll(text) + [QUOTE] + rest == [QUOTE] + rest;
    } else {
      var tail := EscapeAll(text[1..]) + [QUOTE] + rest;
      assert EscapeAll(text) + [QUOTE] + rest == Escape(text[0]) + tail;
      EscapeReadsBack(text[0], tail);
      StringReadsBack(text[1..], rest);
      assert [text[0]] + text[1..] == text;
    }
  }

  lemma ItemsStart(items: seq<Json>)
    requires items != [] && WellFormed(items[0])
    ensures PrintItems(items) != [] && !IsSpace(PrintItems(items)[0]) && PrintItems(items)[0] != CLOSE_BRACKET
  {
  }

  lemma PrintStarts(v: Json)
    requires WellFormed(v)
    ensures Print(v) != [] && !IsSpace(Print(v)[0]) && Print(v)[0] != CLOSE_BRACKET
  {
  }

  lemma ScalarReadsBack(v: Json, rest: Text)
    requires !v.Array? && !v.Object? && WellFormed(v) && (v.Number? ==> EndsNumeral(rest))
    ensures ParseValue(Print(v) + rest) == Some((v, rest))
  {
    hide ParseItems, ParseMembers, ParseString, EscapeAll, NumeralLength;
    var s := Print(v) + rest;
    match v
    case Null =>
      assert s[4..] == rest;
    case Boolean(truth) =>
      assert s[if truth then 4 else 5..] == rest;
    case Number(numeral) =>
      NumeralStops(numeral, rest);
      assert s[..|numeral|] == numeral && s[|numeral|..] == rest;
    case String(text) =>
      assert s[1..] == EscapeAll(text) + [QUOTE] + rest;
      StringReadsBack(text, rest);
  }

  lemma BracketedItems(items: seq<Json>, inner: Text, rest: Text)
    requires items != [] && inner != [] && !IsSpace(inner[0]) && inner[0] != CLOSE_BRACKET
    requires ParseItems(inner) == Some((items, rest))
    ensures ParseValue([OPEN_BRACKET] + inner) == Some((Array(items), rest))
  {
  }

  lemma BracedMembers(members: seq<Member>, inner: Text, rest: Text)
    requires members != [] && inner != [] && inner[0] == QUOTE
    requires ParseMembers(inner) == Some((members, rest))
    ensures ParseValue([OPEN_BRACE] + inner) == Some((Object(members), rest))
  {
  }

  lemma EmptyReadsBack(rest: Text)
    ensures ParseValue(Print(Array([])) + rest) == Some((Array([]), rest))
    ensures ParseValue(Print(Object([])) + rest) == Some((Object([]), rest))
  {
  }

  /** Whatever follows, unless it would continue a number. */
  lemma {:induction false} ValueReadsBack(v: Json, rest: Text)
    requires WellFormed(v) && (v.Number? ==> EndsNumeral(rest))
    ensures ParseValue(Print(v) + rest) == Some((v, rest))
    decreases v
  {
    hide ParseValue, ParseItems, ParseMembers, PrintItems, PrintMembers;
    if v == Array([]) || v == Object([]) {
      EmptyReadsBack(rest);
    } else if v.Array? {
      ItemsStart(v.items);
      ItemsReadBack(v.items, rest);
      var inner := PrintItems(v.items) + [CLOSE_BRACKET] + rest;
      BracketedItems(v.items, inner, rest);
      assert Print(v) + rest == [OPEN_BRACKET] + inner;
    } else if v.Object? {
      MembersStart(v.members);
      MembersReadBack(v.members, rest);
      var inner := PrintMembers(v.members) + [CLOSE_BRACE] + rest;
      BracedMembers(v.members, inner, rest);
      assert Print(v) + rest == [OPEN_BRACE] + inner;
    } else {
      ScalarReadsBack(v, rest);
    }
  }

  lemma {:induction false} ItemsReadBack(items: seq<Json>, rest: Text)
    requires items != [] && forall i :: 0 <= i < |items| ==> WellFormed(items[i])
    ensures ParseItems(PrintItems(items) + [CLOSE_BRACKET] + rest) == Some((items, rest))
    decreases items
  {
    hide ParseValue, Print, WellFormed, ParseMembers, PrintMembers;
    var s := PrintItems(items) + [CLOSE_BRACKET] + rest;
    if |items| == 1 {
      assert s == Print(items[0]) + ([CLOSE_BRACKET] + rest);
      ValueReadsBack(items[0], [CLOSE_BRACKET] + rest);
      assert items == [items[0]];
    } else {
      var after := PrintItems(items[1..]) + [CLOSE_BRACKET] + rest;
      assert s == Print(items[0]) + ([COMMA] + after);
      ValueReadsBack(items[0], [COMMA] + after);
      ItemsReadBack(items[1..], rest);
      PrintStarts(items[1]);
      assert SkipSpace(after) == after;
      assert ([COMMA] + after)[1..] == after;
      assert items == [items[0]] + items[1..];
    }
  }

  lemma {:induction false} MemberReadsBack(member: Member, rest: Text)
    requires WellFormed(member.value) && EndsNumeral(rest)
    ensures ParseMember(PrintMember(member) + rest) == Some((member, rest))
    decreases member, 0
  {
    hide ParseValue, Print, WellFormed, ParseString, EscapeAll;
    var s := PrintMember(member) + rest;
    var value := Print(member.value) + rest;
    assert s[1..] == EscapeAll(member.key) + [QUOTE] + ([COLON] + value);
    StringReadsBack(member.key, [COLON] + value);
    PrintStarts(member.value);
    assert SkipSpace(value) == value;
    assert ([COLON] + value)[1..] == value;
    ValueReadsBack(member.value, rest);
  }

  lemma MembersStart(members: seq<Member>)
    requires members != []
    ensures PrintMembers(members) != [] && PrintMembers(members)[0] == QUOTE
  {
  }

  lemma MoreMembers(s: Text, member: Member, after: Text, members: seq<Member>, rest: Text)
    requires ParseMember(s) == Some((member, [COMMA] + after))
    requires after != [] && !IsSpace(after[0])
    requires ParseMembers(after) == Some((members, rest))
    ensures ParseMembers(s) == Some(([member] + members, rest))
  {
  }

  lemma LastMember(s: Text, member: Member, rest: Text)
    requires ParseMember(s) == Some((member, [CLOSE_BRACE] + rest))
    ensures ParseMembers(s) == Some(([member], rest))
  {
  }

  lemma {:induction false} MembersReadBack(members: seq<Member>, rest: Text)
    requires members != [] && forall i :: 0 <= i < |members| ==> WellFormed(members[i].value)
    ensures ParseMembers(PrintMembers(members) + [CLOSE_BRACE] + rest) == Some((members, rest))
    decreases members
  {
    hide ParseMember, ParseMembers, PrintMember, WellFormed, ParseValue, Print;
    var s := PrintMembers(members) + [CLOSE_BRACE] + rest;
    if |members| == 1 {
      assert s == PrintMember(members[0]) + ([CLOSE_BRACE] + rest);
      MemberReadsBack(members[0], [CLOSE_BRACE] + rest);
      LastMember(s, members[0], rest);
      assert members == [members[0]];
    } else {
      var after := PrintMembers(members[1..]) + [CLOSE_BRACE] + rest;
      assert s == PrintMember(members[0]) + ([COMMA] + after);
      MemberReadsBack(members[0], [COMMA] + after);
      MembersReadBack(members[1..], rest);
      MembersStart(members[1..]);
      MoreMembers(s, members[0], after, members[1..], rest);
      assert members == [members[0]] + members[1..];
    }
  }

  /** Parsing undoes printing. */
  lemma ParseUndoesPrint(v: Json)
    requires WellFormed(v)
    ensures Parse(Print(v)) == Some(v)
  {
    PrintStarts(v);
    assert Print(v) + [] == Print(v);
    ValueReadsBack(v, []);
  }

  /** Equal texts come from equal trees. */
  lemma PrintInjective(a: Json, b: Json)
    requires WellFormed(a) && WellFormed(b) && Print(a) == Print(b)
    ensures a == b
  {
    ParseUndoesPrint(a);
    ParseUndoesPrint(b);
  }

  // ---- A text cut behind what was parsed -----------------------------------------------------------

  lemma {:induction false} DigitsCut(s: Text, n: nat)
    requires Digits(s) <= n <= |s|
    ensures Digits(s[..n]) == Digits(s)
    decreases |s|
  {
    if Digits(s) > 0 {
      DigitsCut(s[1..], n - 1);
      assert s[..n][1..] == s[1..][..n - 1];
    }
  }

  lemma WholeCut(s: Text, n: nat)
    requires Whole(s) <= n <= |s| && Whole(s) > 0
    ensures Whole(s[..n]) == Whole(s)
  {
    if s[0] != 0x30 {
      DigitsCut(s, n);
    }
  }

  lemma FractionCut(s: Text, n: nat)
    requires Fraction(s) <= n <= |s|
    ensures Fraction(s[..n]) == Fraction(s)
  {
    if n > 0 && s[0] == 0x2E {
      DigitsCut(s[1..], n - 1);
      assert s[..n][1..] == s[1..][..n - 1];
    }
  }

  lemma ExponentCut(s: Text, n: nat)
    requires Exponent(s) <= n <= |s|
    ensures Exponent(s[..n]) == Exponent(s)
  {
    if n > 1 && IsExponentMark(s[0]) {
      var sign := if s[1] == 0x2B || s[1] == 0x2D then 1 else 0;
      DigitsCut(s[1 + sign..], n - 1 - sign);
      assert s[..n][1 + sign..] == s[1 + sign..][..n - 1 - sign];
    } else if n == 1 {
      assert s[..1][1..] == [];
    }
  }

  lemma NumeralCut(s: Text, n: nat)
    requires 0 < NumeralLength(s) <= n <= |s|
    ensures NumeralLength(s[..n]) == NumeralLength(s)
  {
    hide Digits, Fraction, Exponent, Whole;
    var sign := if s[0] == 0x2D then 1 else 0;
    var whole := sign + Whole(s[sign..]);
    var fraction := whole + Fraction(s[whole..]);
    assert s[..n][sign..] == s[sign..][..n - sign];
    WholeCut(s[sign..], n - sign);
    assert s[..n][whole..] == s[whole..][..n - whole];
    FractionCut(s[whole..], n - whole);
    assert s[..n][fraction..] == s[fraction..][..n - fraction];
    ExponentCut(s[fraction..], n - fraction);
  }

  lemma {:induction false} SpaceCut(s: Text, n: nat)
    requires |s| - |SkipSpace(s)| <= n <= |s|
    ensures SkipSpace(s[..n]) == SkipSpace(s)[..n - (|s| - |SkipSpace(s)|)]
    decreases |s|
  {
    if s != [] && IsSpace(s[0]) {
      SpaceCut(s[1..], n - 1);
      assert s[..n][1..] == s[1..][..n - 1];
    }
  }

  lemma UnescapeCut(s: Text, n: nat)
    requires Unescape(s).Some? && Unescape(s).value.1 <= n <= |s|
    ensures Unescape(s[..n]) == Unescape(s)
  {
    hide HexValue;
  }

  lemma {:induction false} StringCut(s: Text, n: nat)
    requires ParseString(s).Some? && |s| - |ParseString(s).value.1| <= n <= |s|
    ensures
      var (text, rest) := ParseString(s).value;
      ParseString(s[..n]) == Some((text, rest[..n - (|s| - |rest|)]))
    decreases |s|
  {
    hide Unescape;
    if s[0] == QUOTE {
      assert s[..n][1..] == s[1..][..n - 1];
    } else if s[0] == BACKSLASH {
      var length := Unescape(s[1..]).value.1;
      assert s[..n][1..] == s[1..][..n - 1];
      UnescapeCut(s[1..], n - 1);
      assert s[..n][1 + length..] == s[1 + length..][..n - 1 - length];
      StringCut(s[1 + length..], n - 1 - length);
    } else {
      assert s[..n][1..] == s[1..][..n - 1];
      StringCut(s[1..], n - 1);
    }
  }

  lemma ScalarCut(s: Text, n: nat)
    requires ParseScalar(s).Some? && |s| - |ParseScalar(s).value.1| <= n <= |s|
    ensures
      var (v, rest) := ParseScalar(s).value;
      ParseScalar(s[..n]) == Some((v, rest[..n - (|s| - |rest|)]))
  {
    hide NumeralLength;
    var m := |s| - |ParseScalar(s).value.1|;
    assert s[..n][m..] == s[m..][..n - m];
    if !(NULL_WORD <= s) && !(TRUE_WORD <= s) && !(FALSE_WORD <= s) {
      NumeralCut(s, n);
      assert s[..n][..m] == s[..m];
    } else {
      assert forall word: Text :: word <= s && |word| <= n ==> word <= s[..n];
    }
  }

  /** Parsing does not look behind the end of what it takes. */
  lemma {:induction false} ValueCut(s: Text, n: nat)
    requires ParseValue(s).Some? && |s| - |ParseValue(s).value.1| <= n <= |s|
    ensures
      var (v, rest) := ParseValue(s).value;
      ParseValue(s[..n]) == Some((v, rest[..n - (|s| - |rest|)]))
    decreases |s|, 0
  {
    hide ParseItems, ParseMembers, ParseString, ParseScalar, SkipSpace;
    assert s[..n][1..] == s[1..][..n - 1];
    if s[0] == OPEN_BRACE {
      var inner := SkipSpace(s[1..]);
      var k := n - 1 - (|s[1..]| - |inner|);
      SpaceCut(s[1..], n - 1);
      if StartsWith(inner, CLOSE_BRACE) {
        assert inner[..k][1..] == inner[1..][..k - 1];
      } else {
        MembersCut(inner, k);
      }
    } else if s[0] == OPEN_BRACKET {
      var inner := SkipSpace(s[1..]);
      var k := n - 1 - (|s[1..]| - |inner|);
      SpaceCut(s[1..], n - 1);
      if StartsWith(inner, CLOSE_BRACKET) {
        assert inner[..k][1..] == inner[1..][..k - 1];
      } else {
        ItemsCut(inner, k);
      }
    } else if s[0] == QUOTE {
      StringCut(s[1..], n - 1);
    } else {
      ScalarCut(s, n);
    }
  }

  lemma {:induction false} ItemsCut(s: Text, n: nat)
    requires ParseItems(s).Some? && |s| - |ParseItems(s).value.1| <= n <= |s|
    ensures
      var (items, rest) := ParseItems(s).value;
      ParseItems(s[..n]) == Some((items, rest[..n - (|s| - |rest|)]))
    decreases |s|, 1
  {
    hide ParseValue, SkipSpace;
    var rest := ParseValue(s).value.1;
    var next := SkipSpace(rest);
    var j := n - (|s| - |rest|);
    var k := j - (|rest| - |next|);
    ValueCut(s, n);
    SpaceCut(rest, j);
    assert next[..k][1..] == next[1..][..k - 1];
    if !StartsWith(next, CLOSE_BRACKET) {
      var following := SkipSpace(next[1..]);
      SpaceCut(next[1..], k - 1);
      ItemsCut(following, k - 1 - (|next[1..]| - |following|));
    }
  }

  lemma {:induction false} MemberCut(s: Text, n: nat)
    requires ParseMember(s).Some? && |s| - |ParseMember(s).value.1| <= n <= |s|
    ensures
      var (member, rest) := ParseMember(s).value;
      ParseMember(s[..n]) == Some((member, rest[..n - (|s| - |rest|)]))
    decreases |s|, 1
  {
    hide ParseValue, ParseString, SkipSpace;
    var rest := ParseString(s[1..]).value.1;
    var colon := SkipSpace(rest);
    var value := SkipSpace(colon[1..]);
    var j := n - (|s| - |rest|);
    var k := j - (|rest| - |colon|);
    assert s[..n][1..] == s[1..][..n - 1];
    StringCut(s[1..], n - 1);
    SpaceCut(rest, j);
    assert colon[..k][1..] == colon[1..][..k - 1];
    SpaceCut(colon[1..], k - 1);
    ValueCut(value, k - 1 - (|colon[1..]| - |value|));
  }

  lemma {:induction false} MembersCut(s: Text, n: nat)
    requires ParseMembers(s).Some? && |s| - |ParseMembers(s).value.1| <= n <= |s|
    ensures
      var (members, rest) := ParseMembers(s).value;
      ParseMembers(s[..n]) == Some((members, rest[..n - (|s| - |rest|)]))
    decreases |s|, 2
  {
    hide ParseMember, SkipSpace;
    var rest := ParseMember(s).value.1;
    var next := SkipSpace(rest);
    var j := n - (|s| - |rest|);
    var k := j - (|rest| - |next|);
    MemberCut(s, n);
    SpaceCut(rest, j);
    assert next[..k][1..] == next[1..][..k - 1];
    if !StartsWith(next, CLOSE_BRACE) {
      var following := SkipSpace(next[1..]);
      SpaceCut(next[1..], k - 1);
      MembersCut(following, k - 1 - (|next[1..]| - |following|));
    }
  }
}
