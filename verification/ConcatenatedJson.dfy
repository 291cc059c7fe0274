/**
 Splitting a stream of concatenated JSON objects by counting braces outside strings.

 The scanner knows nothing of JSON but quotes, backslashes and braces.  It is proved against the
 parser of the whole grammar: whatever objects are in the stream, however they are written and
 whatever their strings contain, those objects come out, in order.
 */
module ConcatenatedJson {

  import opened Options
  import opened UnicodeText
  import opened JsonText

  /** `pending` is the text since the brace that opened the object being collected. */
  datatype Scan = Scan(depth: int, pending: Option<Text>, inString: bool, escaped: bool, out: seq<Json>)

  function Between(out: seq<Json>): Scan {
    Scan(0, None, false, false, out)
  }

  function Append(pending: Option<Text>, ch: CodeUnit): Option<Text> {
    if pending.Some? then Some(pending.value + [ch]) else None
  }

  /** The object a collected text holds, if it is JSON at all. */
  function Collected(text: Text): seq<Json> {
    match Parse(text)
    case Some(value) => [value]
    case None => []
  }

  function Step(st: Scan, ch: CodeUnit): Scan {
    var more := Append(st.pending, ch);
    if st.inString then
      if st.escaped then st.(escaped := false, pending := more)
      else if ch == BACKSLASH then st.(escaped := true, pending := more)
      else if ch == QUOTE then st.(inString := false, pending := more)
      else st.(pending := more)
    else if ch == QUOTE then st.(inString := true, pending := more)
    else if ch == OPEN_BRACE then
      st.(depth := st.depth + 1, pending := if st.depth == 0 then Some([ch]) else more)
    else if ch == CLOSE_BRACE then
      if st.depth - 1 == 0 && more.Some? then
        st.(depth := 0, pending := None, out := st.out + Collected(more.value))
      else st.(depth := st.depth - 1, pending := more)
    else st.(pending := more)
  }

  function Run(st: Scan, s: Text): Scan
    decreases |s|
  {
    if s == [] then st else Run(Step(st, s[0]), s[1..])
  }

  /** The loop's variables, `i` units in, as a scanner state. */
  function Variables(text: Text, i: nat, depth: int, start: int, inString: bool, escaped: bool, out: seq<Json>): Scan
    requires -1 <= start <= i <= |text|
  {
    Scan(depth, if start >= 0 then Some(text[start..i]) else None, inString, escaped, out)
  }

  method ParseStream(text: Text) returns (out: seq<Json>)
    ensures out == Run(Between([]), text).out
  {
    hide Run, Parse;
    out := [];
    var depth := 0;
    var start := -1;
    var inString := false;
    var escaped := false;
    assert text[0..] == text;
    for i := 0 to |text|
      invariant -1 <= start <= i
      invariant Run(Between([]), text) == Run(Variables(text, i, depth, start, inString, escaped, out), text[i..])
    {
      var ch := text[i];
      ghost var before := Variables(text, i, depth, start, inString, escaped, out);
      NextUnit(before, text, i);
      assert start >= 0 ==> text[start..i] + [ch] == text[start..i + 1];
      if inString {
        if escaped {
          escaped := false;
        } else if ch == BACKSLASH {
          escaped := true;
        } else if ch == QUOTE {
          inString := false;
        }
        assert Variables(text, i + 1, depth, start, inString, escaped, out) == Step(before, ch);
        continue;
      }
      if ch == QUOTE {
        inString := true;
      } else if ch == OPEN_BRACE {
        if depth == 0 {
          start := i;
          assert text[i..i + 1] == [ch];
        }
        depth := depth + 1;
      } else if ch == CLOSE_BRACE {
        depth := depth - 1;
        if depth == 0 && start >= 0 {
          var parsed := Parse(text[start..i + 1]);
          if parsed.Some? {
            out := out + [parsed.value];
          }
          start := -1;
        }
      }
      assert Variables(text, i + 1, depth, start, inString, escaped, out) == Step(before, ch);
    }
    assert text[|text|..] == [];
    NothingLeft(Variables(text, |text|, depth, start, inString, escaped, out));
  }

  lemma NextUnit(st: Scan, s: Text, i: nat)
    requires i < |s|
    ensures Run(st, s[i..]) == Run(Step(st, s[i]), s[i + 1..])
  {
  }

  // ---- Splitting ------------------------------------------------------------------------------------

  lemma {:induction false} RunConcatenates(st: Scan, a: Text, b: Text)
    ensures Run(st, a + b) == Run(Run(st, a), b)
    decreases |a|
  {
    if a == [] {
      assert a + b == b;
    } else {
      assert (a + b)[1..] == a[1..] + b;
      RunConcatenates(Step(st, a[0]), a[1..], b);
    }
  }

  lemma {:induction false} OutputOnlyGrows(st: Scan, earlier: seq<Json>, s: Text)
    ensures
      var r := Run(st, s);
      Run(st.(out := earlier + st.out), s) == r.(out := earlier + r.out)
    decreases |s|
  {
    if s != [] {
      var next := Step(st, s[0]);
      assert Step(st.(out := earlier + st.out), s[0]) == next.(out := earlier + next.out);
      OutputOnlyGrows(next, earlier, s[1..]);
    }
  }

  ghost predicate Neutral(st: Scan) {
    st == Between(st.out)
  }

  /** At any point between objects the stream may be cut and the parts scanned separately. */
  lemma SplitsAtNeutralPoints(a: Text, b: Text)
    requires Neutral(Run(Between([]), a))
    ensures Run(Between([]), a + b).out == Run(Between([]), a).out + Run(Between([]), b).out
  {
    var first := Run(Between([]), a);
    RunConcatenates(Between([]), a, b);
    assert first == Between([]).(out := first.out + []);
    OutputOnlyGrows(Between([]), first.out, b);
  }

  /** A text is being collected exactly while the depth is positive. */
  lemma {:induction false} CollectsExactlyInside(s: Text, st: Scan)
    requires (st.pending.Some? <==> st.depth >= 1) && (st.escaped ==> st.inString)
    ensures Run(st, s).pending.Some? <==> Run(st, s).depth >= 1
    ensures Run(st, s).escaped ==> Run(st, s).inString
    decreases |s|
  {
    if s != [] {
      CollectsExactlyInside(s[1..], Step(st, s[0]));
    }
  }

  // ---- What the scanner does on a value inside an object ----------------------------------------------

  predicate Plain(ch: CodeUnit) {
    ch != QUOTE && ch != OPEN_BRACE && ch != CLOSE_BRACE
  }

  /** Collecting `t` from its start, `i` units in, `depth` braces deep. */
  function At(t: Text, i: nat, depth: int, out: seq<Json>): Scan
    requires i <= |t|
  {
    Scan(depth, Some(t[..i]), false, false, out)
  }

  /** From `i` the scanner reaches `j`, `depth` as before, with nothing put out. */
  predicate Passes(t: Text, i: nat, j: nat, depth: int, out: seq<Json>)
    requires i <= |t|
  {
    i <= j <= |t| && Run(At(t, i, depth, out), t[i..]) == Run(At(t, j, depth, out), t[j..])
  }

  lemma Onward(t: Text, i: nat, j: nat, k: nat, depth: int, out: seq<Json>)
    requires i <= |t| && Passes(t, i, j, depth, out) && Passes(t, j, k, depth, out)
    ensures Passes(t, i, k, depth, out)
  {
  }

  lemma Advance(t: Text, i: nat, st: Scan)
    requires i < |t|
    ensures Run(st, t[i..]) == Run(Step(st, t[i]), t[i + 1..])
    ensures t[..i] + [t[i]] == t[..i + 1]
  {
  }

  lemma {:induction false} PlainPasses(t: Text, i: nat, j: nat, depth: int, out: seq<Json>)
    requires i <= j <= |t| && forall k :: i <= k < j ==> Plain(t[k])
    ensures Passes(t, i, j, depth, out)
    decreases j - i
  {
    if i < j {
      Advance(t, i, At(t, i, depth, out));
      PlainPasses(t, i + 1, j, depth, out);
    }
  }

  /** The rest of a parse is the text from some point on. */
  predicate RestAt(t: Text, rest: Text, j: nat) {
    j <= |t| && rest == t[j..]
  }

  lemma SpacePasses(t: Text, i: nat, depth: int, out: seq<Json>) returns (j: nat)
    requires i <= |t|
    ensures RestAt(t, SkipSpace(t[i..]), j) && Passes(t, i, j, depth, out)
    decreases |t| - i
  {
    j := i;
    if i < |t| && IsSpace(t[i]) {
      assert t[i..][1..] == t[i + 1..];
      j := SpacePasses(t, i + 1, depth, out);
      PlainPasses(t, i, i + 1, depth, out);
    }
  }

  function InString(t: Text, i: nat, depth: int, out: seq<Json>): Scan
    requires i <= |t|
  {
    At(t, i, depth, out).(inString := true)
  }

  lemma {:induction false} OrdinaryUnits(t: Text, i: nat, j: nat, depth: int, out: seq<Json>)
    requires i <= j <= |t| && forall k :: i <= k < j ==> t[k] != QUOTE && t[k] != BACKSLASH
    ensures Run(InString(t, i, depth, out), t[i..]) == Run(InString(t, j, depth, out), t[j..])
    decreases j - i
  {
    if i < j {
      Advance(t, i, InString(t, i, depth, out));
      OrdinaryUnits(t, i + 1, j, depth, out);
    }
  }

  lemma EscapeIsSkipped(t: Text, i: nat, length: nat, depth: int, out: seq<Json>)
    requires i < |t| && t[i] == BACKSLASH
    requires Unescape(t[i + 1..]).Some? && Unescape(t[i + 1..]).value.1 == length
    ensures i + 1 + length <= |t|
    ensures Run(InString(t, i, depth, out), t[i..]) ==
            Run(InString(t, i + 1 + length, depth, out), t[i + 1 + length..])
  {
    Advance(t, i, InString(t, i, depth, out));
    Advance(t, i + 1, InString(t, i + 1, depth, out).(escaped := true));
    if length == 5 {
      var s := t[i + 1..];
      assert HexValue(s[1]).Some? && HexValue(s[2]).Some? && HexValue(s[3]).Some? && HexValue(s[4]).Some?;
    }
    OrdinaryUnits(t, i + 2, i + 1 + length, depth, out);
  }

  /** Quotes and braces inside a string do not deceive the scanner. */
  lemma {:induction false} StringPasses(t: Text, i: nat, depth: int, out: seq<Json>) returns (j: nat)
    requires i <= |t| && ParseString(t[i..]).Some?
    ensures i < j && RestAt(t, ParseString(t[i..]).value.1, j)
    ensures Run(InString(t, i, depth, out), t[i..]) == Run(At(t, j, depth, out), t[j..])
    decreases |t| - i
  {
    hide Unescape;
    assert t[i..][1..] == t[i + 1..];
    if t[i] == QUOTE {
      Advance(t, i, InString(t, i, depth, out));
      j := i + 1;
    } else if t[i] == BACKSLASH {
      var length := Unescape(t[i + 1..]).value.1;
      EscapeIsSkipped(t, i, length, depth, out);
      assert t[i..][1 + length..] == t[i + 1 + length..];
      j := StringPasses(t, i + 1 + length, depth, out);
    } else {
      OrdinaryUnits(t, i, i + 1, depth, out);
      j := StringPasses(t, i + 1, depth, out);
    }
  }

  lemma QuotedPasses(t: Text, i: nat, depth: int, out: seq<Json>) returns (j: nat)
    requires i < |t| && t[i] == QUOTE && ParseString(t[i..][1..]).Some?
    ensures i < j && RestAt(t, ParseString(t[i..][1..]).value.1, j) && Passes(t, i, j, depth, out)
  {
    hide ParseString;
    assert t[i..][1..] == t[i + 1..];
    Advance(t, i, At(t, i, depth, out));
    j := StringPasses(t, i + 1, depth, out);
  }

  lemma {:induction false} DigitsArePlain(s: Text, k: nat)
    requires k < Digits(s)
    ensures Plain(s[k])
    decreases |s|
  {
    if k > 0 {
      DigitsArePlain(s[1..], k - 1);
    }
  }

  lemma FractionIsPlain(s: Text, k: nat)
    requires k < Fraction(s)
    ensures Plain(s[k])
  {
    if k > 0 {
      DigitsArePlain(s[1..], k - 1);
    }
  }

  lemma ExponentIsPlain(s: Text, k: nat)
    requires k < Exponent(s)
    ensures Plain(s[k])
  {
    var sign := if |s| > 1 && (s[1] == 0x2B || s[1] == 0x2D) then 1 else 0;
    if k >= 1 + sign {
      DigitsArePlain(s[1 + sign..], k - 1 - sign);
    }
  }

  lemma NumeralIsPlain(s: Text, k: nat)
    requires k < NumeralLength(s)
    ensures Plain(s[k])
  {
    hide Digits, Fraction, Exponent;
    var sign := if s[0] == 0x2D then 1 else 0;
    var whole := sign + Whole(s[sign..]);
    var fraction := whole + Fraction(s[whole..]);
    if sign <= k < whole {
      if s[sign] != 0x30 {
        DigitsArePlain(s[sign..], k - sign);
      }
    } else if whole <= k < fraction {
      FractionIsPlain(s[whole..], k - whole);
    } else if k >= fraction {
      ExponentIsPlain(s[fraction..], k - fraction);
    }
  }

  lemma ScalarPasses(t: Text, i: nat, depth: int, out: seq<Json>) returns (j: nat)
    requires i < |t| && ParseScalar(t[i..]).Some?
    ensures i < j && RestAt(t, ParseScalar(t[i..]).value.1, j) && Passes(t, i, j, depth, out)
  {
    hide NumeralLength;
    var s := t[i..];
    if NULL_WORD <= s || TRUE_WORD <= s {
      j := i + 4;
      WordIsPlain(s, if NULL_WORD <= s then NULL_WORD else TRUE_WORD);
    } else if FALSE_WORD <= s {
      j := i + 5;
      WordIsPlain(s, FALSE_WORD);
    } else {
      j := i + NumeralLength(s);
      forall k | 0 <= k < NumeralLength(s) ensures Plain(s[k]) {
        NumeralIsPlain(s, k);
      }
    }
    forall k | i <= k < j ensures Plain(t[k]) {
      assert Plain(s[k - i]);
    }
    PlainPasses(t, i, j, depth, out);
  }

  lemma WordIsPlain(s: Text, word: Text)
    requires word <= s && forall k :: 0 <= k < |word| ==> Plain(word[k])
    ensures forall k :: 0 <= k < |word| ==> Plain(s[k])
  {
  }

  /** A value inside an object leaves the scanner as it was, past the value. */
  lemma {:induction false} ValuePasses(t: Text, i: nat, depth: int, out: seq<Json>) returns (j: nat)
    requires i <= |t| && depth >= 1 && ParseValue(t[i..]).Some?
    ensures i < j && RestAt(t, ParseValue(t[i..]).value.1, j) && Passes(t, i, j, depth, out)
    decreases |t| - i, 0
  {
    hide ParseItems, ParseMembers, ParseString, ParseScalar, Run, SkipSpace;
    var s := t[i..];
    assert s[1..] == t[i + 1..];
    if s[0] == OPEN_BRACE {
      Advance(t, i, At(t, i, depth, out));
      var last := BracedPasses(t, i, depth + 1, out);
      Advance(t, last, At(t, last, depth + 1, out));
      j := last + 1;
    } else if s[0] == OPEN_BRACKET {
      PlainPasses(t, i, i + 1, depth, out);
      var inner := SpacePasses(t, i + 1, depth, out);
      if StartsWith(t[inner..], CLOSE_BRACKET) {
        PlainPasses(t, inner, inner + 1, depth, out);
        j := inner + 1;
      } else {
        j := ItemsPass(t, inner, depth, out);
      }
    } else if s[0] == QUOTE {
      j := QuotedPasses(t, i, depth, out);
    } else {
      j := ScalarPasses(t, i, depth, out);
    }
  }

  /** From just behind an opening brace to just before the brace that closes it. */
  lemma {:induction false} BracedPasses(t: Text, i: nat, depth: int, out: seq<Json>) returns (last: nat)
    requires i < |t| && depth >= 1 && t[i] == OPEN_BRACE && ParseValue(t[i..]).Some?
    ensures i < last < |t| && t[last] == CLOSE_BRACE
    ensures RestAt(t, ParseValue(t[i..]).value.1, last + 1) && Passes(t, i + 1, last, depth, out)
    decreases |t| - i - 1, 3
  {
    hide ParseItems, ParseMembers, ParseString, ParseScalar, Run;
    assert t[i..][1..] == t[i + 1..];
    var inner := SpacePasses(t, i + 1, depth, out);
    if StartsWith(t[inner..], CLOSE_BRACE) {
      last := inner;
    } else {
      last := MembersPass(t, inner, depth, out);
    }
  }

  /** What a successful parse of items, a member or members was made of. */
  lemma ItemsUnfold(s: Text)
    requires ParseItems(s).Some?
    ensures ParseValue(s).Some?
    ensures
      var next := SkipSpace(ParseValue(s).value.1);
      var rest := ParseItems(s).value.1;
      if StartsWith(next, CLOSE_BRACKET) then rest == next[1..]
      else
        StartsWith(next, COMMA) && ParseItems(SkipSpace(next[1..])).Some? &&
        rest == ParseItems(SkipSpace(next[1..])).value.1
  {
  }

  lemma MemberUnfolds(s: Text)
    requires ParseMember(s).Some?
    ensures StartsWith(s, QUOTE) && ParseString(s[1..]).Some?
    ensures
      var colon := SkipSpace(ParseString(s[1..]).value.1);
      StartsWith(colon, COLON) && ParseValue(SkipSpace(colon[1..])).Some? &&
      ParseMember(s).value.1 == ParseValue(SkipSpace(colon[1..])).value.1
  {
  }

  lemma MembersUnfold(s: Text)
    requires ParseMembers(s).Some?
    ensures ParseMember(s).Some?
    ensures
      var next := SkipSpace(ParseMember(s).value.1);
      var rest := ParseMembers(s).value.1;
      if StartsWith(next, CLOSE_BRACE) then rest == next[1..]
      else
        StartsWith(next, COMMA) && ParseMembers(SkipSpace(next[1..])).Some? &&
        rest == ParseMembers(SkipSpace(next[1..])).value.1
  {
  }

  lemma {:induction false} ItemsPass(t: Text, i: nat, depth: int, out: seq<Json>) returns (j: nat)
    requires i <= |t| && depth >= 1 && ParseItems(t[i..]).Some?
    ensures i < j && RestAt(t, ParseItems(t[i..]).value.1, j) && Passes(t, i, j, depth, out)
    decreases |t| - i, 1
  {
    hide ParseItems, ParseValue, SkipSpace, Passes;
    ItemsUnfold(t[i..]);
    var behind := ValuePasses(t, i, depth, out);
    var next := SpacePasses(t, behind, depth, out);
    Onward(t, i, behind, next, depth, out);
    PlainPasses(t, next, next + 1, depth, out);
    Onward(t, i, next, next + 1, depth, out);
    assert t[next..][1..] == t[next + 1..];
    if StartsWith(t[next..], CLOSE_BRACKET) {
      j := next + 1;
    } else {
      var following := SpacePasses(t, next + 1, depth, out);
      j := ItemsPass(t, following, depth, out);
      Onward(t, i, next + 1, following, depth, out);
      Onward(t, i, following, j, depth, out);
    }
  }

  lemma {:induction false} MemberPasses(t: Text, i: nat, depth: int, out: seq<Json>) returns (j: nat)
    requires i <= |t| && depth >= 1 && ParseMember(t[i..]).Some?
    ensures i < j && RestAt(t, ParseMember(t[i..]).value.1, j) && Passes(t, i, j, depth, out)
    decreases |t| - i, 1
  {
    hide ParseMember, ParseValue, ParseString, SkipSpace, Passes;
    MemberUnfolds(t[i..]);
    var behind := QuotedPasses(t, i, depth, out);
    var colon := SpacePasses(t, behind, depth, out);
    Onward(t, i, behind, colon, depth, out);
    PlainPasses(t, colon, colon + 1, depth, out);
    Onward(t, i, colon, colon + 1, depth, out);
    assert t[colon..][1..] == t[colon + 1..];
    var value := SpacePasses(t, colon + 1, depth, out);
    Onward(t, i, colon + 1, value, depth, out);
    j := ValuePasses(t, value, depth, out);
    Onward(t, i, value, j, depth, out);
  }

  lemma {:induction false} MembersPass(t: Text, i: nat, depth: int, out: seq<Json>) returns (last: nat)
    requires i <= |t| && depth >= 1 && ParseMembers(t[i..]).Some?
    ensures i < last < |t| && t[last] == CLOSE_BRACE
    ensures RestAt(t, ParseMembers(t[i..]).value.1, last + 1) && Passes(t, i, last, depth, out)
    decreases |t| - i, 2
  {
    hide ParseMembers, ParseMember, SkipSpace, Passes;
    MembersUnfold(t[i..]);
    var behind := MemberPasses(t, i, depth, out);
    var next := SpacePasses(t, behind, depth, out);
    Onward(t, i, behind, next, depth, out);
    assert t[next..][1..] == t[next + 1..];
    if StartsWith(t[next..], CLOSE_BRACE) {
      last := next;
    } else {
      PlainPasses(t, next, next + 1, depth, out);
      Onward(t, i, next, next + 1, depth, out);
      var following := SpacePasses(t, next + 1, depth, out);
      last := MembersPass(t, following, depth, out);
      Onward(t, i, next + 1, following, depth, out);
      Onward(t, i, following, last, depth, out);
    }
  }

  // ---- What comes out -----------------------------------------------------------------------------------

  /** The whole text is one object. */
  predicate IsObjectText(t: Text) {
    ParseValue(t).Some? && ParseValue(t).value.0.Object? && ParseValue(t).value.1 == []
  }

  function ObjectOf(t: Text): Json
    requires IsObjectText(t)
  {
    ParseValue(t).value.0
  }

  lemma ObjectStarts(t: Text)
    requires IsObjectText(t)
    ensures t != [] && t[0] == OPEN_BRACE && Parse(t) == Some(ObjectOf(t))
  {
  }

  /** An object met between objects is put out. */
  lemma ObjectIsFound(t: Text, out: seq<Json>)
    requires IsObjectText(t)
    ensures Run(Between(out), t) == Between(out + [ObjectOf(t)])
  {
    hide ParseValue, Run, Parse;
    ObjectStarts(t);
    assert t[0..] == t;
    Advance(t, 0, Between(out));
    assert t[..1] == [t[0]];
    var last := BracedPasses(t, 0, 1, out);
    Advance(t, last, At(t, last, 1, out));
    assert t[..last + 1] == t;
    assert t[last + 1..] == [];
    NothingLeft(Between(out + [ObjectOf(t)]));
  }

  lemma NothingLeft(st: Scan)
    ensures Run(st, []) == st
  {
  }

  predicate IsSeparator(s: Text) {
    forall k :: 0 <= k < |s| ==> Plain(s[k])
  }

  lemma {:induction false} SeparatorIsSkipped(s: Text, out: seq<Json>)
    requires IsSeparator(s)
    ensures Run(Between(out), s) == Between(out)
    decreases |s|
  {
    if s != [] {
      SeparatorIsSkipped(s[1..], out);
    }
  }

  /** Each object text followed by its separator, after a first separator. */
  function Stream(first: Text, parts: seq<(Text, Text)>): Text
    decreases |parts|
  {
    if parts == [] then first else first + parts[0].0 + Stream(parts[0].1, parts[1..])
  }

  function Objects(parts: seq<(Text, Text)>): seq<Json>
    requires forall k :: 0 <= k < |parts| ==> IsObjectText(parts[k].0)
  {
    if parts == [] then [] else [ObjectOf(parts[0].0)] + Objects(parts[1..])
  }

  /**
   From any stream of objects with white space, or anything without quotes and braces, between
   them, exactly those objects are recovered, in order.
   */
  lemma {:induction false} RecoversTheObjects(first: Text, parts: seq<(Text, Text)>, out: seq<Json>)
    requires IsSeparator(first)
    requires forall k :: 0 <= k < |parts| ==> IsObjectText(parts[k].0) && IsSeparator(parts[k].1)
    ensures Run(Between(out), Stream(first, parts)) == Between(out + Objects(parts))
    decreases |parts|
  {
    hide Run, IsObjectText, IsSeparator;
    SeparatorIsSkipped(first, out);
    if parts == [] {
      assert out + [] == out;
    } else {
      var t := parts[0].0;
      var rest := Stream(parts[0].1, parts[1..]);
      RunConcatenates(Between(out), first + t, rest);
      RunConcatenates(Between(out), first, t);
      ObjectIsFound(t, out);
      RecoversTheObjects(parts[0].1, parts[1..], out + [ObjectOf(t)]);
      assert out + [ObjectOf(t)] + Objects(parts[1..]) == out + Objects(parts);
    }
  }

  // ---- Any values -----------------------------------------------------------------------------------------

  /** What comes out for a value: objects whole, those inside a list one by one, anything else not at all. */
  function Emitted(v: Json): seq<Json> {
    match v
    case Object(_) => [v]
    case Array(items) => EmittedAll(items)
    case _ => []
  }

  function EmittedAll(items: seq<Json>): seq<Json> {
    if items == [] then [] else Emitted(items[0]) + EmittedAll(items[1..])
  }

  lemma {:induction false} PlainSkipped(s: Text, k: nat, out: seq<Json>)
    requires k <= |s| && forall i :: 0 <= i < k ==> Plain(s[i])
    ensures Run(Between(out), s) == Run(Between(out), s[k..])
    decreases k
  {
    if k > 0 {
      PlainSkipped(s[1..], k - 1, out);
      assert s[1..][k - 1..] == s[k..];
    }
  }

  lemma {:induction false} SpaceSkipped(s: Text, out: seq<Json>)
    ensures Run(Between(out), s) == Run(Between(out), SkipSpace(s))
    decreases |s|
  {
    if s != [] && IsSpace(s[0]) {
      SpaceSkipped(s[1..], out);
    }
  }

  lemma {:induction false} UnitsSkipped(st: Scan, s: Text, k: nat)
    requires st == Between(st.out).(inString := true)
    requires k <= |s| && forall i :: 0 <= i < k ==> s[i] != QUOTE && s[i] != BACKSLASH
    ensures Run(st, s) == Run(st, s[k..])
    decreases k
  {
    if k > 0 {
      UnitsSkipped(st, s[1..], k - 1);
      assert s[1..][k - 1..] == s[k..];
    }
  }

  lemma EscapeSkipped(s: Text, out: seq<Json>)
    requires s != [] && s[0] == BACKSLASH && Unescape(s[1..]).Some?
    ensures
      var st := Between(out).(inString := true);
      Run(st, s) == Run(st, s[1 + Unescape(s[1..]).value.1..])
  {
    var st := Between(out).(inString := true);
    var length := Unescape(s[1..]).value.1;
    var escaped := Step(st, s[0]);
    assert Run(st, s) == Run(escaped, s[1..]) == Run(Step(escaped, s[1]), s[1..][1..]);
    assert s[1..][1..] == s[2..];
    if length == 5 {
      assert HexValue(s[2]).Some? && HexValue(s[3]).Some? && HexValue(s[4]).Some? && HexValue(s[5]).Some?;
    }
    UnitsSkipped(st, s[2..], length - 1);
    assert s[2..][length - 1..] == s[1 + length..];
  }

  /** A string outside every object leaves the scanner where it was. */
  lemma {:induction false} StringSkipped(s: Text, out: seq<Json>)
    requires ParseString(s).Some?
    ensures Run(Between(out).(inString := true), s) == Run(Between(out), ParseString(s).value.1)
    decreases |s|
  {
    hide Unescape;
    if s[0] == BACKSLASH {
      EscapeSkipped(s, out);
      StringSkipped(s[1 + Unescape(s[1..]).value.1..], out);
    } else if s[0] != QUOTE {
      StringSkipped(s[1..], out);
    }
  }

  lemma ScalarSkipped(s: Text, out: seq<Json>)
    requires s != [] && ParseScalar(s).Some?
    ensures Run(Between(out), s) == Run(Between(out), ParseScalar(s).value.1)
  {
    hide NumeralLength, Run;
    if NULL_WORD <= s || TRUE_WORD <= s {
      WordIsPlain(s, if NULL_WORD <= s then NULL_WORD else TRUE_WORD);
      PlainSkipped(s, 4, out);
    } else if FALSE_WORD <= s {
      WordIsPlain(s, FALSE_WORD);
      PlainSkipped(s, 5, out);
    } else {
      forall k | 0 <= k < NumeralLength(s) ensures Plain(s[k]) {
        NumeralIsPlain(s, k);
      }
      PlainSkipped(s, NumeralLength(s), out);
    }
  }

  /** An object is put out, whatever follows it. */
  lemma ObjectEmits(s: Text, out: seq<Json>)
    requires s != [] && s[0] == OPEN_BRACE && ParseValue(s).Some?
    ensures Run(Between(out), s) == Run(Between(out + [ParseValue(s).value.0]), ParseValue(s).value.1)
  {
    hide Run, ParseValue;
    assert s[0..] == s;
    var last := BracedPasses(s, 0, 1, out);
    var t := s[..last + 1];
    ValueCut(s, last + 1);
    assert s[last + 1..][..0] == [];
    ObjectText(s, t);
    ObjectIsFound(t, out);
    RunConcatenates(Between(out), t, s[last + 1..]);
    assert s == t + s[last + 1..];
  }

  lemma ObjectText(s: Text, t: Text)
    requires s != [] && s[0] == OPEN_BRACE && ParseValue(s).Some?
    requires ParseValue(t) == Some((ParseValue(s).value.0, []))
    ensures IsObjectText(t) && ObjectOf(t) == ParseValue(s).value.0
  {
    hide SkipSpace, ParseMembers;
  }

  /** Whatever value a text starts with, the scanner puts out its objects and is between objects again. */
  lemma {:induction false} ValueEmits(s: Text, out: seq<Json>)
    requires ParseValue(s).Some?
    ensures
      var (v, rest) := ParseValue(s).value;
      Run(Between(out), s) == Run(Between(out + Emitted(v)), rest)
    decreases |s|, 0
  {
    hide ParseItems, ParseMembers, ParseString, ParseScalar, SkipSpace, EmittedAll;
    var v := ParseValue(s).value.0;
    if s[0] == OPEN_BRACE {
      ObjectEmits(s, out);
    } else if s[0] == OPEN_BRACKET {
      var inner := SkipSpace(s[1..]);
      SpaceSkipped(s[1..], out);
      NothingEmitted();
      if StartsWith(inner, CLOSE_BRACKET) {
        assert out + [] == out;
      } else {
        ItemsEmit(inner, out);
      }
    } else if s[0] == QUOTE {
      StringSkipped(s[1..], out);
      assert out + [] == out;
    } else {
      hide Run;
      ScalarSkipped(s, out);
      ScalarIsScalar(s);
      assert out + [] == out;
    }
  }

  lemma ScalarIsScalar(s: Text)
    requires ParseScalar(s).Some?
    ensures Emitted(ParseScalar(s).value.0) == []
  {
    hide NumeralLength;
  }

  lemma NothingEmitted()
    ensures EmittedAll([]) == []
  {
  }

  lemma {:induction false} ItemsEmit(s: Text, out: seq<Json>)
    requires ParseItems(s).Some?
    ensures
      var (items, rest) := ParseItems(s).value;
      Run(Between(out), s) == Run(Between(out + EmittedAll(items)), rest)
    decreases |s|, 1
  {
    hide ParseValue, SkipSpace, Emitted, Run;
    var (v, rest) := ParseValue(s).value;
    var next := SkipSpace(rest);
    var more := out + Emitted(v);
    ValueEmits(s, out);
    SpaceSkipped(rest, more);
    PlainSkipped(next, 1, more);
    if StartsWith(next, CLOSE_BRACKET) {
      OneEmitted(v);
    } else {
      var following := SkipSpace(next[1..]);
      SpaceSkipped(next[1..], more);
      ItemsEmit(following, more);
      var items := ParseItems(following).value.0;
      assert ([v] + items)[1..] == items;
      assert more + EmittedAll(items) == out + EmittedAll([v] + items);
    }
  }

  lemma OneEmitted(v: Json)
    ensures EmittedAll([v]) == Emitted(v)
  {
    assert [v][1..] == [];
  }

  predicate IsValueText(t: Text) {
    ParseValue(t).Some? && ParseValue(t).value.1 == []
  }

  function Values(parts: seq<(Text, Text)>): seq<Json>
    requires forall k :: 0 <= k < |parts| ==> IsValueText(parts[k].0)
  {
    if parts == [] then []
    else
      assert IsValueText(parts[0].0);
      [ParseValue(parts[0].0).value.0] + Values(parts[1..])
  }

  /**
   From any stream of JSON values, in any spelling and with anything without quotes and braces between
   them, the objects come out, those inside top-level lists one by one, and nothing else does.
   */
  lemma {:induction false} EmitsTheObjects(first: Text, parts: seq<(Text, Text)>, out: seq<Json>)
    requires IsSeparator(first)
    requires forall k :: 0 <= k < |parts| ==> IsValueText(parts[k].0) && IsSeparator(parts[k].1)
    ensures Run(Between(out), Stream(first, parts)) == Between(out + EmittedAll(Values(parts)))
    decreases |parts|
  {
    hide Run, IsSeparator, Emitted, ParseValue;
    SeparatorIsSkipped(first, out);
    if parts == [] {
      assert out + [] == out;
    } else {
      var t := parts[0].0;
      var v := ParseValue(t).value.0;
      var rest := Stream(parts[0].1, parts[1..]);
      RunConcatenates(Between(out), first + t, rest);
      RunConcatenates(Between(out), first, t);
      ValueEmits(t, out);
      NothingLeft(Between(out + Emitted(v)));
      EmitsTheObjects(parts[0].1, parts[1..], out + Emitted(v));
      assert out + Emitted(v) + EmittedAll(Values(parts[1..])) == out + EmittedAll(Values(parts));
    }
  }

  lemma {:induction false} EmittedAreObjects(v: Json, o: Json)
    requires o in Emitted(v)
    ensures o.Object?
    decreases v
  {
    match v
    case Array(items) => ItemsEmitObjects(items, o);
    case _ =>
  }

  lemma {:induction false} ItemsEmitObjects(items: seq<Json>, o: Json)
    requires o in EmittedAll(items)
    ensures o.Object?
    decreases items
  {
    hide Emitted;
    if items != [] {
      if o in Emitted(items[0]) {
        EmittedAreObjects(items[0], o);
      } else {
        ItemsEmitObjects(items[1..], o);
      }
    }
  }

  lemma {:induction false} ObjectsAreEmitted(values: seq<Json>)
    requires forall k :: 0 <= k < |values| ==> values[k].Object?
    ensures EmittedAll(values) == values
    decreases |values|
  {
    if values != [] {
      ObjectsAreEmitted(values[1..]);
      assert values == [values[0]] + values[1..];
    }
  }

  /** The stream's values come out, no more and no less, exactly when every one of them is an object. */
  lemma SplitsExactlyObjects(first: Text, parts: seq<(Text, Text)>)
    requires IsSeparator(first)
    requires forall k :: 0 <= k < |parts| ==> IsValueText(parts[k].0) && IsSeparator(parts[k].1)
    ensures Run(Between([]), Stream(first, parts)).out == Values(parts) <==>
            forall v :: v in Values(parts) ==> v.Object?
  {
    hide Run, IsSeparator, Emitted, ParseValue, Stream;
    var values := Values(parts);
    EmitsTheObjects(first, parts, []);
    if forall v :: v in values ==> v.Object? {
      ObjectsAreEmitted(values);
    }
    if EmittedAll(values) == values {
      forall v | v in values ensures v.Object? {
        ItemsEmitObjects(values, v);
      }
    }
  }

  /** Of the stream `1[{}]` an empty object comes out, and neither of the two values. */
  lemma ListIsTakenApart()
    ensures
      var text: Text := [0x31, OPEN_BRACKET, OPEN_BRACE, CLOSE_BRACE, CLOSE_BRACKET];
      Run(Between([]), text).out == [Object([])]
  {
    var one: Text := [0x31];
    var list: Text := [OPEN_BRACKET, OPEN_BRACE, CLOSE_BRACE, CLOSE_BRACKET];
    var item: Text := [OPEN_BRACE, CLOSE_BRACE, CLOSE_BRACKET];
    PlainSkipped(one + list, 1, []);
    assert (one + list)[1..] == list;
    PlainSkipped(list, 1, []);
    assert list[1..] == item && item[1..] == [CLOSE_BRACE, CLOSE_BRACKET] && item[1..][1..] == [CLOSE_BRACKET];
    assert ParseValue(item) == Some((Object([]), [CLOSE_BRACKET]));
    ObjectEmits(item, []);
    assert [] + [Object([])] == [Object([])];
    PlainSkipped([CLOSE_BRACKET], 1, [Object([])]);
    assert [CLOSE_BRACKET][1..] == [];
    NothingLeft(Between([Object([])]));
    assert one + list == [0x31, OPEN_BRACKET, OPEN_BRACE, CLOSE_BRACE, CLOSE_BRACKET];
  }

  /** What the printer emits for an object is such a text. */
  lemma PrintedObjectIsFound(v: Json)
    requires v.Object? && WellFormed(v)
    ensures IsObjectText(Print(v)) && ObjectOf(Print(v)) == v
  {
    assert Print(v) + [] == Print(v);
    hide ParseValue, Print;
    ValueReadsBack(v, []);
  }

  // ---- Safe points ------------------------------------------------------------------------------------------

  /** Where a string ends that is open at the start of the text, its closing quote included. */
  function StringEnd(s: Text): (n: Option<nat>)
    ensures n.Some? ==> 0 < n.value <= |s|
    decreases |s|
  {
    if s == [] then None
    else if s[0] == QUOTE then Some(1)
    else
      var unit := if s[0] == BACKSLASH then 2 else 1;
      if |s| < unit then None
      else
        match StringEnd(s[unit..])
        case None => None
        case Some(n) => Some(unit + n)
  }

  /** Opening less closing braces outside strings, or None when a string is left open. */
  function BraceBalance(s: Text): Option<int>
    decreases |s|
  {
    if s == [] then Some(0)
    else
      var length := if s[0] != QUOTE then Some(0) else StringEnd(s[1..]);
      if length.None? then None
      else
        match BraceBalance(s[1 + length.value..])
        case None => None
        case Some(rest) => Some(rest + (if s[0] == OPEN_BRACE then 1 else if s[0] == CLOSE_BRACE then -1 else 0))
  }

  predicate Outside(st: Scan, depth: int) {
    !st.inString && !st.escaped && st.depth == depth
  }

  lemma {:induction false} StringRuns(st: Scan, s: Text)
    requires st.inString && !st.escaped
    ensures StringEnd(s).None? ==> Run(st, s).inString
    ensures StringEnd(s).Some? ==> Outside(Run(st, s[..StringEnd(s).value]), st.depth)
    decreases |s|
  {
    if s != [] {
      var next := Step(st, s[0]);
      if s[0] == QUOTE {
        assert s[..1][1..] == [];
      } else if s[0] == BACKSLASH {
        if |s| == 1 {
          assert s[1..] == [];
        } else {
          var skipped := Step(next, s[1]);
          assert Run(st, s) == Run(next, s[1..]) == Run(skipped, s[1..][1..]) && s[1..][1..] == s[2..];
          StringRuns(skipped, s[2..]);
          if StringEnd(s).Some? {
            var t := s[..StringEnd(s).value];
            assert Run(st, t) == Run(next, t[1..]) == Run(skipped, t[1..][1..]);
            assert t[1..][1..] == s[2..][..StringEnd(s[2..]).value];
          }
        }
      } else {
        StringRuns(next, s[1..]);
        if StringEnd(s).Some? {
          assert s[..StringEnd(s).value][1..] == s[1..][..StringEnd(s[1..]).value];
        }
      }
    }
  }

  lemma {:induction false} BalanceRuns(st: Scan, s: Text)
    requires Outside(st, st.depth)
    ensures BraceBalance(s).None? ==> Run(st, s).inString
    ensures BraceBalance(s).Some? ==> Outside(Run(st, s), st.depth + BraceBalance(s).value)
    decreases |s|
  {
    if s != [] {
      var next := Step(st, s[0]);
      if s[0] == QUOTE {
        StringRuns(next, s[1..]);
        if StringEnd(s[1..]).Some? {
          var n := StringEnd(s[1..]).value;
          RunConcatenates(next, s[1..][..n], s[1..][n..]);
          assert s[1..] == s[1..][..n] + s[1..][n..] && s[1..][n..] == s[1 + n..];
          BalanceRuns(Run(next, s[1..][..n]), s[1 + n..]);
        }
      } else {
        assert s[1 + 0..] == s[1..];
        BalanceRuns(next, s[1..]);
      }
    }
  }

  /** The scanner is between objects exactly when every string is closed and the braces balance. */
  lemma BetweenExactlyBalanced(prefix: Text)
    ensures Neutral(Run(Between([]), prefix)) <==> BraceBalance(prefix) == Some(0)
  {
    hide Run, BraceBalance;
    BalanceRuns(Between([]), prefix);
    CollectsExactlyInside(prefix, Between([]));
  }

  /**
   A point of the stream is safe, in that every object that may follow is recovered, exactly when
   every string before it is closed and the braces outside strings balance.  One closing brace too
   many is enough: the depth turns negative and the next object is lost.
   */
  lemma SafeExactlyBetweenObjects(prefix: Text)
    ensures
      var st := Run(Between([]), prefix);
      BraceBalance(prefix) == Some(0) <==> forall t :: IsObjectText(t) ==> Run(st, t).out == st.out + [ObjectOf(t)]
  {
    hide Run, IsObjectText, BraceBalance;
    var st := Run(Between([]), prefix);
    BetweenExactlyBalanced(prefix);
    if Neutral(st) {
      forall t | IsObjectText(t) ensures Run(st, t).out == st.out + [ObjectOf(t)] {
        ObjectIsFound(t, st.out);
      }
    } else {
      CollectsExactlyInside(prefix, Between([]));
      EmptyObjectIsLost(st);
    }
  }

  lemma EmptyObjectText()
    ensures IsObjectText([OPEN_BRACE, CLOSE_BRACE])
  {
  }

  lemma EmptyObjectIsLost(st: Scan)
    requires (st.pending.Some? <==> st.depth >= 1) && !Neutral(st) && (st.escaped ==> st.inString)
    ensures exists t :: IsObjectText(t) && Run(st, t).out != st.out + [ObjectOf(t)]
  {
    hide IsObjectText, Parse;
    EmptyObjectText();
    var t: Text := [OPEN_BRACE, CLOSE_BRACE];
    assert t[1..] == [CLOSE_BRACE] && t[1..][1..] == [];
    var s1 := Step(st, OPEN_BRACE);
    var s2 := Step(s1, CLOSE_BRACE);
    assert Run(st, t) == Run(s1, t[1..]) == Run(s2, t[1..][1..]) == s2;
    assert s2.out == st.out;
  }

  lemma StrayBrace(prefix: Text)
    requires Neutral(Run(Between([]), prefix))
    ensures !Neutral(Run(Between([]), prefix + [CLOSE_BRACE]))
  {
    RunConcatenates(Between([]), prefix, [CLOSE_BRACE]);
    var st := Run(Between([]), prefix);
    assert Run(st, [CLOSE_BRACE]) == Run(Step(st, CLOSE_BRACE), []);
  }
}
