/**
 The string domain of canonical JSON: UTF-16 code units that encode Unicode scalar values, none
 of them a noncharacter (section 2.1 of RFC 7493), and the UTF-8 bytes that are hashed.
 */
module UnicodeText {

  type CodeUnit = n: int | 0 <= n < 0x10000

  type Text = seq<CodeUnit>

  type Scalar = n: int | 0 <= n < 0xD800 || 0xE000 <= n < 0x110000

  type Byte = n: int | 0 <= n < 0x100

  predicate IsLeading(u: CodeUnit) {
    0xD800 <= u <= 0xDBFF
  }

  predicate IsTrailing(u: CodeUnit) {
    0xDC00 <= u <= 0xDFFF
  }

  predicate IsNoncharacter(point: int) {
    0xFDD0 <= point <= 0xFDEF || point % 0x10000 >= 0xFFFE
  }

  /** The code units of a literal. */
  function Codes(s: string): (t: Text)
    ensures |t| == |s|
  {
    seq(|s|, i requires 0 <= i < |s| => if (s[i] as int) < 0x10000 then s[i] as int else 0)
  }

  /** What `trim` removes. */
  predicate IsWhiteSpace(u: CodeUnit) {
    9 <= u <= 13 || u == 32 || u == 160 || u == 5760 || 8192 <= u <= 8202 || u == 8232 || u == 8233 ||
    u == 8239 || u == 8287 || u == 12288 || u == 65279
  }

  predicate IsBlank(s: Text) {
    forall i :: 0 <= i < |s| ==> IsWhiteSpace(s[i])
  }

  const SLASH: CodeUnit := 0x2F

  /** The parts between slashes. */
  function Segments(s: Text): (r: seq<Text>)
    ensures r != []
  {
    if s == [] then [[]]
    else if s[0] == SLASH then [[]] + Segments(s[1..])
    else
      var rest := Segments(s[1..]);
      [[s[0]] + rest[0]] + rest[1..]
  }

  /** A relative key prefix without empty, `.` or `..` segments at its ends or inside. */
  predicate CleanPrefix(s: Text) {
    && s != [] && s[0] != SLASH && s[|s| - 1] != SLASH
    && (forall k :: 0 <= k < |s| - 1 ==> !(s[k] == SLASH && s[k + 1] == SLASH))
    && (forall segment :: segment in Segments(s) ==> segment != [0x2E] && segment != [0x2E, 0x2E])
  }

  // ---- UTF-16 --------------------------------------------------------------------------------

  function Units(c: Scalar): Text {
    if c < 0x10000 then [c]
    else [0xD800 + (c - 0x10000) / 0x400, 0xDC00 + (c - 0x10000) % 0x400]
  }

  function Utf16(scalars: seq<Scalar>): Text {
    if scalars == [] then [] else Units(scalars[0]) + Utf16(scalars[1..])
  }

  /** What the string is required to be, with no reference to how it is scanned. */
  ghost predicate IsIjson(s: Text) {
    exists scalars: seq<Scalar> :: EncodesIjson(scalars, s)
  }

  ghost predicate EncodesIjson(scalars: seq<Scalar>, s: Text) {
    Utf16(scalars) == s && forall i :: 0 <= i < |scalars| ==> !IsNoncharacter(scalars[i])
  }

  function PairPoint(leading: CodeUnit, trailing: CodeUnit): int {
    (leading - 0xD800) * 0x400 + trailing - 0xDC00 + 0x10000
  }

  /** The number of code units one step of the scan consumes, or 0 when it rejects. */
  function Stride(s: Text): nat
    requires s != []
    ensures Stride(s) <= |s|
  {
    if IsLeading(s[0]) then
      if |s| < 2 || !IsTrailing(s[1]) || IsNoncharacter(PairPoint(s[0], s[1])) then 0 else 2
    else if IsTrailing(s[0]) || IsNoncharacter(s[0]) then 0
    else 1
  }

  predicate Scans(s: Text)
    decreases |s|
  {
    s == [] || (Stride(s) > 0 && Scans(s[Stride(s)..]))
  }

  /** The validation loop: accepts exactly the well-encoded strings without noncharacters. */
  method AssertIjsonString(value: Text) returns (ok: bool)
    ensures ok <==> IsIjson(value)
  {
    ScansExactlyIjson(value);
    var index := 0;
    while index < |value|
      invariant 0 <= index <= |value|
      invariant Scans(value) <==> Scans(value[index..])
    {
      var leading := value[index];
      var codePoint: int := leading;
      var consumed := 1;
      if IsLeading(leading) {
        if index + 1 >= |value| || !IsTrailing(value[index + 1]) {
          return false;
        }
        codePoint := PairPoint(leading, value[index + 1]);
        consumed := 2;
      } else if IsTrailing(leading) {
        return false;
      }
      if IsNoncharacter(codePoint) {
        return false;
      }
      assert value[index..][consumed..] == value[index + consumed..];
      index := index + consumed;
    }
    return true;
  }

  lemma UnitsScan(c: Scalar, rest: Text)
    requires !IsNoncharacter(c)
    ensures Stride(Units(c) + rest) == |Units(c)|
    ensures (Units(c) + rest)[|Units(c)|..] == rest
  {
  }

  lemma {:induction false} EncodedScans(scalars: seq<Scalar>)
    requires forall i :: 0 <= i < |scalars| ==> !IsNoncharacter(scalars[i])
    ensures Scans(Utf16(scalars))
  {
    if scalars != [] {
      EncodedScans(scalars[1..]);
      UnitsScan(scalars[0], Utf16(scalars[1..]));
    }
  }

  function FirstScalar(s: Text): (c: Scalar)
    requires s != [] && Stride(s) > 0
    ensures Units(c) == s[..Stride(s)] && !IsNoncharacter(c)
  {
    if Stride(s) == 2 then PairPoint(s[0], s[1]) else s[0]
  }

  /** The scalars of a string that scans. */
  function Decode(s: Text): (scalars: seq<Scalar>)
    requires Scans(s)
    ensures EncodesIjson(scalars, s)
    decreases |s|
  {
    if s == [] then []
    else
      assert s == s[..Stride(s)] + s[Stride(s)..];
      [FirstScalar(s)] + Decode(s[Stride(s)..])
  }

  lemma ScansExactlyIjson(s: Text)
    ensures Scans(s) <==> IsIjson(s)
  {
    if Scans(s) {
      assert EncodesIjson(Decode(s), s);
    }
    if IsIjson(s) {
      var scalars: seq<Scalar> :| EncodesIjson(scalars, s);
      EncodedScans(scalars);
    }
  }

  // ---- UTF-8 ---------------------------------------------------------------------------------

  /** Section 3 of RFC 3629. */
  function Octets(c: Scalar): seq<Byte> {
    if c < 0x80 then [c]
    else if c < 0x800 then [0xC0 + c / 0x40, 0x80 + c % 0x40]
    else if c < 0x10000 then [0xE0 + c / 0x1000, 0x80 + c / 0x40 % 0x40, 0x80 + c % 0x40]
    else [0xF0 + c / 0x40000, 0x80 + c / 0x1000 % 0x40, 0x80 + c / 0x40 % 0x40, 0x80 + c % 0x40]
  }

  function Utf8(scalars: seq<Scalar>): seq<Byte> {
    if scalars == [] then [] else Octets(scalars[0]) + Utf8(scalars[1..])
  }

  function OctetCount(first: int): nat {
    if first < 0x80 then 1 else if first < 0xE0 then 2 else if first < 0xF0 then 3 else 4
  }

  function FromOctets(b: seq<int>): int
    requires b != [] && |b| >= OctetCount(b[0])
  {
    match OctetCount(b[0])
    case 1 => b[0]
    case 2 => (b[0] - 0xC0) * 0x40 + (b[1] - 0x80)
    case 3 => (b[0] - 0xE0) * 0x1000 + (b[1] - 0x80) * 0x40 + (b[2] - 0x80)
    case _ => (b[0] - 0xF0) * 0x40000 + (b[1] - 0x80) * 0x1000 + (b[2] - 0x80) * 0x40 + (b[3] - 0x80)
  }

  lemma OctetsReadBack(c: Scalar, rest: seq<Byte>)
    ensures OctetCount(Octets(c)[0]) == |Octets(c)|
    ensures FromOctets(Octets(c) + rest) == c
  {
    assert (Octets(c) + rest)[..|Octets(c)|] == Octets(c);
    if 0x800 <= c < 0x10000 {
      assert c / 0x40 / 0x40 == c / 0x1000;
    } else if c >= 0x10000 {
      assert c / 0x40 / 0x40 == c / 0x1000 && c / 0x1000 / 0x40 == c / 0x40000;
    }
  }

  /** UTF-8 loses nothing. */
  lemma {:induction false} Utf8Injective(a: seq<Scalar>, b: seq<Scalar>)
    requires Utf8(a) == Utf8(b)
    ensures a == b
    decreases |a|
  {
    if a != [] && b != [] {
      OctetsReadBack(a[0], Utf8(a[1..]));
      OctetsReadBack(b[0], Utf8(b[1..]));
      assert Octets(a[0])[0] == Utf8(a)[0] == Utf8(b)[0] == Octets(b[0])[0];
      assert a[0] == b[0];
      assert Utf8(a[1..]) == Utf8(a)[|Octets(a[0])|..] == Utf8(b[1..]);
      Utf8Injective(a[1..], b[1..]);
      assert a == [a[0]] + a[1..] && b == [b[0]] + b[1..];
    }
  }

  /** The platform's encoder: every unpaired surrogate becomes U+FFFD. */
  function TextEncode(s: Text): seq<Byte>
    decreases |s|
  {
    if s == [] then []
    else if IsLeading(s[0]) && |s| >= 2 && IsTrailing(s[1]) then
      Octets(PairPoint(s[0], s[1])) + TextEncode(s[2..])
    else if IsLeading(s[0]) || IsTrailing(s[0]) then Octets(0xFFFD) + TextEncode(s[1..])
    else Octets(s[0]) + TextEncode(s[1..])
  }

  lemma {:induction false} EncodesDecoded(s: Text)
    requires Scans(s)
    ensures TextEncode(s) == Utf8(Decode(s))
    decreases |s|
  {
    if s != [] {
      EncodesDecoded(s[Stride(s)..]);
      assert Decode(s)[1..] == Decode(s[Stride(s)..]);
    }
  }

  /** Two accepted strings are hashed over the same bytes only when they are the same string. */
  lemma AcceptedBytesDecideString(a: Text, b: Text)
    requires IsIjson(a) && IsIjson(b) && TextEncode(a) == TextEncode(b)
    ensures a == b
  {
    ScansExactlyIjson(a);
    ScansExactlyIjson(b);
    EncodesDecoded(a);
    EncodesDecoded(b);
    Utf8Injective(Decode(a), Decode(b));
  }

  /** Without the check every lone surrogate would collide with U+FFFD, which is accepted. */
  lemma LoneSurrogateCollides(u: CodeUnit)
    requires IsLeading(u) || IsTrailing(u)
    ensures TextEncode([u]) == TextEncode([0xFFFD])
    ensures IsIjson([0xFFFD]) && !IsIjson([u])
  {
    ScansExactlyIjson([0xFFFD]);
    ScansExactlyIjson([u]);
    assert Scans([0xFFFD][1..]);
  }
}
