/**
 Strict UTF-8, as Python's `str.encode("utf-8")` and `bytes.decode("utf-8")` implement it
 (section 3 of RFC 3629). A Python string without lone surrogates is a Dafny `string`.
 */
module Utf8 {
  import opened Bytes

  function CharLength(c: char): (n: nat)
    ensures 1 <= n <= 4
  {
    var v := c as int;
    if v < 0x80 then 1 else if v < 0x800 then 2 else if v < 0x1_0000 then 3 else 4
  }

  function EncodeChar(c: char): (s: bytes)
    ensures |s| == CharLength(c)
  {
    var v := c as int;
    if v < 0x80 then [v]
    else if v < 0x800 then [0xC0 + v / 0x40, 0x80 + v % 0x40]
    else if v < 0x1_0000 then [0xE0 + v / 0x1000, 0x80 + v / 0x40 % 0x40, 0x80 + v % 0x40]
    else [0xF0 + v / 0x4_0000, 0x80 + v / 0x1000 % 0x40, 0x80 + v / 0x40 % 0x40, 0x80 + v % 0x40]
  }

  function Encode(t: string): bytes {
    if t == [] then [] else EncodeChar(t[0]) + Encode(t[1..])
  }

  predicate Continues(s: bytes, at: nat) {
    at < |s| && 0x80 <= s[at] < 0xC0
  }

  predicate IsScalar(v: int) {
    0 <= v < 0xD800 || 0xE000 <= v < 0x11_0000
  }

  /** The scalar value at the front of `s`; over-long forms and surrogates are malformed. */
  function DecodeChar(s: bytes): (r: Option<char>)
    ensures r.Some? ==> CharLength(r.value) <= |s|
  {
    if s == [] then None
    else if s[0] < 0x80 then Some(s[0] as char)
    else if s[0] < 0xC0 then None
    else if s[0] < 0xE0 then
      if !Continues(s, 1) then None
      else
        var v := (s[0] as int - 0xC0) * 0x40 + (s[1] as int - 0x80);
        if v < 0x80 then None else Some(v as char)
    else if s[0] < 0xF0 then
      if !Continues(s, 1) || !Continues(s, 2) then None
      else
        var v := ((s[0] as int - 0xE0) * 0x40 + (s[1] as int - 0x80)) * 0x40 + (s[2] as int - 0x80);
        if v < 0x800 || !IsScalar(v) then None else Some(v as char)
    else if s[0] < 0xF8 then
      if !Continues(s, 1) || !Continues(s, 2) || !Continues(s, 3) then None
      else
        var v := (((s[0] as int - 0xF0) * 0x40 + (s[1] as int - 0x80)) * 0x40 + (s[2] as int - 0x80)) * 0x40
                 + (s[3] as int - 0x80);
        if v < 0x1_0000 || !IsScalar(v) then None else Some(v as char)
    else None
  }

  function Decode(s: bytes): (r: Option<string>)
    decreases |s|
  {
    if s == [] then Some([])
    else
      match DecodeChar(s)
      case None => None
      case Some(c) =>
        match Decode(s[CharLength(c)..])
        case None => None
        case Some(t) => Some([c] + t)
  }

  lemma Digits(v: nat, a: nat, b: nat, c: nat, d: nat)
    requires b < 0x40 && c < 0x40 && d < 0x40
    requires v == ((a * 0x40 + b) * 0x40 + c) * 0x40 + d
    ensures v % 0x40 == d && v / 0x40 % 0x40 == c && v / 0x1000 % 0x40 == b && v / 0x4_0000 == a
    ensures v / 0x40 == (a * 0x40 + b) * 0x40 + c && v / 0x1000 == a * 0x40 + b
  {
    assert v / 0x40 == (a * 0x40 + b) * 0x40 + c;
    assert v / 0x1000 == v / 0x40 / 0x40 == a * 0x40 + b;
  }

  lemma TwoBytePrefix(s: bytes)
    requires DecodeChar(s).Some? && 0xC0 <= s[0] < 0xE0
    ensures s[..2] == EncodeChar(DecodeChar(s).value) && CharLength(DecodeChar(s).value) == 2
  {
    Digits(DecodeChar(s).value as int, 0, 0, s[0] - 0xC0, s[1] - 0x80);
  }

  lemma ThreeBytePrefix(s: bytes)
    requires DecodeChar(s).Some? && 0xE0 <= s[0] < 0xF0
    ensures s[..3] == EncodeChar(DecodeChar(s).value) && CharLength(DecodeChar(s).value) == 3
  {
    Digits(DecodeChar(s).value as int, 0, s[0] - 0xE0, s[1] - 0x80, s[2] - 0x80);
  }

  lemma FourBytePrefix(s: bytes)
    requires DecodeChar(s).Some? && 0xF0 <= s[0]
    ensures s[..4] == EncodeChar(DecodeChar(s).value) && CharLength(DecodeChar(s).value) == 4
  {
    Digits(DecodeChar(s).value as int, s[0] - 0xF0, s[1] - 0x80, s[2] - 0x80, s[3] - 0x80);
  }

  lemma OneBytePrefix(s: bytes)
    requires DecodeChar(s).Some? && s[0] < 0xC0
    ensures s[..1] == EncodeChar(DecodeChar(s).value) && CharLength(DecodeChar(s).value) == 1
  {
  }

  /** A decoded character's own encoding is what was read. */
  lemma DecodeCharPrefix(s: bytes)
    requires DecodeChar(s).Some?
    ensures s[..CharLength(DecodeChar(s).value)] == EncodeChar(DecodeChar(s).value)
  {
    hide DecodeChar, EncodeChar, CharLength;
    if s[0] < 0xC0 {
      OneBytePrefix(s);
    } else if s[0] < 0xE0 {
      TwoBytePrefix(s);
    } else if s[0] < 0xF0 {
      ThreeBytePrefix(s);
    } else {
      FourBytePrefix(s);
    }
  }

  lemma DecodeEncodeChar(c: char, rest: bytes)
    ensures DecodeChar(EncodeChar(c) + rest) == Some(c)
  {
    var v := c as int;
    var s := EncodeChar(c) + rest;
    if v < 0x80 {
    } else if v < 0x800 {
      assert Continues(s, 1);
    } else if v < 0x1_0000 {
      assert Continues(s, 1) && Continues(s, 2);
      assert v / 0x40 / 0x40 == v / 0x1000;
    } else {
      assert Continues(s, 1) && Continues(s, 2) && Continues(s, 3);
      var u := v / 0x40;
      var w := u / 0x40;
      assert v / 0x1000 == w && w / 0x40 == v / 0x4_0000;
    }
  }

  /** Every string survives encoding. */
  lemma {:induction false} DecodeEncode(t: string)
    ensures Decode(Encode(t)) == Some(t)
  {
    if t != [] {
      var rest := Encode(t[1..]);
      DecodeEncodeChar(t[0], rest);
      hide EncodeChar, DecodeChar, CharLength;
      DecodeEncode(t[1..]);
      assert (EncodeChar(t[0]) + rest)[CharLength(t[0])..] == rest;
      assert t == [t[0]] + t[1..];
    }
  }

  /** Only encodings decode, and they decode to the string they came from. */
  lemma {:induction false} EncodeDecode(s: bytes)
    ensures Decode(s).Some? ==> Encode(Decode(s).value) == s
    decreases |s|
  {
    hide EncodeChar, DecodeChar, CharLength;
    if s != [] && DecodeChar(s).Some? {
      DecodeCharPrefix(s);
      var c := DecodeChar(s).value;
      EncodeDecode(s[CharLength(c)..]);
      if Decode(s[CharLength(c)..]).Some? {
        var t := Decode(s).value;
        assert t[0] == c && t[1..] == Decode(s[CharLength(c)..]).value;
        assert s == EncodeChar(c) + s[CharLength(c)..];
      }
    }
  }

  lemma EncodeInjective(a: string, b: string)
    requires Encode(a) == Encode(b)
    ensures a == b
  {
    DecodeEncode(a);
    DecodeEncode(b);
  }

  lemma EncodeHead(t: string)
    requires t != []
    ensures Encode(t) == EncodeChar(t[0]) + Encode(t[1..])
  {
    hide EncodeChar;
  }

  lemma {:induction false} EncodeAppend(a: string, b: string)
    ensures Encode(a + b) == Encode(a) + Encode(b)
  {
    hide EncodeChar;
    if a == [] {
      assert a + b == b;
    } else {
      EncodeAppend(a[1..], b);
      assert (a + b)[1..] == a[1..] + b && (a + b)[0] == a[0];
      EncodeHead(a);
      EncodeHead(a + b);
      hide Encode;
      assert EncodeChar(a[0]) + (Encode(a[1..]) + Encode(b)) == (EncodeChar(a[0]) + Encode(a[1..])) + Encode(b);
    }
  }

  // ----- ASCII

  predicate IsAscii(t: string) {
    forall i :: 0 <= i < |t| ==> t[i] as int < 0x80
  }

  /** A string takes one byte a character exactly when it is ASCII. */
  lemma {:induction false} AsciiLength(t: string)
    ensures |t| <= |Encode(t)|
    ensures |Encode(t)| == |t| <==> IsAscii(t)
  {
    if t != [] {
      AsciiLength(t[1..]);
      if IsAscii(t) {
        assert IsAscii(t[1..]);
      }
      if IsAscii(t[1..]) && t[0] as int < 0x80 {
        assert forall i :: 0 <= i < |t| ==> t[i] == if i == 0 then t[0] else t[1..][i - 1];
      }
    }
  }

  /** U+0000 is the only character whose encoding holds a zero byte. */
  lemma {:induction false} ZeroFree(t: string)
    ensures 0 in Encode(t) <==> '\0' in t
  {
    if t != [] {
      ZeroFree(t[1..]);
      assert t == [t[0]] + t[1..];
      assert 0 in EncodeChar(t[0]) <==> t[0] == '\0';
    }
  }

  // ----- order

  predicate TextLess(a: string, b: string) {
    b != [] && (a == [] || a[0] < b[0] || (a[0] == b[0] && TextLess(a[1..], b[1..])))
  }

  predicate BytesLess(a: bytes, b: bytes) {
    b != [] && (a == [] || a[0] < b[0] || (a[0] == b[0] && BytesLess(a[1..], b[1..])))
  }

  lemma {:induction false} BytesLessAt(a: bytes, b: bytes, k: nat)
    requires k < |a| && k < |b| && (forall i :: 0 <= i < k ==> a[i] == b[i]) && a[k] < b[k]
    ensures BytesLess(a, b)
  {
    if k > 0 {
      BytesLessAt(a[1..], b[1..], k - 1);
    }
  }

  lemma {:induction false} BytesLessPrefix(p: bytes, a: bytes, b: bytes)
    ensures BytesLess(p + a, p + b) <==> BytesLess(a, b)
  {
    if p == [] {
      assert p + a == a && p + b == b;
    } else {
      BytesLessPrefix(p[1..], a, b);
      assert (p + a)[1..] == p[1..] + a && (p + b)[1..] == p[1..] + b;
    }
  }

  lemma {:induction false} BytesLessAsymmetric(a: bytes, b: bytes)
    requires BytesLess(a, b)
    ensures a != b && !BytesLess(b, a)
  {
    if a != [] && a[0] == b[0] {
      BytesLessAsymmetric(a[1..], b[1..]);
    }
  }

  lemma {:induction false} TextLessTotal(a: string, b: string)
    ensures a == b || TextLess(a, b) || TextLess(b, a)
  {
    if a != [] && b != [] && a[0] == b[0] {
      TextLessTotal(a[1..], b[1..]);
      if a[1..] == b[1..] {
        assert a == [a[0]] + a[1..] && b == [b[0]] + b[1..];
      }
    }
  }

  lemma {:induction false} TextLessTransitive(a: string, b: string, c: string)
    requires TextLess(a, b) && TextLess(b, c)
    ensures TextLess(a, c)
  {
    if a != [] && a[0] == b[0] == c[0] {
      TextLessTransitive(a[1..], b[1..], c[1..]);
    }
  }

  /** Base-64 digits of two numbers, most significant first, are ordered like the numbers. */
  lemma DigitsOrder(v: nat, w: nat)
    requires v < w
    ensures var a, b, c, d := v / 0x4_0000, v / 0x1000 % 0x40, v / 0x40 % 0x40, v % 0x40;
            var a', b', c', d' := w / 0x4_0000, w / 0x1000 % 0x40, w / 0x40 % 0x40, w % 0x40;
            a < a' || (a == a' && (b < b' || (b == b' && (c < c' || (c == c' && d < d')))))
    ensures v / 0x1000 <= w / 0x1000 && v / 0x40 <= w / 0x40
  {
    DigitOrder(v, w, 0x40);
    DigitOrder(v / 0x40, w / 0x40, 0x40);
    DigitOrder(v / 0x1000, w / 0x1000, 0x40);
    assert v / 0x40 / 0x40 == v / 0x1000 && w / 0x40 / 0x40 == w / 0x1000;
    assert v / 0x1000 / 0x40 == v / 0x4_0000 && w / 0x1000 / 0x40 == w / 0x4_0000;
  }

  lemma OrderOfTwo(c: char, d: char) returns (k: nat)
    requires c < d && CharLength(c) == CharLength(d) == 2
    ensures k < 2 && EncodeChar(c)[k] < EncodeChar(d)[k]
    ensures forall i :: 0 <= i < k ==> EncodeChar(c)[i] == EncodeChar(d)[i]
  {
    DigitOrder(c as int, d as int, 0x40);
    k := if EncodeChar(c)[0] != EncodeChar(d)[0] then 0 else 1;
  }

  lemma OrderOfThree(c: char, d: char) returns (k: nat)
    requires c < d && CharLength(c) == CharLength(d) == 3
    ensures k < 3 && EncodeChar(c)[k] < EncodeChar(d)[k]
    ensures forall i :: 0 <= i < k ==> EncodeChar(c)[i] == EncodeChar(d)[i]
  {
    DigitsOrder(c as int, d as int);
    var e, f := EncodeChar(c), EncodeChar(d);
    k := if e[0] != f[0] then 0 else if e[1] != f[1] then 1 else 2;
  }

  lemma OrderOfFour(c: char, d: char) returns (k: nat)
    requires c < d && CharLength(c) == CharLength(d) == 4
    ensures k < 4 && EncodeChar(c)[k] < EncodeChar(d)[k]
    ensures forall i :: 0 <= i < k ==> EncodeChar(c)[i] == EncodeChar(d)[i]
  {
    DigitsOrder(c as int, d as int);
    var e, f := EncodeChar(c), EncodeChar(d);
    k := if e[0] != f[0] then 0 else if e[1] != f[1] then 1 else if e[2] != f[2] then 2 else 3;
  }

  lemma LeadByteOrder(c: char, d: char)
    requires c < d && CharLength(c) != CharLength(d)
    ensures EncodeChar(c)[0] < EncodeChar(d)[0]
  {
  }

  /** Encodings of different scalar values differ first at a byte ordered like the values. */
  lemma FirstDifference(c: char, d: char) returns (k: nat)
    requires c < d
    ensures k < CharLength(c) && k < CharLength(d)
    ensures forall i :: 0 <= i < k ==> EncodeChar(c)[i] == EncodeChar(d)[i]
    ensures EncodeChar(c)[k] < EncodeChar(d)[k]
  {
    k := 0;
    if CharLength(c) != CharLength(d) {
      LeadByteOrder(c, d);
    } else if CharLength(c) == 2 {
      k := OrderOfTwo(c, d);
    } else if CharLength(c) == 3 {
      k := OrderOfThree(c, d);
    } else if CharLength(c) == 4 {
      k := OrderOfFour(c, d);
    }
  }

  lemma DigitOrder(v: nat, w: nat, base: nat)
    requires v <= w && base > 0
    ensures v / base <= w / base
    ensures v / base == w / base ==> v % base <= w % base
  {
    var p, q := v / base, w / base;
    assert base * p <= v && w < base * q + base;
    if p >= q + 1 {
      StepUp(base, p, q + 1);
    }
  }

  lemma StepUp(base: nat, p: nat, q: nat)
    requires p >= q
    ensures base * p >= base * q
  {
  }

  lemma CharOrder(c: char, d: char, x: bytes, y: bytes)
    requires c < d
    ensures BytesLess(EncodeChar(c) + x, EncodeChar(d) + y)
  {
    var k := FirstDifference(c, d);
    BytesLessAt(EncodeChar(c) + x, EncodeChar(d) + y, k);
  }

  lemma {:induction false} EncodeIncreasing(a: string, b: string)
    requires TextLess(a, b)
    ensures BytesLess(Encode(a), Encode(b))
  {
    if a != [] {
      if a[0] < b[0] {
        CharOrder(a[0], b[0], Encode(a[1..]), Encode(b[1..]));
      } else {
        EncodeIncreasing(a[1..], b[1..]);
        BytesLessPrefix(EncodeChar(a[0]), Encode(a[1..]), Encode(b[1..]));
      }
    }
  }

  /** Comparing strings by code point compares their encodings by byte. */
  lemma CodePointOrderIsByteOrder(a: string, b: string)
    ensures TextLess(a, b) <==> BytesLess(Encode(a), Encode(b))
  {
    TextLessTotal(a, b);
    if TextLess(a, b) {
      EncodeIncreasing(a, b);
    } else if TextLess(b, a) {
      EncodeIncreasing(b, a);
      BytesLessAsymmetric(Encode(b), Encode(a));
    } else if BytesLess(Encode(a), Encode(b)) {
      BytesLessAsymmetric(Encode(a), Encode(b));
    }
  }

  /** `a` is before `b` because of place `k`: `a` ends there, or has the lesser character. */
  ghost predicate BeforeAt(a: string, b: string, k: nat) {
    k <= |a| && k < |b| && a[..k] == b[..k] && (k == |a| || a[k] < b[k])
  }

  /** The order is that of the first place at which the strings differ. */
  lemma {:induction false} TextLessExactly(a: string, b: string)
    ensures TextLess(a, b) <==> exists k: nat :: BeforeAt(a, b, k)
  {
    if b != [] {
      if a == [] || a[0] < b[0] {
        assert BeforeAt(a, b, 0);
      } else if a[0] == b[0] {
        TextLessExactly(a[1..], b[1..]);
        if k: nat :| BeforeAt(a[1..], b[1..], k) {
          assert a == [a[0]] + a[1..] && b == [b[0]] + b[1..];
          assert BeforeAt(a, b, k + 1);
        }
        if k: nat :| BeforeAt(a, b, k) {
          assert a[1..][..k - 1] == a[..k][1..] && b[1..][..k - 1] == b[..k][1..];
          assert BeforeAt(a[1..], b[1..], k - 1);
        }
      } else {
        forall k: nat
          ensures !BeforeAt(a, b, k)
        {
          assert k > 0 && k <= |a| && k <= |b| ==> a[..k][0] != b[..k][0];
        }
      }
    }
  }

  /** Two of the examples in section 7 of RFC 3629. */
  lemma Rfc3629Examples()
    ensures Encode(['\U{41}', '\U{2262}', '\U{391}', '\U{2E}']) == [0x41, 0xE2, 0x89, 0xA2, 0xCE, 0x91, 0x2E]
    ensures Encode(['\U{FEFF}', '\U{233B4}']) == [0xEF, 0xBB, 0xBF, 0xF0, 0xA3, 0x8E, 0xB4]
  {
    ExampleCharacters();
    hide EncodeChar;
    EncodeTwo('\U{41}', '\U{2262}');
    EncodeTwo('\U{391}', '\U{2E}');
    EncodeTwo('\U{FEFF}', '\U{233B4}');
    hide Encode;
    var front, back := ['\U{41}', '\U{2262}'], ['\U{391}', '\U{2E}'];
    EncodeAppend(front, back);
    assert ['\U{41}', '\U{2262}', '\U{391}', '\U{2E}'] == front + back;
  }

  lemma ExampleCharacters()
    ensures EncodeChar('\U{41}') == [0x41] && EncodeChar('\U{2E}') == [0x2E] && EncodeChar('\U{391}') == [0xCE, 0x91]
    ensures EncodeChar('\U{2262}') == [0xE2, 0x89, 0xA2] && EncodeChar('\U{FEFF}') == [0xEF, 0xBB, 0xBF]
    ensures EncodeChar('\U{233B4}') == [0xF0, 0xA3, 0x8E, 0xB4]
  {
  }

  lemma EncodeTwo(c: char, d: char)
    ensures Encode([c, d]) == EncodeChar(c) + EncodeChar(d)
  {
    hide Encode, EncodeChar;
    EncodeAppend([c], [d]);
    EncodeOne(c);
    EncodeOne(d);
    assert [c, d] == [c] + [d];
  }

  lemma EncodeOne(c: char)
    ensures Encode([c]) == EncodeChar(c)
  {
    assert [c][1..] == [];
  }
}
