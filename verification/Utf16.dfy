/**
 The `\uXXXX` escapes of JSON strings: components/cJSON/cJSON.c:598-789.
 The masks and shifts of the source are written as `/` and `%` by powers of two.
 */
module Utf16 {
  import opened Bytes

  // ----- hexadecimal digits

  /** The value of a hexadecimal digit, or -1. */
  function HexValue(b: Byte): int {
    if '0' <= b <= '9' then b as int - '0' as int
    else if 'A' <= b <= 'F' then 10 + b as int - 'A' as int
    else if 'a' <= b <= 'f' then 10 + b as int - 'a' as int
    else -1
  }

  ghost predicate FourHex(c: Text, p: nat) {
    p + 4 <= |c| && forall i :: p <= i < p + 4 ==> HexValue(c[i]) >= 0
  }

  /** What four hexadecimal digits denote; 0 when one of them is not a digit. */
  ghost function Hex4(c: Text, p: nat): (h: int)
    requires p + 4 <= |c|
    ensures 0 <= h <= 0xFFFF
  {
    if FourHex(c, p)
    then 4096 * HexValue(c[p]) + 256 * HexValue(c[p + 1]) + 16 * HexValue(c[p + 2]) + HexValue(c[p + 3])
    else 0
  }

  method ParseHex4(c: Text, p: nat) returns (h: int)
    requires p + 4 <= |c|
    ensures h == Hex4(c, p)
  {
    h := 0;
    for i := 0 to 4
      invariant forall k :: p <= k < p + i ==> HexValue(c[k]) >= 0
      invariant i == 1 ==> h == 16 * HexValue(c[p])
      invariant i == 2 ==> h == 256 * HexValue(c[p]) + 16 * HexValue(c[p + 1])
      invariant i == 3 ==> h == 4096 * HexValue(c[p]) + 256 * HexValue(c[p + 1]) + 16 * HexValue(c[p + 2])
      invariant i == 0 ==> h == 0
      invariant i == 4 ==> FourHex(c, p) && h == Hex4(c, p)
    {
      if HexValue(c[p + i]) < 0 {
        return 0;
      }
      h := h + HexValue(c[p + i]);
      if i < 3 {
        h := 16 * h;
      }
    }
  }

  // ----- UTF-16

  predicate HighSurrogate(u: int) { 0xD800 <= u <= 0xDBFF }
  predicate LowSurrogate(u: int) { 0xDC00 <= u <= 0xDFFF }

  /** Every code point except the surrogates (section 3 of RFC 3629). */
  predicate ScalarValue(cp: int) {
    0 <= cp <= 0x10FFFF && !HighSurrogate(cp) && !LowSurrogate(cp)
  }

  datatype Literal = Refused | Literal(codepoint: int, length: nat)

  /** The code point that the escape at `p` denotes; `end` is the closing quote. */
  ghost function DecodeLiteral(c: Text, p: nat, end: nat): (l: Literal)
    requires p <= end <= |c|
    ensures l.Literal? ==> (l.length == 6 || l.length == 12) && p + l.length <= end
    ensures l.Literal? ==> ScalarValue(l.codepoint)
    ensures l.Literal? && l.length == 12 ==> l.codepoint >= 0x10000
    ensures l.Literal? && l.length == 6 ==> l.codepoint < 0x10000
  {
    if end - p < 6 then Refused else
    var first := Hex4(c, p + 2);
    if LowSurrogate(first) then Refused
    else if HighSurrogate(first) then
      if end - (p + 6) < 6 then Refused
      else if c[p + 6] != '\\' || c[p + 7] != 'u' then Refused
      else
        var second := Hex4(c, p + 8);
        if second < 0xDC00 || second > 0xDFFF then Refused
        else Literal(0x10000 + (first % 1024) * 1024 + second % 1024, 12)
    else Literal(first, 6)
  }

  // ----- UTF-8

  function Utf8(cp: int): (t: Text)
    requires 0 <= cp <= 0x10FFFF
    ensures 1 <= |t| <= 4
  {
    if cp < 0x80 then [cp as char]
    else if cp < 0x800 then [Lead(0xC0, cp / 64), Continuation(cp)]
    else if cp < 0x10000 then [Lead(0xE0, cp / 4096), Continuation(cp / 64), Continuation(cp)]
    else [Lead(0xF0, cp / 262144), Continuation(cp / 4096), Continuation(cp / 64), Continuation(cp)]
  }

  /** `(bits | mark) & 0xFF`, where the mark's bits are clear in `bits`. */
  function Lead(mark: int, bits: int): Byte
    requires 0 <= bits && 0 <= mark && mark + bits < 256
  {
    (mark + bits) as char
  }

  /** `(bits | 0x80) & 0xBF` as an unsigned char. */
  function Continuation(bits: int): Byte
    requires 0 <= bits
  {
    (0x80 + bits % 64) as char
  }

  /**
   Converts the escape at `p`, writing its UTF-8 bytes at `out[o..]`.  The sequence length is 0
   when the escape is refused.
   */
  method Utf16LiteralToUtf8(c: Text, p: nat, end: nat, out: array<Byte>, o: nat)
    returns (sequenceLength: nat, next: nat)
    requires p <= end <= |c|
    requires DecodeLiteral(c, p, end).Literal? ==> o + |Utf8(DecodeLiteral(c, p, end).codepoint)| <= out.Length
    requires o <= out.Length
    modifies out
    ensures var l := DecodeLiteral(c, p, end);
      if l.Refused? then sequenceLength == 0 && next == o && out[..] == old(out[..])
      else
        && sequenceLength == l.length
        && next == o + |Utf8(l.codepoint)| <= out.Length
        && out[..] == Splice(old(out[..]), o, Utf8(l.codepoint))
  {
    next := o;
    if end - p < 6 {
      return 0, o;
    }
    var codepoint: int;
    var first := ParseHex4(c, p + 2);
    if 0xDC00 <= first <= 0xDFFF {
      return 0, o;
    }
    if 0xD800 <= first <= 0xDBFF {
      sequenceLength := 12;
      if end - (p + 6) < 6 {
        return 0, o;
      }
      if c[p + 6] != '\\' || c[p + 7] != 'u' {
        return 0, o;
      }
      var second := ParseHex4(c, p + 8);
      if second < 0xDC00 || second > 0xDFFF {
        return 0, o;
      }
      codepoint := 0x10000 + ((first % 1024) * 1024 + second % 1024);
    } else {
      sequenceLength := 6;
      codepoint := first;
    }
    assert DecodeLiteral(c, p, end) == Literal(codepoint, sequenceLength);
    next := EncodeUtf8(codepoint, out, o);
  }

  /** The encoding half of the conversion: writes the UTF-8 bytes of `cp` at `out[o..]`. */
  method EncodeUtf8(cp: nat, out: array<Byte>, o: nat) returns (next: nat)
    requires cp <= 0x10FFFF && o + |Utf8(cp)| <= out.Length
    modifies out
    ensures next == o + |Utf8(cp)|
    ensures out[..] == Splice(old(out[..]), o, Utf8(cp))
  {
    var length, mark := LengthAndMark(cp);
    var codepoint := cp;
    ghost var t := Utf8(cp);
    ghost var was := out[..];
    var position := length - 1;
    while position > 0
      invariant 0 <= position < length == |t| && o + length <= out.Length
      invariant codepoint == Shifted(cp, length - 1 - position)
      invariant forall i :: position < i < length ==> out[o + i] == t[i]
      invariant forall i :: 0 <= i < o || o + length <= i < out.Length ==> out[i] == was[i]
    {
      out[o + position] := Continuation(codepoint);
      codepoint := codepoint / 64;
      position := position - 1;
    }
    if length > 1 {
      out[o] := Lead(mark, codepoint);
    } else {
      out[o] := (codepoint % 128) as char;
    }
    next := o + length;
    Spliced(was, out[..], o, t);
  }

  method LengthAndMark(cp: nat) returns (length: nat, mark: nat)
    requires cp <= 0x10FFFF
    ensures |Utf8(cp)| == length
    ensures forall i :: 0 < i < length ==> Utf8(cp)[i] == Continuation(Shifted(cp, length - 1 - i))
    ensures mark + Shifted(cp, length - 1) < 256
    ensures Utf8(cp)[0] == Lead(mark, Shifted(cp, length - 1))
    ensures length == 1 ==> mark == 0 && Shifted(cp, 0) % 128 == Shifted(cp, 0)
  {
    length, mark := 1, 0;
    if cp < 0x80 {
    } else if cp < 0x800 {
      length, mark := 2, 0xC0;
    } else if cp < 0x10000 {
      length, mark := 3, 0xE0;
    } else {
      length, mark := 4, 0xF0;
    }
    Utf8Bytes(cp, length, mark);
  }

  /** The bytes of `Utf8(cp)`, from the last to the first, are taken from `cp` six bits at a time. */
  lemma Utf8Bytes(cp: nat, length: nat, mark: nat)
    requires cp <= 0x10FFFF
    requires length == if cp < 0x80 then 1 else if cp < 0x800 then 2 else if cp < 0x10000 then 3 else 4
    requires mark == if cp < 0x80 then 0 else if cp < 0x800 then 0xC0 else if cp < 0x10000 then 0xE0 else 0xF0
    ensures |Utf8(cp)| == length
    ensures forall i :: 0 < i < length ==> Utf8(cp)[i] == Continuation(Shifted(cp, length - 1 - i))
    ensures mark + Shifted(cp, length - 1) < 256
    ensures Utf8(cp)[0] == Lead(mark, Shifted(cp, length - 1))
    ensures length == 1 ==> cp % 128 == cp
  {
    assert Shifted(cp, 0) == cp && Shifted(cp, 1) == cp / 64;
    assert Shifted(cp, 2) == cp / 64 / 64 == cp / 4096;
    assert Shifted(cp, 3) == Shifted(cp, 2) / 64 == cp / 262144;
  }

  /** `cp >> 6 * n`. */
  function Shifted(cp: nat, n: nat): nat {
    if n == 0 then cp else Shifted(cp, n - 1) / 64
  }

  // ----- what the conversion means

  /** The UTF-16 code units of a code point (section 2.1 of RFC 2781). */
  ghost function CodeUnits(cp: int): (u: seq<int>)
    requires ScalarValue(cp)
    ensures |u| == 1 || |u| == 2
  {
    if cp < 0x10000 then [cp]
    else [0xD800 + (cp - 0x10000) / 1024, 0xDC00 + (cp - 0x10000) % 1024]
  }

  /** The code units `u` are spelled as escapes at `p`, in front of `end`. */
  ghost predicate Spells(c: Text, p: nat, end: nat, u: seq<int>)
    requires end <= |c|
  {
    p + 6 * |u| <= end
    && forall i :: 0 <= i < |u| ==> SpellsUnit(c, p + 6 * i, u[i])
  }

  ghost predicate SpellsUnit(c: Text, p: nat, unit: int) {
    At(c, p, "\\u") && FourHex(c, p + 2) && Hex4(c, p + 2) == unit
  }

  /**
   A literal is accepted exactly when it spells the code units of a code point, so that lone and
   reversed surrogates are refused, or when its first four digits are not hexadecimal: those are
   accepted as U+0000.
   */
  lemma AcceptedLiterals(c: Text, p: nat, end: nat, cp: int, n: nat)
    requires p + 2 <= end <= |c| && At(c, p, "\\u")
    ensures DecodeLiteral(c, p, end) == Literal(cp, n) <==>
            || (ScalarValue(cp) && n == 6 * |CodeUnits(cp)| && Spells(c, p, end, CodeUnits(cp)))
            || (p + 6 <= end && !FourHex(c, p + 2) && cp == 0 && n == 6)
  {
    if ScalarValue(cp) && Spells(c, p, end, CodeUnits(cp)) {
      SpelledIsAccepted(c, p, end, cp);
    }
    if DecodeLiteral(c, p, end) == Literal(cp, n) && FourHex(c, p + 2) {
      AcceptedIsSpelled(c, p, end);
    }
  }

  lemma SpelledIsAccepted(c: Text, p: nat, end: nat, cp: int)
    requires p + 2 <= end <= |c| && ScalarValue(cp) && Spells(c, p, end, CodeUnits(cp))
    ensures DecodeLiteral(c, p, end) == Literal(cp, 6 * |CodeUnits(cp)|)
  {
    var u := CodeUnits(cp);
    assert SpellsUnit(c, p + 6 * 0, u[0]);
    if |u| == 2 {
      assert SpellsUnit(c, p + 6 * 1, u[1]);
      EscapeHead(c, p + 6);
      SurrogatesCompose(cp);
    }
  }

  lemma SurrogatesCompose(cp: int)
    requires 0x10000 <= cp <= 0x10FFFF
    ensures var u := CodeUnits(cp);
            HighSurrogate(u[0]) && LowSurrogate(u[1]) && 0x10000 + u[0] % 1024 * 1024 + u[1] % 1024 == cp
  {
    var k := cp - 0x10000;
    assert (0xD800 + k / 1024) % 1024 == k / 1024;
    assert (0xDC00 + k % 1024) % 1024 == k % 1024;
  }

  lemma AcceptedIsSpelled(c: Text, p: nat, end: nat)
    requires p + 2 <= end <= |c| && At(c, p, "\\u")
    requires DecodeLiteral(c, p, end).Literal? && FourHex(c, p + 2)
    ensures var l := DecodeLiteral(c, p, end);
            l.length == 6 * |CodeUnits(l.codepoint)| && Spells(c, p, end, CodeUnits(l.codepoint))
  {
    var l := DecodeLiteral(c, p, end);
    var u := CodeUnits(l.codepoint);
    if l.length == 12 {
      EscapeHead(c, p + 6);
      var first, second := Hex4(c, p + 2), Hex4(c, p + 8);
      assert FourHex(c, p + 8);
      SurrogatesDecompose(first, second);
      assert SpellsUnit(c, p + 6, u[1]);
    }
    assert SpellsUnit(c, p, u[0]);
  }

  lemma SurrogatesDecompose(first: int, second: int)
    requires HighSurrogate(first) && LowSurrogate(second)
    ensures var cp := 0x10000 + first % 1024 * 1024 + second % 1024;
            0x10000 <= cp <= 0x10FFFF && CodeUnits(cp) == [first, second]
  {
    assert first % 1024 == first - 0xD800;
    assert second % 1024 == second - 0xDC00;
  }

  lemma EscapeHead(c: Text, p: nat)
    requires p + 2 <= |c|
    ensures At(c, p, "\\u") <==> c[p] == '\\' && c[p + 1] == 'u'
  {
    assert c[p..p + 2] == [c[p], c[p + 1]];
  }

  ghost predicate IsContinuation(b: Byte) {
    0x80 <= b as int < 0xC0
  }

  /** `t` has the bit pattern of one UTF-8 sequence, overlong ones included. */
  ghost predicate Utf8Pattern(t: Text) {
    match |t|
    case 1 => t[0] as int < 0x80
    case 2 => 0xC0 <= t[0] as int < 0xE0 && IsContinuation(t[1])
    case 3 => 0xE0 <= t[0] as int < 0xF0 && IsContinuation(t[1]) && IsContinuation(t[2])
    case 4 => 0xF0 <= t[0] as int < 0xF8 && IsContinuation(t[1]) && IsContinuation(t[2]) && IsContinuation(t[3])
    case _ => false
  }

  /** The bits that a sequence carries (section 3 of RFC 3629). */
  ghost function Utf8Value(t: Text): int
    requires Utf8Pattern(t)
  {
    match |t|
    case 1 => t[0] as int
    case 2 => (t[0] as int - 0xC0) * 64 + (t[1] as int - 0x80)
    case 3 => (t[0] as int - 0xE0) * 4096 + (t[1] as int - 0x80) * 64 + (t[2] as int - 0x80)
    case 4 => (t[0] as int - 0xF0) * 262144 + (t[1] as int - 0x80) * 4096 + (t[2] as int - 0x80) * 64 + (t[3] as int - 0x80)
  }

  /** `cp` in base 64. */
  lemma Sextets(cp: nat)
    ensures cp == cp / 64 * 64 + cp % 64
    ensures cp / 64 == cp / 4096 * 64 + cp / 64 % 64
    ensures cp / 4096 == cp / 262144 * 64 + cp / 4096 % 64
  {
    assert cp / 64 / 64 == cp / 4096;
    assert cp / 4096 / 64 == cp / 262144;
  }

  lemma ContinuationCarries(bits: nat)
    ensures IsContinuation(Continuation(bits)) && Continuation(bits) as int - 0x80 == bits % 64
  {
  }

  lemma Utf8Decodes(cp: int)
    requires 0 <= cp <= 0x10FFFF
    ensures Utf8Pattern(Utf8(cp)) && Utf8Value(Utf8(cp)) == cp
  {
    Sextets(cp);
    ContinuationCarries(cp);
    ContinuationCarries(cp / 64);
    ContinuationCarries(cp / 4096);
    var t := Utf8(cp);
    if cp < 0x80 {
    } else if cp < 0x800 {
      assert t == [Lead(0xC0, cp / 64), Continuation(cp)];
    } else if cp < 0x10000 {
      assert t == [Lead(0xE0, cp / 4096), Continuation(cp / 64), Continuation(cp)];
    } else {
      assert t == [Lead(0xF0, cp / 262144), Continuation(cp / 4096), Continuation(cp / 64), Continuation(cp)];
    }
  }

  /** Two sequences of one length that carry the same bits are equal. */
  lemma Utf8ValueInjective(t: Text, u: Text)
    requires Utf8Pattern(t) && Utf8Pattern(u) && |t| == |u| && Utf8Value(t) == Utf8Value(u)
    ensures t == u
  {
    if |t| == 1 {
      assert t[0] == u[0];
    } else if |t| == 2 {
      assert t[1] == u[1] && t[0] == u[0];
    } else if |t| == 3 {
      assert t[2] == u[2] && t[1] == u[1] && t[0] == u[0];
    } else {
      assert t[3] == u[3] && t[2] == u[2] && t[1] == u[1] && t[0] == u[0];
    }
  }

  /** The bytes written are the only shortest sequence that carries the code point. */
  lemma Utf8IsTheShortest(cp: int, t: Text)
    requires 0 <= cp <= 0x10FFFF && Utf8Pattern(t) && Utf8Value(t) == cp
    ensures |Utf8(cp)| <= |t|
    ensures |t| == |Utf8(cp)| ==> t == Utf8(cp)
  {
    Utf8Decodes(cp);
    Utf8ValueBound(t);
    if |t| == |Utf8(cp)| {
      Utf8ValueInjective(t, Utf8(cp));
    }
  }

  lemma Utf8ValueBound(t: Text)
    requires Utf8Pattern(t)
    ensures |t| == 1 ==> Utf8Value(t) < 0x80
    ensures |t| == 2 ==> Utf8Value(t) < 0x800
    ensures |t| == 3 ==> Utf8Value(t) < 0x10000
  {
  }

  // ----- the tables of the standards

  /** The digits, in either case, and nothing else. */
  lemma HexTable(b: Byte)
    ensures HexValue(b) >= 0 ==>
      HexValue(b) < 16 && (b == "0123456789abcdef"[HexValue(b)] || b == "0123456789ABCDEF"[HexValue(b)])
    ensures forall n :: 0 <= n < 16 ==> HexValue("0123456789abcdef"[n]) == n && HexValue("0123456789ABCDEF"[n]) == n
  {
  }

  /** The bits of section 3 of RFC 3629, and of section 2.1 of RFC 2781. */
  lemma EncodingTable(cp: int)
    requires ScalarValue(cp)
    ensures cp < 0x80 ==> Utf8(cp) == [cp as char]
    ensures 0x80 <= cp < 0x800 ==> Utf8(cp) == [(0xC0 + cp / 0x40) as char, (0x80 + cp % 0x40) as char]
    ensures 0x800 <= cp < 0x10000 ==>
      Utf8(cp) == [(0xE0 + cp / 0x1000) as char, (0x80 + cp / 0x40 % 0x40) as char, (0x80 + cp % 0x40) as char]
    ensures 0x10000 <= cp ==>
      Utf8(cp) == [(0xF0 + cp / 0x40000) as char, (0x80 + cp / 0x1000 % 0x40) as char,
                   (0x80 + cp / 0x40 % 0x40) as char, (0x80 + cp % 0x40) as char]
    ensures CodeUnits(0x12345) == [0xD808, 0xDF45]
  {
  }
}
