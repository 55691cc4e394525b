/**
 What the parser of components/cJSON/cJSON.c makes of a byte buffer: each function gives the value
 read at an offset and the offset behind it, or the offset at which the parser gives up.
 */
module ParseSpec {
  import opened Bytes
  import opened JsonTree
  import opened Utf16

  const NESTING_LIMIT: nat := 1000
  const NUMBER_BUFFER: nat := 63

  datatype Parsed<T> = Ok(value: T, next: nat) | Err(at: nat)

  // ----- white space

  /** The first byte above 32 at or behind `off`, or the last byte of the buffer. */
  function SkipWhitespace(c: Text, off: nat): (r: nat)
    ensures off <= r
    ensures off < |c| ==> r < |c|
    ensures off >= |c| ==> r == off
    decreases |c| - off
  {
    if off + 1 >= |c| || c[off] as int > 32 then off else SkipWhitespace(c, off + 1)
  }

  // ----- strings

  datatype Option<T> = None | Some(value: T)

  /** The closing quote, as the first pass of `parse_string` finds it. */
  function ClosingQuote(c: Text, q: nat): (e: Option<nat>)
    ensures e.Some? ==> q <= e.value < |c| && c[e.value] == '\"'
    decreases |c| - q
  {
    if q >= |c| then None
    else if c[q] == '\"' then Some(q)
    else if c[q] == '\\' then if q + 1 >= |c| then None else ClosingQuote(c, q + 2)
    else ClosingQuote(c, q + 1)
  }

  /** The bytes that a one-letter escape stands for. */
  function ShortEscape(letter: Byte): Option<Byte> {
    if letter == 'b' then Some(BACKSPACE)
    else if letter == 'f' then Some(FORM_FEED)
    else if letter == 'n' then Some('\n')
    else if letter == 'r' then Some('\r')
    else if letter == 't' then Some('\t')
    else if letter == '\"' || letter == '\\' || letter == '/' then Some(letter)
    else None
  }

  /** The second pass of `parse_string`: the bytes from `p` up to the closing quote, unescaped. */
  ghost function Unescape(c: Text, p: nat, end: nat): (r: Parsed<Text>)
    requires end < |c|
    ensures r.Err? ==> r.at < end
    decreases end - p
  {
    if p >= end then Ok([], p)
    else if c[p] != '\\' then Prepend([c[p]], Unescape(c, p + 1, end))
    else if c[p + 1] == 'u' then
      match DecodeLiteral(c, p, end)
      case Refused => Err(p)
      case Literal(cp, n) => Prepend(Utf8(cp), Unescape(c, p + n, end))
    else
      match ShortEscape(c[p + 1])
      case None => Err(p)
      case Some(b) => Prepend([b], Unescape(c, p + 2, end))
  }

  function Prepend<T>(s: seq<T>, r: Parsed<seq<T>>): Parsed<seq<T>> {
    match r
    case Ok(t, n) => Ok(s + t, n)
    case Err(at) => Err(at)
  }

  ghost function ParseString(c: Text, off: nat): (r: Parsed<Text>)
    requires off < |c|
    ensures r.Ok? ==> off < r.next <= |c| && NulFree(r.value)
    ensures r.Err? ==> r.at <= |c|
  {
    if c[off] != '\"' then Err(off + 1) else
    match ClosingQuote(c, off + 1)
    case None => Err(off + 1)
    case Some(end) =>
      match Unescape(c, off + 1, end)
      case Err(at) => Err(at)
      case Ok(bytes, _) => Ok(CString(bytes), end + 1)
  }

  // ----- numbers

  predicate IsDigit(b: Byte) {
    '0' <= b <= '9'
  }

  /** The bytes that `parse_number` copies into its buffer. */
  predicate NumberByte(b: Byte) {
    IsDigit(b) || b == '+' || b == '-' || b == 'e' || b == 'E' || b == '.'
  }

  function NumberLength(c: Text, off: nat, max: nat): (n: nat)
    requires off <= |c|
    ensures off + n <= |c| && n <= max
    decreases max
  {
    if max == 0 || off >= |c| || !NumberByte(c[off]) then 0 else 1 + NumberLength(c, off + 1, max - 1)
  }

  function DigitsValue(t: Text): nat
    requires forall k :: 0 <= k < |t| ==> IsDigit(t[k])
  {
    if t == [] then 0 else
      assert IsDigit(t[|t| - 1]);
      10 * DigitsValue(t[..|t| - 1]) + (t[|t| - 1] as int - '0' as int)
  }

  /** The digits from `i` on, as many as there are. */
  function DigitsAt(t: Text, i: nat): (d: Text)
    requires i <= |t|
    ensures i + |d| <= |t| && t[i..i + |d|] == d && forall k :: 0 <= k < |d| ==> IsDigit(d[k])
    ensures i + |d| < |t| ==> !IsDigit(t[i + |d|])
    decreases |t| - i
  {
    if i < |t| && IsDigit(t[i]) then [t[i]] + DigitsAt(t, i + 1) else []
  }

  function SignAt(t: Text, i: nat): (s: Text)
    requires i <= |t|
    ensures i + |s| <= |t| && t[i..i + |s|] == s
  {
    if i < |t| && (t[i] == '+' || t[i] == '-') then [t[i]] else []
  }

  function Pow10(e: int): real
    decreases if e < 0 then -e else e
  {
    if e == 0 then 1.0 else if e > 0 then 10.0 * Pow10(e - 1) else Pow10(e + 1) / 10.0
  }

  /** An exponent: a letter, a sign or none, and digits; without digits it is not part of the number. */
  datatype Power = NoPower | Power(letter: Byte, sign: Text, digits: Text)

  function PowerAt(t: Text, i: nat): (p: Power)
    requires i <= |t|
    ensures p.Power? ==> i + 1 + |p.sign| + |p.digits| <= |t| && forall k :: 0 <= k < |p.digits| ==> IsDigit(p.digits[k])
  {
    if i < |t| && (t[i] == 'e' || t[i] == 'E') then
      var sign := SignAt(t, i + 1);
      var digits := DigitsAt(t, i + 1 + |sign|);
      if digits == [] then NoPower else Power(t[i], sign, digits)
    else NoPower
  }

  /** What the power adds to the length of the number, and its value. */
  function PowerLength(p: Power): nat {
    if p.NoPower? then 0 else 1 + |p.sign| + |p.digits|
  }

  function PowerValue(p: Power): int
    requires p.Power? ==> forall k :: 0 <= k < |p.digits| ==> IsDigit(p.digits[k])
  {
    if p.NoPower? then 0 else
      var e: int := DigitsValue(p.digits);
      if p.sign == "-" then -e else e
  }

  /** The number that digits, more digits behind the point, and a power of ten stand for. */
  function Magnitude(whole: Text, fraction: Text, p: Power): real
    requires forall k :: 0 <= k < |whole| ==> IsDigit(whole[k])
    requires forall k :: 0 <= k < |fraction| ==> IsDigit(fraction[k])
    requires p.Power? ==> forall k :: 0 <= k < |p.digits| ==> IsDigit(p.digits[k])
  {
    DigitsValue(whole + fraction) as real * Pow10(PowerValue(p) - |fraction|)
  }

  datatype Conversion = Conversion(consumed: nat, value: real)

  /** The C function `strtod` on the number buffer, over the reals: no rounding to `double`. */
  function Strtod(t: Text): (r: Conversion)
    ensures r.consumed <= |t|
  {
    var sign := SignAt(t, 0);
    var whole := DigitsAt(t, |sign|);
    var i := |sign| + |whole|;
    var point := i < |t| && t[i] == '.';
    var fraction := if point then DigitsAt(t, i + 1) else [];
    var end := if point then i + 1 + |fraction| else i;
    if |whole| + |fraction| == 0 then Conversion(0, 0.0) else
    var power := PowerAt(t, end);
    var magnitude := Magnitude(whole, fraction, power);
    Conversion(end + PowerLength(power), if sign == "-" then -magnitude else magnitude)
  }

  /** The conversion of a number to `valueint`: truncated, and saturated at the ends of `int`. */
  function Saturate(d: real): (i: int)
    ensures INT_MIN <= i <= INT_MAX
  {
    if d >= INT_MAX as real then INT_MAX
    else if d <= INT_MIN as real then INT_MIN
    else if d >= 0.0 then d.Floor
    else -(-d).Floor
  }

  function ParseNumber(c: Text, off: nat): (r: Parsed<Json>)
    requires off <= |c|
    ensures r.Ok? ==> off < r.next <= |c| && r.value.Number?
    ensures r.Err? ==> r.at == off
  {
    var t := c[off..off + NumberLength(c, off, NUMBER_BUFFER)];
    var number := Strtod(t);
    if number.consumed == 0 then Err(off)
    else Ok(Number(number.value, Saturate(number.value)), off + number.consumed)
  }

  // ----- values

  ghost function ParseValue(c: Text, off: nat, depth: nat): (r: Parsed<Json>)
    requires off <= |c|
    ensures r.Ok? ==> off < r.next <= |c|
    ensures r.Err? ==> r.at <= |c|
    decreases |c| - off, 3
  {
    if At(c, off, "null") then Ok(Null, off + 4)
    else if At(c, off, "false") then Ok(False, off + 5)
    else if At(c, off, "true") then Ok(True, off + 4)
    else if off == |c| then Err(off)
    else if c[off] == '\"' then
      match ParseString(c, off) {
        case Ok(s, n) => Ok(String(s), n)
        case Err(at) => Err(at)
      }
    else if c[off] == '-' || IsDigit(c[off]) then ParseNumber(c, off)
    else if c[off] == '[' then ParseArray(c, off, depth)
    else if c[off] == '{' then ParseObject(c, off, depth)
    else Err(off)
  }

  ghost function ParseArray(c: Text, off: nat, depth: nat): (r: Parsed<Json>)
    requires off < |c|
    ensures r.Ok? ==> off < r.next <= |c|
    ensures r.Err? ==> r.at <= |c|
    decreases |c| - off, 2
  {
    var start := SkipWhitespace(c, off + 1);
    if depth >= NESTING_LIMIT || c[off] != '[' then Err(off)
    else if start >= |c| then Err(start - 1)
    else if c[start] == ']' then Ok(Array([]), start + 1)
    else
      match ParseItems(c, start - 1, depth + 1)
      case Ok(items, n) => Ok(Array(items), n)
      case Err(at) => Err(at)
  }

  /** The elements behind the bracket or comma at `off`, and the closing bracket. */
  ghost function ParseItems(c: Text, off: nat, depth: nat): (r: Parsed<seq<Json>>)
    requires off < |c|
    ensures r.Ok? ==> off < r.next <= |c|
    ensures r.Err? ==> r.at <= |c|
    decreases |c| - off, 1
  {
    match ParseValue(c, SkipWhitespace(c, off + 1), depth)
    case Err(at) => Err(at)
    case Ok(item, n) =>
      var next := SkipWhitespace(c, n);
      if next < |c| && c[next] == ',' then Prepend([item], ParseItems(c, next, depth))
      else if next < |c| && c[next] == ']' then Ok([item], next + 1)
      else Err(next)
  }

  ghost function ParseObject(c: Text, off: nat, depth: nat): (r: Parsed<Json>)
    requires off < |c|
    ensures r.Ok? ==> off < r.next <= |c|
    ensures r.Err? ==> r.at <= |c|
    decreases |c| - off, 2
  {
    var start := SkipWhitespace(c, off + 1);
    if depth >= NESTING_LIMIT || c[off] != '{' then Err(off)
    else if start >= |c| then Err(start - 1)
    else if c[start] == '}' then Ok(Object([]), start + 1)
    else
      match ParseMembers(c, start - 1, depth + 1)
      case Ok(members, n) => Ok(Object(members), n)
      case Err(at) => Err(at)
  }

  /** The key at `off` and the colon behind it: the offset returned is that of the colon. */
  ghost function ParseKey(c: Text, off: nat): (r: Parsed<Text>)
    requires off < |c|
    ensures r.Ok? ==> off < r.next < |c| && NulFree(r.value)
    ensures r.Err? ==> r.at <= |c|
  {
    match ParseString(c, off)
    case Err(at) => Err(at)
    case Ok(key, n) =>
      var colon := SkipWhitespace(c, n);
      if colon < |c| && c[colon] == ':' then Ok(key, colon) else Err(colon)
  }

  ghost function ParseMembers(c: Text, off: nat, depth: nat): (r: Parsed<seq<Member>>)
    requires off < |c|
    ensures r.Ok? ==> off < r.next <= |c|
    ensures r.Err? ==> r.at <= |c|
    decreases |c| - off, 1
  {
    if off + 1 >= |c| then Err(off) else
    match ParseKey(c, SkipWhitespace(c, off + 1))
    case Err(at) => Err(at)
    case Ok(key, colon) =>
      match ParseValue(c, SkipWhitespace(c, colon + 1), depth)
      case Err(at) => Err(at)
      case Ok(value, n) =>
        var next := SkipWhitespace(c, n);
        if next < |c| && c[next] == ',' then Prepend([Member(key, value)], ParseMembers(c, next, depth))
        else if next < |c| && c[next] == '}' then Ok([Member(key, value)], next + 1)
        else Err(next)
  }

  // ----- documents

  function SkipBom(c: Text): (off: nat)
    ensures off <= |c|
  {
    if 4 < |c| && c[..3] == [0xEF as char, 0xBB as char, 0xBF as char] then 3 else 0
  }

  /** A whole buffer; with `requireNul`, a NUL must follow the value. */
  ghost function ParseDocument(c: Text, requireNul: bool): (r: Parsed<Json>)
    requires c != []
    ensures r.Ok? ==> r.next <= |c|
    ensures r.Err? ==> r.at <= |c|
  {
    match ParseValue(c, SkipWhitespace(c, SkipBom(c)), 0)
    case Err(at) => Err(at)
    case Ok(v, n) =>
      var end := SkipWhitespace(c, n);
      if !requireNul then Ok(v, n)
      else if end < |c| && c[end] == NUL then Ok(v, end)
      else Err(end)
  }
}
