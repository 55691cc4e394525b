/**
 The JSON tree that the parser builds and the printer reads, and the text it stands for
 (components/cJSON/include/cJSON.h:102-123).
 */
module JsonTree {
  import opened Bytes

  datatype Json =
    | Null
    | False
    | True
    | Number(valuedouble: real, valueint: int)
    | String(text: Text)
    | Array(items: seq<Json>)
    | Object(members: seq<Member>)

  datatype Member = Member(key: Text, value: Json)

  const BACKSPACE: Byte := 8 as char
  const FORM_FEED: Byte := 12 as char

  // ----- the text of numbers and strings

  function Digit(d: int): Byte
    requires 0 <= d < 10
  {
    ('0' as int + d) as char
  }

  function NatText(n: nat): (t: Text)
    ensures t != []
  {
    if n < 10 then [Digit(n)] else NatText(n / 10) + [Digit(n % 10)]
  }

  /** The conversion `%d`. */
  function IntText(n: int): Text {
    if n < 0 then "-" + NatText(-n) else NatText(n)
  }

  function HexDigit(d: int): Byte
    requires 0 <= d < 16
  {
    if d < 10 then ('0' as int + d) as char else ('a' as int + d - 10) as char
  }

  /** The bytes that stand for `b` between the quotes. */
  function EscapeByte(b: Byte): (t: Text)
    ensures 1 <= |t| <= 6
  {
    if b as int > 31 && b != '\"' && b != '\\' then [b]
    else if b == '\\' then "\\\\"
    else if b == '\"' then "\\\""
    else if b == BACKSPACE then "\\b"
    else if b == FORM_FEED then "\\f"
    else if b == '\n' then "\\n"
    else if b == '\r' then "\\r"
    else if b == '\t' then "\\t"
    else "\\u00" + [HexDigit(b as int / 16), HexDigit(b as int % 16)]
  }

  function Escape(s: Text): (t: Text)
    ensures |s| <= |t|
  {
    if s == [] then [] else EscapeByte(s[0]) + Escape(s[1..])
  }

  function Quote(s: Text): Text {
    "\"" + Escape(s) + "\""
  }

  // ----- the text of a tree

  function Tabs(n: nat): Text {
    seq(n, _ => '\t')
  }

  function Comma(fmt: bool): Text {
    if fmt then ", " else ","
  }

  function Colon(fmt: bool): Text {
    if fmt then ":\t" else ":"
  }

  function Newline(fmt: bool): Text {
    if fmt then "\n" else ""
  }

  function Indent(fmt: bool, n: nat): Text {
    if fmt then Tabs(n) else ""
  }

  /** The text of `v` printed at nesting depth `depth`, formatted or compact. */
  function Render(v: Json, fmt: bool, depth: nat): (t: Text)
    ensures t != []
    decreases v
  {
    match v
    case Null => "null"
    case False => "false"
    case True => "true"
    case Number(_, i) => IntText(i)
    case String(s) => Quote(s)
    case Array(items) => "[" + RenderItems(items, fmt, depth + 1) + "]"
    case Object(members) =>
      "{" + Newline(fmt) + RenderMembers(members, fmt, depth + 1) + Indent(fmt, depth) + "}"
  }

  function RenderItems(items: seq<Json>, fmt: bool, depth: nat): Text
    decreases items
  {
    if items == [] then []
    else Render(items[0], fmt, depth) + ItemEnd(items, fmt) + RenderItems(items[1..], fmt, depth)
  }

  function ItemEnd(items: seq<Json>, fmt: bool): Text {
    if |items| > 1 then Comma(fmt) else []
  }

  function RenderMembers(members: seq<Member>, fmt: bool, depth: nat): Text
    decreases members
  {
    if members == [] then []
    else
      Indent(fmt, depth) + Quote(members[0].key) + Colon(fmt)
      + Render(members[0].value, fmt, depth) + MemberEnd(members, fmt) + RenderMembers(members[1..], fmt, depth)
  }

  function MemberEnd(members: seq<Member>, fmt: bool): Text {
    (if |members| > 1 then "," else "") + Newline(fmt)
  }

  // ----- what the printer and the parser can handle

  /** A number that `print_number` prints with `%d`. */
  ghost predicate IntNumber(d: real, i: int) {
    d == i as real && INT_MIN <= i <= INT_MAX
  }

  /** Strings are C strings and numbers are integers of the width of `int`. */
  ghost predicate Printable(v: Json)
    decreases v
  {
    match v
    case Number(d, i) => IntNumber(d, i)
    case String(s) => NulFree(s)
    case Array(items) => forall i :: 0 <= i < |items| ==> Printable(items[i])
    case Object(members) =>
      forall i :: 0 <= i < |members| ==> NulFree(members[i].key) && Printable(members[i].value)
    case _ => true
  }

  function Max(a: nat, b: nat): nat {
    if a < b then b else a
  }

  /** How deeply arrays and objects nest in `v`. */
  function Nesting(v: Json): nat
    decreases v
  {
    match v
    case Array(items) => 1 + ItemsNesting(items)
    case Object(members) => 1 + MembersNesting(members)
    case _ => 0
  }

  function ItemsNesting(items: seq<Json>): nat
    decreases items
  {
    if items == [] then 0 else Max(Nesting(items[0]), ItemsNesting(items[1..]))
  }

  function MembersNesting(members: seq<Member>): nat
    decreases members
  {
    if members == [] then 0 else Max(Nesting(members[0].value), MembersNesting(members[1..]))
  }
}
