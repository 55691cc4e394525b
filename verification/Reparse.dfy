/**
 What the parser returns for an arbitrary buffer: the tree it builds is one that the printer
 accepts and the parser reads back, whatever white space, escapes or garbage the buffer held.
 */
module Reparse {
  import opened Bytes
  import opened JsonTree
  import opened ParseSpec
  import opened RoundTrip

  /** Strings are C strings, and the `int` of a number is its saturated truncation. */
  ghost predicate Canonical(v: Json)
    decreases v
  {
    match v
    case Number(d, i) => i == Saturate(d)
    case String(s) => NulFree(s)
    case Array(items) => forall i :: 0 <= i < |items| ==> Canonical(items[i])
    case Object(members) =>
      forall i :: 0 <= i < |members| ==> NulFree(members[i].key) && Canonical(members[i].value)
    case _ => true
  }

  /** No number has a fraction or lies outside the range of `int`. */
  ghost predicate Integral(v: Json)
    decreases v
  {
    match v
    case Number(d, i) => d == i as real
    case Array(items) => forall i :: 0 <= i < |items| ==> Integral(items[i])
    case Object(members) => forall i :: 0 <= i < |members| ==> Integral(members[i].value)
    case _ => true
  }

  lemma {:induction false} IntegralIsPrintable(v: Json)
    requires Canonical(v) && Integral(v)
    ensures Printable(v)
    decreases v
  {
    match v
    case Array(items) =>
      forall i | 0 <= i < |items| ensures Printable(items[i]) { IntegralIsPrintable(items[i]); }
    case Object(members) =>
      forall i | 0 <= i < |members| ensures Printable(members[i].value) { IntegralIsPrintable(members[i].value); }
    case _ =>
  }

  lemma StringsAreCanonical(c: Text, off: nat)
    ensures off < |c| ==> var r := ParseString(c, off); r.Ok? ==> NulFree(r.value)
  {
  }

  /** Every value read at depth `depth` is canonical and within the nesting limit. */
  lemma {:induction false} ValueIsCanonical(c: Text, off: nat, depth: nat)
    requires off <= |c| && depth <= NESTING_LIMIT
    ensures var r := ParseValue(c, off, depth);
            r.Ok? ==> Canonical(r.value) && depth + Nesting(r.value) <= NESTING_LIMIT
    decreases |c| - off, 1
  {
    hide ParseItems, ParseMembers, ParseString, ParseKey;
    StringsAreCanonical(c, off);
    var r := ParseValue(c, off, depth);
    if r.Ok? && off < |c| {
      if r.value.Array? {
        var start := SkipWhitespace(c, off + 1);
        if start < |c| && c[start] != ']' && depth < NESTING_LIMIT {
          ItemsAreCanonical(c, start - 1, depth + 1);
        }
      } else if r.value.Object? {
        var start := SkipWhitespace(c, off + 1);
        if start < |c| && c[start] != '}' && depth < NESTING_LIMIT {
          MembersAreCanonical(c, start - 1, depth + 1);
        }
      }
    }
  }

  lemma {:induction false} ItemsAreCanonical(c: Text, off: nat, depth: nat)
    requires off < |c| && depth <= NESTING_LIMIT
    ensures var r := ParseItems(c, off, depth);
            r.Ok? ==> Canonical(Array(r.value)) && depth + ItemsNesting(r.value) <= NESTING_LIMIT
    decreases |c| - off, 0
  {
    hide ParseValue;
    var start := SkipWhitespace(c, off + 1);
    ValueIsCanonical(c, start, depth);
    var r := ParseValue(c, start, depth);
    if r.Ok? {
      var next := SkipWhitespace(c, r.next);
      if next < |c| && c[next] == ',' {
        ItemsAreCanonical(c, next, depth);
      }
    }
  }

  lemma {:induction false} MembersAreCanonical(c: Text, off: nat, depth: nat)
    requires off < |c| && depth <= NESTING_LIMIT
    ensures var r := ParseMembers(c, off, depth);
            r.Ok? ==> Canonical(Object(r.value)) && depth + MembersNesting(r.value) <= NESTING_LIMIT
    decreases |c| - off, 0
  {
    hide ParseValue, ParseKey;
    if off + 1 < |c| {
      var key := ParseKey(c, SkipWhitespace(c, off + 1));
      if key.Ok? {
        var start := SkipWhitespace(c, key.next + 1);
        ValueIsCanonical(c, start, depth);
        var r := ParseValue(c, start, depth);
        if r.Ok? {
          var next := SkipWhitespace(c, r.next);
          if next < |c| && c[next] == ',' {
            MembersAreCanonical(c, next, depth);
          }
        }
      }
    }
  }

  /**
   Whatever buffer a tree was parsed from, its printed text parses to the same tree: parsing what
   has been printed undoes the printing, and the text is a normal form of the buffer.
   */
  lemma ReparsePrinted(c: Text, requireNul: bool, fmt: bool)
    requires c != [] && ParseDocument(c, requireNul).Ok? && Integral(ParseDocument(c, requireNul).value)
    ensures var v := ParseDocument(c, requireNul).value;
            ParseDocument(Render(v, fmt, 0) + [NUL], true) == Ok(v, |Render(v, fmt, 0)|)
  {
    hide ParseValue, Render;
    var v := ParseDocument(c, requireNul).value;
    ValueIsCanonical(c, SkipWhitespace(c, SkipBom(c)), 0);
    IntegralIsPrintable(v);
    DocumentRoundTrip(v, fmt);
  }
}
