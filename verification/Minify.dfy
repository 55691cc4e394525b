/**
 `cJSON_Minify` (components/cJSON/cJSON.c:2833-2928): drops white space and comments from a text, in
 place.
 */
module Minify {
  import opened Bytes

  predicate MinifySpace(b: Byte) {
    b == ' ' || b == '\t' || b == '\r' || b == '\n'
  }

  /** What is left behind a `//` comment whose text is `t`. */
  function SkipLine(t: Text): (r: Text)
    ensures |r| <= |t|
  {
    if t == [] then [] else if t[0] == '\n' then t[1..] else SkipLine(t[1..])
  }

  /** What is left behind a block comment whose text is `t`. */
  function SkipBlock(t: Text): (r: Text)
    ensures |r| <= |t|
  {
    if t == [] then [] else if t[0] == '*' && |t| > 1 && t[1] == '/' then t[2..] else SkipBlock(t[1..])
  }

  function Minified(t: Text): Text
    decreases |t|
  {
    if t == [] then []
    else if MinifySpace(t[0]) then Minified(t[1..])
    else if t[0] == '/' then
      if |t| > 1 && t[1] == '/' then Minified(SkipLine(t[2..]))
      else if |t| > 1 && t[1] == '*' then Minified(SkipBlock(t[2..]))
      else Minified(t[1..])
    else if t[0] == '\"' then "\"" + InString(t[1..])
    else [t[0]] + Minified(t[1..])
  }

  /** The text behind an opening quote: only `\"` is known as an escape. */
  function InString(t: Text): Text
    decreases |t|
  {
    if t == [] then []
    else if t[0] == '\"' then "\"" + Minified(t[1..])
    else if t[0] == '\\' && |t| > 1 && t[1] == '\"' then "\\\"" + InString(t[2..])
    else [t[0]] + InString(t[1..])
  }

  // ----- in place

  /** The array holds a C string of length `n`. */
  ghost predicate Holds(s: Text, n: nat) {
    n < |s| && s[n] == NUL && NulFree(s[..n])
  }

  method SkipOnelineComment(json: array<Byte>, p: nat, ghost n: nat) returns (q: nat)
    requires Holds(json[..], n) && p + 2 <= n
    ensures p < q <= n && json[q..n] == SkipLine(json[p + 2..n])
  {
    q := p + 2;
    while json[q] != NUL
      invariant p + 2 <= q <= n
      invariant SkipLine(json[q..n]) == SkipLine(json[p + 2..n])
      decreases n - q
    {
      if json[q] == '\n' {
        q := q + 1;
        return;
      }
      q := q + 1;
    }
  }

  /** A comment goes on behind a byte that does not begin its end. */
  lemma BlockStep(s: Text, q: nat, n: nat)
    requires Holds(s, n) && q < n
    ensures s[q] == '*' && s[q + 1] == '/' ==> q + 2 <= n && SkipBlock(s[q..n]) == s[q + 2..n]
    ensures !(s[q] == '*' && s[q + 1] == '/') ==> SkipBlock(s[q..n]) == SkipBlock(s[q + 1..n])
  {
    assert s[q..n][1..] == s[q + 1..n];
    assert q + 2 <= n ==> s[q..n][2..] == s[q + 2..n];
  }

  method SkipMultilineComment(json: array<Byte>, p: nat, ghost n: nat) returns (q: nat)
    requires Holds(json[..], n) && p + 2 <= n
    ensures p < q <= n && json[q..n] == SkipBlock(json[p + 2..n])
  {
    hide SkipBlock;
    q := p + 2;
    while json[q] != NUL
      invariant p + 2 <= q <= n
      invariant SkipBlock(json[q..n]) == SkipBlock(json[p + 2..n])
      decreases n - q
    {
      BlockStep(json[..], q, n);
      assert json[..][q..n] == json[q..n] && json[..][q + 1..n] == json[q + 1..n];
      if json[q] == '*' && json[q + 1] == '/' {
        assert json[..][q + 2..n] == json[q + 2..n];
        q := q + 2;
        return;
      }
      q := q + 1;
    }
    assert q == n;
    NothingSkipped();
  }

  /** Writes one byte of the output. */
  method Put(json: array<Byte>, w: nat, b: Byte, ghost n: nat)
    requires Holds(json[..], n) && w < n && b != NUL
    modifies json
    ensures Holds(json[..], n)
    ensures json[w + 1..] == old(json[w + 1..])
    ensures json[..w + 1] == old(json[..w]) + [b]
  {
    ghost var was := json[..];
    json[w] := b;
    assert json[..] == was[w := b];
  }

  lemma NothingSkipped()
    ensures SkipBlock([]) == []
  {
  }

  lemma NothingLeft()
    ensures InString([]) == [] && Minified([]) == []
  {
  }

  /** How the text of a literal goes on. */
  lemma InStringStep(t: Text)
    requires t != []
    ensures t[0] == '\"' ==> InString(t) == [t[0]] + Minified(t[1..])
    ensures t[0] == '\\' && |t| > 1 && t[1] == '\"' ==> InString(t) == [t[0], t[1]] + InString(t[2..])
    ensures t[0] != '\"' && !(t[0] == '\\' && |t| > 1 && t[1] == '\"') ==> InString(t) == [t[0]] + InString(t[1..])
  {
  }

  /**
   Copies a string literal from `p` down to `into`.  The two positions never cross, so what is still
   to be read is not overwritten.
   */
  method MinifyString(json: array<Byte>, p: nat, into: nat, ghost n: nat) returns (q: nat, w: nat)
    requires Holds(json[..], n) && into <= p < n && json[p] == '\"'
    modifies json
    ensures Holds(json[..], n) && p < q <= n && into < w <= q
    ensures json[w..] == old(json[w..])
    ensures json[..w] + Minified(json[q..n]) == old(json[..into] + Minified(json[p..n]))
  {
    ghost var was := json[..];
    ghost var goal := json[..into] + Minified(json[p..n]);
    assert goal == json[..into] + [json[p]] + InString(was[p + 1..n]) by {
      assert json[p..n][1..] == was[p + 1..n];
    }
    Put(json, into, json[p], n);
    q := p + 1;
    w := into + 1;
    hide InString, Minified;
    while json[q] != NUL
      invariant p < q <= n && into < w <= q
      invariant Holds(json[..], n)
      invariant json[w..] == was[w..]
      invariant json[..w] + InString(was[q..n]) == goal
      decreases n - q
    {
      var closed;
      q, w, closed := MinifyByte(json, q, w, n, was, goal);
      if closed {
        assert json[q..n] == was[q..n] by { SuffixAt(json[..], was, w); }
        return;
      }
    }
    assert json[q..n] == was[q..n] by { SuffixAt(json[..], was, w); }
    assert json[q..n] == [];
    NothingLeft();
  }

  /** The body of the loop: an escaped quote takes two bytes, everything else one. */
  method MinifyByte(json: array<Byte>, p: nat, into: nat, ghost n: nat, ghost was: Text, ghost goal: Text)
    returns (q: nat, w: nat, closed: bool)
    requires Holds(json[..], n) && into <= p < n && |was| == json.Length
    requires json[into..] == was[into..] && json[..into] + InString(was[p..n]) == goal
    modifies json
    ensures Holds(json[..], n) && p < q <= n && into < w <= q
    ensures json[w..] == was[w..]
    ensures json[..w] + (if closed then Minified(was[q..n]) else InString(was[q..n])) == goal
  {
    hide InString, Minified;
    ghost var rest, before := was[p..n], json[..into];
    SuffixAt(json[..], was, into);
    assert forall k :: into <= k < json.Length ==> json[k] == was[k];
    InStringStep(rest);
    Put(json, into, json[p], n);
    q, w, closed := p + 1, into + 1, false;
    assert forall k :: w <= k < json.Length ==> json[k] == was[k];
    assert json[p] == was[p] == rest[0] && rest[1..] == was[p + 1..n];
    Regrouped(before, [rest[0]], Minified(rest[1..]));
    Regrouped(before, [rest[0]], InString(rest[1..]));
    if json[p] == '\"' {
      closed := true;
    } else if json[p] == '\\' && json[p + 1] == '\"' {
      assert p + 1 < n && rest[2..] == was[p + 2..n];
      Put(json, into + 1, json[p + 1], n);
      q, w := p + 2, into + 2;
      assert json[..w] == before + [rest[0], rest[1]];
      Regrouped(before, [rest[0], rest[1]], InString(rest[2..]));
    }
  }

  lemma Regrouped(a: Text, b: Text, c: Text)
    ensures a + b + c == a + (b + c)
  {
  }

  lemma SuffixAt(s: Text, t: Text, k: nat)
    requires k <= |s| == |t| && s[k..] == t[k..]
    ensures forall i :: k <= i < |s| ==> s[i] == t[i]
  {
    forall i | k <= i < |s| ensures s[i] == t[i] {
      assert s[k..][i - k] == t[k..][i - k];
    }
  }

  /** How a text goes on outside of string literals. */
  lemma MinifiedStep(t: Text)
    requires t != []
    ensures MinifySpace(t[0]) ==> Minified(t) == Minified(t[1..])
    ensures t[0] == '/' && |t| > 1 && t[1] == '/' ==> Minified(t) == Minified(SkipLine(t[2..]))
    ensures t[0] == '/' && |t| > 1 && t[1] == '*' ==> Minified(t) == Minified(SkipBlock(t[2..]))
    ensures t[0] == '/' && !(|t| > 1 && (t[1] == '/' || t[1] == '*')) ==> Minified(t) == Minified(t[1..])
    ensures !MinifySpace(t[0]) && t[0] != '/' && t[0] != '\"' ==> Minified(t) == [t[0]] + Minified(t[1..])
  {
  }

  /** One round of the main loop. */
  method MinifyToken(json: array<Byte>, p: nat, into: nat, ghost n: nat) returns (q: nat, w: nat)
    requires Holds(json[..], n) && into <= p < n
    modifies json
    ensures Holds(json[..], n) && p < q <= n && into <= w <= q
    ensures json[w..] == old(json[w..])
    ensures json[..w] + Minified(json[q..n]) == old(json[..into] + Minified(json[p..n]))
  {
    hide InString, Minified, SkipLine, SkipBlock;
    ghost var rest := json[p..n];
    MinifiedStep(rest);
    assert rest[1..] == json[p + 1..n];
    q, w := p + 1, into;
    if json[p] == ' ' || json[p] == '\t' || json[p] == '\r' || json[p] == '\n' {
    } else if json[p] == '/' {
      if json[p + 1] == '/' {
        assert p + 2 <= n && rest[2..] == json[p + 2..n];
        q := SkipOnelineComment(json, p, n);
      } else if json[p + 1] == '*' {
        assert p + 2 <= n && rest[2..] == json[p + 2..n];
        q := SkipMultilineComment(json, p, n);
      }
    } else if json[p] == '\"' {
      q, w := MinifyString(json, p, into, n);
    } else {
      ghost var was := json[..];
      Put(json, into, json[p], n);
      w := into + 1;
      SuffixOf(json[..], was, w, q);
      assert json[q..n] == json[q..][..n - q] && was[q..n] == was[q..][..n - q];
    }
  }

  /** Rewrites the text in place; nothing behind the new end is touched. */
  method Minify(json: array<Byte>)
    requires |CString(json[..])| < json.Length
    modifies json
    ensures CString(json[..]) == Minified(CString(old(json[..])))
    ensures |Minified(CString(old(json[..])))| <= |CString(old(json[..]))|
    ensures forall i :: |CString(json[..])| < i < json.Length ==> json[i] == old(json[i])
  {
    hide InString, Minified;
    ghost var was := json[..];
    ghost var n := |CString(was)|;
    assert was[..n] == CString(was);
    var p, into := 0, 0;
    while json[p] != NUL
      invariant Holds(json[..], n) && into <= p <= n
      invariant json[into..] == was[into..]
      invariant json[..into] + Minified(json[p..n]) == Minified(was[..n])
      decreases n - p
    {
      ghost var before := json[..];
      ghost var from := into;
      p, into := MinifyToken(json, p, into, n);
      SuffixOf(before, was, from, into);
    }
    NothingLeft();
    assert json[p..n] == [];
    json[into] := NUL;
    CStringUnique(json[..], json[..into]);
    assert forall i :: into < i < json.Length ==> json[i] == was[i] by { SuffixAt(was, json[..][into := was[into]], into); }
  }

  lemma SuffixOf(s: Text, t: Text, k: nat, m: nat)
    requires k <= m <= |s| == |t| && s[k..] == t[k..]
    ensures s[m..] == t[m..]
  {
    assert s[m..] == s[k..][m - k..] && t[m..] == t[k..][m - k..];
  }
}
