/**
 What minifying does to a text, token by token (components/cJSON/cJSON.c:2833-2928): white space,
 comments and lone slashes go, literals and all other bytes stay as they are.
 */
module MinifyTokens {
  import opened Bytes
  import opened Minify

  datatype Token =
    | Space(byte: Byte)
    | LineComment(body: Text)
    | BlockComment(body: Text)
    | Slash
    | Literal(body: Text)
    | Other(byte: Byte)

  /** What may stand at the end: a comment or a literal that is not closed. */
  datatype Ending = Complete | OpenLine(body: Text) | OpenBlock(body: Text) | OpenLiteral(body: Text)

  predicate NoLineEnd(t: Text) {
    forall i :: 0 <= i < |t| ==> t[i] != '\n'
  }

  /** `t` does not hold the end of a comment in front of position `n`. */
  predicate NoCommentEnd(t: Text, n: nat) {
    forall i :: 0 <= i < n && i + 1 < |t| ==> !(t[i] == '*' && t[i + 1] == '/')
  }

  /** Every quote stands behind a backslash. */
  predicate QuotesEscaped(t: Text) {
    forall i :: 0 <= i < |t| && t[i] == '\"' ==> i > 0 && t[i - 1] == '\\'
  }

  predicate ProperToken(t: Token) {
    match t
    case Space(b) => b == ' ' || b == '\t' || b == '\r' || b == '\n'
    case LineComment(body) => NoLineEnd(body)
    case BlockComment(body) => NoCommentEnd(body + "*/", |body|)
    case Slash => true
    case Literal(body) => QuotesEscaped(body) && (body == [] || body[|body| - 1] != '\\')
    case Other(b) => b != ' ' && b != '\t' && b != '\r' && b != '\n' && b != '/' && b != '\"'
  }

  function TokenText(t: Token): (s: Text)
    ensures s != []
  {
    match t
    case Space(b) => [b]
    case LineComment(body) => "//" + (body + "\n")
    case BlockComment(body) => "/*" + (body + "*/")
    case Slash => "/"
    case Literal(body) => "\"" + (body + "\"")
    case Other(b) => [b]
  }

  function TokenKept(t: Token): Text {
    match t
    case Literal(body) => "\"" + (body + "\"")
    case Other(b) => [b]
    case _ => []
  }

  predicate ProperEnding(e: Ending) {
    match e
    case Complete => true
    case OpenLine(body) => NoLineEnd(body)
    case OpenBlock(body) => NoCommentEnd(body, |body|)
    case OpenLiteral(body) => QuotesEscaped(body)
  }

  function EndingText(e: Ending): Text {
    match e
    case Complete => []
    case OpenLine(body) => "//" + body
    case OpenBlock(body) => "/*" + body
    case OpenLiteral(body) => "\"" + body
  }

  function EndingKept(e: Ending): Text {
    if e.OpenLiteral? then EndingText(e) else []
  }

  /** A slash may stand alone in front of `r`. */
  predicate Alone(t: Token, r: Text) {
    t.Slash? && r != [] ==> r[0] != '/' && r[0] != '*'
  }

  function TokensText(ts: seq<Token>, e: Ending): Text {
    if ts == [] then EndingText(e) else TokenText(ts[0]) + TokensText(ts[1..], e)
  }

  function TokensKept(ts: seq<Token>, e: Ending): Text {
    if ts == [] then EndingKept(e) else TokenKept(ts[0]) + TokensKept(ts[1..], e)
  }

  predicate ProperTokens(ts: seq<Token>, e: Ending) {
    ProperEnding(e) &&
    forall i :: 0 <= i < |ts| ==> ProperToken(ts[i]) && Alone(ts[i], TokensText(ts[i + 1..], e))
  }

  // ----- one token

  lemma {:induction false} LineSkipped(body: Text, r: Text)
    requires NoLineEnd(body)
    ensures SkipLine(body + "\n" + r) == r && SkipLine(body) == []
    decreases |body|
  {
    var t := body + "\n" + r;
    if body == [] {
      assert t[1..] == r;
    } else {
      assert t[1..] == body[1..] + "\n" + r;
      LineSkipped(body[1..], r);
    }
  }

  lemma {:induction false} BlockSkipped(body: Text, r: Text)
    requires NoCommentEnd(body + "*/", |body|)
    ensures SkipBlock(body + "*/" + r) == r
    decreases |body|
  {
    var t, u := body + "*/" + r, body + "*/";
    if body == [] {
      assert t[2..] == r;
    } else {
      assert t[0] == u[0] && t[1] == u[1];
      assert t[1..] == body[1..] + "*/" + r;
      var v := body[1..] + "*/";
      assert v == u[1..];
      forall i | 0 <= i < |body[1..]| && i + 1 < |v| ensures !(v[i] == '*' && v[i + 1] == '/') {
        assert v[i] == u[i + 1] && v[i + 1] == u[i + 2];
      }
      BlockSkipped(body[1..], r);
    }
  }

  lemma {:induction false} OpenBlockSkipped(body: Text)
    requires NoCommentEnd(body, |body|)
    ensures SkipBlock(body) == []
    decreases |body|
  {
    if body != [] {
      forall i | 0 <= i < |body[1..]| && i + 1 < |body[1..]| ensures !(body[1..][i] == '*' && body[1..][i + 1] == '/') {
        assert body[1..][i] == body[i + 1] && body[1..][i + 1] == body[i + 2];
      }
      OpenBlockSkipped(body[1..]);
    }
  }

  /** A literal whose quotes are escaped is kept, up to the quote that ends it. */
  lemma {:induction false} LiteralKept(body: Text, r: Text)
    requires QuotesEscaped(body) && (body == [] || body[|body| - 1] != '\\')
    ensures InString(body + "\"" + r) == body + "\"" + Minified(r)
    decreases |body|
  {
    hide Minified;
    var t := body + "\"" + r;
    if body == [] {
      assert t[1..] == r;
    } else {
      var k := if body[0] == '\\' && |body| > 1 && body[1] == '\"' then 2 else 1;
      assert t[0] == body[0] != '\"' && (body[0] == '\\' ==> |body| > 1 && t[1] == body[1]);
      assert t[k..] == body[k..] + "\"" + r && body == body[..k] + body[k..];
      QuotesBehind(body, k);
      LiteralKept(body[k..], r);
    }
  }

  lemma {:induction false} OpenLiteralKept(body: Text)
    requires QuotesEscaped(body)
    ensures InString(body) == body
    decreases |body|
  {
    hide Minified;
    if body != [] {
      var k := if body[0] == '\\' && |body| > 1 && body[1] == '\"' then 2 else 1;
      assert body == body[..k] + body[k..];
      QuotesBehind(body, k);
      OpenLiteralKept(body[k..]);
    }
  }

  lemma QuotesBehind(body: Text, k: nat)
    requires body != [] && QuotesEscaped(body)
    requires k == if body[0] == '\\' && |body| > 1 && body[1] == '\"' then 2 else 1
    ensures QuotesEscaped(body[k..])
    ensures body[k..] != [] ==> body[k..][|body[k..]| - 1] == body[|body| - 1]
  {
    var s := body[k..];
    forall i | 0 <= i < |s| && s[i] == '\"' ensures i > 0 && s[i - 1] == '\\' {
      assert body[i + k] == '\"' && body[i + k - 1] == '\\';
    }
  }

  lemma LiteralStep(t: Text)
    ensures t != [] && t[0] == '\"' ==> Minified(t) == "\"" + InString(t[1..])
  {
  }

  /** A comment up to its line end is dropped, and nothing of what is behind it. */
  lemma LineCommentDropped(body: Text, r: Text)
    requires NoLineEnd(body)
    ensures Minified("//" + (body + "\n") + r) == Minified(r)
  {
    hide SkipLine, Minified, NoLineEnd;
    var s := "//" + (body + "\n") + r;
    MinifiedStep(s);
    assert s[2..] == body + "\n" + r;
    LineSkipped(body, r);
  }

  /** The same for a comment up to its first end. */
  lemma BlockCommentDropped(body: Text, r: Text)
    requires NoCommentEnd(body + "*/", |body|)
    ensures Minified("/*" + (body + "*/") + r) == Minified(r)
  {
    hide SkipBlock, Minified, NoCommentEnd;
    var s := "/*" + (body + "*/") + r;
    MinifiedStep(s);
    assert s[2..] == body + "*/" + r;
    BlockSkipped(body, r);
  }

  /** A literal keeps its bytes. */
  lemma LiteralStays(body: Text, r: Text)
    requires QuotesEscaped(body) && (body == [] || body[|body| - 1] != '\\')
    ensures Minified("\"" + (body + "\"") + r) == "\"" + (body + "\"") + Minified(r)
  {
    hide InString, Minified, QuotesEscaped;
    var s := "\"" + (body + "\"") + r;
    LiteralStep(s);
    assert s[1..] == body + "\"" + r;
    LiteralKept(body, r);
    assert "\"" + (body + "\"" + Minified(r)) == "\"" + (body + "\"") + Minified(r);
  }

  /** Each token is dropped or kept whatever stands behind it. */
  lemma MinifiedToken(t: Token, r: Text)
    requires ProperToken(t) && Alone(t, r)
    ensures Minified(TokenText(t) + r) == TokenKept(t) + Minified(r)
  {
    hide Minified, NoLineEnd, NoCommentEnd, QuotesEscaped;
    match t
    case LineComment(body) => LineCommentDropped(body, r);
    case BlockComment(body) => BlockCommentDropped(body, r);
    case Literal(body) => LiteralStays(body, r);
    case _ =>
      MinifiedStep(TokenText(t) + r);
      assert (TokenText(t) + r)[1..] == r;
  }

  lemma MinifiedEnding(e: Ending)
    requires ProperEnding(e)
    ensures Minified(EndingText(e)) == EndingKept(e)
  {
    hide SkipLine, SkipBlock, InString, Minified;
    var s := EndingText(e);
    NothingLeft();
    LiteralStep(s);
    if s != [] {
      MinifiedStep(s);
    }
    match e
    case Complete =>
    case OpenLine(body) =>
      assert s[2..] == body;
      LineSkipped(body, []);
    case OpenBlock(body) =>
      assert s[2..] == body;
      OpenBlockSkipped(body);
    case OpenLiteral(body) =>
      assert s[1..] == body;
      OpenLiteralKept(body);
  }

  // ----- whole texts

  /** Minifying keeps the literals and the other bytes of a text, in their order, and nothing else. */
  lemma {:induction false} MinifiedTokens(ts: seq<Token>, e: Ending)
    requires ProperTokens(ts, e)
    ensures Minified(TokensText(ts, e)) == TokensKept(ts, e)
    decreases |ts|
  {
    hide Minified, TokenText, TokenKept, ProperToken;
    if ts == [] {
      MinifiedEnding(e);
    } else {
      assert ts[0 + 1..] == ts[1..];
      forall i | 0 <= i < |ts[1..]| ensures ProperToken(ts[1..][i]) && Alone(ts[1..][i], TokensText(ts[1..][i + 1..], e)) {
        assert ts[1..][i] == ts[i + 1] && ts[1..][i + 1..] == ts[i + 1 + 1..];
      }
      MinifiedToken(ts[0], TokensText(ts[1..], e));
      MinifiedTokens(ts[1..], e);
    }
  }

  /** The position of the first line end, or the length of the text. */
  lemma {:induction false} FindLineEnd(t: Text) returns (i: nat)
    ensures i <= |t| && NoLineEnd(t[..i]) && (i < |t| ==> t[i] == '\n')
    decreases |t|
  {
    if t == [] || t[0] == '\n' {
      i := 0;
    } else {
      var j := FindLineEnd(t[1..]);
      i := j + 1;
      assert t[..i] == [t[0]] + t[1..][..j];
    }
  }

  /** The position of the first end of a comment, or the length of the text. */
  lemma {:induction false} FindCommentEnd(t: Text) returns (i: nat)
    ensures i <= |t| && NoCommentEnd(t, i) && (i < |t| ==> i + 1 < |t| && t[i] == '*' && t[i + 1] == '/')
    decreases |t|
  {
    if t == [] || (t[0] == '*' && |t| > 1 && t[1] == '/') {
      i := 0;
    } else {
      var j := FindCommentEnd(t[1..]);
      i := j + 1;
      forall k | 0 <= k < i && k + 1 < |t| ensures !(t[k] == '*' && t[k + 1] == '/') {
        if k > 0 {
          assert t[1..][k - 1] == t[k] && t[1..][k] == t[k + 1];
        }
      }
    }
  }

  /** The position of the quote that ends a literal, or the length of the text. */
  lemma {:induction false} FindQuote(t: Text) returns (i: nat)
    ensures i <= |t| && QuotesEscaped(t[..i])
    ensures i < |t| ==> t[i] == '\"' && (i == 0 || t[i - 1] != '\\')
    decreases |t|
  {
    if t == [] || t[0] == '\"' {
      i := 0;
    } else {
      var k := if t[0] == '\\' && |t| > 1 && t[1] == '\"' then 2 else 1;
      var j := FindQuote(t[k..]);
      i := j + k;
      assert t[k..][..j] == t[k..i];
      forall m | 0 <= m < i && t[m] == '\"' ensures m > 0 && t[m - 1] == '\\' {
        if m >= k {
          assert t[k..i][m - k] == t[m];
          if m > k { assert t[k..i][m - k - 1] == t[m - 1]; }
        }
      }
      if i < |t| && j == 0 {
        assert t[k] == '\"';
      }
    }
  }

  /** Every text is made of such tokens, so that nothing is left open of what minifying does. */
  lemma {:induction false} EveryTextIsTokens(t: Text) returns (ts: seq<Token>, e: Ending)
    ensures ProperTokens(ts, e) && TokensText(ts, e) == t
    decreases |t|
  {
    hide NoLineEnd, NoCommentEnd, QuotesEscaped;
    ts := [];
    if t == [] {
      e := Complete;
      return;
    }
    var token, found := Slash, true;
    if t[0] == '\"' {
      token, e, found := LiteralAhead(t);
    } else if t[0] == '/' && |t| > 1 && t[1] == '/' {
      token, e, found := LineAhead(t);
    } else if t[0] == '/' && |t| > 1 && t[1] == '*' {
      token, e, found := BlockAhead(t);
    } else if t[0] == '/' {
      token := Slash;
    } else if t[0] == ' ' || t[0] == '\t' || t[0] == '\r' || t[0] == '\n' {
      token := Space(t[0]);
    } else {
      token := Other(t[0]);
    }
    if found {
      var rest := t[|TokenText(token)|..];
      assert t == TokenText(token) + rest;
      ts, e := EveryTextIsTokens(rest);
      TokenInFront(token, ts, e);
      ts := [token] + ts;
    }
  }

  lemma LiteralAhead(t: Text) returns (token: Token, e: Ending, found: bool)
    requires t != [] && t[0] == '\"'
    ensures if found then ProperToken(token) && !token.Slash? && TokenText(token) <= t else ProperEnding(e) && EndingText(e) == t
  {
    var i := FindQuote(t[1..]);
    var body := t[1..][..i];
    token, e, found := Literal(body), OpenLiteral(body), i + 1 < |t|;
    if found {
      assert t[..i + 2] == TokenText(token);
    }
  }

  lemma LineAhead(t: Text) returns (token: Token, e: Ending, found: bool)
    requires |t| > 1 && t[0] == '/' && t[1] == '/'
    ensures if found then ProperToken(token) && !token.Slash? && TokenText(token) <= t else ProperEnding(e) && EndingText(e) == t
  {
    var i := FindLineEnd(t[2..]);
    var body := t[2..][..i];
    token, e, found := LineComment(body), OpenLine(body), i + 2 < |t|;
    if found {
      assert t[..i + 3] == TokenText(token);
    }
  }

  lemma BlockAhead(t: Text) returns (token: Token, e: Ending, found: bool)
    requires |t| > 1 && t[0] == '/' && t[1] == '*'
    ensures if found then ProperToken(token) && !token.Slash? && TokenText(token) <= t else ProperEnding(e) && EndingText(e) == t
  {
    var u := t[2..];
    var i := FindCommentEnd(u);
    var body := u[..i];
    token, e, found := BlockComment(body), OpenBlock(body), i < |u|;
    if found {
      assert body + "*/" == u[..i + 2];
      assert t[..i + 4] == TokenText(token);
      forall k | 0 <= k < |body| && k + 1 < |body + "*/"| ensures !((body + "*/")[k] == '*' && (body + "*/")[k + 1] == '/') {
        assert (body + "*/")[k] == u[k] && (body + "*/")[k + 1] == u[k + 1];
      }
    } else {
      assert body == u;
    }
  }

  lemma {:induction false} TokenInFront(token: Token, ts: seq<Token>, e: Ending)
    requires ProperToken(token) && ProperTokens(ts, e) && Alone(token, TokensText(ts, e))
    ensures ProperTokens([token] + ts, e) && TokensText([token] + ts, e) == TokenText(token) + TokensText(ts, e)
  {
    hide ProperToken, TokenText;
    var all := [token] + ts;
    assert all[1..] == ts;
    forall i | 0 <= i < |all| ensures ProperToken(all[i]) && Alone(all[i], TokensText(all[i + 1..], e)) {
      if i > 0 {
        assert all[i] == ts[i - 1] && all[i + 1..] == ts[i..];
        assert ts[i - 1 + 1..] == ts[i..];
      }
    }
  }
}
