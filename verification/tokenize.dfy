/** The scanner of tokenize.c: a left-to-right pass turning the input string
    into a token sequence that ends with exactly one end-of-input token. */
module Lexer {
  import opened Wrappers
  import opened Chars

  /** `TK_RESERVED`, `TK_IDENT`, `TK_NUM`, `TK_EOF`. */
  datatype TokenKind = Reserved | Ident | Number | Eof

  /** A token covers the input span `[loc, loc + len)`.  `val` is the value of a
      number; other tokens keep the 0 that `calloc` leaves there. */
  datatype Token = Token(kind: TokenKind, loc: nat, len: nat, val: int)

  predicate InBounds(src: string, t: Token) {
    t.loc + t.len <= |src|
  }

  /** The characters a token covers (what `strndup(tok->loc, tok->len)` copies). */
  function Text(src: string, t: Token): string {
    if InBounds(src, t) then src[t.loc .. t.loc + t.len] else []
  }

  /** `equal`: the token is spelled exactly `s`. */
  predicate Equal(src: string, t: Token, s: string) {
    t.len == |s| && InBounds(src, t) && src[t.loc .. t.loc + t.len] == s
  }

  /** `equal` compares the length first and then the characters, so it
      holds exactly when the token's text is `s`. */
  lemma EqualIsText(src: string, t: Token, s: string)
    ensures Equal(src, t, s) <==> InBounds(src, t) && Text(src, t) == s
  {
  }

  /** What the parser relies on: the sequence is closed by an empty end token,
      so no rule can walk past it. */
  predicate IsStream(toks: seq<Token>) {
    |toks| > 0 && toks[|toks| - 1].kind == Eof && toks[|toks| - 1].len == 0
  }

  /** `skip`: consume token `i` if it is spelled `s`, else fail at that token. */
  function Skip(src: string, toks: seq<Token>, i: nat, s: string): (r: Result<nat>)
    requires IsStream(toks) && i < |toks| && |s| > 0
    ensures r.Ok? <==> Equal(src, toks[i], s)
    ensures r.Ok? ==> r.value == i + 1 && r.value < |toks|
    ensures r.Err? ==> r.error == At(toks[i].loc, "expected '" + s + "'")
  {
    if Equal(src, toks[i], s) then Ok(i + 1) else Err(At(toks[i].loc, "expected '" + s + "'"))
  }

  /** A token spelled by a non-empty string is not the closing end token. */
  lemma EqualIsNotLast(src: string, toks: seq<Token>, i: nat, s: string)
    requires IsStream(toks) && i < |toks| && |s| > 0 && Equal(src, toks[i], s)
    ensures i + 1 < |toks|
  {
  }

  /** `startswith`: `q` occurs in `src` at offset `p`. */
  predicate StartsWith(src: string, p: nat, q: string) {
    p + |q| <= |src| && src[p .. p + |q|] == q
  }

  /** One of `==`, `!=`, `<=`, `>=` starts at `p`, stated character by character. */
  predicate IsTwoCharOp(src: string, p: nat) {
    p + 1 < |src| && src[p + 1] == '=' && (src[p] == '=' || src[p] == '!' || src[p] == '<' || src[p] == '>')
  }

  /** The multi-letter punctuation test of the scanning loop. */
  lemma TwoCharOpIsStartsWith(src: string, p: nat)
    ensures IsTwoCharOp(src, p) <==>
              StartsWith(src, p, "==") || StartsWith(src, p, "!=") ||
              StartsWith(src, p, "<=") || StartsWith(src, p, ">=")
  {
    if p + 2 <= |src| {
      assert src[p .. p + 2] == [src[p], src[p + 1]];
    }
  }

  /** The end of the longest run of characters of class `inClass` starting at `p`. */
  function RunEnd(src: string, p: nat, inClass: char -> bool): (q: nat)
    requires p <= |src|
    ensures p <= q <= |src|
    ensures forall k :: p <= k < q ==> inClass(src[k])
    ensures q == |src| || !inClass(src[q])
    decreases |src| - p
  {
    if p < |src| && inClass(src[p]) then RunEnd(src, p + 1, inClass) else p
  }

  /** `[from, to)` is a maximal run of decimal digits. */
  predicate IsNumberRun(src: string, from: nat, to: nat)
    requires from <= to <= |src|
  {
    from < to && (forall k :: from <= k < to ==> IsDigit(src[k])) && (to == |src| || !IsDigit(src[to]))
  }

  /** `[from, to)` is a maximal run `[A-Za-z_][A-Za-z0-9_]*`. */
  predicate IsIdentRun(src: string, from: nat, to: nat)
    requires from <= to <= |src|
  {
    from < to && IsIdent1(src[from]) && (forall k :: from < k < to ==> IsIdent2(src[k]))
    && (to == |src| || !IsIdent2(src[to]))
  }

  /** A token as the scanning loop creates it, before the keyword pass. */
  predicate WellLexed(src: string, t: Token) {
    && 1 <= t.len && t.loc + t.len <= |src|
    && match t.kind
       case Number =>
         IsNumberRun(src, t.loc, t.loc + t.len)
         && t.val == CInt(DecimalValue(src[t.loc .. t.loc + t.len]))
       case Ident =>
         IsIdentRun(src, t.loc, t.loc + t.len) && t.val == 0
       case Reserved =>
         t.val == 0
         && ((t.len == 2 && IsTwoCharOp(src, t.loc))
             || (t.len == 1 && IsPunct(src[t.loc]) && !IsIdent1(src[t.loc]) && !IsTwoCharOp(src, t.loc)))
       case Eof => false
  }

  /** The geometry of a scan from offset `p`: non-empty tokens at or after
      `p`, in increasing non-overlapping order, closed by one empty end token at
      the end of the input. */
  predicate Ordered(src: string, p: nat, toks: seq<Token>) {
    && |toks| >= 1
    && toks[|toks| - 1] == Token(Eof, |src|, 0, 0)
    && (forall i :: 0 <= i < |toks| - 1 ==> p <= toks[i].loc && 1 <= toks[i].len && toks[i].kind != Eof)
    && (forall i :: 0 <= i < |toks| - 1 ==> toks[i].loc + toks[i].len <= toks[i + 1].loc)
  }

  /** The output of the scanning loop from offset `p`. */
  predicate Lexed(src: string, p: nat, toks: seq<Token>) {
    Ordered(src, p, toks) && forall i :: 0 <= i < |toks| - 1 ==> WellLexed(src, toks[i])
  }

  lemma OrderedCons(src: string, p: nat, t: Token, rest: seq<Token>)
    requires 1 <= t.len && t.kind != Eof && p <= t.loc && t.loc + t.len <= |src|
    requires Ordered(src, t.loc + t.len, rest)
    ensures Ordered(src, p, [t] + rest)
  {
    var toks := [t] + rest;
    forall i | 0 <= i < |toks| - 1
      ensures p <= toks[i].loc && 1 <= toks[i].len && toks[i].kind != Eof
      ensures toks[i].loc + toks[i].len <= toks[i + 1].loc
    {
      if i > 0 {
        assert toks[i] == rest[i - 1] && toks[i + 1] == rest[i];
      }
    }
  }

  /** One turn of the scanning loop at a character that is not whitespace: the
      token that starts at `p`, tried in the loop's order (number, identifier,
      two-character operator, one-character punctuation), or `None` when the
      character cannot start a token. */
  function NextToken(src: string, p: nat): (r: Option<Token>)
    requires p < |src| && !IsSpace(src[p])
    ensures r.None? <==> IsInvalid(src[p])
    ensures r.Some? ==> r.value.loc == p && 1 <= r.value.len && r.value.kind != Eof
    ensures r.Some? ==> p + r.value.len <= |src|
    ensures r.Some? ==> forall k :: p <= k < p + r.value.len ==> !IsInvalid(src[k])
  {
    if IsDigit(src[p]) then
      var q := RunEnd(src, p, IsDigit);
      Some(Token(Number, p, q - p, CInt(DecimalValue(src[p .. q]))))
    else if IsIdent1(src[p]) then
      var q := RunEnd(src, p + 1, IsIdent2);
      Some(Token(Ident, p, q - p, 0))
    else if IsTwoCharOp(src, p) then
      assert src[p .. p + 2][1] == src[p + 1];
      Some(Token(Reserved, p, 2, 0))
    else if IsPunct(src[p]) then
      Some(Token(Reserved, p, 1, 0))
    else
      None
  }

  lemma NextTokenIsWellLexed(src: string, p: nat)
    requires p < |src| && !IsSpace(src[p]) && NextToken(src, p).Some?
    ensures WellLexed(src, NextToken(src, p).value)
  {
  }

  /** The scanning loop of `tokenize`, from offset `p`. */
  function Scan(src: string, p: nat): (r: Result<seq<Token>>)
    requires p <= |src|
    ensures r.Ok? ==> Ordered(src, p, r.value)
    decreases |src| - p
  {
    if p == |src| then
      Ok([Token(Eof, p, 0, 0)])
    else if IsSpace(src[p]) then
      Scan(src, p + 1)
    else
      match NextToken(src, p)
      case None => Err(At(p, "invalid token"))
      case Some(t) =>
        var rest :- Scan(src, p + t.len);
        OrderedCons(src, p, t, rest);
        Ok([t] + rest)
  }

  /** Every token but the last that the scanning loop produces is a maximal
      number or identifier run, or an operator, as its kind says. */
  lemma {:induction false} ScanIsLexed(src: string, p: nat)
    requires p <= |src| && Scan(src, p).Ok?
    ensures Lexed(src, p, Scan(src, p).value)
    decreases |src| - p
  {
    if p < |src| {
      if IsSpace(src[p]) {
        ScanIsLexed(src, p + 1);
      } else {
        var t := NextToken(src, p).value;
        var rest := Scan(src, p + t.len).value;
        NextTokenIsWellLexed(src, p);
        ScanIsLexed(src, p + t.len);
        var toks := [t] + rest;
        assert Scan(src, p).value == toks;
        forall i | 0 <= i < |toks| - 1 ensures WellLexed(src, toks[i]) {
          if i > 0 {
            assert toks[i] == rest[i - 1];
          }
        }
      }
    }
  }

  /** No end token occurs among the first `i + 1` tokens. */
  predicate NoEofUpTo(toks: seq<Token>, i: nat) {
    forall j :: 0 <= j <= i && j < |toks| ==> toks[j].kind != Eof
  }

  /** The keyword test applied to one token: spelled `return`, it is reserved. */
  function Keyword(src: string, t: Token): (r: Token)
    requires t.kind != Eof
    ensures r.loc == t.loc && r.len == t.len && r.val == t.val
    ensures r.kind != Eof
  {
    if Equal(src, t, "return") then t.(kind := Reserved) else t
  }

  /** `convert_keywords`: the keyword test applied to every token up to the
      first end token; the tokens from there on are left alone. */
  function ConvertKeywords(src: string, toks: seq<Token>): (r: seq<Token>)
    ensures |r| == |toks|
    ensures forall i :: 0 <= i < |toks| ==>
              r[i] == if NoEofUpTo(toks, i) then Keyword(src, toks[i]) else toks[i]
  {
    if |toks| == 0 || toks[0].kind == Eof then
      toks
    else
      var rest := ConvertKeywords(src, toks[1..]);
      assert forall i :: 1 <= i < |toks| ==> toks[1..][i - 1] == toks[i];
      assert forall i :: 1 <= i < |toks| ==> (NoEofUpTo(toks, i) <==> NoEofUpTo(toks[1..], i - 1));
      [Keyword(src, toks[0])] + rest
  }

  /** A token of the final sequence: as the scanning loop made it, except that
      an identifier spelled `return` has become a reserved word. */
  predicate Classified(src: string, t: Token) {
    if Equal(src, t, "return") then t.kind == Reserved && WellLexed(src, t.(kind := Ident))
    else WellLexed(src, t)
  }

  /** `tokenize`.  The input is a C string, so it holds no NUL character. */
  function Tokenize(src: string): (r: Result<seq<Token>>)
    requires forall k :: 0 <= k < |src| ==> src[k] != '\0'
    ensures r.Ok? ==> IsStream(r.value) && Ordered(src, 0, r.value)
  {
    var toks :- Scan(src, 0);
    KeywordPassKeepsSpans(src, toks);
    Ok(ConvertKeywords(src, toks))
  }

  /** Every token `tokenize` returns, but the end token, is a maximal number
      or identifier run or an operator, and the identifiers spelled `return`
      are exactly the ones that became reserved. */
  lemma TokenizeClassifies(src: string, toks: seq<Token>)
    requires forall k :: 0 <= k < |src| ==> src[k] != '\0'
    requires Tokenize(src) == Ok(toks)
    ensures forall i :: 0 <= i < |toks| - 1 ==> Classified(src, toks[i])
  {
    TokenizeIsScanThenKeywords(src);
    var raw := Scan(src, 0).value;
    ScanIsLexed(src, 0);
    KeywordPassClassifies(src, raw);
  }

  /** The keyword pass keeps the geometry of a scan. */
  lemma KeywordPassKeepsSpans(src: string, toks: seq<Token>)
    requires Ordered(src, 0, toks)
    ensures var r := ConvertKeywords(src, toks);
            && Ordered(src, 0, r)
            && (forall i :: 0 <= i < |r| ==> r[i].loc == toks[i].loc && r[i].len == toks[i].len)
  {
    var r := ConvertKeywords(src, toks);
    forall i | 0 <= i < |r|
      ensures r[i].loc == toks[i].loc && r[i].len == toks[i].len
      ensures r[i].kind == Eof <==> toks[i].kind == Eof
    {
      if NoEofUpTo(toks, i) {
        var k := Keyword(src, toks[i]);
      }
    }
    assert !NoEofUpTo(toks, |toks| - 1);
    assert r[|r| - 1] == toks[|toks| - 1];
  }

  /** After the keyword pass every token of a scan but the last is classified. */
  lemma KeywordPassClassifies(src: string, toks: seq<Token>)
    requires Lexed(src, 0, toks)
    ensures var r := ConvertKeywords(src, toks);
            forall i :: 0 <= i < |r| - 1 ==> Classified(src, r[i])
  {
    var r := ConvertKeywords(src, toks);
    forall i | 0 <= i < |r| - 1 ensures Classified(src, r[i]) {
      assert NoEofUpTo(toks, i);
      KeywordClassifies(src, toks[i]);
    }
  }

  lemma KeywordClassifies(src: string, t: Token)
    requires WellLexed(src, t)
    ensures Classified(src, Keyword(src, t))
  {
    if Equal(src, t, "return") {
      assert IsIdent1(src[t.loc]);
    }
  }

  /** What `tokenize` returns is the scan with the keyword pass applied. */
  lemma TokenizeIsScanThenKeywords(src: string)
    requires forall k :: 0 <= k < |src| ==> src[k] != '\0'
    ensures Tokenize(src).Ok? <==> Scan(src, 0).Ok?
    ensures Tokenize(src).Err? ==> Tokenize(src).error == Scan(src, 0).error
    ensures Tokenize(src).Ok? ==> Tokenize(src).value == ConvertKeywords(src, Scan(src, 0).value)
  {
  }
}
