/** Properties of the scanner: where it fails, and how its tokens tile the input. */
module LexerProps {
  import opened Wrappers
  import opened Chars
  import opened Lexer

  /** Offset `k` lies inside some token. */
  ghost predicate Covered(toks: seq<Token>, k: nat) {
    exists i :: 0 <= i < |toks| && toks[i].loc <= k < toks[i].loc + toks[i].len
  }

  /** Everything from `p` on can start a token or is whitespace. */
  ghost predicate AllValidFrom(src: string, p: nat) {
    forall k :: p <= k < |src| ==> !IsInvalid(src[k])
  }

  /** The scan succeeds exactly when every character from `p` on is whitespace
      or can start a token. */
  lemma {:induction false} ScanOkIffValid(src: string, p: nat)
    requires p <= |src|
    ensures Scan(src, p).Ok? <==> AllValidFrom(src, p)
    decreases |src| - p
  {
    if p < |src| {
      if IsSpace(src[p]) {
        ScanOkIffValid(src, p + 1);
      } else if NextToken(src, p).Some? {
        var q := p + NextToken(src, p).value.len;
        ScanOkIffValid(src, q);
        assert Scan(src, p).Ok? <==> Scan(src, q).Ok?;
      }
    }
  }

  /** A failing scan reports the first character from `p` on that cannot start
      a token. */
  lemma {:induction false} ScanFailsAtFirstInvalid(src: string, p: nat)
    requires p <= |src| && Scan(src, p).Err?
    ensures var e := Scan(src, p).error;
            e.At? && e.msg == "invalid token" && p <= e.offset < |src| && IsInvalid(src[e.offset])
            && AllValidBetween(src, p, e.offset)
    decreases |src| - p
  {
    if IsSpace(src[p]) {
      ScanFailsAtFirstInvalid(src, p + 1);
    } else if NextToken(src, p).Some? {
      var q := p + NextToken(src, p).value.len;
      assert Scan(src, p) == Scan(src, q).PropagateFailure();
      ScanFailsAtFirstInvalid(src, q);
    }
  }

  ghost predicate AllValidBetween(src: string, p: nat, q: nat) {
    forall k :: p <= k < q && k < |src| ==> !IsInvalid(src[k])
  }

  /** Tokens of a scan never overlap: each one ends before any later one starts. */
  lemma {:induction false} LexedOrdered(src: string, p: nat, toks: seq<Token>, i: nat, j: nat)
    requires Ordered(src, p, toks) && i < j < |toks|
    ensures toks[i].loc + toks[i].len <= toks[j].loc
    decreases j - i
  {
    if i + 1 < j {
      LexedOrdered(src, p, toks, i + 1, j);
      assert toks[i].loc + toks[i].len <= toks[i + 1].loc <= toks[i + 1].loc + toks[i + 1].len;
    }
  }

  /** No whitespace character lies inside a token. */
  lemma TokensHoldNoSpace(src: string, p: nat, toks: seq<Token>, i: nat, k: nat)
    requires Lexed(src, p, toks) && i < |toks| && toks[i].loc <= k < toks[i].loc + toks[i].len
    ensures k < |src| && !IsSpace(src[k])
  {
    var t := toks[i];
    if t.kind == Reserved && t.len == 2 {
      assert src[t.loc .. t.loc + 2][k - t.loc] == src[k];
    }
  }

  /** Every character from `p` on that is not whitespace lies in some token;
      `i` is that token. */
  lemma {:induction false} ScanCoversNonSpace(src: string, p: nat, toks: seq<Token>, k: nat) returns (i: nat)
    requires p <= k < |src| && Scan(src, p) == Ok(toks) && !IsSpace(src[k])
    ensures i < |toks| && toks[i].loc <= k < toks[i].loc + toks[i].len
    decreases |src| - p
  {
    if IsSpace(src[p]) {
      i := ScanCoversNonSpace(src, p + 1, toks, k);
    } else {
      var t := NextToken(src, p).value;
      var rest := Scan(src, p + t.len).value;
      assert toks == [t] + rest;
      if k < p + t.len {
        i := 0;
      } else {
        var j := ScanCoversNonSpace(src, p + t.len, rest, k);
        assert toks[j + 1] == rest[j];
        i := j + 1;
      }
    }
  }

  /** `tokenize` fails exactly when the input holds a character that cannot
      start a token, with "invalid token" at the first one. */
  lemma TokenizeFailsAtFirstInvalid(src: string)
    requires forall k :: 0 <= k < |src| ==> src[k] != '\0'
    ensures Tokenize(src).Ok? <==> forall k :: 0 <= k < |src| ==> !IsInvalid(src[k])
    ensures Tokenize(src).Err? ==>
              var e := Tokenize(src).error;
              e.At? && e.msg == "invalid token" && e.offset < |src| && IsInvalid(src[e.offset])
              && forall k :: 0 <= k < e.offset ==> !IsInvalid(src[k])
  {
    TokenizeIsScanThenKeywords(src);
    ScanOkIffValid(src, 0);
    if Tokenize(src).Err? {
      ScanFailsAtFirstInvalid(src, 0);
    }
  }

  /** Every character from `p` on lies in exactly one token of the scan if it
      is not whitespace, and in none if it is. */
  lemma ScanTilesInput(src: string, p: nat, k: nat)
    requires p <= k < |src| && Scan(src, p).Ok?
    ensures var toks := Scan(src, p).value;
            && (IsSpace(src[k]) <==> !Covered(toks, k))
            && forall i, j :: 0 <= i < j < |toks| && toks[i].loc <= k < toks[i].loc + toks[i].len
                 ==> !(toks[j].loc <= k < toks[j].loc + toks[j].len)
  {
    var toks := Scan(src, p).value;
    if IsSpace(src[k]) {
      if Covered(toks, k) {
        var i :| 0 <= i < |toks| && toks[i].loc <= k < toks[i].loc + toks[i].len;
        ScanIsLexed(src, p);
        TokensHoldNoSpace(src, p, toks, i, k);
      }
    } else {
      var i := ScanCoversNonSpace(src, p, toks, k);
    }
    forall i, j | 0 <= i < j < |toks| && toks[i].loc <= k < toks[i].loc + toks[i].len
      ensures !(toks[j].loc <= k < toks[j].loc + toks[j].len)
    {
      LexedOrdered(src, p, toks, i, j);
    }
  }

  /** Two token sequences with the same spans cover the same offsets; the
      keyword pass is such a pair. */
  lemma SameSpansSameCover(raw: seq<Token>, toks: seq<Token>, k: nat)
    requires |raw| == |toks|
    requires forall i :: 0 <= i < |raw| ==> raw[i].loc == toks[i].loc && raw[i].len == toks[i].len
    ensures Covered(raw, k) <==> Covered(toks, k)
  {
    if Covered(raw, k) {
      var i :| 0 <= i < |raw| && raw[i].loc <= k < raw[i].loc + raw[i].len;
      assert toks[i].loc <= k < toks[i].loc + toks[i].len;
    }
    if Covered(toks, k) {
      var i :| 0 <= i < |toks| && toks[i].loc <= k < toks[i].loc + toks[i].len;
      assert raw[i].loc <= k < raw[i].loc + raw[i].len;
    }
  }

  /** No offset lies inside two tokens of an ordered stream. */
  lemma OrderedSpansDisjoint(src: string, toks: seq<Token>, k: nat)
    requires Ordered(src, 0, toks)
    ensures forall i, j :: 0 <= i < j < |toks| && toks[i].loc <= k < toks[i].loc + toks[i].len
              ==> !(toks[j].loc <= k < toks[j].loc + toks[j].len)
  {
    forall i, j | 0 <= i < j < |toks| && toks[i].loc <= k < toks[i].loc + toks[i].len
      ensures !(toks[j].loc <= k < toks[j].loc + toks[j].len)
    {
      LexedOrdered(src, 0, toks, i, j);
    }
  }

  /** The tokens of a successful `tokenize` tile the input: an offset is
      inside some token exactly when it is not white space, and inside at
      most one. */
  lemma TokenizeTilesInput(src: string, toks: seq<Token>, k: nat)
    requires forall k :: 0 <= k < |src| ==> src[k] != '\0'
    requires Tokenize(src) == Ok(toks) && k < |src|
    ensures IsSpace(src[k]) <==> !Covered(toks, k)
    ensures forall i, j :: 0 <= i < j < |toks| && toks[i].loc <= k < toks[i].loc + toks[i].len
              ==> !(toks[j].loc <= k < toks[j].loc + toks[j].len)
  {
    TokenizeIsScanThenKeywords(src);
    var raw := Scan(src, 0).value;
    ScanTilesInput(src, 0, k);
    KeywordPassKeepsSpans(src, raw);
    SameSpansSameCover(raw, toks, k);
    OrderedSpansDisjoint(src, toks, k);
  }
}
