/**
 * The splitting rules of MAEArrayAdapter.h: a raw string is cut at each
 * separator that stands outside quotes, quotes must balance, a backslash
 * inside quotes escapes the next character, and empty pieces are dropped.
 */
module Splitting {
  import opened ErrorCodes
  import opened SeparatedStrings
  import opened Joining

  /** The quote state of the left-to-right scan. */
  datatype ScanState = Outside | InQuote(quote: char) | Escaping(quote: char)

  /**
   * One character of the scan. Outside quotes, either quote character opens
   * a quoted part; inside, only the same quote closes it, and a backslash
   * makes the next character content.
   */
  function Step(st: ScanState, c: char): ScanState {
    match st
    case Outside => if IsQuote(c) then InQuote(c) else Outside
    case InQuote(q) => if c == Backslash then Escaping(q) else if c == q then Outside else InQuote(q)
    case Escaping(q) => InQuote(q)
  }

  /** The separator cuts only outside quotes (a quote character never acts as separator). */
  predicate SplitsAt(st: ScanState, c: char, sep: char) {
    st == Outside && c == sep && !IsQuote(c)
  }

  /** The state after scanning `s` from `st`. */
  function Run(st: ScanState, s: string): ScanState
    decreases |s|
  {
    if s == [] then st else Run(Step(st, s[0]), s[1..])
  }

  /** Scanning `p` from `st` meets no separator that cuts. */
  predicate NoSplit(st: ScanState, p: string, sep: char)
    decreases |p|
  {
    p == [] || (!SplitsAt(st, p[0], sep) && NoSplit(Step(st, p[0]), p[1..], sep))
  }

  /** A piece that can stand between two cutting separators: balanced and uncut. */
  predicate WellFormedPiece(p: string, sep: char) {
    Run(Outside, p) == Outside && NoSplit(Outside, p, sep)
  }

  lemma {:induction false} RunConcat(st: ScanState, a: string, b: string, sep: char)
    ensures Run(st, a + b) == Run(Run(st, a), b)
    ensures NoSplit(st, a + b, sep) <==> NoSplit(st, a, sep) && NoSplit(Run(st, a), b, sep)
    decreases |a|
  {
    if a == [] {
      assert a + b == b;
    } else {
      assert (a + b)[0] == a[0];
      assert (a + b)[1..] == a[1..] + b;
      RunConcat(Step(st, a[0]), a[1..], b, sep);
    }
  }

  /**
   * NoSplit read positionally: no character of `p` is a separator reached
   * outside quotes.
   */
  lemma {:induction false} NoSplitAt(st: ScanState, p: string, sep: char)
    ensures NoSplit(st, p, sep) <==> forall i :: 0 <= i < |p| ==> !SplitsAt(Run(st, p[..i]), p[i], sep)
    decreases |p|
  {
    if p != [] {
      NoSplitAt(Step(st, p[0]), p[1..], sep);
      assert p[..0] == [];
      forall i | 1 <= i < |p|
        ensures Run(st, p[..i]) == Run(Step(st, p[0]), p[1..][..i - 1]) && p[i] == p[1..][i - 1]
      {
        assert p[..i][0] == p[0];
        assert p[..i][1..] == p[1..][..i - 1];
      }
      if !NoSplit(st, p, sep) && !SplitsAt(st, p[0], sep) {
        var j :| 0 <= j < |p[1..]| && SplitsAt(Run(Step(st, p[0]), p[1..][..j]), p[1..][j], sep);
        assert SplitsAt(Run(st, p[..j + 1]), p[j + 1], sep);
      }
    }
  }

  /**
   * Inside a quote, content without that quote and without a backslash never
   * closes it: the separator and the other quote character are content there.
   */
  lemma {:induction false} QuotedContentStaysQuoted(q: char, c: string, sep: char)
    requires IsQuote(q)
    requires forall i :: 0 <= i < |c| ==> c[i] != q && c[i] != Backslash
    ensures Run(InQuote(q), c) == InQuote(q) && NoSplit(InQuote(q), c, sep)
  {
    if c != [] {
      QuotedContentStaysQuoted(q, c[1..], sep);
    }
  }

  /** Inside a quote, escaped content never closes it, whatever it holds. */
  lemma {:induction false} EscapedContentStaysQuoted(q: char, c: string, sep: char)
    requires IsQuote(q)
    ensures Run(InQuote(q), Escape(q, c)) == InQuote(q) && NoSplit(InQuote(q), Escape(q, c), sep)
  {
    if c != [] {
      var head := if c[0] == q || c[0] == Backslash then [Backslash, c[0]] else [c[0]];
      assert Escape(q, c) == head + Escape(q, c[1..]);
      EscapedContentStaysQuoted(q, c[1..], sep);
      RunConcat(InQuote(q), head, Escape(q, c[1..]), sep);
      if |head| == 2 {
        assert head[1..] == [c[0]];
      }
    }
  }

  /**
   * The scan from `st` as a list of pieces and the final state. The first
   * piece continues the one being read when the scan started.
   */
  function Lex(st: ScanState, s: string, sep: char): (r: (seq<string>, ScanState))
    ensures |r.0| >= 1
    decreases |s|
  {
    if s == [] then ([[]], st)
    else if SplitsAt(st, s[0], sep) then
      var rest := Lex(Outside, s[1..], sep);
      ([[]] + rest.0, rest.1)
    else
      var rest := Lex(Step(st, s[0]), s[1..], sep);
      ([[s[0]] + rest.0[0]] + rest.0[1..], rest.1)
  }

  /** `ps` is a way to cut a scan from `st` into pieces. */
  ghost predicate Decomposition(st: ScanState, ps: seq<string>, sep: char)
    decreases |ps|
  {
    && |ps| >= 1
    && NoSplit(st, ps[0], sep)
    && (|ps| > 1 ==> Run(st, ps[0]) == Outside && Decomposition(Outside, ps[1..], sep))
  }

  function FinalState(st: ScanState, ps: seq<string>): ScanState
    requires |ps| >= 1
    decreases |ps|
  {
    if |ps| == 1 then Run(st, ps[0]) else FinalState(Outside, ps[1..])
  }

  lemma {:induction false} JoinUnfold(ps: seq<string>, sep: char)
    requires |ps| >= 1
    ensures |ps| == 1 ==> JoinStrings(ps, sep) == ps[0]
    ensures |ps| > 1 ==> JoinStrings(ps, sep) == ps[0] + [sep] + JoinStrings(ps[1..], sep)
  {
  }

  /** The scan facts for `s`, given them for the rest after a cutting separator. */
  lemma LexSoundCut(st: ScanState, s: string, sep: char)
    requires s != [] && SplitsAt(st, s[0], sep)
    requires var rest := Lex(Outside, s[1..], sep);
             && JoinStrings(rest.0, sep) == s[1..]
             && Decomposition(Outside, rest.0, sep)
             && FinalState(Outside, rest.0) == rest.1 == Run(Outside, s[1..])
    ensures JoinStrings(Lex(st, s, sep).0, sep) == s
    ensures Decomposition(st, Lex(st, s, sep).0, sep)
    ensures FinalState(st, Lex(st, s, sep).0) == Lex(st, s, sep).1 == Run(st, s)
  {
  }

  /** Prepending a character to the first piece prepends it to the join. */
  lemma JoinPrepend(c: char, ps: seq<string>, sep: char)
    requires |ps| >= 1
    ensures JoinStrings([[c] + ps[0]] + ps[1..], sep) == [c] + JoinStrings(ps, sep)
  {
  }

  /** A character that does not cut, put in front of a decomposition from the state after it. */
  lemma DecompositionPrepend(st: ScanState, c: char, ps: seq<string>, sep: char)
    requires |ps| >= 1 && !SplitsAt(st, c, sep) && Decomposition(Step(st, c), ps, sep)
    ensures Decomposition(st, [[c] + ps[0]] + ps[1..], sep)
    ensures FinalState(st, [[c] + ps[0]] + ps[1..]) == FinalState(Step(st, c), ps)
  {
  }

  /** The scan facts for `s`, given them for the rest after a character that does not cut. */
  lemma LexSoundStep(st: ScanState, s: string, sep: char)
    requires s != [] && !SplitsAt(st, s[0], sep)
    requires var rest := Lex(Step(st, s[0]), s[1..], sep);
             && JoinStrings(rest.0, sep) == s[1..]
             && Decomposition(Step(st, s[0]), rest.0, sep)
             && FinalState(Step(st, s[0]), rest.0) == rest.1 == Run(Step(st, s[0]), s[1..])
    ensures JoinStrings(Lex(st, s, sep).0, sep) == s
    ensures Decomposition(st, Lex(st, s, sep).0, sep)
    ensures FinalState(st, Lex(st, s, sep).0) == Lex(st, s, sep).1 == Run(st, s)
  {
    var rest := Lex(Step(st, s[0]), s[1..], sep);
    assert Lex(st, s, sep) == ([[s[0]] + rest.0[0]] + rest.0[1..], rest.1);
    JoinPrepend(s[0], rest.0, sep);
    DecompositionPrepend(st, s[0], rest.0, sep);
    assert [s[0]] + s[1..] == s;
  }

  /**
   * Soundness of the scan: its pieces join back to the scanned string with
   * the separator, each is cut only where a separator stands outside quotes,
   * and its final state is that of the whole string.
   */
  lemma {:induction false} LexSound(st: ScanState, s: string, sep: char)
    ensures JoinStrings(Lex(st, s, sep).0, sep) == s
    ensures Decomposition(st, Lex(st, s, sep).0, sep)
    ensures FinalState(st, Lex(st, s, sep).0) == Lex(st, s, sep).1 == Run(st, s)
    decreases |s|
  {
    if s != [] {
      if SplitsAt(st, s[0], sep) {
        LexSound(Outside, s[1..], sep);
        LexSoundCut(st, s, sep);
      } else {
        LexSound(Step(st, s[0]), s[1..], sep);
        LexSoundStep(st, s, sep);
      }
    }
  }

  /**
   * Uniqueness of the scan: every decomposition is the one the scan finds,
   * provided the separator is not a quote character.
   */
  lemma {:induction false} LexUnique(st: ScanState, ps: seq<string>, sep: char)
    requires !IsQuote(sep)
    requires Decomposition(st, ps, sep)
    ensures Lex(st, JoinStrings(ps, sep), sep) == (ps, FinalState(st, ps))
    decreases |JoinStrings(ps, sep)|
  {
    var s := JoinStrings(ps, sep);
    JoinUnfold(ps, sep);
    if ps[0] == [] {
      if |ps| > 1 {
        assert st == Outside;
        assert s == [sep] + JoinStrings(ps[1..], sep);
        assert s[0] == sep && SplitsAt(st, s[0], sep);
        assert s[1..] == JoinStrings(ps[1..], sep);
        LexUnique(Outside, ps[1..], sep);
        var rest := Lex(Outside, s[1..], sep);
        assert Lex(st, s, sep) == ([[]] + rest.0, rest.1);
        assert [[]] + ps[1..] == ps;
      } else {
        assert ps == [[]];
        assert s == [];
      }
    } else {
      var c := ps[0][0];
      var ps' := [ps[0][1..]] + ps[1..];
      assert ps'[0] == ps[0][1..] && ps'[1..] == ps[1..];
      assert Decomposition(Step(st, c), ps', sep);
      JoinUnfold(ps', sep);
      assert ps[0] == [c] + ps[0][1..];
      assert s[0] == c;
      assert s[1..] == JoinStrings(ps', sep);
      LexUnique(Step(st, c), ps', sep);
      assert [[c] + ps'[0]] + ps'[1..] == ps;
    }
  }

  /** The pieces of `s`, empty ones included, cut at the separators that stand outside quotes. */
  function Pieces(s: string, sep: char): (ps: seq<string>)
    ensures |ps| >= 1
  {
    Lex(Outside, s, sep).0
  }

  /** Each non-empty piece read as a token; empty pieces are ignored. */
  function TokensOf(ps: seq<string>, ignoreEdgeBlank: bool): (ts: seq<SeparatedString>)
  {
    if ps == [] then []
    else (if ps[0] == [] then [] else [FromOriginal(ps[0], ignoreEdgeBlank)]) + TokensOf(ps[1..], ignoreEdgeBlank)
  }

  /**
   * The tokens of `s`: Err(InvalidInputData) when a quote is left open,
   * whatever the format; otherwise one token per non-empty piece.
   */
  function Tokenize(s: string, sep: char, ignoreEdgeBlank: bool): (r: Result<seq<SeparatedString>>)
    ensures r.Ok? <==> Run(Outside, s) == Outside
    ensures r.Err? ==> r.error == InvalidInputData
  {
    var lexed := Lex(Outside, s, sep);
    LexSound(Outside, s, sep);
    if lexed.1 != Outside then Err(InvalidInputData) else Ok(TokensOf(lexed.0, ignoreEdgeBlank))
  }

  /** A token that re-reads as itself when it stands between two separators. */
  predicate GoodToken(t: SeparatedString, sep: char, ignoreEdgeBlank: bool) {
    && t.originalCharacters != []
    && WellFormedPiece(t.originalCharacters, sep)
    && FromOriginal(t.originalCharacters, ignoreEdgeBlank) == t
  }

  /** A quoted token, whatever its content, is one well-formed piece that reads back as itself. */
  lemma QuotedTokenGood(c: string, t: StringType, sep: char, ignoreEdgeBlank: bool)
    requires t != Enumerate
    ensures GoodToken(WithCharacters(c, t), sep, ignoreEdgeBlank)
  {
    var q := QuoteOf(t);
    var e := Escape(q, c);
    var s := WithCharacters(c, t).originalCharacters;
    assert s == [q] + e + [q];
    EscapedContentStaysQuoted(q, c, sep);
    RunConcat(Outside, [q] + e, [q], sep);
    RunConcat(Outside, [q], e, sep);
    QuotedRoundTrip(c, t, ignoreEdgeBlank);
  }

  lemma {:induction false} PlainStaysOutside(c: string, sep: char)
    requires forall i :: 0 <= i < |c| ==> !IsQuote(c[i]) && c[i] != sep
    ensures Run(Outside, c) == Outside && NoSplit(Outside, c, sep)
  {
    if c != [] {
      PlainStaysOutside(c[1..], sep);
    }
  }

  /** An unquoted token is one only when its text is plain and holds no separator. */
  lemma PlainTokenGood(c: string, sep: char, ignoreEdgeBlank: bool)
    requires Plain(c) && forall i :: 0 <= i < |c| ==> c[i] != sep
    ensures GoodToken(WithCharacters(c, Enumerate), sep, ignoreEdgeBlank)
  {
    PlainStaysOutside(c, sep);
    EnumerateRoundTrip(c, ignoreEdgeBlank);
  }

  /**
   * Tokens written from their characters, quoted or plain, all re-read as
   * themselves when split at a blank.
   */
  lemma WrittenTokensGood(ts: seq<SeparatedString>, sep: char, ignoreEdgeBlank: bool)
    requires IsBlank(sep)
    requires forall i :: 0 <= i < |ts| ==> ts[i] == WithCharacters(ts[i].characters, ts[i].stype)
    requires forall i :: 0 <= i < |ts| && ts[i].stype == Enumerate ==> Plain(ts[i].characters)
    ensures forall i :: 0 <= i < |ts| ==> GoodToken(ts[i], sep, ignoreEdgeBlank)
  {
    forall i | 0 <= i < |ts|
      ensures GoodToken(ts[i], sep, ignoreEdgeBlank)
    {
      if ts[i].stype == Enumerate {
        PlainTokenGood(ts[i].characters, sep, ignoreEdgeBlank);
      } else {
        QuotedTokenGood(ts[i].characters, ts[i].stype, sep, ignoreEdgeBlank);
      }
    }
  }

  lemma {:induction false} TokensOfConcat(a: seq<string>, b: seq<string>, ignoreEdgeBlank: bool)
    ensures TokensOf(a + b, ignoreEdgeBlank) == TokensOf(a, ignoreEdgeBlank) + TokensOf(b, ignoreEdgeBlank)
  {
    if a == [] {
      assert a + b == b;
    } else {
      assert (a + b)[0] == a[0];
      assert (a + b)[1..] == a[1..] + b;
      TokensOfConcat(a[1..], b, ignoreEdgeBlank);
    }
  }

  lemma {:induction false} DecompositionOfGood(ts: seq<SeparatedString>, sep: char, ignoreEdgeBlank: bool)
    requires |ts| >= 1
    requires forall i :: 0 <= i < |ts| ==> GoodToken(ts[i], sep, ignoreEdgeBlank)
    ensures Decomposition(Outside, Originals(ts), sep)
    ensures FinalState(Outside, Originals(ts)) == Outside
    ensures TokensOf(Originals(ts), ignoreEdgeBlank) == ts
  {
    var os := Originals(ts);
    if |ts| > 1 {
      DecompositionOfGood(ts[1..], sep, ignoreEdgeBlank);
      assert os[1..] == Originals(ts[1..]);
    } else {
      assert os[1..] == [];
    }
    assert os == [os[0]] + os[1..];
    TokensOfConcat([os[0]], os[1..], ignoreEdgeBlank);
    assert TokensOf([os[0]], ignoreEdgeBlank) == [ts[0]];
    if |ts| > 1 {
      assert TokensOf(os[1..], ignoreEdgeBlank) == ts[1..];
    }
  }

  /**
   * Joining re-reads exactly: tokens that each re-read as themselves,
   * joined by a separator that is not a quote, tokenize back to the same
   * list (originals, characters and types).
   */
  lemma JoinThenTokenize(ts: seq<SeparatedString>, sep: char, ignoreEdgeBlank: bool)
    requires !IsQuote(sep)
    requires forall i :: 0 <= i < |ts| ==> GoodToken(ts[i], sep, ignoreEdgeBlank)
    ensures Tokenize(ComponentsJoined(ts, sep), sep, ignoreEdgeBlank) == Ok(ts)
  {
    if ts != [] {
      DecompositionOfGood(ts, sep, ignoreEdgeBlank);
      LexUnique(Outside, Originals(ts), sep);
    } else {
      assert ComponentsJoined(ts, sep) == [];
      assert Lex(Outside, [], sep) == ([[]], Outside);
      assert TokensOf([[]], ignoreEdgeBlank) == [] + TokensOf([], ignoreEdgeBlank);
    }
  }

  lemma {:induction false} OriginalsOfTokens(ps: seq<string>, ignoreEdgeBlank: bool)
    ensures Originals(TokensOf(ps, ignoreEdgeBlank)) == NonEmpty(ps)
    decreases |ps|
  {
    if ps != [] {
      OriginalsOfTokens(ps[1..], ignoreEdgeBlank);
      var head := if ps[0] == [] then [] else [FromOriginal(ps[0], ignoreEdgeBlank)];
      var rest := TokensOf(ps[1..], ignoreEdgeBlank);
      assert Originals(head + rest) == Originals(head) + Originals(rest);
    }
  }

  /** Two lists of tokens that each re-read as themselves, put together. */
  lemma AllGoodConcat(a: seq<SeparatedString>, b: seq<SeparatedString>, sep: char, ignoreEdgeBlank: bool)
    requires forall i :: 0 <= i < |a| ==> GoodToken(a[i], sep, ignoreEdgeBlank)
    requires forall i :: 0 <= i < |b| ==> GoodToken(b[i], sep, ignoreEdgeBlank)
    ensures forall i :: 0 <= i < |a + b| ==> GoodToken((a + b)[i], sep, ignoreEdgeBlank)
  {
    forall i | 0 <= i < |a + b|
      ensures GoodToken((a + b)[i], sep, ignoreEdgeBlank)
    {
      if i >= |a| {
        assert (a + b)[i] == b[i - |a|];
      }
    }
  }

  lemma {:induction false} TokensOfGood(ps: seq<string>, sep: char, ignoreEdgeBlank: bool)
    requires Decomposition(Outside, ps, sep) && FinalState(Outside, ps) == Outside
    ensures forall i :: 0 <= i < |TokensOf(ps, ignoreEdgeBlank)| ==> GoodToken(TokensOf(ps, ignoreEdgeBlank)[i], sep, ignoreEdgeBlank)
    decreases |ps|
  {
    var head := if ps[0] == [] then [] else [FromOriginal(ps[0], ignoreEdgeBlank)];
    assert WellFormedPiece(ps[0], sep);
    var rest: seq<SeparatedString> := [];
    if |ps| > 1 {
      TokensOfGood(ps[1..], sep, ignoreEdgeBlank);
      rest := TokensOf(ps[1..], ignoreEdgeBlank);
    } else {
      assert ps[1..] == [];
    }
    assert TokensOf(ps, ignoreEdgeBlank) == head + rest;
    AllGoodConcat(head, rest, sep, ignoreEdgeBlank);
  }

  /** The non-empty strings of `ps`, in order. */
  function NonEmpty(ps: seq<string>): (r: seq<string>)
    ensures forall i :: 0 <= i < |r| ==> r[i] != []
  {
    if ps == [] then [] else (if ps[0] == [] then [] else [ps[0]]) + NonEmpty(ps[1..])
  }

  /**
   * What tokenizing keeps: every token re-reads as itself, and joining the
   * tokens gives back the string with its empty pieces dropped (so exactly
   * the input when it has no empty piece).
   */
  lemma TokenizeThenJoin(s: string, sep: char, ignoreEdgeBlank: bool)
    requires Tokenize(s, sep, ignoreEdgeBlank).Ok?
    ensures forall i :: 0 <= i < |Tokenize(s, sep, ignoreEdgeBlank).value| ==>
              GoodToken(Tokenize(s, sep, ignoreEdgeBlank).value[i], sep, ignoreEdgeBlank)
    ensures ComponentsJoined(Tokenize(s, sep, ignoreEdgeBlank).value, sep) == JoinStrings(NonEmpty(Pieces(s, sep)), sep)
    ensures NonEmpty(Pieces(s, sep)) == Pieces(s, sep) ==> ComponentsJoined(Tokenize(s, sep, ignoreEdgeBlank).value, sep) == s
  {
    LexSound(Outside, s, sep);
    TokensOfGood(Pieces(s, sep), sep, ignoreEdgeBlank);
    OriginalsOfTokens(Pieces(s, sep), ignoreEdgeBlank);
  }

  /**
   * Re-tokenizing the join of a tokenization yields the same tokens, so the
   * same characters and types.
   */
  lemma TokenizeIdempotent(s: string, sep: char, ignoreEdgeBlank: bool)
    requires !IsQuote(sep)
    requires Tokenize(s, sep, ignoreEdgeBlank).Ok?
    ensures var ts := Tokenize(s, sep, ignoreEdgeBlank).value;
            Tokenize(ComponentsJoined(ts, sep), sep, ignoreEdgeBlank) == Ok(ts)
  {
    TokenizeThenJoin(s, sep, ignoreEdgeBlank);
    JoinThenTokenize(Tokenize(s, sep, ignoreEdgeBlank).value, sep, ignoreEdgeBlank);
  }

  /** The pieces of a whole scan, given the pieces already cut, the current one, and the scan of the rest. */
  function Resume(done: seq<string>, current: string, rest: (seq<string>, ScanState)): (seq<string>, ScanState)
    requires |rest.0| >= 1
  {
    (done + [current + rest.0[0]] + rest.0[1..], rest.1)
  }

  lemma ResumeStart(whole: (seq<string>, ScanState))
    requires |whole.0| >= 1
    ensures Resume([], [], whole) == whole
  {
    var first: string := whole.0[0];
    var none: seq<string> := [];
    assert [] + first == first;
    assert none + [first] == [first];
    assert [first] + whole.0[1..] == whole.0;
  }

  lemma ResumeCut(done: seq<string>, current: string, st: ScanState, t: string, sep: char)
    requires t != [] && SplitsAt(st, t[0], sep)
    ensures Resume(done, current, Lex(st, t, sep)) == Resume(done + [current], [], Lex(Outside, t[1..], sep))
  {
    var rest := Lex(Outside, t[1..], sep);
    var whole := Lex(st, t, sep);
    assert whole == ([[]] + rest.0, rest.1);
    assert whole.0[1..] == rest.0 && whole.0[0] == [];
    var first: string := rest.0[0];
    assert [] + first == first;
    assert current + [] == current;
    assert rest.0 == [first] + rest.0[1..];
    var left := done + [current];
    assert left + rest.0 == left + [first] + rest.0[1..];
    assert Resume(done + [current], [], rest).0 == left + [first] + rest.0[1..];
  }

  lemma ResumeStep(done: seq<string>, current: string, st: ScanState, t: string, sep: char)
    requires t != [] && !SplitsAt(st, t[0], sep)
    ensures Resume(done, current, Lex(st, t, sep)) == Resume(done, current + [t[0]], Lex(Step(st, t[0]), t[1..], sep))
  {
    var rest := Lex(Step(st, t[0]), t[1..], sep);
    assert Lex(st, t, sep) == ([[t[0]] + rest.0[0]] + rest.0[1..], rest.1);
    assert current + ([t[0]] + rest.0[0]) == (current + [t[0]]) + rest.0[0];
  }

  lemma ResumeEnd(done: seq<string>, current: string, st: ScanState, sep: char)
    ensures Resume(done, current, Lex(st, [], sep)) == (done + [current], st)
  {
    var last := Lex(st, [], sep);
    assert last.0[0] == [] && last.0[1..] == [];
    assert current + [] == current;
    var ps: seq<string> := done + [current];
    assert ps + [] == ps;
  }

  lemma TokensOfSnoc(done: seq<string>, p: string, ignoreEdgeBlank: bool)
    ensures TokensOf(done + [p], ignoreEdgeBlank) ==
            TokensOf(done, ignoreEdgeBlank) + (if p == [] then [] else [FromOriginal(p, ignoreEdgeBlank)])
  {
    TokensOfConcat(done, [p], ignoreEdgeBlank);
    assert [p][1..] == [];
  }

  /** `Lex` from index `i` of `s`, without taking the suffix. */
  function LexAt(st: ScanState, s: string, i: nat, sep: char): (r: (seq<string>, ScanState))
    requires i <= |s|
    ensures |r.0| >= 1
    decreases |s| - i
  {
    if i == |s| then ([[]], st)
    else if SplitsAt(st, s[i], sep) then
      var rest := LexAt(Outside, s, i + 1, sep);
      ([[]] + rest.0, rest.1)
    else
      var rest := LexAt(Step(st, s[i]), s, i + 1, sep);
      ([[s[i]] + rest.0[0]] + rest.0[1..], rest.1)
  }

  lemma {:induction false} LexAtSuffix(st: ScanState, s: string, i: nat, sep: char)
    requires i <= |s|
    ensures LexAt(st, s, i, sep) == Lex(st, s[i..], sep)
    decreases |s| - i
  {
    if i < |s| {
      assert s[i..][0] == s[i] && s[i..][1..] == s[i + 1..];
      LexAtSuffix(Outside, s, i + 1, sep);
      LexAtSuffix(Step(st, s[i]), s, i + 1, sep);
    }
  }

  /** The scan's invariant carried past a separator at `i` that cuts. */
  lemma CutAt(s: string, sep: char, done: seq<string>, start: nat, i: nat, st: ScanState)
    requires start <= i < |s| && SplitsAt(st, s[i], sep)
    ensures Resume(done, s[start..i], LexAt(st, s, i, sep))
            == Resume(done + [s[start..i]], s[i + 1..i + 1], LexAt(Outside, s, i + 1, sep))
  {
    var rest := LexAt(Outside, s, i + 1, sep);
    var here := LexAt(st, s, i, sep);
    assert here.0 == [[]] + rest.0 && here.1 == rest.1;
    assert here.0[0] == [] && here.0[1..] == rest.0;
    var first: string := rest.0[0];
    var left := done + [s[start..i]];
    assert s[i + 1..i + 1] == [] && [] + first == first && s[start..i] + [] == s[start..i];
    assert rest.0 == [first] + rest.0[1..];
    assert left + rest.0 == left + [first] + rest.0[1..];
  }

  /** The scan's invariant carried past a character at `i` that does not cut. */
  lemma StepAt(s: string, sep: char, done: seq<string>, start: nat, i: nat, st: ScanState)
    requires start <= i < |s| && !SplitsAt(st, s[i], sep)
    ensures Resume(done, s[start..i], LexAt(st, s, i, sep))
            == Resume(done, s[start..i + 1], LexAt(Step(st, s[i]), s, i + 1, sep))
  {
    var rest := LexAt(Step(st, s[i]), s, i + 1, sep);
    assert s[start..i + 1] == s[start..i] + [s[i]];
    assert s[start..i] + ([s[i]] + rest.0[0]) == s[start..i + 1] + rest.0[0];
  }

  /** What the scan's invariant gives once the whole string is read. */
  lemma FinishAt(s: string, sep: char, ignoreEdgeBlank: bool,
                 tokens: seq<SeparatedString>, done: seq<string>, start: nat, st: ScanState)
    requires Scanned(s, sep, ignoreEdgeBlank, tokens, done, start, |s|, st)
    ensures Tokenize(s, sep, ignoreEdgeBlank)
            == if st != Outside then Err(InvalidInputData)
               else Ok(tokens + (if s[start..] == [] then [] else [FromOriginal(s[start..], ignoreEdgeBlank)]))
  {
    var piece := s[start..];
    assert s[start..|s|] == piece;
    LexAtSuffix(Outside, s, 0, sep);
    assert s[0..] == s;
    assert Lex(Outside, s, sep) == (done + [piece], st) by {
      var ps: seq<string> := done + [piece];
      assert piece + [] == piece && ps + [] == ps;
    }
    TokensOfSnoc(done, piece, ignoreEdgeBlank);
  }

  /** Emits the token of a finished piece, if it is not empty. */
  method EmitPiece(tokens: seq<SeparatedString>, ghost done: seq<string>, piece: string, ignoreEdgeBlank: bool)
      returns (next: seq<SeparatedString>)
    requires tokens == TokensOf(done, ignoreEdgeBlank)
    ensures next == TokensOf(done + [piece], ignoreEdgeBlank)
  {
    TokensOfSnoc(done, piece, ignoreEdgeBlank);
    if piece == [] {
      assert tokens + [] == tokens;
      next := tokens;
    } else {
      next := tokens + [FromOriginal(piece, ignoreEdgeBlank)];
    }
  }

  /** The scan's record of `s[..i]`: the tokens emitted, and the pieces and state behind them. */
  ghost predicate Scanned(s: string, sep: char, ignoreEdgeBlank: bool,
                          tokens: seq<SeparatedString>, done: seq<string>, start: nat, i: nat, st: ScanState)
  {
    && start <= i <= |s|
    && tokens == TokensOf(done, ignoreEdgeBlank)
    && LexAt(Outside, s, 0, sep) == Resume(done, s[start..i], LexAt(st, s, i, sep))
  }

  /** One character of the scan: a separator outside quotes emits the piece before it; any other moves the state on. */
  method ScanStep(s: string, sep: char, ignoreEdgeBlank: bool,
                  tokens: seq<SeparatedString>, ghost done: seq<string>, start: nat, i: nat, st: ScanState)
      returns (tokens': seq<SeparatedString>, ghost done': seq<string>, start': nat, st': ScanState)
    requires i < |s| && Scanned(s, sep, ignoreEdgeBlank, tokens, done, start, i, st)
    ensures Scanned(s, sep, ignoreEdgeBlank, tokens', done', start', i + 1, st')
  {
    var c := s[i];
    if SplitsAt(st, c, sep) {
      var cur := s[start..i];
      CutAt(s, sep, done, start, i, st);
      tokens' := EmitPiece(tokens, done, cur, ignoreEdgeBlank);
      done', start', st' := done + [cur], i + 1, Outside;
    } else {
      StepAt(s, sep, done, start, i, st);
      tokens', done', start', st' := tokens, done, start, Step(st, c);
    }
  }

  /**
   * The left-to-right scan: one pass that keeps the quote state and where
   * the current piece began, and emits a token at each separator met outside
   * quotes (empty pieces are skipped). It stops at the end of the string with
   * the last piece not yet emitted: `start` is where it begins and `st` is the
   * state the string ends in.
   */
  method ScanPieces(s: string, sep: char, ignoreEdgeBlank: bool)
      returns (tokens: seq<SeparatedString>, start: nat, st: ScanState, ghost done: seq<string>)
    ensures Scanned(s, sep, ignoreEdgeBlank, tokens, done, start, |s|, st)
  {
    tokens, start, st, done := [], 0, Outside, [];
    ResumeStart(LexAt(Outside, s, 0, sep));
    var i := 0;
    while i < |s|
      invariant i <= |s| && Scanned(s, sep, ignoreEdgeBlank, tokens, done, start, i, st)
    {
      tokens, done, start, st := ScanStep(s, sep, ignoreEdgeBlank, tokens, done, start, i, st);
      i := i + 1;
    }
  }

  /**
   * The one-pass split: the scan, then the last piece, or InvalidInputData
   * when the string ends inside a quote; it computes exactly Tokenize.
   */
  method Split(s: string, sep: char, ignoreEdgeBlank: bool) returns (r: Result<seq<SeparatedString>>)
    ensures r == Tokenize(s, sep, ignoreEdgeBlank)
  {
    var tokens, start, st, done := ScanPieces(s, sep, ignoreEdgeBlank);
    FinishAt(s, sep, ignoreEdgeBlank, tokens, done, start, st);
    var piece := s[start..];
    if st != Outside {
      r := Err(InvalidInputData);
    } else if piece == [] {
      assert tokens + [] == tokens;
      r := Ok(tokens);
    } else {
      r := Ok(tokens + [FromOriginal(piece, ignoreEdgeBlank)]);
    }
  }
}
