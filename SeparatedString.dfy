/**
 * MAESeparatedString.h: one token of a separator-delimited string, an
 * immutable value holding the raw text, the text with edge blanks and quotes
 * removed, and the kind of quoting.
 */
module SeparatedStrings {

  /** MAEStringType: every token is exactly one of these. */
  datatype StringType = DoubleQuoted | SingleQuoted | Enumerate

  /**
   * A token. `originalCharacters` is the text as it stood between separators,
   * spaces and quotes included; `characters` has the edge spaces and the
   * enclosing quotes removed and the escapes resolved.
   */
  datatype SeparatedString = SeparatedString(originalCharacters: string, characters: string, stype: StringType)

  /** The blanks `ignoreEdgeBlank` strips, taken to be space and horizontal tab. */
  predicate IsBlank(c: char) { c == ' ' || c == '\t' }

  predicate IsQuote(c: char) { c == '"' || c == '\'' }

  const Backslash: char := '\\'

  /** The character that encloses a quoted token of type `t`. */
  function QuoteOf(t: StringType): (q: char)
    requires t != Enumerate
    ensures IsQuote(q) && q != Backslash
  {
    if t == DoubleQuoted then '"' else '\''
  }

  ghost predicate AllBlank(s: string) {
    forall i :: 0 <= i < |s| ==> IsBlank(s[i])
  }

  /** Neither the first nor the last character is a blank. */
  predicate EdgeBlankFree(s: string) {
    s == [] || (!IsBlank(s[0]) && !IsBlank(s[|s| - 1]))
  }

  function TrimLeading(s: string): (r: string)
    ensures |r| <= |s| && r == s[|s| - |r|..]
    ensures forall k :: 0 <= k < |s| - |r| ==> IsBlank(s[k])
    ensures r != [] ==> !IsBlank(r[0])
  {
    if s != [] && IsBlank(s[0]) then TrimLeading(s[1..]) else s
  }

  function TrimTrailing(s: string): (r: string)
    ensures |r| <= |s| && r == s[..|r|]
    ensures forall k :: |r| <= k < |s| ==> IsBlank(s[k])
    ensures r != [] ==> !IsBlank(r[|r| - 1])
  {
    if s != [] && IsBlank(s[|s| - 1]) then TrimTrailing(s[..|s| - 1]) else s
  }

  /**
   * Removes the leading and trailing blanks and nothing else: the result is
   * an infix of `s` with only blanks on either side of it, it has no blank at
   * either edge, and a string without edge blanks is returned unchanged.
   */
  function TrimEdgeBlank(s: string): (r: string)
    ensures EdgeBlankFree(r)
    ensures exists i, j {:trigger s[i..j]} :: 0 <= i <= j <= |s| && r == s[i..j] && AllBlank(s[..i]) && AllBlank(s[j..])
    ensures EdgeBlankFree(s) ==> r == s
  {
    var l := TrimLeading(s);
    var r := TrimTrailing(l);
    TrimmedInfix(s, l, r);
    r
  }

  /**
   * A blank-free-edged prefix `r` of a suffix `l` of `s`, with only blanks
   * before `l` and after `r`, is an infix of `s` with only blanks around it.
   */
  lemma TrimmedInfix(s: string, l: string, r: string)
    requires |l| <= |s| && l == s[|s| - |l|..] && forall k :: 0 <= k < |s| - |l| ==> IsBlank(s[k])
    requires l != [] ==> !IsBlank(l[0])
    requires |r| <= |l| && r == l[..|r|] && forall k :: |r| <= k < |l| ==> IsBlank(l[k])
    requires r != [] ==> !IsBlank(r[|r| - 1])
    ensures var i := |s| - |l|; i + |r| <= |s| && r == s[i..i + |r|] && AllBlank(s[..i]) && AllBlank(s[i + |r|..])
    ensures EdgeBlankFree(r)
  {
    var i := |s| - |l|;
    assert forall k :: 0 <= k < |r| ==> r[k] == s[i + k];
    assert s[i + |r|..] == l[|r|..];
  }

  /** Puts a backslash before every occurrence of the quote `q` and of the backslash. */
  function Escape(q: char, c: string): (r: string)
  {
    if c == [] then []
    else (if c[0] == q || c[0] == Backslash then [Backslash, c[0]] else [c[0]]) + Escape(q, c[1..])
  }

  /** Resolves `\q` and `\\` to `q` and `\`; any other backslash stays as it is. */
  function Unescape(q: char, s: string): (r: string)
  {
    if s == [] then []
    else if |s| >= 2 && s[0] == Backslash && (s[1] == q || s[1] == Backslash) then [s[1]] + Unescape(q, s[2..])
    else [s[0]] + Unescape(q, s[1..])
  }

  /** Content with neither the quote nor a backslash is written as it is. */
  lemma {:induction false} EscapeUnchanged(q: char, c: string)
    requires forall i :: 0 <= i < |c| ==> c[i] != q && c[i] != Backslash
    ensures Escape(q, c) == c
  {
    if c != [] {
      EscapeUnchanged(q, c[1..]);
    }
  }

  /** Escaping is undone by unescaping, for every content and every quote. */
  lemma {:induction false} UnescapeEscape(q: char, c: string)
    ensures Unescape(q, Escape(q, c)) == c
  {
    if c != [] {
      var e := Escape(q, c);
      var rest := Escape(q, c[1..]);
      UnescapeEscape(q, c[1..]);
      if c[0] == q || c[0] == Backslash {
        assert e == [Backslash, c[0]] + rest;
        assert e[2..] == rest;
      } else {
        assert e == [c[0]] + rest;
        assert e[1..] == rest;
      }
    }
  }

  /** Text that needs no quoting: non-empty, with no quote and no blank in it. */
  predicate Plain(s: string) {
    |s| > 0 && forall i :: 0 <= i < |s| ==> !IsQuote(s[i]) && !IsBlank(s[i])
  }

  /** `s` begins and ends with the quote `q` (and is not that quote alone). */
  predicate Wrapped(s: string, q: char) {
    |s| >= 2 && s[0] == q && s[|s| - 1] == q
  }

  /**
   * `+stringFromCharacters:withType:`: the text that stands for `characters`
   * with quoting `t`, the quoted types enclosed in their quote character with
   * the content escaped.
   */
  function StringFromCharacters(characters: string, t: StringType): (r: string)
    ensures t == Enumerate ==> r == characters
    ensures t != Enumerate ==> Wrapped(r, QuoteOf(t)) && Unescape(QuoteOf(t), r[1..|r| - 1]) == characters
  {
    if t == Enumerate then characters
    else
      var q := QuoteOf(t);
      var r := [q] + Escape(q, characters) + [q];
      assert r[1..|r| - 1] == Escape(q, characters);
      UnescapeEscape(q, characters);
      r
  }

  /** `initWithCharacters:type:`: characters without quotes, stored unchanged with their type. */
  function WithCharacters(characters: string, t: StringType): (r: SeparatedString)
    ensures r.characters == characters && r.stype == t
    ensures r.originalCharacters == StringFromCharacters(characters, t)
  {
    SeparatedString(StringFromCharacters(characters, t), characters, t)
  }

  /** The text `initWithOriginalCharacters:ignoreEdgeBlank:` classifies. */
  function Body(original: string, ignoreEdgeBlank: bool): string {
    if ignoreEdgeBlank then TrimEdgeBlank(original) else original
  }

  /**
   * `initWithOriginalCharacters:ignoreEdgeBlank:`. The original text is kept;
   * after the edge blanks are trimmed (when asked), text enclosed in double
   * quotes is DoubleQuoted and text enclosed in single quotes SingleQuoted,
   * with the enclosing quotes removed and the escapes resolved; anything else
   * is Enumerate with the (trimmed) text as its characters.
   */
  function FromOriginal(original: string, ignoreEdgeBlank: bool): (r: SeparatedString)
    ensures r.originalCharacters == original
    ensures r.stype == DoubleQuoted <==> Wrapped(Body(original, ignoreEdgeBlank), '"')
    ensures r.stype == SingleQuoted <==> !Wrapped(Body(original, ignoreEdgeBlank), '"') && Wrapped(Body(original, ignoreEdgeBlank), '\'')
    ensures r.stype != Enumerate ==>
              var body := Body(original, ignoreEdgeBlank);
              r.characters == Unescape(QuoteOf(r.stype), body[1..|body| - 1])
    ensures r.stype == Enumerate ==> r.characters == Body(original, ignoreEdgeBlank)
    ensures r.stype == Enumerate && ignoreEdgeBlank ==> EdgeBlankFree(r.characters)
    ensures r.stype == Enumerate && !ignoreEdgeBlank ==> r.characters == original
  {
    var body := Body(original, ignoreEdgeBlank);
    if Wrapped(body, '"') then SeparatedString(original, Unescape('"', body[1..|body| - 1]), DoubleQuoted)
    else if Wrapped(body, '\'') then SeparatedString(original, Unescape('\'', body[1..|body| - 1]), SingleQuoted)
    else SeparatedString(original, body, Enumerate)
  }

  /**
   * `stringFromCharacters:withType:` inverts extraction for the quoted types:
   * re-reading its output yields the same characters and type, whatever the
   * content and whether or not edge blanks are ignored.
   */
  lemma QuotedRoundTrip(characters: string, t: StringType, ignoreEdgeBlank: bool)
    requires t != Enumerate
    ensures FromOriginal(StringFromCharacters(characters, t), ignoreEdgeBlank) == WithCharacters(characters, t)
  {
    var s := StringFromCharacters(characters, t);
    assert EdgeBlankFree(s);
    assert Body(s, ignoreEdgeBlank) == s;
  }

  /**
   * Unquoted text survives re-reading exactly when it does not look quoted
   * and, with edge blanks ignored, has none.
   */
  predicate EnumerateSafe(characters: string, ignoreEdgeBlank: bool) {
    && !Wrapped(characters, '"')
    && !Wrapped(characters, '\'')
    && (ignoreEdgeBlank ==> EdgeBlankFree(characters))
  }

  lemma EnumerateRoundTrip(characters: string, ignoreEdgeBlank: bool)
    ensures FromOriginal(StringFromCharacters(characters, Enumerate), ignoreEdgeBlank) == WithCharacters(characters, Enumerate)
            <==> EnumerateSafe(characters, ignoreEdgeBlank)
  {
  }
}
