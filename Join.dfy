/** NSArray+MAESeparatedString.h: joining tokens back into one string. */
module Joining {
  import opened SeparatedStrings

  /** The strings with `sep` between each consecutive pair. */
  function JoinStrings(ps: seq<string>, sep: char): string
  {
    if |ps| == 0 then []
    else if |ps| == 1 then ps[0]
    else ps[0] + [sep] + JoinStrings(ps[1..], sep)
  }

  function Originals(ts: seq<SeparatedString>): (r: seq<string>)
    ensures |r| == |ts| && forall i :: 0 <= i < |ts| ==> r[i] == ts[i].originalCharacters
  {
    if ts == [] then [] else [ts[0].originalCharacters] + Originals(ts[1..])
  }

  /**
   * `mae_componentsJoinedBySeparatedString:`: the tokens' original
   * characters (never their unquoted characters) joined by the separator.
   * The result is always a string; no tokens give the empty string.
   */
  function ComponentsJoined(ts: seq<SeparatedString>, sep: char): (r: string)
    ensures ts == [] ==> r == []
    ensures |ts| == 1 ==> r == ts[0].originalCharacters
  {
    JoinStrings(Originals(ts), sep)
  }

  function Occurrences(s: string, c: char): (n: nat)
  {
    if s == [] then 0 else (if s[0] == c then 1 else 0) + Occurrences(s[1..], c)
  }

  function TotalOccurrences(ps: seq<string>, c: char): nat
  {
    if ps == [] then 0 else Occurrences(ps[0], c) + TotalOccurrences(ps[1..], c)
  }

  function TotalLength(ps: seq<string>): nat
  {
    if ps == [] then 0 else |ps[0]| + TotalLength(ps[1..])
  }

  lemma {:induction false} OccurrencesConcat(a: string, b: string, c: char)
    ensures Occurrences(a + b, c) == Occurrences(a, c) + Occurrences(b, c)
  {
    if a == [] {
      assert a + b == b;
    } else {
      assert (a + b)[0] == a[0];
      assert (a + b)[1..] == a[1..] + b;
      OccurrencesConcat(a[1..], b, c);
    }
  }

  /**
   * n strings are joined with exactly n - 1 inserted separators: the result
   * holds the characters of the parts in order plus one separator between
   * each consecutive pair.
   */
  lemma {:induction false} JoinCounts(ps: seq<string>, sep: char)
    requires |ps| >= 1
    ensures |JoinStrings(ps, sep)| == TotalLength(ps) + |ps| - 1
    ensures Occurrences(JoinStrings(ps, sep), sep) == TotalOccurrences(ps, sep) + |ps| - 1
  {
    if |ps| == 1 {
      assert ps[1..] == [];
    } else {
      JoinCounts(ps[1..], sep);
      OccurrencesConcat(ps[0], [sep], sep);
      OccurrencesConcat(ps[0] + [sep], JoinStrings(ps[1..], sep), sep);
    }
  }

  /** The same for tokens: separators and characters of the joined string, counted. */
  lemma ComponentsJoinedCounts(ts: seq<SeparatedString>, sep: char)
    requires |ts| >= 1
    ensures |ComponentsJoined(ts, sep)| == TotalLength(Originals(ts)) + |ts| - 1
    ensures Occurrences(ComponentsJoined(ts, sep), sep) == TotalOccurrences(Originals(ts), sep) + |ts| - 1
  {
    JoinCounts(Originals(ts), sep);
  }
}
