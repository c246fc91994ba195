/**
 * Worked instances of the rules in MAEArrayAdapter.h and the fragment
 * headers, each derived from the general lemmas.
 */
module Examples {
  import opened Options
  import opened ErrorCodes
  import opened SeparatedStrings
  import opened Joining
  import opened Splitting
  import opened Fragments
  import opened Matching
  import opened ArrayAdapter

  /** A required property slot. */
  function Property(name: string, ft: FragmentType): Slot {
    Slot(Some(name), Typed(ft), false, false)
  }

  /** [a, optional b, optional c]. */
  function TwoOptional(): seq<Slot> {
    [Property("a", MaybeQuotedString), Property("b", MaybeQuotedString).(optional := true),
     Property("c", MaybeQuotedString).(optional := true)]
  }

  lemma TwoOptionalMask()
    ensures WellFormedFormat(TwoOptional()) && ElidableCount(TwoOptional()) == 2
    ensures Keep(TwoOptional(), 1) == [true, true, false]
  {
  }

  /** [a, optional b, optional c] on two tokens: c goes first, so a and b are bound. */
  lemma LastOptionalElidedFirst(x: SeparatedString, y: SeparatedString)
    ensures Bind(TwoOptional(), [x, y]) == Ok([One(x), One(y), Absent])
  {
    var fs := TwoOptional();
    var bs := [One(x), One(y), Absent];
    TwoOptionalMask();
    assert Fits(fs[0], true, bs[0]) && Fits(fs[1], true, bs[1]) && Fits(fs[2], false, bs[2]);
    FlattenCons(One(x), bs[1..]);
    FlattenCons(One(y), bs[2..]);
    FlattenCons(Absent, []);
    assert Flatten(bs) == [x, y];
    BindComplete(fs, [x, y], bs);
  }

  /** [a, optional b, c]. */
  function OptionalMiddle(): seq<Slot> {
    [Property("a", MaybeQuotedString), Property("b", MaybeQuotedString).(optional := true),
     Property("c", MaybeQuotedString)]
  }

  lemma OptionalMiddleMask()
    ensures WellFormedFormat(OptionalMiddle()) && ElidableCount(OptionalMiddle()) == 1
    ensures Keep(OptionalMiddle(), 1) == [true, false, true]
  {
  }

  /** [a, optional b, c] on two tokens: the optional slot goes, though a required slot follows it. */
  lemma OptionalBeforeRequiredElided(x: SeparatedString, y: SeparatedString)
    ensures Bind(OptionalMiddle(), [x, y]) == Ok([One(x), Absent, One(y)])
  {
    var fs := OptionalMiddle();
    var bs := [One(x), Absent, One(y)];
    OptionalMiddleMask();
    assert Fits(fs[0], true, bs[0]) && Fits(fs[1], false, bs[1]) && Fits(fs[2], true, bs[2]);
    FlattenCons(One(x), bs[1..]);
    FlattenCons(Absent, bs[2..]);
    FlattenCons(One(y), []);
    assert Flatten(bs) == [x, y];
    BindComplete(fs, [x, y], bs);
  }

  /** [a, variadic b]: the format of the next two lemmas. */
  function HeadAndRest(): seq<Slot> {
    [Property("a", MaybeQuotedString), Property("b", MaybeQuotedString).(variadic := true)]
  }

  /** [a, variadic b] on one token: b is deleted and reads as an empty list, not nil. */
  lemma VariadicDeletedIsEmpty(x: SeparatedString)
    ensures Bind(HeadAndRest(), [x]) == Ok([One(x), Many([])])
  {
    var fs := HeadAndRest();
    var bs := [One(x), Many([])];
    assert fs[2..] == [] && fs[1..] == [fs[1]];
    assert Keep(fs, 1) == [true, false];
    assert Fits(fs[0], true, bs[0]) && Fits(fs[1], false, bs[1]);
    FlattenCons(One(x), [Many([])]);
    FlattenCons(Many([]), []);
    BindComplete(fs, [x], bs);
  }

  /** [variadic a, variadic b]: a format that breaks the last-slot rule for variadics. */
  function TwoVariadics(): seq<Slot> {
    [Slot(Some("a"), Typed(MaybeQuotedString), false, true), Slot(Some("b"), Typed(MaybeQuotedString), false, true)]
  }

  /** Bind does not refuse a variadic that is not last: it takes every token, and the later variadic reads as an empty list. */
  lemma TwoVariadicsBind(x: SeparatedString, y: SeparatedString)
    ensures Bind(TwoVariadics(), [x, y]) == Ok([Many([x, y]), Many([])])
  {
    var fs := TwoVariadics();
    var mask := [true, true];
    assert Excess(fs, 2) == 0 && Keep(fs, 0) == mask;
    assert Validate(fs[0], x) == Pass && Validate(fs[0], y) == Pass;
    assert [x, y][1..] == [y] && [y][1..] == [];
    assert ValidateAll(fs[0], [x, y]) == Pass;
    var last := Align(fs[1..][1..], mask[1..][1..], []);
    assert fs[1..][1..] == [] && mask[1..][1..] == [] && last == Ok([]);
    var rest := Align(fs[1..], mask[1..], []);
    assert rest == Ok([Many([])] + last.value);
    assert [Many([])] + last.value == [Many([])];
    assert Align(fs, mask, [x, y]) == Ok([Many([x, y])] + rest.value);
    assert [Many([x, y])] + rest.value == [Many([x, y]), Many([])];
  }

  /** [a, variadic b] on three tokens: b takes the last two. */
  lemma VariadicTakesTheRest(x: SeparatedString, y: SeparatedString, z: SeparatedString)
    ensures Bind(HeadAndRest(), [x, y, z]) == Ok([One(x), Many([y, z])])
  {
    var fs := HeadAndRest();
    var bs := [One(x), Many([y, z])];
    assert fs[2..] == [] && fs[1..] == [fs[1]];
    assert Keep(fs, 0) == [true, true];
    assert Fits(fs[0], true, bs[0]) && Fits(fs[1], true, bs[1]);
    FlattenCons(One(x), [Many([y, z])]);
    FlattenCons(Many([y, z]), []);
    assert Flatten(bs) == [x, y, z];
    BindComplete(fs, [x, y, z], bs);
  }

  /** A token outside a raw slot's candidates is NotMatchFragmentType. */
  lemma LiteralMismatch(t: SeparatedString)
    requires t.characters == "stop"
    ensures Bind([Slot(None, Raw(["play", "pause"]), false, false)], [t]) == Err(NotMatchFragmentType)
  {
  }

  /** An unterminated quote is refused. */
  lemma UnterminatedQuote(s: string)
    requires s == "foo \"bar"
    ensures Tokenize(s, ' ', true) == Err(InvalidInputData)
  {
    RunConcat(Outside, s[..4], s[4..], ' ');
    assert s[..4] == "foo " && s[4..] == "\"bar";
    assert Run(Outside, "foo ") == Outside;
    assert Run(Outside, "\"bar") == InQuote('"');
    assert s[..4] + s[4..] == s;
  }

  lemma JoinTwoQuoted(x: string, y: string)
    requires forall i :: 0 <= i < |x| ==> x[i] != '"' && x[i] != Backslash
    requires forall i :: 0 <= i < |y| ==> y[i] != '"' && y[i] != Backslash
    ensures ComponentsJoined([WithCharacters(x, DoubleQuoted), WithCharacters(y, DoubleQuoted)], ' ')
            == ['"'] + x + ['"', ' ', '"'] + y + ['"']
  {
    var ts := [WithCharacters(x, DoubleQuoted), WithCharacters(y, DoubleQuoted)];
    EscapeUnchanged('"', x);
    EscapeUnchanged('"', y);
    var a, b := ts[0].originalCharacters, ts[1].originalCharacters;
    assert a == ['"'] + x + ['"'] && b == ['"'] + y + ['"'];
    assert Originals(ts) == [a, b];
    assert [a, b][1..] == [b];
    assert JoinStrings([a, b], ' ') == a + [' '] + b;
  }

  /**
   * Two double-quoted strings separated by a space, as in `"foo" "bar baz"`:
   * exactly two DoubleQuoted tokens, whatever blanks their contents hold.
   */
  lemma QuotedSeparator(x: string, y: string)
    requires forall i :: 0 <= i < |x| ==> x[i] != '"' && x[i] != Backslash
    requires forall i :: 0 <= i < |y| ==> y[i] != '"' && y[i] != Backslash
    ensures Tokenize(['"'] + x + ['"', ' ', '"'] + y + ['"'], ' ', true)
            == Ok([WithCharacters(x, DoubleQuoted), WithCharacters(y, DoubleQuoted)])
  {
    var ts := [WithCharacters(x, DoubleQuoted), WithCharacters(y, DoubleQuoted)];
    JoinTwoQuoted(x, y);
    QuotedTokenGood(x, DoubleQuoted, ' ', true);
    QuotedTokenGood(y, DoubleQuoted, ' ', true);
    JoinThenTokenize(ts, ' ', true);
  }

  /** A command line format: an unquoted command, a double-quoted mode, then any number of arguments or none. */
  function CommandLine(): Serializing {
    Serializing([Property("cmd", EnumerateString), Property("fmt", DoubleQuotedString),
                 Property("args", MaybeQuotedString).(optional := true, variadic := true)], ' ', true)
  }

  /** Stores every token's characters unchanged. */
  function Identity(): Forward<string> {
    (k: string, s: string) => Some(s)
  }

  /** The command line format: the last slot alone may go, and it goes for two tokens. */
  lemma CommandLineMasks()
    ensures WellFormedFormat(CommandLine().format) && EndsVariadic(CommandLine().format)
    ensures ElidableCount(CommandLine().format) == 1
    ensures Keep(CommandLine().format, 0) == [true, true, true]
    ensures Keep(CommandLine().format, 1) == [true, true, false]
  {
  }

  /** Arguments after the command and the mode all go to the variadic. */
  lemma BindCommandLineArgs(ts: seq<SeparatedString>)
    requires |ts| > 2 && ts[0].stype == Enumerate && ts[1].stype == DoubleQuoted
    ensures Bind(CommandLine().format, ts) == Ok([One(ts[0]), One(ts[1]), Many(ts[2..])])
  {
    var fs := CommandLine().format;
    CommandLineMasks();
    var bs := [One(ts[0]), One(ts[1]), Many(ts[2..])];
    assert Fits(fs[0], true, bs[0]) && Fits(fs[1], true, bs[1]) && Fits(fs[2], true, bs[2]);
    assert Conforms(fs, Keep(fs, 0), bs);
    FlattenCons(One(ts[0]), bs[1..]);
    FlattenCons(One(ts[1]), bs[2..]);
    FlattenCons(Many(ts[2..]), []);
    assert Flatten(bs) == [ts[0]] + ([ts[1]] + (ts[2..] + []));
    assert [ts[0]] + ([ts[1]] + (ts[2..] + [])) == ts;
    BindComplete(fs, ts, bs);
  }

  /** Without arguments, the optional variadic is deleted and reads nil. */
  lemma BindCommandLineNone(ts: seq<SeparatedString>)
    requires |ts| == 2 && ts[0].stype == Enumerate && ts[1].stype == DoubleQuoted
    ensures Bind(CommandLine().format, ts) == Ok([One(ts[0]), One(ts[1]), Absent])
  {
    var fs := CommandLine().format;
    CommandLineMasks();
    var bs := [One(ts[0]), One(ts[1]), Absent];
    assert Fits(fs[0], true, bs[0]) && Fits(fs[1], true, bs[1]) && Fits(fs[2], false, bs[2]);
    assert Conforms(fs, Keep(fs, 1), bs);
    FlattenCons(One(ts[0]), bs[1..]);
    FlattenCons(One(ts[1]), bs[2..]);
    FlattenCons(Absent, []);
    assert [ts[0]] + [ts[1]] == ts;
    BindComplete(fs, ts, bs);
  }

  lemma BindCommandLine(ts: seq<SeparatedString>)
    requires |ts| >= 2 && ts[0].stype == Enumerate && ts[1].stype == DoubleQuoted
    ensures |ts| > 2 ==> Bind(CommandLine().format, ts) == Ok([One(ts[0]), One(ts[1]), Many(ts[2..])])
    ensures |ts| == 2 ==> Bind(CommandLine().format, ts) == Ok([One(ts[0]), One(ts[1]), Absent])
  {
    if |ts| > 2 {
      BindCommandLineArgs(ts);
    } else {
      BindCommandLineNone(ts);
    }
  }

  lemma ModelOfCommandLine(ts: seq<SeparatedString>, args: seq<string>)
    requires |ts| >= 2 && ts[0].stype == Enumerate && ts[1].stype == DoubleQuoted
    requires |args| == |ts| - 2 && forall i :: 2 <= i < |ts| ==> ts[i].characters == args[i - 2]
    ensures ModelFromTokens(CommandLine().format, ts, Identity())
            == Ok(map["cmd" := Single(ts[0].characters), "fmt" := Single(ts[1].characters),
                      "args" := if |ts| > 2 then List(args) else Nil])
  {
    var fs, conv := CommandLine().format, Identity();
    BindCommandLine(ts);
    var last := if |ts| > 2 then Many(ts[2..]) else Absent;
    var bs := [One(ts[0]), One(ts[1]), last];
    assert fs[..2][..1] == fs[..1] && fs[..1][..0] == [];
    assert bs[..2][..1] == bs[..1] && bs[..1][..0] == [];
    var m1 := map["cmd" := Single(ts[0].characters)];
    var m2 := m1["fmt" := Single(ts[1].characters)];
    assert ModelOf(fs[..1], bs[..1], conv) == Ok(m1);
    assert ModelOf(fs[..2], bs[..2], conv) == Ok(m2);
    var p: Prop<string> := if |ts| > 2 then List(args) else Nil;
    if |ts| > 2 {
      var r := ConvertAll("args", ts[2..], conv);
      assert r.Ok?;
      assert r.value == args;
    }
    assert ConvertBinding("args", last, conv) == Ok(p);
    assert ModelOf(fs, bs, conv) == Ok(m2["args" := p]);
  }

  /** Each of the five tokens of `./run "fast" a b "c d"` is a piece that re-reads as itself. */
  lemma CommandLineTokensGood(run: string, fast: string, a: string, b: string, cd: string, ts: seq<SeparatedString>)
    requires Plain(run) && Plain(a) && Plain(b)
    requires ts == [WithCharacters(run, Enumerate), WithCharacters(fast, DoubleQuoted), WithCharacters(a, Enumerate),
                    WithCharacters(b, Enumerate), WithCharacters(cd, DoubleQuoted)]
    ensures forall i :: 0 <= i < |ts| ==> GoodToken(ts[i], ' ', true)
  {
    WrittenTokensGood(ts, ' ', true);
  }

  /** The five tokens, and their first two, survive joining and splitting. */
  lemma CommandLineTokens(run: string, fast: string, a: string, b: string, cd: string, ts: seq<SeparatedString>)
    requires Plain(run) && Plain(a) && Plain(b)
    requires ts == [WithCharacters(run, Enumerate), WithCharacters(fast, DoubleQuoted), WithCharacters(a, Enumerate),
                    WithCharacters(b, Enumerate), WithCharacters(cd, DoubleQuoted)]
    ensures Tokenize(ComponentsJoined(ts, ' '), ' ', true) == Ok(ts)
    ensures Tokenize(ComponentsJoined(ts[..2], ' '), ' ', true) == Ok(ts[..2])
  {
    CommandLineTokensGood(run, fast, a, b, cd, ts);
    JoinThenTokenize(ts, ' ', true);
    JoinThenTokenize(ts[..2], ' ', true);
  }

  /**
   * The tokens of `./run "fast" a b "c d"` read with the command line
   * format: the command, the mode, and the three arguments; the first two
   * alone leave the optional variadic nil rather than an empty array.
   */
  lemma CommandLineScenario(run: string, fast: string, a: string, b: string, cd: string, ts: seq<SeparatedString>)
    requires ts == [WithCharacters(run, Enumerate), WithCharacters(fast, DoubleQuoted), WithCharacters(a, Enumerate),
                    WithCharacters(b, Enumerate), WithCharacters(cd, DoubleQuoted)]
    ensures ModelFromTokens(CommandLine().format, ts, Identity())
            == Ok(map["cmd" := Single(run), "fmt" := Single(fast), "args" := List([a, b, cd])])
    ensures ModelFromTokens(CommandLine().format, ts[..2], Identity())
            == Ok(map["cmd" := Single(run), "fmt" := Single(fast), "args" := Nil])
  {
    ModelOfCommandLine(ts, [a, b, cd]);
    ModelOfCommandLine(ts[..2], []);
  }
}
