# MantleArrayExtension: the format-matching engine, in Dafny

MantleArrayExtension is an extension of the Mantle model framework. It turns a
separator-delimited string, such as `./run "fast" a b "c d"`, into a model
object and back. A model class declares three things:

- a *format* (`formatByPropertyKey`): a list of fragments, one per position;
- a separator character;
- whether blanks at the edges of each piece are ignored.

Converting a model from text happens in four steps:

1. A quote-aware scan splits the text into tokens (`MAESeparatedString`).
2. The token count is reconciled with the format by deleting optional and
   variadic fragments, starting from the last one.
3. Each kept fragment validates its token or tokens.
4. Value transformers convert each token's characters into a property value.

The reverse direction writes each property through its fragment and joins the
tokens' original texts with the separator.

Each module models one header, or one part of `MAEArrayAdapter.h`:

| file | module | header |
|---|---|---|
| `ErrorCode.dfy` | `ErrorCodes` | `MAEErrorCode.h`; also holds `Result`, the value-or-error that replaces every `NSError**` |
| `SeparatedString.dfy` | `SeparatedStrings` | `MAESeparatedString.h`; a token value with quoting, escaping and trimming |
| `Join.dfy` | `Joining` | `NSArray+MAESeparatedString.h` |
| `Splitting.dfy` | `Splitting` | the splitting rules of `MAEArrayAdapter.h` |
| `Fragment.dfy` | `Fragments` | `MAEFragment.h` and `MAERawFragment.h` |
| `Matching.dfy` | `Matching` | the optional/variadic rules of `MAEArrayAdapter.h` |
| `ArrayAdapter.dfy` | `ArrayAdapter` | the class-level entry points of `MAEArrayAdapter.h` |
| `AdapterObject.dfy` | `AdapterObjects` | the instance methods of `MAEArrayAdapter.h` |
| `Examples.dfy` | `Examples` | worked instances |

`Options.dfy` holds `Option`; `None` stands for `nil`.

### Splitting

The scan is a state machine with three states: outside quotes, inside a quote,
and just after a backslash inside a quote.

- Outside quotes, either quote character opens a quoted part. Inside, only the
  same character closes it.
- A backslash inside quotes makes the next character content.
- The separator cuts only outside quotes. A quote character never acts as a
  separator.
- A quote left open at the end is an error, whatever the format.
- Pieces that are empty before trimming are dropped; an all-blank piece reads
  as an empty Enumerate token.
- Each remaining piece becomes a token:
  - its edge blanks are trimmed when asked;
  - text enclosed in `"…"` is DoubleQuoted, and text enclosed in `'…'` is
    SingleQuoted, with the escapes resolved;
  - any other text is Enumerate.

There are two forms of the scan. `Tokenize` is a recursive function.
`Splitting.Split` is the one-pass loop over the string, and it is proved equal
to `Tokenize`.

### Matching

Elision deletes the last `k` fragments that are optional or variadic, where
`k` is the shortfall of tokens. `Keep` states this in closed form: a fragment
is deleted when it is optional or variadic and fewer than `k` such fragments
follow it. `Matching.Elide` is the backwards loop the header describes, and it
is proved equal to that form.

After elision:

- each kept fixed fragment takes one token;
- a kept variadic fragment takes all the tokens that remain;
- a deleted variadic fragment reads as an empty list, or as nil when it is
  also optional;
- any other deleted fragment reads as nil.

`Matching.Bind` is proved both sound and complete against the predicate
`Conforms`, which says that every binding fits its fragment and that the
bindings hand out the tokens in order.

### The model object and transformers

A model is represented by the map from property name to property value that
the adapter assigns. A value is nil, a single value, or the array of a
variadic property.

The value transformers become two functions supplied by the caller:

- a forward one for reading;
- a reverse one for writing.

Either function may fail.

## Model

| member | source | states |
|---|---|---|
| ErrorCodes.Code | MantleArrayExtension/Classes/MAEErrorCode.h:11-22 | the six live codes are numbered 0 to 5 in declaration order |
| ErrorCodes.FromCode | MantleArrayExtension/Classes/MAEErrorCode.h:11-29 | a raw value names a live code exactly when it is below 6; the deprecated values name none |
| ErrorCodes.CodeRoundTrip | MantleArrayExtension/Classes/MAEErrorCode.h:11-22 | the numbering is a bijection between the codes and 0..5 |
| SeparatedStrings.StringFromCharacters | MantleArrayExtension/Classes/MAESeparatedString.h:54-62 | an Enumerate text is the characters unchanged; a quoted text is enclosed in its quote, and its inside unescapes to the characters |
| SeparatedStrings.WithCharacters | MantleArrayExtension/Classes/MAESeparatedString.h:31-40 | the quote-free characters and the type are stored unchanged; the original is the text that stands for them |
| SeparatedStrings.TrimEdgeBlank | MantleArrayExtension/Classes/MAESeparatedString.h:45-50 | the result is an infix of the input with only blanks around it and no blank at either edge; text without edge blanks is unchanged |
| SeparatedStrings.FromOriginal | MantleArrayExtension/Classes/MAESeparatedString.h:42-50 | keeps the original text; the type is DoubleQuoted or SingleQuoted exactly when the trimmed text is enclosed in that quote, and then the characters are the enclosed text with its escapes resolved; an Enumerate token's characters are the trimmed text, free of edge blanks when trimming, and the whole original when not trimming |
| SeparatedStrings.UnescapeEscape | MantleArrayExtension/Classes/MAEArrayAdapter.h:33 | backslash-escaping the quote and the backslash is undone by unescaping, for every content |
| SeparatedStrings.EscapeUnchanged | MantleArrayExtension/Classes/MAEArrayAdapter.h:33 | content holding neither the quote nor a backslash needs no escape |
| SeparatedStrings.QuotedRoundTrip | MantleArrayExtension/Classes/MAESeparatedString.h:54-62 | re-reading the text of quoted characters gives back the same characters and type, with or without edge-blank trimming |
| SeparatedStrings.EnumerateRoundTrip | MantleArrayExtension/Classes/MAESeparatedString.h:54-62 | unquoted characters re-read as themselves if and only if they do not look quoted and, when trimming, have no edge blank |
| Joining.ComponentsJoined | MantleArrayExtension/Classes/NSArray+MAESeparatedString.h:15-21 | joins the original texts; no tokens give the empty string, and one token gives exactly its original text |
| Joining.JoinCounts | MantleArrayExtension/Classes/NSArray+MAESeparatedString.h:15-21 | n parts joined have the parts' total length plus n - 1, and n - 1 more separators than the parts hold |
| Joining.ComponentsJoinedCounts | MantleArrayExtension/Classes/NSArray+MAESeparatedString.h:15-21 | the same count for tokens, over their original texts |
| Splitting.Tokenize | MantleArrayExtension/Classes/MAEArrayAdapter.h:30-33 | succeeds exactly when the scan ends outside quotes; otherwise the error is InvalidInputData, whatever the format |
| Splitting.QuotedContentStaysQuoted | MantleArrayExtension/Classes/MAEArrayAdapter.h:32 | inside a quote, the separator and the other quote character neither cut nor close |
| Splitting.EscapedContentStaysQuoted | MantleArrayExtension/Classes/MAEArrayAdapter.h:33 | inside a quote, escaped content never closes it and never cuts, whatever it holds |
| Splitting.NoSplitAt | MantleArrayExtension/Classes/MAEArrayAdapter.h:30-32 | a piece is uncut if and only if none of its characters is a separator reached outside quotes |
| Splitting.JoinPrepend | MantleArrayExtension/Classes/MAEArrayAdapter.h:30-32 | a character put in front of the first piece is put in front of the joined text |
| Splitting.DecompositionPrepend | MantleArrayExtension/Classes/MAEArrayAdapter.h:30-32 | a character that does not cut extends the first piece of a decomposition of the rest, and the scan ends in the same state |
| Splitting.LexSoundCut | MantleArrayExtension/Classes/MAEArrayAdapter.h:30-32 | at a separator outside quotes, the scan's pieces stay sound when a new piece starts after it |
| Splitting.LexSoundStep | MantleArrayExtension/Classes/MAEArrayAdapter.h:30-33 | at any other character, the scan's pieces stay sound when the character extends the current piece |
| Splitting.LexSound | MantleArrayExtension/Classes/MAEArrayAdapter.h:30-33 | the pieces of the scan join back to the input; each is cut only at a separator outside quotes; the final state is that of the whole input |
| Splitting.LexUnique | MantleArrayExtension/Classes/MAEArrayAdapter.h:30-33 | any decomposition at separators outside quotes is the one the scan finds, if the separator is not a quote |
| Splitting.QuotedTokenGood | MantleArrayExtension/Classes/MAEArrayAdapter.h:30-33 | a quoted token of any content is one well-formed piece that re-reads as itself |
| Splitting.PlainTokenGood | MantleArrayExtension/Classes/MAEArrayAdapter.h:30-32 | unquoted text without quotes, blanks or the separator is one well-formed piece that re-reads as itself |
| Splitting.WrittenTokensGood | MantleArrayExtension/Classes/MAEArrayAdapter.h:30-33 | tokens built from their characters, whose unquoted ones are plain text, each survive splitting at a blank |
| Splitting.JoinThenTokenize | MantleArrayExtension/Classes/MAEArrayAdapter.h:49-56 | tokens that each re-read as themselves, joined by a non-quote separator, split back into the same list |
| Splitting.TokenizeThenJoin | MantleArrayExtension/Classes/MAEArrayAdapter.h:49-56 | every token re-reads as itself; joining the tokens gives the input with its empty pieces dropped, which is exactly the input when it has none |
| Splitting.TokenizeIdempotent | MantleArrayExtension/Classes/MAEArrayAdapter.h:49-56 | splitting the join of a split yields the same tokens |
| Splitting.Split | MantleArrayExtension/Classes/MAEArrayAdapter.h:30-33 | the one-pass scan with a quote-state variable computes exactly the tokenization, the unbalanced-quote error included |
| Splitting.LexAtSuffix | MantleArrayExtension/Classes/MAEArrayAdapter.h:30-33 | scanning from position `i` of a string is scanning its suffix from `i` |
| Splitting.CutAt | MantleArrayExtension/Classes/MAEArrayAdapter.h:30-32 | a separator outside quotes closes the current piece and starts an empty one, leaving the scan's final result unchanged |
| Splitting.StepAt | MantleArrayExtension/Classes/MAEArrayAdapter.h:30-33 | any other character joins the current piece and moves the quote state, leaving the scan's final result unchanged |
| Splitting.EmitPiece | MantleArrayExtension/Classes/MAEArrayAdapter.h:30-33 | appending a closed piece's token keeps the tokens equal to those of the pieces closed so far |
| Splitting.ScanStep | MantleArrayExtension/Classes/MAEArrayAdapter.h:30-33 | one character of the scan preserves the scan invariant: the closed pieces, the open piece and the rest of the scan make up the scan of the whole string |
| Splitting.ScanPieces | MantleArrayExtension/Classes/MAEArrayAdapter.h:30-33 | after the loop over every character, the tokens are those of the closed pieces, and the open piece and the final quote state are those of the whole scan |
| Splitting.FinishAt | MantleArrayExtension/Classes/MAEArrayAdapter.h:30-33 | from the state at the end of the string, the tokenization is an unbalanced-quote error when a quote is open, and otherwise the tokens so far plus the open piece's token unless it is empty |
| Fragments.Validate | MantleArrayExtension/Classes/MAEFragment.h:82-91 | MaybeQuoted takes every token; DoubleQuoted, SingleQuoted and Enum take exactly tokens of that type; a raw fragment takes exactly tokens whose characters are a candidate; a refusal is NotMatchFragmentType |
| Fragments.Emit | MantleArrayExtension/Classes/MAEFragment.h:93-102 | the token passes the fragment's own validation and carries the given value as its characters, in the fragment's quoting; a property fragment has nil as NilInputData; a raw fragment has a non-candidate as NotMatchFragmentType and writes its first candidate for nil |
| Fragments.Fragment.constructor | MantleArrayExtension/Classes/MAEFragment.h:133-139 | a MaybeQuoted fragment of the given property, neither optional nor variadic |
| Fragments.Fragment.Quoted | MantleArrayExtension/Classes/MAEFragment.h:29-35 | a DoubleQuoted fragment of the given property |
| Fragments.Fragment.SingleQuotedFragment | MantleArrayExtension/Classes/MAEFragment.h:37-43 | a SingleQuoted fragment of the given property |
| Fragments.Fragment.Enum | MantleArrayExtension/Classes/MAEFragment.h:45-52 | an Enum fragment of the given property |
| Fragments.Fragment.RawString | MantleArrayExtension/Classes/MAERawFragment.h:14-22 | a raw fragment whose candidates are exactly the one string, with no property |
| Fragments.Fragment.RawEither | MantleArrayExtension/Classes/MAERawFragment.h:24-51 | a raw fragment with the given candidates, with no property |
| Fragments.Fragment.SetOptional | MantleArrayExtension/Classes/MAEFragment.h:106-111 | sets the optional flag and changes nothing else |
| Fragments.Fragment.SetVariadic | MantleArrayExtension/Classes/MAEFragment.h:113-118 | sets the variadic flag and changes nothing else |
| Fragments.Fragment.WithProperty | MantleArrayExtension/Classes/MAERawFragment.h:55-60 | sets the property name of a raw fragment; candidates and flags are unchanged, and the receiver is returned for chaining |
| Fragments.MakeOptional | MantleArrayExtension/Classes/MAEFragment.h:54-61 | the same fragment object, now optional; name, kind and variadic flag are unchanged |
| Fragments.MakeVariadic | MantleArrayExtension/Classes/MAEFragment.h:63-71 | the same fragment object, now variadic; name, kind and optional flag are unchanged |
| Fragments.MakeOptionalNamed | MantleArrayExtension/Classes/MAEFragment.h:54-61 | given a property name: a new fragment of that property, of any quoting, optional and not variadic |
| Fragments.MakeVariadicNamed | MantleArrayExtension/Classes/MAEFragment.h:63-71 | given a property name: a new fragment of that property, of any quoting, variadic and not optional |
| Matching.Elision | MantleArrayExtension/Classes/MAEArrayAdapter.h:35-37 | succeeds exactly for a reconcilable count, which is at least the number of required fragments, and above the number of fragments only with a trailing variadic; otherwise NotMatchFragmentCount |
| Matching.KeepDeletes | MantleArrayExtension/Classes/MAEArrayAdapter.h:36 | deleting k fragments deletes k of them, or every optional or variadic one when there are fewer |
| Matching.ElisionShape | MantleArrayExtension/Classes/MAEArrayAdapter.h:35-36 | elision deletes exactly the excess, leaves as many fragments as tokens, deletes only optional or variadic fragments, and deletes the last such fragments first |
| Matching.Elide | MantleArrayExtension/Classes/MAEArrayAdapter.h:36 | the loop that walks back from the last fragment computes exactly the elision |
| Matching.ElidedBinding | MantleArrayExtension/Classes/MAEArrayAdapter.h:38-39 | a deleted fragment takes no token; it is nil unless it is variadic and not optional |
| Matching.ValidateAll | MantleArrayExtension/Classes/MAEFragment.h:82-91 | passes exactly when every token a variadic takes passes validation; a refusal is NotMatchFragmentType |
| Matching.Align | MantleArrayExtension/Classes/MAEArrayAdapter.h:35-39 | one binding per fragment, or a type or count error |
| Matching.AlignSound | MantleArrayExtension/Classes/MAEArrayAdapter.h:35-39 | what Align binds fits each fragment and hands out every token once, in order |
| Matching.AlignComplete | MantleArrayExtension/Classes/MAEArrayAdapter.h:35-39 | for a format with the variadic last, any fitting binding of the tokens is the one Align returns |
| Matching.AlignCountFits | MantleArrayExtension/Classes/MAEArrayAdapter.h:35-39 | when the kept fragments can take the token count, alignment fails only on a token that does not fit |
| Matching.Bind | MantleArrayExtension/Classes/MAEArrayAdapter.h:35-39 | one binding per fragment, or a type or count error |
| Matching.BindSound | MantleArrayExtension/Classes/MAEArrayAdapter.h:35-39 | a successful match has a reconcilable count; it fits the fragments elision kept and hands out every token once, in order |
| Matching.BindComplete | MantleArrayExtension/Classes/MAEArrayAdapter.h:35-39 | any binding of a reconcilable count that fits and hands out the tokens in order is the one returned |
| Matching.BindErrors | MantleArrayExtension/Classes/MAEArrayAdapter.h:35-39 | NotMatchFragmentCount is raised if and only if the count cannot be reconciled; any other failure means no fitting binding exists |
| Matching.BindVariadic | MantleArrayExtension/Classes/MAEArrayAdapter.h:37-39 | a trailing variadic takes all the tokens left (at least one) when kept; when deleted, it is an empty list, or nil if optional |
| ArrayAdapter.IgnoreEdgeBlankOf | MantleArrayExtension/Classes/MAEArrayAdapter.h:58-64 | a class that does not declare the flag ignores edge blanks; a declared flag is used as given |
| ArrayAdapter.Declare | MantleArrayExtension/Classes/MAEArrayAdapter.h:45-64 | a class declaration keeps its format and separator, and applies the default edge-blank policy |
| ArrayAdapter.ConvertAll | MantleArrayExtension/Classes/MAEArrayAdapter.h:66-72 | converts every token of a variadic, in order, one value per token (the model's per-element reading of the key's transformer, see Left out); any failed conversion is InvalidInputData |
| ArrayAdapter.ConvertBinding | MantleArrayExtension/Classes/MAEArrayAdapter.h:66-72 | nil for an absent binding; the converted characters for one token; for a variadic, success exactly when every token converts, and then the list of the converted values in token order; a failure is InvalidInputData |
| ArrayAdapter.ModelOf | MantleArrayExtension/Classes/MAEArrayAdapter.h:18-28 | the model assigns exactly the format's property names; a failure is InvalidInputData |
| ArrayAdapter.ModelOfLookup | MantleArrayExtension/Classes/MAEArrayAdapter.h:18-28 | with distinct names, each property holds exactly what its fragment's binding converts to |
| ArrayAdapter.ModelOfCongruent | MantleArrayExtension/Classes/MAEArrayAdapter.h:18-28 | the model depends only on what the named fragments' bindings convert to |
| ArrayAdapter.ModelFromTokens | MantleArrayExtension/Classes/MAEArrayAdapter.h:88-98 | reading tokens fails only with NotMatchFragmentType, NotMatchFragmentCount or InvalidInputData |
| ArrayAdapter.ModelOfClassFromString | MantleArrayExtension/Classes/MAEArrayAdapter.h:88-98 | nil is NilInputData; an unbalanced quote is InvalidInputData; otherwise the model of the string's tokens |
| ArrayAdapter.BareTokens | MantleArrayExtension/Classes/MAEArrayAdapter.h:100-110 | each string of an array is an unquoted token whose original text and characters are that string |
| ArrayAdapter.ModelOfClassFromArray | MantleArrayExtension/Classes/MAEArrayAdapter.h:100-110 | nil is NilInputData; otherwise the strings are matched as they are, with no splitting or quote handling |
| ArrayAdapter.Lookup | MantleArrayExtension/Classes/MAEArrayAdapter.h:111-119 | a fragment with a name present in the model reads that name's value; an unnamed fragment, or a name the model lacks, reads nil |
| ArrayAdapter.WriteValue | MantleArrayExtension/Classes/MAEArrayAdapter.h:111-119 | a value is written as the fragment's token for its reverse conversion; a reverse conversion that fails is InvalidInputData |
| ArrayAdapter.EmitValues | MantleArrayExtension/Classes/MAEArrayAdapter.h:111-119 | a variadic's values are written one token per value, in order; it succeeds exactly when every value's write succeeds |
| ArrayAdapter.EmitBinding | MantleArrayExtension/Classes/MAEArrayAdapter.h:111-119 | an unset optional or variadic property writes nothing; an unset required one writes the fragment's nil token; a single value is written as one token by WriteValue; a list for a variadic writes one token per element, in order, and fails exactly when one element fails; a value of the wrong shape is InvalidInputData; anything written fits the fragment as a kept fragment |
| ArrayAdapter.EmitBindings | MantleArrayExtension/Classes/MAEArrayAdapter.h:111-119 | succeeds exactly when every fragment writes, and then holds each fragment's write in order |
| ArrayAdapter.ArrayFromModel | MantleArrayExtension/Classes/MAEArrayAdapter.h:111-119 | nil is NilInputData; otherwise the tokens all fragments write, in order, where an unset optional or variadic property writes nothing even when a later one is set |
| ArrayAdapter.StringFromModel | MantleArrayExtension/Classes/MAEArrayAdapter.h:121-129 | fails exactly when writing the array fails, with the same error; otherwise the tokens' original texts joined by the class's separator |
| ArrayAdapter.ReemitSlot | MantleArrayExtension/Classes/MAEArrayAdapter.h:111-119 | a fragment that writes back the model it was read into succeeds, fits as before, writes as many tokens, and converts to the same value |
| ArrayAdapter.FlattenSameLength | MantleArrayExtension/Classes/MAEArrayAdapter.h:111-119 | bindings with the same number of tokens per fragment flatten to lists of equal length |
| ArrayAdapter.ReemitBindings | MantleArrayExtension/Classes/MAEArrayAdapter.h:111-119 | writing back a model read from fitting bindings succeeds, fits the same kept fragments, writes as many tokens and converts to the same model |
| ArrayAdapter.ParseEmitParse | MantleArrayExtension/Classes/MAEArrayAdapter.h:88-119 | a model read from tokens writes back to as many tokens, and those read to the same model (variadic last, distinct names, unnamed fragments required raw, inverse converters) |
| ArrayAdapter.StringRoundTrip | MantleArrayExtension/Classes/MAEArrayAdapter.h:121-129 | reading the written string is reading the written tokens, when each re-reads as itself and the separator is not a quote |
| ArrayAdapter.EmitGood | MantleArrayExtension/Classes/MAEFragment.h:93-102 | a fragment other than Enum, or a raw fragment with plain candidates, writes a token that survives splitting at a blank |
| ArrayAdapter.EmitBindingGood | MantleArrayExtension/Classes/MAEArrayAdapter.h:111-119 | every token a quoting-safe fragment writes, one or a variadic's list, survives splitting at a blank |
| ArrayAdapter.FlattenGood | MantleArrayExtension/Classes/MAEArrayAdapter.h:121-129 | the written tokens of all fragments together survive splitting when each fragment's do |
| ArrayAdapter.ArrayTokensGood | MantleArrayExtension/Classes/MAEArrayAdapter.h:121-129 | everything a quoting-safe format writes survives splitting at a blank |
| ArrayAdapter.StringParseEmitParse | MantleArrayExtension/Classes/MAEArrayAdapter.h:88-129 | string to model to string to model gives the same model, for a quoting-safe format split at a blank |
| ArrayAdapter.ParseErrors | MantleArrayExtension/Classes/MAEErrorCode.h:11-22 | reading a balanced string gives NotMatchFragmentCount if and only if the count cannot be reconciled; a reconcilable count fails only with NotMatchFragmentType or InvalidInputData |
| AdapterObjects.Adapter.ModelFromString | MantleArrayExtension/Classes/MAEArrayAdapter.h:131-135 | the instance method, which scans with the one-pass loop, agrees with the class method on every input |
| AdapterObjects.Adapter.ModelFromArray | MantleArrayExtension/Classes/MAEArrayAdapter.h:137-141 | agrees with the class method on every input |
| AdapterObjects.Adapter.ArrayFromModel | MantleArrayExtension/Classes/MAEArrayAdapter.h:143-147 | delegates to the class method, so it agrees with it on every model |
| AdapterObjects.Adapter.StringFromModel | MantleArrayExtension/Classes/MAEArrayAdapter.h:149-153 | joins the tokens the instance writes; agrees with the class method on every model |
| Examples.TwoOptionalMask | MantleArrayExtension/Classes/MAEArrayAdapter.h:35-36 | in `[a, optional b, optional c]`, a shortfall of one deletes c alone |
| Examples.LastOptionalElidedFirst | MantleArrayExtension/Classes/MAEArrayAdapter.h:35-36 | `[a, optional b, optional c]` on two tokens deletes c and binds a and b |
| Examples.OptionalMiddleMask | MantleArrayExtension/Classes/MAEArrayAdapter.h:35-36 | in `[a, optional b, c]`, a shortfall of one deletes b |
| Examples.OptionalBeforeRequiredElided | MantleArrayExtension/Classes/MAEArrayAdapter.h:35-36 | `[a, optional b, c]` on two tokens deletes b, though a required fragment follows it |
| Examples.VariadicDeletedIsEmpty | MantleArrayExtension/Classes/MAEArrayAdapter.h:38-39 | `[a, variadic b]` on one token deletes b, which reads as an empty list, not nil |
| Examples.VariadicTakesTheRest | MantleArrayExtension/Classes/MAEArrayAdapter.h:37-38 | `[a, variadic b]` on three tokens binds the last two to b |
| Examples.TwoVariadicsBind | MantleArrayExtension/Classes/MAEArrayAdapter.h:37 | `[variadic a, variadic b]`, which breaks the last-slot rule, is not refused: on two tokens a takes both and b reads as an empty list |
| Examples.LiteralMismatch | MantleArrayExtension/Classes/MAERawFragment.h:24-32 | `stop` against the candidates `play` and `pause` is NotMatchFragmentType |
| Examples.UnterminatedQuote | MantleArrayExtension/Classes/MAEArrayAdapter.h:30-31 | `foo "bar` is refused with InvalidInputData |
| Examples.JoinTwoQuoted | MantleArrayExtension/Classes/NSArray+MAESeparatedString.h:15-21 | two double-quoted tokens join to `"x" "y"` |
| Examples.QuotedSeparator | MantleArrayExtension/Classes/MAEArrayAdapter.h:32 | `"x" "y"` splits at the space into two DoubleQuoted tokens, whatever blanks x and y hold |
| Examples.CommandLineMasks | MantleArrayExtension/Classes/MAEArrayAdapter.h:35-37 | in `[cmd, "fmt", optional variadic args]` only args may go; nothing goes for three or more tokens, and args goes for two |
| Examples.BindCommandLineArgs | MantleArrayExtension/Classes/MAEArrayAdapter.h:37 | with more than two tokens, args takes every token after the first two |
| Examples.BindCommandLineNone | MantleArrayExtension/Classes/MAEArrayAdapter.h:38-39 | with two tokens, args is deleted and is nil |
| Examples.BindCommandLine | MantleArrayExtension/Classes/MAEArrayAdapter.h:35-39 | `[cmd, "fmt", optional variadic args]` binds the arguments to args, and leaves args nil without arguments |
| Examples.ModelOfCommandLine | MantleArrayExtension/Classes/MAEArrayAdapter.h:35-39 | the command line model holds cmd, fmt and the array of arguments, or nil when there are none |
| Examples.CommandLineTokensGood | MantleArrayExtension/Classes/MAEArrayAdapter.h:30-33 | each of the five tokens of `./run "fast" a b "c d"` is a piece that re-reads as itself |
| Examples.CommandLineTokens | MantleArrayExtension/Classes/MAEArrayAdapter.h:30-33 | the joined text of `./run "fast" a b "c d"`, and of its first two tokens, splits back into those tokens |
| Examples.CommandLineScenario | MantleArrayExtension/Classes/MAEArrayAdapter.h:38-39 | those tokens read as cmd `./run`, fmt `fast`, args `[a, b, c d]`; the first two alone leave args nil, not an empty array |

## Left out

- The Mantle integration is not modelled: `MTLModel`, reflection over properties, key-based transformer lookup (`arrayTransformerForKey:`, `+<key>ArrayTransformer`) and `NSValueTransformer`. These are calls into a foreign library. The transformers become the two converter functions, and the model object becomes a map.
- `numberTransformer` and `boolTransformer` are not modelled. They rest on `NSNumber` and floating point.
- `classForParsingArray:` and the code it produces, NoConversionTarget, are not modelled. Run-time class selection is not modelled; the code is present in `ErrorCode` but nothing returns it.
- Nested models through `variadicTransformerWithArrayModelClass:` and `stringTransformerWithArrayModelClass:` are not modelled. Neither is the rule that parent and child must use different separators. Both depend on the transformers.
- The `NSError` plumbing is not modelled: the error domain, the input-data key of `userInfo` and the `SET_ERROR` helper. Errors are `Result` values carrying the code.
- The deprecated members are not modelled. They are unavailable: the old `MAESeparatedString` interface under `Private`, `toString`, `initWithString:`, and the deprecated transformers and codes.
- `MAEFragment` is a protocol that clients may implement. Only the two library classes are modelled, as one `Fragment` class whose kind is property-typed or raw. `NSCopying` is not modelled.
- The separator has no default in the headers. Every class states it explicitly in `Serializing`.
- Pieces that are empty before trimming are dropped (`MAEArrayAdapter.h:51`); an all-blank piece reads as an empty Enumerate token.
- Elision starts from the last optional or variadic fragment anywhere in the format (`MAEArrayAdapter.h:36`). It is not limited to a trailing run of optional fragments, and no configuration error is raised for an optional fragment placed before a required one.
- Matching.Bind: a variadic fragment that is not last in the format is not refused (`MAEArrayAdapter.h:37` requires the variadic one to be last). A kept variadic fragment takes all the remaining tokens wherever it stands. A kept non-variadic fragment after it then fails with NotMatchFragmentCount, and a kept variadic fragment after it receives an empty list (`Examples.TwoVariadicsBind`). The lemmas about binding take `WellFormedFormat`, which states the rule, as a hypothesis.
- SeparatedStrings.IsBlank: the edge blanks are taken to be space and horizontal tab. `MAESeparatedString.h:46` and `MAEArrayAdapter.h:58-64` speak of spaces only, and the implementation files, which would settle the tab, are not part of this model.
- Splitting.Tokenize: an unbalanced quote is InvalidInputData. `MAEErrorCode.h` has no dedicated code for it.
- SeparatedStrings.FromOriginal: mixed quoting inside one piece is not rejected, because the headers demand no more than balanced quotes. A piece is classified by its first and last characters only. `foo"bar"` reads as Enumerate text. `"a"b"c"` reads as DoubleQuoted with the characters `a"b"c`, which is written back as `"a\"b\"c"`, not as the original.
- Fragments.Emit: an Enum fragment writes its value unquoted even when the value holds the separator, quotes or edge blanks; no error is raised. Such a value then does not survive splitting; the headers define no error for it.
- Fragments.Emit: a raw fragment bound to a property writes the property's value when it is one of the candidates, and its first candidate when the property is nil.
- ArrayAdapter.ConvertAll, ConvertBinding, EmitValues, EmitBinding: a variadic property is converted element by element, one forward conversion per token and one reverse conversion per value. The source has one transformer per property key (`MAEArrayAdapter.h:66-72`), and for a variadic part that transformer takes and yields the whole array (`MAEArrayAdapter.h:159-165`). The model thus does not capture a transformer that treats the array as one value, such as the nested-model transformer; it agrees with the source when the key has no transformer or one that maps each element independently.
- Fragments.Emit: a MaybeQuoted fragment writes a value bare when it is plain text (non-empty, with no quote and no blank) and double-quoted otherwise; the headers (`MAEFragment.h:93-102`) leave this rule open. The rule ignores the separator, so a bare value holding a non-blank separator, such as `a,b` with separator `,`, splits into two tokens on re-reading.
- ArrayAdapter.ArrayFromModel: an unset optional or variadic property writes no token even when a later optional property is set. With `[a, optional b, optional c]`, b nil and c set, the output is a's token then c's, and reading it back gives c's token to b. Reading never yields such a model, and the headers say nothing about writing one.
- ArrayAdapter.StringParseEmitParse: proved only for formats without Enum fragments, with raw candidates that are plain text, and with a blank separator. Outside these, an empty or separator-holding value written unquoted can vanish or split on re-reading, for example an Enum value read from an all-blank piece.
- ArrayAdapter.ParseEmitParse: proved for formats whose unnamed fragments are required raw ones. An unnamed optional raw fragment is dropped on writing, so its token is not restored.
