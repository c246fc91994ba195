/**
 * The entry points of MAEArrayAdapter: a model is read from a string or an
 * array of strings through the class's format, and written back to tokens
 * or a joined string. The Mantle model object is represented by the map from
 * property name to property value that the adapter assigns, and the value
 * transformers by two converter functions supplied by the caller.
 */
module ArrayAdapter {
  import opened Options
  import opened ErrorCodes
  import opened SeparatedStrings
  import opened Joining
  import opened Splitting
  import opened Fragments
  import opened Matching

  /** A property value: nil, one transformed value, or the array a variadic property holds. */
  datatype Prop<V> = Nil | Single(value: V) | List(values: seq<V>)

  /** The properties the adapter assigns, by name. */
  type Model<V> = map<string, Prop<V>>

  /** Forward transformation of a token's characters for a property key; `None` is a failure. */
  type Forward<V> = (string, string) -> Option<V>

  /** Reverse transformation of a property value for a key; `None` is a failure. */
  type Reverse<!V> = (string, V) -> Option<string>

  /** What an MAEArraySerializing class declares: its format, separator and edge-blank policy. */
  datatype Serializing = Serializing(format: seq<Slot>, separator: char, ignoreEdgeBlank: bool)

  /** `+ignoreEdgeBlank` is optional in the protocol; a class that does not declare it ignores edge blanks. */
  function IgnoreEdgeBlankOf(declared: Option<bool>): (r: bool)
    ensures declared.None? ==> r
    ensures declared.Some? ==> r == declared.value
  {
    declared.GetOr(true)
  }

  /** A class's declaration, with the default edge-blank policy applied. */
  function Declare(format: seq<Slot>, separator: char, ignoreEdgeBlank: Option<bool>): (cls: Serializing)
    ensures cls.format == format && cls.separator == separator
    ensures cls.ignoreEdgeBlank == IgnoreEdgeBlankOf(ignoreEdgeBlank)
  {
    Serializing(format, separator, IgnoreEdgeBlankOf(ignoreEdgeBlank))
  }

  /** Transforms the tokens a variadic property took, in order; any failure is InvalidInputData. */
  function ConvertAll<V>(name: string, ts: seq<SeparatedString>, conv: Forward<V>): (r: Result<seq<V>>)
    ensures r.Ok? <==> forall i :: 0 <= i < |ts| ==> conv(name, ts[i].characters).Some?
    ensures r.Ok? ==> |r.value| == |ts|
    ensures r.Ok? ==> forall i :: 0 <= i < |ts| ==> conv(name, ts[i].characters) == Some(r.value[i])
    ensures r.Err? ==> r.error == InvalidInputData
  {
    if ts == [] then Ok([])
    else
      match conv(name, ts[0].characters)
      case None => Err(InvalidInputData)
      case Some(v) =>
        var rest := ConvertAll(name, ts[1..], conv);
        assert forall i :: 1 <= i < |ts| ==> ts[i] == ts[1..][i - 1];
        if rest.Err? then Err(InvalidInputData) else Ok([v] + rest.value)
  }

  /** The property value a binding gives: nil when absent, else the transformed characters. */
  function ConvertBinding<V>(name: string, b: Binding, conv: Forward<V>): (r: Result<Prop<V>>)
    ensures r.Err? ==> r.error == InvalidInputData
    ensures b == Absent ==> r == Ok(Nil)
    ensures b.One? ==> (r.Ok? <==> conv(name, b.token.characters).Some?)
    ensures b.One? && r.Ok? ==> r.value == Single(conv(name, b.token.characters).value)
    ensures b.Many? ==> (r.Ok? <==> forall i :: 0 <= i < |b.tokens| ==> conv(name, b.tokens[i].characters).Some?)
    ensures b.Many? && r.Ok? ==> r.value.List? && |r.value.values| == |b.tokens|
    ensures b.Many? && r.Ok? ==> forall i :: 0 <= i < |b.tokens| ==> conv(name, b.tokens[i].characters) == Some(r.value.values[i])
  {
    match b
    case Absent => Ok(Nil)
    case One(t) =>
      (match conv(name, t.characters)
       case None => Err(InvalidInputData)
       case Some(v) => Ok(Single(v)))
    case Many(ts) =>
      var vs :- ConvertAll(name, ts, conv);
      Ok(List(vs))
  }

  /** The property names a format assigns. */
  function Names(fs: seq<Slot>): set<string> {
    if fs == [] then {}
    else Names(fs[..|fs| - 1]) + (match fs[|fs| - 1].propertyName case None => {} case Some(n) => {n})
  }

  /** Assigns each named slot's binding, slot by slot; a raw slot without a property assigns nothing. */
  function ModelOf<V>(fs: seq<Slot>, bs: seq<Binding>, conv: Forward<V>): (r: Result<Model<V>>)
    requires |bs| == |fs|
    ensures r.Ok? ==> r.value.Keys == Names(fs)
    ensures r.Err? ==> r.error == InvalidInputData
    decreases |fs|
  {
    if fs == [] then Ok(map[])
    else
      var n := |fs| - 1;
      var m :- ModelOf(fs[..n], bs[..n], conv);
      match fs[n].propertyName
      case None => Ok(m)
      case Some(name) =>
        var p :- ConvertBinding(name, bs[n], conv);
        Ok(m[name := p])
  }

  /** Binds the tokens to the format and assigns the model. */
  function ModelFromTokens<V>(fs: seq<Slot>, ts: seq<SeparatedString>, conv: Forward<V>): (r: Result<Model<V>>)
    ensures r.Err? ==> r.error in {NotMatchFragmentType, NotMatchFragmentCount, InvalidInputData}
  {
    var bs :- Bind(fs, ts);
    ModelOf(fs, bs, conv)
  }

  /** `modelOfClass:fromString:error:`: nil is NilInputData; the string is split first. */
  function ModelOfClassFromString<V>(cls: Serializing, input: Option<string>, conv: Forward<V>): (r: Result<Model<V>>)
    ensures input.None? ==> r == Err(NilInputData)
    ensures input.Some? && Run(Outside, input.value) != Outside ==> r == Err(InvalidInputData)
    ensures input.Some? && Run(Outside, input.value) == Outside ==>
              r == ModelFromTokens(cls.format, Tokenize(input.value, cls.separator, cls.ignoreEdgeBlank).value, conv)
  {
    match input
    case None => Err(NilInputData)
    case Some(s) =>
      var ts :- Tokenize(s, cls.separator, cls.ignoreEdgeBlank);
      ModelFromTokens(cls.format, ts, conv)
  }

  /** Strings handed over already split: each is an unquoted token holding exactly that text. */
  function BareTokens(xs: seq<string>): (ts: seq<SeparatedString>)
    ensures |ts| == |xs|
    ensures forall i :: 0 <= i < |xs| ==>
              ts[i].characters == xs[i] && ts[i].originalCharacters == xs[i] && ts[i].stype == Enumerate
  {
    seq(|xs|, i requires 0 <= i < |xs| => SeparatedString(xs[i], xs[i], Enumerate))
  }

  /** `modelOfClass:fromArray:error:`: nil is NilInputData; no splitting or quote handling. */
  function ModelOfClassFromArray<V>(cls: Serializing, input: Option<seq<string>>, conv: Forward<V>): (r: Result<Model<V>>)
    ensures input.None? ==> r == Err(NilInputData)
    ensures input.Some? ==> r == ModelFromTokens(cls.format, BareTokens(input.value), conv)
  {
    match input
    case None => Err(NilInputData)
    case Some(xs) => ModelFromTokens(cls.format, BareTokens(xs), conv)
  }

  /** The value a model holds for a slot; a slot without a property, or an unset one, reads nil. */
  function Lookup<V>(m: Model<V>, name: Option<string>): (p: Prop<V>)
    ensures name.Some? && name.value in m ==> p == m[name.value]
    ensures name.None? || name.value !in m ==> p == Nil
  {
    if name.Some? && name.value in m then m[name.value] else Nil
  }

  /** Writes one value of a property: its reverse transformation, then the slot's token for it. */
  function WriteValue<V>(slot: Slot, name: string, v: V, rev: Reverse<V>): (r: Result<SeparatedString>)
    ensures r.Ok? <==> rev(name, v).Some? && Emit(slot, rev(name, v)).Ok?
    ensures r.Ok? ==> r == Emit(slot, rev(name, v))
    ensures rev(name, v).None? ==> r == Err(InvalidInputData)
    ensures rev(name, v).Some? && r.Err? ==> r == Emit(slot, rev(name, v))
  {
    match rev(name, v)
    case None => Err(InvalidInputData)
    case Some(s) => Emit(slot, Some(s))
  }

  /** Writes the values of a variadic property with `write`, one token each, in order; the first failure is reported. */
  function EmitValues<V>(vs: seq<V>, write: V -> Result<SeparatedString>): (r: Result<seq<SeparatedString>>)
    ensures r.Ok? <==> forall i :: 0 <= i < |vs| ==> write(vs[i]).Ok?
    ensures r.Ok? ==> |r.value| == |vs|
    ensures r.Ok? ==> forall i :: 0 <= i < |vs| ==> write(vs[i]) == Ok(r.value[i])
  {
    if vs == [] then Ok([])
    else
      var t := write(vs[0]);
      var rest := EmitValues(vs[1..], write);
      assert forall i :: 1 <= i < |vs| ==> vs[i] == vs[1..][i - 1];
      if t.Err? then Err(t.error)
      else if rest.Err? then Err(rest.error)
      else
        var r := [t.value] + rest.value;
        assert forall i :: 1 <= i < |vs| ==> r[i] == rest.value[i - 1];
        Ok(r)
  }

  /**
   * What one slot writes for a model. An unset property writes nothing when
   * the slot is optional or variadic, and otherwise the slot's token for nil.
   * A set property writes its value through the reverse transformation, one
   * value for a plain slot and an array for a variadic one; the wrong shape,
   * or a failed reverse transformation, is InvalidInputData.
   */
  function EmitBinding<V>(slot: Slot, m: Model<V>, rev: Reverse<V>): (r: Result<Binding>)
    ensures Lookup(m, slot.propertyName).Nil? && Elidable(slot) ==> r == Ok(ElidedBinding(slot))
    ensures Lookup(m, slot.propertyName).Nil? && !Elidable(slot) ==>
              (r.Ok? <==> Emit(slot, None).Ok?) && (r.Ok? ==> r.value == One(Emit(slot, None).value))
    ensures !Lookup(m, slot.propertyName).Nil? && (Lookup(m, slot.propertyName).List? != slot.variadic) ==>
              r == Err(InvalidInputData)
    ensures Lookup(m, slot.propertyName).Single? && !slot.variadic ==>
              var w := WriteValue(slot, slot.propertyName.value, Lookup(m, slot.propertyName).value, rev);
              (r.Ok? <==> w.Ok?) && (r.Ok? ==> r.value == One(w.value))
    ensures Lookup(m, slot.propertyName).List? && slot.variadic ==>
              var vs := Lookup(m, slot.propertyName).values;
              && (r.Ok? <==> forall i :: 0 <= i < |vs| ==> WriteValue(slot, slot.propertyName.value, vs[i], rev).Ok?)
              && (r.Ok? ==> r.value.Many? && |r.value.tokens| == |vs|)
              && (r.Ok? ==> forall i :: 0 <= i < |vs| ==> WriteValue(slot, slot.propertyName.value, vs[i], rev) == Ok(r.value.tokens[i]))
    ensures r.Ok? && !(Lookup(m, slot.propertyName).Nil? && Elidable(slot)) ==> Fits(slot, true, r.value)
  {
    var p := Lookup(m, slot.propertyName);
    if p.Nil? then
      if Elidable(slot) then Ok(ElidedBinding(slot))
      else
        var t :- Emit(slot, None);
        Ok(One(t))
    else if p.Single? then
      if slot.variadic then Err(InvalidInputData)
      else
        var t :- WriteValue(slot, slot.propertyName.value, p.value, rev);
        Ok(One(t))
    else
      if !slot.variadic then Err(InvalidInputData)
      else
        var ts :- EmitValues(p.values, v => WriteValue(slot, slot.propertyName.value, v, rev));
        Ok(Many(ts))
  }

  /** The bindings the whole format writes, slot by slot; the first failure is reported. */
  function EmitBindings<V>(fs: seq<Slot>, m: Model<V>, rev: Reverse<V>): (r: Result<seq<Binding>>)
    ensures r.Ok? <==> forall i :: 0 <= i < |fs| ==> EmitBinding(fs[i], m, rev).Ok?
    ensures r.Ok? ==> |r.value| == |fs|
    ensures r.Ok? ==> forall i :: 0 <= i < |fs| ==> EmitBinding(fs[i], m, rev) == Ok(r.value[i])
  {
    if fs == [] then Ok([])
    else
      var rest := EmitBindings(fs[1..], m, rev);
      assert forall i :: 1 <= i < |fs| ==> fs[i] == fs[1..][i - 1];
      var b :- EmitBinding(fs[0], m, rev);
      if rest.Err? then Err(rest.error) else Ok([b] + rest.value)
  }

  /** `arrayFromModel:error:`: nil is NilInputData; otherwise the tokens of every slot, in order. */
  function ArrayFromModel<V>(cls: Serializing, model: Option<Model<V>>, rev: Reverse<V>): (r: Result<seq<SeparatedString>>)
    ensures model.None? ==> r == Err(NilInputData)
    ensures model.Some? ==> (r.Ok? <==> EmitBindings(cls.format, model.value, rev).Ok?)
    ensures r.Ok? ==> r.value == Flatten(EmitBindings(cls.format, model.value, rev).value)
  {
    match model
    case None => Err(NilInputData)
    case Some(m) =>
      var bs :- EmitBindings(cls.format, m, rev);
      Ok(Flatten(bs))
  }

  /** `stringFromModel:error:`: the tokens' original texts joined by the class's separator. */
  function StringFromModel<V>(cls: Serializing, model: Option<Model<V>>, rev: Reverse<V>): (r: Result<string>)
    ensures r.Ok? <==> ArrayFromModel(cls, model, rev).Ok?
    ensures r.Err? ==> r.error == ArrayFromModel(cls, model, rev).error
    ensures r.Ok? ==> r.value == ComponentsJoined(ArrayFromModel(cls, model, rev).value, cls.separator)
  {
    var ts :- ArrayFromModel(cls, model, rev);
    Ok(ComponentsJoined(ts, cls.separator))
  }

  /** Each property is assigned by one slot at most. */
  predicate DistinctNames(fs: seq<Slot>) {
    forall i, j :: 0 <= i < j < |fs| && fs[i].propertyName.Some? ==> fs[i].propertyName != fs[j].propertyName
  }

  /** A slot without a property is a raw slot that is always present, so it can be written back. */
  predicate Restorable(fs: seq<Slot>) {
    forall i :: 0 <= i < |fs| && fs[i].propertyName.None? ==> fs[i].kind.Raw? && !Elidable(fs[i])
  }

  /** The reverse transformation undoes the forward one. */
  ghost predicate Inverse<V>(conv: Forward<V>, rev: Reverse<V>) {
    forall k, s :: conv(k, s).Some? ==> rev(k, conv(k, s).value) == Some(s)
  }

  lemma NameInNames(fs: seq<Slot>, i: nat)
    requires i < |fs| && fs[i].propertyName.Some?
    ensures fs[i].propertyName.value in Names(fs)
    decreases |fs|
  {
  }

  /** With distinct names, the model holds for each named slot exactly what its binding converts to. */
  lemma {:induction false} ModelOfLookup<V>(fs: seq<Slot>, bs: seq<Binding>, conv: Forward<V>)
    requires |bs| == |fs| && DistinctNames(fs) && ModelOf(fs, bs, conv).Ok?
    ensures forall i :: 0 <= i < |fs| && fs[i].propertyName.Some? ==>
              && fs[i].propertyName.value in ModelOf(fs, bs, conv).value
              && ConvertBinding(fs[i].propertyName.value, bs[i], conv)
                 == Ok(ModelOf(fs, bs, conv).value[fs[i].propertyName.value])
    decreases |fs|
  {
    if fs != [] {
      var n := |fs| - 1;
      ModelOfLookup(fs[..n], bs[..n], conv);
      forall i | 0 <= i < |fs| && fs[i].propertyName.Some?
        ensures fs[i].propertyName.value in ModelOf(fs, bs, conv).value
      {
        NameInNames(fs, i);
      }
    }
  }

  /** The model depends only on what the named slots' bindings convert to. */
  lemma {:induction false} ModelOfCongruent<V>(fs: seq<Slot>, bs: seq<Binding>, cs: seq<Binding>, conv: Forward<V>)
    requires |bs| == |fs| && |cs| == |fs|
    requires forall i :: 0 <= i < |fs| && fs[i].propertyName.Some? ==>
               ConvertBinding(fs[i].propertyName.value, bs[i], conv) == ConvertBinding(fs[i].propertyName.value, cs[i], conv)
    ensures ModelOf(fs, bs, conv) == ModelOf(fs, cs, conv)
    decreases |fs|
  {
    if fs != [] {
      var n := |fs| - 1;
      ModelOfCongruent(fs[..n], bs[..n], cs[..n], conv);
    }
  }

  /** Converting tokens with the same characters gives the same values. */
  lemma ConvertAllSameCharacters<V>(name: string, ts: seq<SeparatedString>, us: seq<SeparatedString>, conv: Forward<V>)
    requires |ts| == |us| && forall i :: 0 <= i < |ts| ==> ts[i].characters == us[i].characters
    ensures ConvertAll(name, ts, conv) == ConvertAll(name, us, conv)
  {
  }

  /**
   * One slot written back from the model it was read into: the write
   * succeeds, fits the slot as the original binding did, holds as many
   * tokens, and converts to the same property value.
   */
  lemma ReemitSlot<V>(slot: Slot, kept: bool, b: Binding, m: Model<V>, conv: Forward<V>, rev: Reverse<V>)
    requires Fits(slot, kept, b) && (!kept ==> Elidable(slot))
    requires slot.propertyName.None? ==> slot.kind.Raw? && !Elidable(slot)
    requires Inverse(conv, rev)
    requires slot.propertyName.Some? ==>
               slot.propertyName.value in m && ConvertBinding(slot.propertyName.value, b, conv) == Ok(m[slot.propertyName.value])
    ensures EmitBinding(slot, m, rev).Ok?
    ensures Fits(slot, kept, EmitBinding(slot, m, rev).value)
    ensures |TokensOfBinding(EmitBinding(slot, m, rev).value)| == |TokensOfBinding(b)|
    ensures slot.propertyName.Some? ==>
              ConvertBinding(slot.propertyName.value, EmitBinding(slot, m, rev).value, conv)
              == ConvertBinding(slot.propertyName.value, b, conv)
  {
    var r := EmitBinding(slot, m, rev);
    if slot.propertyName.None? {
      assert b.One? && b.token.characters in slot.kind.candidates;
    } else {
      var name := slot.propertyName.value;
      if !kept {
        if !slot.optional {
          assert m[name] == List([]);
          assert EmitValues([], v => WriteValue(slot, name, v, rev)) == Ok([]);
        }
      } else if slot.variadic {
        var ts := b.tokens;
        var vs := m[name].values;
        assert forall i :: 0 <= i < |ts| ==> rev(name, vs[i]) == Some(ts[i].characters);
        assert forall i :: 0 <= i < |ts| ==> WriteValue(slot, name, vs[i], rev).Ok?;
        var us := EmitValues(vs, v => WriteValue(slot, name, v, rev)).value;
        assert r == Ok(Many(us));
        assert forall i :: 0 <= i < |ts| ==> us[i].characters == ts[i].characters;
        ConvertAllSameCharacters(name, ts, us, conv);
      } else {
        var t := b.token;
        assert rev(name, m[name].value) == Some(t.characters);
      }
    }
  }

  lemma {:induction false} FlattenSameLength(bs: seq<Binding>, cs: seq<Binding>)
    requires |bs| == |cs| && forall i :: 0 <= i < |bs| ==> |TokensOfBinding(bs[i])| == |TokensOfBinding(cs[i])|
    ensures |Flatten(bs)| == |Flatten(cs)|
  {
    if bs != [] {
      FlattenSameLength(bs[1..], cs[1..]);
    }
  }

  /**
   * Writing back a model that bindings were read into: every slot writes,
   * the writes fit the same keep-mask, hold as many tokens in all, and read
   * into the same model.
   */
  lemma ReemitBindings<V>(fs: seq<Slot>, mask: seq<bool>, bs: seq<Binding>, m: Model<V>, conv: Forward<V>, rev: Reverse<V>)
    requires Conforms(fs, mask, bs) && Restorable(fs) && Inverse(conv, rev)
    requires forall i :: 0 <= i < |fs| && !mask[i] ==> Elidable(fs[i])
    requires forall i :: 0 <= i < |fs| && fs[i].propertyName.Some? ==>
               fs[i].propertyName.value in m && ConvertBinding(fs[i].propertyName.value, bs[i], conv) == Ok(m[fs[i].propertyName.value])
    ensures EmitBindings(fs, m, rev).Ok?
    ensures Conforms(fs, mask, EmitBindings(fs, m, rev).value)
    ensures |Flatten(EmitBindings(fs, m, rev).value)| == |Flatten(bs)|
    ensures ModelOf(fs, EmitBindings(fs, m, rev).value, conv) == ModelOf(fs, bs, conv)
  {
    forall i | 0 <= i < |fs|
      ensures EmitBinding(fs[i], m, rev).Ok?
      ensures Fits(fs[i], mask[i], EmitBinding(fs[i], m, rev).value)
      ensures |TokensOfBinding(EmitBinding(fs[i], m, rev).value)| == |TokensOfBinding(bs[i])|
      ensures fs[i].propertyName.Some? ==>
                ConvertBinding(fs[i].propertyName.value, EmitBinding(fs[i], m, rev).value, conv)
                == ConvertBinding(fs[i].propertyName.value, bs[i], conv)
    {
      ReemitSlot(fs[i], mask[i], bs[i], m, conv, rev);
    }
    var cs := EmitBindings(fs, m, rev).value;
    FlattenSameLength(cs, bs);
    ModelOfCongruent(fs, cs, bs, conv);
  }

  /**
   * Reading tokens into a model and writing the model back gives as many
   * tokens, and reading those gives the same model again. This needs a
   * well-formed format whose properties are distinct and whose unnamed slots
   * are required raw slots, and converters that invert each other.
   */
  lemma ParseEmitParse<V>(cls: Serializing, ts: seq<SeparatedString>, conv: Forward<V>, rev: Reverse<V>)
    requires WellFormedFormat(cls.format) && DistinctNames(cls.format) && Restorable(cls.format)
    requires Inverse(conv, rev)
    requires ModelFromTokens(cls.format, ts, conv).Ok?
    ensures ArrayFromModel(cls, Some(ModelFromTokens(cls.format, ts, conv).value), rev).Ok?
    ensures |ArrayFromModel(cls, Some(ModelFromTokens(cls.format, ts, conv).value), rev).value| == |ts|
    ensures ModelFromTokens(cls.format, ArrayFromModel(cls, Some(ModelFromTokens(cls.format, ts, conv).value), rev).value, conv)
            == ModelFromTokens(cls.format, ts, conv)
  {
    var fs := cls.format;
    var bs := Bind(fs, ts).value;
    var m := ModelOf(fs, bs, conv).value;
    var mask := Keep(fs, Excess(fs, |ts|));
    BindSound(fs, ts);
    ElisionShape(fs, |ts|);
    ModelOfLookup(fs, bs, conv);
    ReemitBindings(fs, mask, bs, m, conv, rev);
    var cs := EmitBindings(fs, m, rev).value;
    BindComplete(fs, Flatten(cs), cs);
  }

  /**
   * Joining what a model writes and reading the string back is reading the
   * tokens directly, provided each token is a well-formed piece for the
   * separator that reads back as itself.
   */
  lemma StringRoundTrip<V>(cls: Serializing, m: Model<V>, conv: Forward<V>, rev: Reverse<V>)
    requires !IsQuote(cls.separator)
    requires ArrayFromModel(cls, Some(m), rev).Ok?
    requires forall i :: 0 <= i < |ArrayFromModel(cls, Some(m), rev).value| ==>
               GoodToken(ArrayFromModel(cls, Some(m), rev).value[i], cls.separator, cls.ignoreEdgeBlank)
    ensures StringFromModel(cls, Some(m), rev).Ok?
    ensures ModelOfClassFromString(cls, Some(StringFromModel(cls, Some(m), rev).value), conv)
            == ModelFromTokens(cls.format, ArrayFromModel(cls, Some(m), rev).value, conv)
  {
    JoinThenTokenize(ArrayFromModel(cls, Some(m), rev).value, cls.separator, cls.ignoreEdgeBlank);
  }

  /**
   * A slot whose written tokens always survive splitting by a blank
   * separator: any quoting but Enum, or raw candidates that are plain text.
   */
  predicate QuotingSafeSlot(slot: Slot) {
    match slot.kind
    case Typed(ft) => ft != EnumerateString
    case Raw(cs) => forall c :: c in cs ==> Plain(c)
  }

  lemma EmitGood(slot: Slot, v: Option<string>, sep: char, ignoreEdgeBlank: bool)
    requires QuotingSafeSlot(slot) && IsBlank(sep) && Emit(slot, v).Ok?
    ensures GoodToken(Emit(slot, v).value, sep, ignoreEdgeBlank)
  {
    var t := Emit(slot, v).value;
    if t.stype != Enumerate {
      QuotedTokenGood(t.characters, t.stype, sep, ignoreEdgeBlank);
    } else {
      PlainTokenGood(t.characters, sep, ignoreEdgeBlank);
    }
  }

  lemma {:induction false} FlattenGood(bs: seq<Binding>, sep: char, ignoreEdgeBlank: bool)
    requires forall i, j :: 0 <= i < |bs| && 0 <= j < |TokensOfBinding(bs[i])| ==>
               GoodToken(TokensOfBinding(bs[i])[j], sep, ignoreEdgeBlank)
    ensures forall k :: 0 <= k < |Flatten(bs)| ==> GoodToken(Flatten(bs)[k], sep, ignoreEdgeBlank)
  {
    if bs != [] {
      FlattenGood(bs[1..], sep, ignoreEdgeBlank);
      assert forall i :: 1 <= i < |bs| ==> bs[i] == bs[1..][i - 1];
    }
  }

  /** Every token a quoting-safe slot writes is a piece that re-reads as itself at a blank. */
  lemma EmitBindingGood<V>(slot: Slot, m: Model<V>, rev: Reverse<V>, sep: char, ignoreEdgeBlank: bool)
    requires QuotingSafeSlot(slot) && IsBlank(sep) && EmitBinding(slot, m, rev).Ok?
    ensures forall j :: 0 <= j < |TokensOfBinding(EmitBinding(slot, m, rev).value)| ==>
              GoodToken(TokensOfBinding(EmitBinding(slot, m, rev).value)[j], sep, ignoreEdgeBlank)
  {
    var p := Lookup(m, slot.propertyName);
    var ts := TokensOfBinding(EmitBinding(slot, m, rev).value);
    forall j | 0 <= j < |ts|
      ensures GoodToken(ts[j], sep, ignoreEdgeBlank)
    {
      if p.Nil? {
        EmitGood(slot, None, sep, ignoreEdgeBlank);
      } else if p.Single? {
        EmitGood(slot, rev(slot.propertyName.value, p.value), sep, ignoreEdgeBlank);
      } else {
        EmitGood(slot, rev(slot.propertyName.value, p.values[j]), sep, ignoreEdgeBlank);
      }
    }
  }

  /** With a blank separator, everything a quoting-safe format writes splits back into the same tokens. */
  lemma ArrayTokensGood<V>(cls: Serializing, m: Model<V>, rev: Reverse<V>)
    requires forall i :: 0 <= i < |cls.format| ==> QuotingSafeSlot(cls.format[i])
    requires IsBlank(cls.separator) && ArrayFromModel(cls, Some(m), rev).Ok?
    ensures forall i :: 0 <= i < |ArrayFromModel(cls, Some(m), rev).value| ==>
              GoodToken(ArrayFromModel(cls, Some(m), rev).value[i], cls.separator, cls.ignoreEdgeBlank)
  {
    var fs, sep, ign := cls.format, cls.separator, cls.ignoreEdgeBlank;
    var bs := EmitBindings(fs, m, rev).value;
    forall i | 0 <= i < |bs|
      ensures forall j :: 0 <= j < |TokensOfBinding(bs[i])| ==> GoodToken(TokensOfBinding(bs[i])[j], sep, ign)
    {
      EmitBindingGood(fs[i], m, rev, sep, ign);
    }
    FlattenGood(bs, sep, ign);
  }

  /**
   * The whole cycle through text: reading a string, writing the model back
   * as a string and reading that again gives the same model, for a
   * quoting-safe format split at a blank.
   */
  lemma StringParseEmitParse<V>(cls: Serializing, s: string, conv: Forward<V>, rev: Reverse<V>)
    requires WellFormedFormat(cls.format) && DistinctNames(cls.format) && Restorable(cls.format)
    requires forall i :: 0 <= i < |cls.format| ==> QuotingSafeSlot(cls.format[i])
    requires IsBlank(cls.separator) && Inverse(conv, rev)
    requires ModelOfClassFromString(cls, Some(s), conv).Ok?
    ensures StringFromModel(cls, Some(ModelOfClassFromString(cls, Some(s), conv).value), rev).Ok?
    ensures ModelOfClassFromString(cls, Some(StringFromModel(cls, Some(ModelOfClassFromString(cls, Some(s), conv).value), rev).value), conv)
            == ModelOfClassFromString(cls, Some(s), conv)
  {
    var ts := Tokenize(s, cls.separator, cls.ignoreEdgeBlank).value;
    var m := ModelOfClassFromString(cls, Some(s), conv).value;
    ParseEmitParse(cls, ts, conv, rev);
    ArrayTokensGood(cls, m, rev);
    StringRoundTrip(cls, m, conv, rev);
  }

  /**
   * Which reading fails how: nil input is NilInputData, an unbalanced quote
   * InvalidInputData, a count that elision cannot reconcile
   * NotMatchFragmentCount, and a reconcilable count fails only on a token
   * that does not fit its slot or on a failed transformation.
   */
  lemma ParseErrors<V>(cls: Serializing, s: string, conv: Forward<V>)
    requires WellFormedFormat(cls.format)
    requires Run(Outside, s) == Outside
    ensures var ts := Tokenize(s, cls.separator, cls.ignoreEdgeBlank).value;
            && (ModelOfClassFromString(cls, Some(s), conv) == Err(NotMatchFragmentCount) <==> !Reconcilable(cls.format, |ts|))
            && (Reconcilable(cls.format, |ts|) && ModelOfClassFromString(cls, Some(s), conv).Err? ==>
                  ModelOfClassFromString(cls, Some(s), conv).error in {NotMatchFragmentType, InvalidInputData})
  {
    var ts := Tokenize(s, cls.separator, cls.ignoreEdgeBlank).value;
    BindErrors(cls.format, ts);
  }
}
