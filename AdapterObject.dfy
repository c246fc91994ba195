/**
 * An MAEArrayAdapter instance: the instance methods read and write models
 * of the one class the adapter was made for, with that class's transformers.
 */
module AdapterObjects {
  import opened Options
  import opened ErrorCodes
  import SeparatedStrings
  import Joining
  import Splitting
  import ArrayAdapter

  class Adapter<V> {
    const cls: ArrayAdapter.Serializing
    const conv: ArrayAdapter.Forward<V>
    const rev: ArrayAdapter.Reverse<V>

    constructor (cls: ArrayAdapter.Serializing, conv: ArrayAdapter.Forward<V>, rev: ArrayAdapter.Reverse<V>)
      ensures this.cls == cls && this.conv == conv && this.rev == rev
    {
      this.cls, this.conv, this.rev := cls, conv, rev;
    }

    /**
     * `modelFromString:error:`, scanning the string with the quote-state
     * loop; it agrees with `modelOfClass:fromString:error:` on every input.
     */
    method ModelFromString(input: Option<string>) returns (r: Result<ArrayAdapter.Model<V>>)
      ensures r == ArrayAdapter.ModelOfClassFromString(cls, input, conv)
    {
      if input.None? {
        return Err(NilInputData);
      }
      var ts := Splitting.Split(input.value, cls.separator, cls.ignoreEdgeBlank);
      if ts.Err? {
        return Err(ts.error);
      }
      r := ArrayAdapter.ModelFromTokens(cls.format, ts.value, conv);
    }

    /** `modelFromArray:error:`, as `modelOfClass:fromArray:error:`. */
    method ModelFromArray(input: Option<seq<string>>) returns (r: Result<ArrayAdapter.Model<V>>)
      ensures r == ArrayAdapter.ModelOfClassFromArray(cls, input, conv)
    {
      if input.None? {
        return Err(NilInputData);
      }
      r := ArrayAdapter.ModelFromTokens(cls.format, ArrayAdapter.BareTokens(input.value), conv);
    }

    /** `arrayFromModel:error:`, as the class method. */
    method ArrayFromModel(model: Option<ArrayAdapter.Model<V>>) returns (r: Result<seq<SeparatedStrings.SeparatedString>>)
      ensures r == ArrayAdapter.ArrayFromModel(cls, model, rev)
    {
      r := ArrayAdapter.ArrayFromModel(cls, model, rev);
    }

    /**
     * `stringFromModel:error:`: the instance's array of tokens, joined by
     * the class's separator; it agrees with the class method on every model.
     */
    method StringFromModel(model: Option<ArrayAdapter.Model<V>>) returns (r: Result<string>)
      ensures r == ArrayAdapter.StringFromModel(cls, model, rev)
    {
      var ts := ArrayFromModel(model);
      if ts.Err? {
        return Err(ts.error);
      }
      r := Ok(Joining.ComponentsJoined(ts.value, cls.separator));
    }
  }
}
