/**
 * MAEFragment.h and MAERawFragment.h: the slots a format is made of. A slot
 * either stands for a property and constrains the quoting of its token, or
 * is a raw slot whose token must be one of fixed candidate strings.
 */
module Fragments {
  import opened Options
  import opened ErrorCodes
  import opened SeparatedStrings

  /** MAEFragmentType: the quoting a property slot demands. */
  datatype FragmentType = MaybeQuotedString | DoubleQuotedString | SingleQuotedString | EnumerateString

  /** A property slot of some type (MAEFragment) or a raw slot with its candidates (MAERawFragment). */
  datatype SlotKind = Typed(fragmentType: FragmentType) | Raw(candidates: seq<string>)

  /** What the matcher reads of a fragment object. */
  datatype Slot = Slot(propertyName: Option<string>, kind: SlotKind, optional: bool, variadic: bool)

  /** The one string type a quoting-specific fragment type admits. */
  function RequiredType(ft: FragmentType): StringType
    requires ft != MaybeQuotedString
  {
    match ft
    case DoubleQuotedString => DoubleQuoted
    case SingleQuotedString => SingleQuoted
    case EnumerateString => Enumerate
  }

  /**
   * `validateWithSeparatedString:error:`. A MaybeQuoted slot takes any
   * token, a DoubleQuoted, SingleQuoted or Enum slot only tokens of exactly
   * that quoting, a raw slot only a token whose characters are one of its
   * candidates; a refusal is always NotMatchFragmentType.
   */
  function Validate(slot: Slot, token: SeparatedString): (r: Outcome)
    ensures r.Fail? ==> r.error == NotMatchFragmentType
    ensures slot.kind == Typed(MaybeQuotedString) ==> r == Pass
    ensures slot.kind.Typed? && slot.kind.fragmentType != MaybeQuotedString ==>
              (r == Pass <==> token.stype == RequiredType(slot.kind.fragmentType))
    ensures slot.kind.Raw? ==> (r == Pass <==> token.characters in slot.kind.candidates)
  {
    match slot.kind
    case Typed(ft) =>
      if ft == MaybeQuotedString || token.stype == RequiredType(ft) then Pass else Fail(NotMatchFragmentType)
    case Raw(cs) =>
      if token.characters in cs then Pass else Fail(NotMatchFragmentType)
  }

  /** The quoting a property slot writes `value` with: MaybeQuoted writes plain text bare and anything else double-quoted. */
  function EmitType(ft: FragmentType, value: string): StringType
  {
    if ft == MaybeQuotedString then (if Plain(value) then Enumerate else DoubleQuoted)
    else RequiredType(ft)
  }

  /**
   * `separatedStringFromTransformedValue:error:`: the token a slot writes for
   * a converted value (nil is `None`). The token always passes the slot's own
   * validation and is written in the slot's quoting. A property slot needs a
   * value (nil gives NilInputData) and keeps it as the token's characters; a
   * raw slot writes the given value only if it is a candidate
   * (NotMatchFragmentType otherwise) and its first candidate for nil
   * (InvalidInputData when it has none).
   */
  function Emit(slot: Slot, value: Option<string>): (r: Result<SeparatedString>)
    ensures r.Ok? ==> Validate(slot, r.value) == Pass
    ensures r.Ok? ==> r.value == WithCharacters(r.value.characters, r.value.stype)
    ensures r.Ok? && value.Some? ==> r.value.characters == value.value
    ensures slot.kind.Typed? ==> (r.Ok? <==> value.Some?)
    ensures slot.kind.Typed? && r.Err? ==> r.error == NilInputData
    ensures slot.kind.Typed? && slot.kind.fragmentType != MaybeQuotedString && r.Ok? ==>
              r.value.stype == RequiredType(slot.kind.fragmentType)
    ensures slot.kind == Typed(MaybeQuotedString) && r.Ok? ==> (r.value.stype == Enumerate <==> Plain(r.value.characters))
    ensures slot.kind.Raw? && value.Some? ==>
              (r.Ok? <==> value.value in slot.kind.candidates) && (r.Err? ==> r.error == NotMatchFragmentType)
    ensures slot.kind.Raw? && value.None? ==>
              (r.Ok? <==> |slot.kind.candidates| > 0) && (r.Err? ==> r.error == InvalidInputData)
              && (r.Ok? ==> r.value.characters == slot.kind.candidates[0])
  {
    match slot.kind
    case Typed(ft) =>
      if value.None? then Err(NilInputData)
      else Ok(WithCharacters(value.value, EmitType(ft, value.value)))
    case Raw(cs) =>
      if value.Some? then
        (if value.value in cs then Ok(WithCharacters(value.value, Enumerate)) else Err(NotMatchFragmentType))
      else if |cs| > 0 then Ok(WithCharacters(cs[0], Enumerate))
      else Err(InvalidInputData)
  }

  /**
   * A fragment object. The properties are read-only to clients; the format
   * builders change `optional`, `variadic` and (for raw fragments) the
   * property name in place through the protocol's mutators.
   */
  class Fragment {
    var propertyName: Option<string>
    var kind: SlotKind
    var optional: bool
    var variadic: bool

    /** The current state, as the adapter reads it. */
    function Value(): Slot
      reads this
    {
      Slot(propertyName, kind, optional, variadic)
    }

    /** `initWithPropertyName:`, and a bare property name in a format: any quoting. */
    constructor (name: string)
      ensures Value() == Slot(Some(name), Typed(MaybeQuotedString), false, false)
    {
      propertyName, kind, optional, variadic := Some(name), Typed(MaybeQuotedString), false, false;
    }

    /** `MAEQuoted`: a property that must be double quoted. */
    constructor Quoted(name: string)
      ensures Value() == Slot(Some(name), Typed(DoubleQuotedString), false, false)
    {
      propertyName, kind, optional, variadic := Some(name), Typed(DoubleQuotedString), false, false;
    }

    /** `MAESingleQuoted`: a property that must be single quoted. */
    constructor SingleQuotedFragment(name: string)
      ensures Value() == Slot(Some(name), Typed(SingleQuotedString), false, false)
    {
      propertyName, kind, optional, variadic := Some(name), Typed(SingleQuotedString), false, false;
    }

    /** `MAEEnum`: a property that must not be quoted. */
    constructor Enum(name: string)
      ensures Value() == Slot(Some(name), Typed(EnumerateString), false, false)
    {
      propertyName, kind, optional, variadic := Some(name), Typed(EnumerateString), false, false;
    }

    /** `MAERaw`: exactly one acceptable string, and no property. */
    constructor RawString(s: string)
      ensures Value() == Slot(None, Raw([s]), false, false)
    {
      propertyName, kind, optional, variadic := None, Raw([s]), false, false;
    }

    /** `MAERawEither` and `initWithCandidates:`: one of several strings, and no property. */
    constructor RawEither(candidates: seq<string>)
      ensures Value() == Slot(None, Raw(candidates), false, false)
    {
      propertyName, kind, optional, variadic := None, Raw(candidates), false, false;
    }

    /** `setOptional:`: flips the flag and nothing else. */
    method SetOptional(b: bool)
      modifies this
      ensures Value() == old(Value()).(optional := b)
    {
      optional := b;
    }

    /** `setVariadic:`: flips the flag and nothing else. */
    method SetVariadic(b: bool)
      modifies this
      ensures Value() == old(Value()).(variadic := b)
    {
      variadic := b;
    }

    /**
     * `withProperty`: names the property a raw fragment stores its token in,
     * keeps the candidates, and returns the receiver for chaining.
     */
    method WithProperty(name: Option<string>) returns (self: Fragment)
      requires kind.Raw?
      modifies this
      ensures self == this
      ensures Value() == old(Value()).(propertyName := name)
    {
      propertyName := name;
      self := this;
    }
  }

  /** `MAEOptional`: the same fragment, now optional; name, type and candidates unchanged. */
  method MakeOptional(f: Fragment) returns (g: Fragment)
    modifies f
    ensures g == f
    ensures f.Value() == old(f.Value()).(optional := true)
  {
    f.SetOptional(true);
    g := f;
  }

  /** `MAEVariadic`: the same fragment, now variadic; name, type and candidates unchanged. */
  method MakeVariadic(f: Fragment) returns (g: Fragment)
    modifies f
    ensures g == f
    ensures f.Value() == old(f.Value()).(variadic := true)
  {
    f.SetVariadic(true);
    g := f;
  }

  /** `MAEOptional` given a property name: a new fragment of that property, any quoting, optional. */
  method MakeOptionalNamed(name: string) returns (g: Fragment)
    ensures fresh(g)
    ensures g.Value() == Slot(Some(name), Typed(MaybeQuotedString), true, false)
  {
    g := new Fragment(name);
    g.SetOptional(true);
  }

  /** `MAEVariadic` given a property name: a new fragment of that property, any quoting, variadic. */
  method MakeVariadicNamed(name: string) returns (g: Fragment)
    ensures fresh(g)
    ensures g.Value() == Slot(Some(name), Typed(MaybeQuotedString), false, true)
  {
    g := new Fragment(name);
    g.SetVariadic(true);
  }
}
