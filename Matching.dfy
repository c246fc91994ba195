/**
 * The optional/variadic rules of `formatByPropertyKey` (MAEArrayAdapter.h):
 * when the token count differs from the slot count, slots marked optional or
 * variadic are deleted starting from the last one; the surviving slots then
 * take the tokens in order, a variadic one taking all that remain.
 */
module Matching {
  import opened ErrorCodes
  import opened SeparatedStrings
  import opened Fragments

  /** A slot that the count reconciliation may delete. */
  predicate Elidable(slot: Slot) {
    slot.optional || slot.variadic
  }

  /** Variadic is allowed on the last slot only. */
  predicate WellFormedFormat(fs: seq<Slot>) {
    forall i :: 0 <= i < |fs| - 1 ==> !fs[i].variadic
  }

  predicate EndsVariadic(fs: seq<Slot>) {
    |fs| > 0 && fs[|fs| - 1].variadic
  }

  function ElidableCount(fs: seq<Slot>): (n: nat)
    ensures n <= |fs|
  {
    if fs == [] then 0 else (if Elidable(fs[0]) then 1 else 0) + ElidableCount(fs[1..])
  }

  /** The number of slots a keep-mask deletes. */
  function Deleted(mask: seq<bool>): (n: nat)
    ensures n <= |mask|
  {
    if mask == [] then 0 else (if mask[0] then 0 else 1) + Deleted(mask[1..])
  }

  /** How many slots have to go for `n` tokens. */
  function Excess(fs: seq<Slot>, n: nat): nat {
    if |fs| > n then |fs| - n else 0
  }

  /**
   * The keep-mask after deleting `k` elidable slots from the last one
   * backwards: a slot is deleted exactly when it is elidable and fewer than
   * `k` elidable slots follow it.
   */
  function Keep(fs: seq<Slot>, k: nat): (mask: seq<bool>)
    ensures |mask| == |fs|
  {
    seq(|fs|, i requires 0 <= i < |fs| => !(Elidable(fs[i]) && ElidableCount(fs[i + 1..]) < k))
  }

  /**
   * The token counts a format accepts: at least the number of slots that
   * cannot be deleted, and more than the number of slots only when the last
   * slot is variadic.
   */
  predicate Reconcilable(fs: seq<Slot>, n: nat) {
    |fs| - ElidableCount(fs) <= n && (n > |fs| ==> EndsVariadic(fs))
  }

  /** The elision step: the keep-mask for `n` tokens, or the count error. */
  function Elision(fs: seq<Slot>, n: nat): (r: Result<seq<bool>>)
    ensures r.Err? ==> r.error == NotMatchFragmentCount
    ensures r.Ok? <==> Reconcilable(fs, n)
    ensures r.Ok? ==> |r.value| == |fs|
  {
    if |fs| < n && !EndsVariadic(fs) then Err(NotMatchFragmentCount)
    else if Excess(fs, n) > ElidableCount(fs) then Err(NotMatchFragmentCount)
    else Ok(Keep(fs, Excess(fs, n)))
  }

  lemma ElidableCountSuffix(fs: seq<Slot>, i: nat, j: nat)
    requires i <= j <= |fs|
    ensures ElidableCount(fs[i..]) >= ElidableCount(fs[j..])
    decreases j - i
  {
    if i < j {
      assert fs[i..][1..] == fs[i + 1..];
      ElidableCountSuffix(fs, i + 1, j);
    }
  }

  lemma KeepFront(fs: seq<Slot>, k: nat)
    requires fs != []
    ensures Keep(fs, k) == [!(Elidable(fs[0]) && ElidableCount(fs[1..]) < k)] + Keep(fs[1..], k)
  {
    forall i | 0 <= i < |fs| - 1
      ensures Keep(fs, k)[i + 1] == Keep(fs[1..], k)[i]
    {
      assert fs[i + 1 + 1..] == fs[1..][i + 1..];
    }
  }

  /** Deleting `k` slots deletes `k` of them, or every elidable slot when there are fewer. */
  lemma {:induction false} KeepDeletes(fs: seq<Slot>, k: nat)
    ensures Deleted(Keep(fs, k)) == if k <= ElidableCount(fs) then k else ElidableCount(fs)
  {
    if fs != [] {
      KeepFront(fs, k);
      KeepDeletes(fs[1..], k);
      var mask := Keep(fs, k);
      assert mask[1..] == Keep(fs[1..], k);
    }
  }

  /**
   * What elision deletes: exactly as many slots as there are excess slots,
   * only optional or variadic ones, and always the last such ones first (a
   * deleted slot is followed by deleted elidable slots only).
   */
  lemma ElisionShape(fs: seq<Slot>, n: nat)
    requires Elision(fs, n).Ok?
    ensures Deleted(Elision(fs, n).value) == Excess(fs, n)
    ensures n <= |fs| ==> |fs| - Deleted(Elision(fs, n).value) == n
    ensures forall i :: 0 <= i < |fs| && !Elision(fs, n).value[i] ==> Elidable(fs[i])
    ensures forall i, j :: 0 <= i < j < |fs| && !Elision(fs, n).value[i] && Elidable(fs[j]) ==>
              !Elision(fs, n).value[j]
  {
    KeepDeletes(fs, Excess(fs, n));
    var mask := Elision(fs, n).value;
    forall i, j | 0 <= i < j < |fs| && !mask[i] && Elidable(fs[j])
      ensures !mask[j]
    {
      ElidableCountSuffix(fs, i + 1, j + 1);
    }
  }

  /**
   * Elision as `MAEArrayAdapter.h:36` states it: walk back from the last slot,
   * deleting optional or variadic slots one at a time until the excess is
   * gone; running out of such slots, or having too many tokens without a
   * trailing variadic, is a count error.
   */
  method Elide(fs: seq<Slot>, n: nat) returns (r: Result<seq<bool>>)
    ensures r == Elision(fs, n)
  {
    if |fs| < n && !(|fs| > 0 && fs[|fs| - 1].variadic) {
      return Err(NotMatchFragmentCount);
    }
    var k := if |fs| > n then |fs| - n else 0;
    var keep := seq(|fs|, _ => true);
    var removed := 0;
    var j := |fs|;
    while j > 0 && removed < k
      invariant 0 <= j <= |fs| && |keep| == |fs|
      invariant removed == ElidableCount(fs[j..]) && removed <= k
      invariant forall i :: 0 <= i < j ==> keep[i]
      invariant forall i :: j <= i < |fs| ==> keep[i] == Keep(fs, k)[i]
    {
      j := j - 1;
      assert fs[j..][1..] == fs[j + 1..];
      if Elidable(fs[j]) {
        keep := keep[j := false];
        removed := removed + 1;
      }
    }
    if removed < k {
      assert fs[j..] == fs;
      return Err(NotMatchFragmentCount);
    }
    ElidableCountSuffix(fs, 0, j);
    assert fs[0..] == fs;
    forall i | 0 <= i < j
      ensures Keep(fs, k)[i]
    {
      ElidableCountSuffix(fs, i + 1, j);
    }
    assert keep == Keep(fs, k);
    r := Ok(keep);
  }

  /** What one slot receives: nothing, one token, or a list of tokens (a variadic). */
  datatype Binding = Absent | One(token: SeparatedString) | Many(tokens: seq<SeparatedString>)

  function TokensOfBinding(b: Binding): seq<SeparatedString> {
    match b
    case Absent => []
    case One(t) => [t]
    case Many(ts) => ts
  }

  /** The tokens of all bindings, in slot order. */
  function Flatten(bs: seq<Binding>): seq<SeparatedString> {
    if bs == [] then [] else TokensOfBinding(bs[0]) + Flatten(bs[1..])
  }

  /** A deleted variadic is an empty list unless it is optional; any other deleted slot is nil. */
  function ElidedBinding(slot: Slot): (b: Binding)
    ensures TokensOfBinding(b) == []
    ensures b == Absent <==> !(slot.variadic && !slot.optional)
  {
    if slot.variadic && !slot.optional then Many([]) else Absent
  }

  predicate AllValid(slot: Slot, ts: seq<SeparatedString>) {
    forall i :: 0 <= i < |ts| ==> Validate(slot, ts[i]) == Pass
  }

  /** Validation of every token a variadic slot takes; the first refusal is reported. */
  function ValidateAll(slot: Slot, ts: seq<SeparatedString>): (r: Outcome)
    ensures r == Pass <==> AllValid(slot, ts)
    ensures r.Fail? ==> r.error == NotMatchFragmentType
  {
    if ts == [] then Pass
    else if Validate(slot, ts[0]).Fail? then Validate(slot, ts[0])
    else
      var rest := ValidateAll(slot, ts[1..]);
      assert forall i :: 1 <= i < |ts| ==> ts[i] == ts[1..][i - 1];
      rest
  }

  /** The binding one slot may receive, given whether elision kept it. */
  predicate Fits(slot: Slot, kept: bool, b: Binding) {
    if !kept then b == ElidedBinding(slot)
    else if slot.variadic then b.Many? && AllValid(slot, b.tokens)
    else b.One? && Validate(slot, b.token) == Pass
  }

  /** One binding per slot, each fitting its slot. */
  predicate Conforms(fs: seq<Slot>, mask: seq<bool>, bs: seq<Binding>) {
    |mask| == |fs| && |bs| == |fs| && forall i :: 0 <= i < |fs| ==> Fits(fs[i], mask[i], bs[i])
  }

  /** Hands the tokens to the slots that elision kept, in order. */
  function Align(fs: seq<Slot>, mask: seq<bool>, ts: seq<SeparatedString>): (r: Result<seq<Binding>>)
    requires |mask| == |fs|
    ensures r.Err? ==> r.error == NotMatchFragmentType || r.error == NotMatchFragmentCount
    ensures r.Ok? ==> |r.value| == |fs|
    decreases |fs|
  {
    if fs == [] then
      (if ts == [] then Ok([]) else Err(NotMatchFragmentCount))
    else if !mask[0] then
      var rest :- Align(fs[1..], mask[1..], ts);
      Ok([ElidedBinding(fs[0])] + rest)
    else if fs[0].variadic then
      if ValidateAll(fs[0], ts).Fail? then Err(NotMatchFragmentType)
      else
        var rest :- Align(fs[1..], mask[1..], []);
        Ok([Many(ts)] + rest)
    else if ts == [] then Err(NotMatchFragmentCount)
    else if Validate(fs[0], ts[0]).Fail? then Err(NotMatchFragmentType)
    else
      var rest :- Align(fs[1..], mask[1..], ts[1..]);
      Ok([One(ts[0])] + rest)
  }

  /** The matcher: reconcile the count, then bind. */
  function Bind(fs: seq<Slot>, ts: seq<SeparatedString>): (r: Result<seq<Binding>>)
    ensures r.Err? ==> r.error == NotMatchFragmentType || r.error == NotMatchFragmentCount
    ensures r.Ok? ==> |r.value| == |fs|
  {
    var mask :- Elision(fs, |ts|);
    Align(fs, mask, ts)
  }

  lemma FlattenCons(b: Binding, bs: seq<Binding>)
    ensures Flatten([b] + bs) == TokensOfBinding(b) + Flatten(bs)
  {
  }

  lemma ConformsCons(fs: seq<Slot>, mask: seq<bool>, b: Binding, bs: seq<Binding>)
    requires fs != [] && |mask| == |fs|
    ensures Conforms(fs, mask, [b] + bs) <==> Fits(fs[0], mask[0], b) && Conforms(fs[1..], mask[1..], bs)
  {
  }

  /** What Align binds fits the slots, and hands out every token exactly once, in order. */
  lemma {:induction false} AlignSound(fs: seq<Slot>, mask: seq<bool>, ts: seq<SeparatedString>)
    requires |mask| == |fs| && Align(fs, mask, ts).Ok?
    ensures Conforms(fs, mask, Align(fs, mask, ts).value)
    ensures Flatten(Align(fs, mask, ts).value) == ts
    decreases |fs|
  {
    if fs != [] {
      var bs := Align(fs, mask, ts).value;
      var b, rest, tail := bs[0], bs[1..], ts;
      if !mask[0] {
        AlignSound(fs[1..], mask[1..], ts);
      } else if fs[0].variadic {
        AlignSound(fs[1..], mask[1..], []);
        tail := [];
      } else {
        AlignSound(fs[1..], mask[1..], ts[1..]);
        tail := ts[1..];
      }
      assert bs == [b] + rest;
      ConformsCons(fs, mask, b, rest);
      FlattenCons(b, rest);
    }
  }

  /** With a well-formed format, any binding that fits is the one Align finds. */
  lemma {:induction false} AlignComplete(fs: seq<Slot>, mask: seq<bool>, bs: seq<Binding>)
    requires WellFormedFormat(fs) && Conforms(fs, mask, bs)
    ensures Align(fs, mask, Flatten(bs)) == Ok(bs)
    decreases |fs|
  {
    if fs != [] {
      var b, rest := bs[0], bs[1..];
      assert bs == [b] + rest;
      ConformsCons(fs, mask, b, rest);
      FlattenCons(b, rest);
      AlignComplete(fs[1..], mask[1..], rest);
      if !mask[0] {
        assert Flatten(bs) == Flatten(rest);
      } else if fs[0].variadic {
        assert |fs| == 1;
        assert rest == [] && Flatten(rest) == [];
        assert Flatten(bs) == b.tokens;
        assert ValidateAll(fs[0], b.tokens) == Pass;
        assert b == Many(b.tokens);
      } else {
        assert b == One(b.token);
        assert Flatten(bs) == [b.token] + Flatten(rest);
        assert Flatten(bs)[1..] == Flatten(rest);
      }
    }
  }

  /** Kept slots that take one token each. */
  function FixedKept(fs: seq<Slot>, mask: seq<bool>): nat
    requires |mask| == |fs|
  {
    if fs == [] then 0 else (if mask[0] && !fs[0].variadic then 1 else 0) + FixedKept(fs[1..], mask[1..])
  }

  predicate VariadicKept(fs: seq<Slot>, mask: seq<bool>)
    requires |mask| == |fs|
  {
    EndsVariadic(fs) && mask[|fs| - 1]
  }

  /** The token counts Align can serve with a given mask. */
  predicate CountsFit(fs: seq<Slot>, mask: seq<bool>, n: nat)
    requires |mask| == |fs|
  {
    if VariadicKept(fs, mask) then FixedKept(fs, mask) <= n else FixedKept(fs, mask) == n
  }

  lemma {:induction false} KeptSlots(fs: seq<Slot>, mask: seq<bool>)
    requires WellFormedFormat(fs) && |mask| == |fs|
    ensures FixedKept(fs, mask) + (if VariadicKept(fs, mask) then 1 else 0) == |fs| - Deleted(mask)
  {
    if |fs| == 1 {
      assert FixedKept(fs[1..], mask[1..]) == 0 && Deleted(mask[1..]) == 0;
    } else if |fs| > 1 {
      KeptSlots(fs[1..], mask[1..]);
      assert VariadicKept(fs, mask) == VariadicKept(fs[1..], mask[1..]);
    }
  }

  /** When the counts fit, Align can only fail on a token that does not fit its slot. */
  lemma {:induction false} AlignCountFits(fs: seq<Slot>, mask: seq<bool>, ts: seq<SeparatedString>)
    requires WellFormedFormat(fs) && |mask| == |fs| && CountsFit(fs, mask, |ts|)
    ensures Align(fs, mask, ts).Err? ==> Align(fs, mask, ts).error == NotMatchFragmentType
    decreases |fs|
  {
    if fs != [] {
      if |fs| > 1 {
        assert VariadicKept(fs, mask) == VariadicKept(fs[1..], mask[1..]);
      } else {
        assert FixedKept(fs[1..], mask[1..]) == 0;
      }
      if !mask[0] {
        AlignCountFits(fs[1..], mask[1..], ts);
      } else if fs[0].variadic {
        assert |fs| == 1;
      } else {
        AlignCountFits(fs[1..], mask[1..], ts[1..]);
      }
    }
  }

  /**
   * Bind succeeds only on a reconcilable count, with bindings that fit the
   * slots elision kept and that hand out every token once, in order.
   */
  lemma BindSound(fs: seq<Slot>, ts: seq<SeparatedString>)
    requires Bind(fs, ts).Ok?
    ensures Reconcilable(fs, |ts|)
    ensures Conforms(fs, Keep(fs, Excess(fs, |ts|)), Bind(fs, ts).value)
    ensures Flatten(Bind(fs, ts).value) == ts
  {
    AlignSound(fs, Keep(fs, Excess(fs, |ts|)), ts);
  }

  /** Conversely, any such binding of a reconcilable count is what Bind returns. */
  lemma BindComplete(fs: seq<Slot>, ts: seq<SeparatedString>, bs: seq<Binding>)
    requires WellFormedFormat(fs) && Reconcilable(fs, |ts|)
    requires Conforms(fs, Keep(fs, Excess(fs, |ts|)), bs) && Flatten(bs) == ts
    ensures Bind(fs, ts) == Ok(bs)
  {
    AlignComplete(fs, Keep(fs, Excess(fs, |ts|)), bs);
  }

  /**
   * The count error is raised exactly for the counts elision cannot
   * reconcile; every other failure is a token that does not fit its slot.
   */
  lemma BindErrors(fs: seq<Slot>, ts: seq<SeparatedString>)
    requires WellFormedFormat(fs)
    ensures Bind(fs, ts) == Err(NotMatchFragmentCount) <==> !Reconcilable(fs, |ts|)
    ensures Reconcilable(fs, |ts|) && Bind(fs, ts).Err? ==>
              forall bs :: Conforms(fs, Keep(fs, Excess(fs, |ts|)), bs) ==> Flatten(bs) != ts
  {
    if Reconcilable(fs, |ts|) {
      var k := Excess(fs, |ts|);
      var mask := Keep(fs, k);
      KeepDeletes(fs, k);
      KeptSlots(fs, mask);
      if |ts| > |fs| {
        assert mask[|fs| - 1];
      }
      AlignCountFits(fs, mask, ts);
      forall bs | Conforms(fs, mask, bs) && Flatten(bs) == ts
        ensures Bind(fs, ts).Ok?
      {
        BindComplete(fs, ts, bs);
      }
    }
  }

  lemma {:induction false} AlignAllKept(fs: seq<Slot>, mask: seq<bool>, ts: seq<SeparatedString>)
    requires WellFormedFormat(fs) && EndsVariadic(fs) && |mask| == |fs|
    requires forall i :: 0 <= i < |fs| ==> mask[i]
    requires Align(fs, mask, ts).Ok?
    ensures |ts| >= |fs| - 1
    ensures Align(fs, mask, ts).value[|fs| - 1] == Many(ts[|fs| - 1..])
    decreases |fs|
  {
    if |fs| > 1 {
      AlignAllKept(fs[1..], mask[1..], ts[1..]);
      assert ts[1..][|fs| - 2..] == ts[|fs| - 1..];
    }
  }

  /**
   * A trailing variadic binds the tokens left over by the other slots, and
   * when elision deleted it, an empty list, or nil if it is also optional.
   */
  lemma BindVariadic(fs: seq<Slot>, ts: seq<SeparatedString>)
    requires WellFormedFormat(fs) && EndsVariadic(fs) && Bind(fs, ts).Ok?
    ensures |ts| < |fs| ==>
              Bind(fs, ts).value[|fs| - 1] == (if fs[|fs| - 1].optional then Absent else Many([]))
    ensures |ts| >= |fs| ==>
              Bind(fs, ts).value[|fs| - 1] == Many(ts[|fs| - 1..]) && |ts[|fs| - 1..]| >= 1
  {
    var mask := Keep(fs, Excess(fs, |ts|));
    BindSound(fs, ts);
    if |ts| < |fs| {
      assert fs[|fs|..] == [];
      assert !mask[|fs| - 1];
    } else {
      AlignAllKept(fs, mask, ts);
    }
  }
}
