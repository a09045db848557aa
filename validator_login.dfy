/** `handleLogin` of the validator screen: an active validator whose code is
    the typed code, upper-cased. */
module ValidatorLogin {
  import opened Text
  import opened Tables

  datatype ValidatorLoginResult = MissingCode | Rejected | Accepted(validator: Validator)

  /** The value of the code field after typing `typed`: the field upper-cases
      its input as it changes. */
  function CodeField(typed: string): (r: string)
    ensures |r| == |typed| && ToUpper(r) == r
  {
    UpperIdempotent(typed);
    ToUpper(typed)
  }

  /** One call of `handleLogin` with `code` in the field: a read of
      `validators`, which it never changes. */
  function Login(validators: map<string, Validator>, code: string): (r: ValidatorLoginResult)
    ensures r.Accepted? ==> ToUpper(code) in validators && r.validator == validators[ToUpper(code)] && r.validator.isActive
    ensures r == MissingCode <==> code == ""
  {
    if code == "" then MissingCode
    else
      var key := ToUpper(code);
      if key in validators && validators[key].isActive then Accepted(validators[key]) else Rejected
  }

  /** Access is granted exactly to an active validator whose code is the
      upper-cased input, and the validator returned is that one. */
  lemma AcceptedIff(validators: map<string, Validator>, code: string)
    requires forall c :: c in validators ==> validators[c].code == c
    ensures var r := Login(validators, code);
            && (r.Accepted? <==> code != "" && ToUpper(code) in validators && validators[ToUpper(code)].isActive)
            && (r.Accepted? ==> r.validator.code == ToUpper(code) && r.validator.isActive
                                && r.validator == validators[ToUpper(code)])
            && (code == "" <==> r == MissingCode)
  {
  }

  /** An inactive validator is refused exactly as an unknown code is. */
  lemma InactiveLikeUnknown(validators: map<string, Validator>, code: string)
    requires code != "" && ToUpper(code) in validators && !validators[ToUpper(code)].isActive
    ensures Login(validators, code) == Login(validators - {ToUpper(code)}, code) == Rejected
  {
  }

  /** Upper-casing in the field changes nothing: the lookup upper-cases again. */
  lemma FieldUppercaseHarmless(validators: map<string, Validator>, typed: string)
    ensures Login(validators, CodeField(typed)) == Login(validators, typed)
  {
    UpperIdempotent(typed);
    assert |CodeField(typed)| == |typed|;
  }
}
