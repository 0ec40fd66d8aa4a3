// The three validation predicates of src/utils/validator.js.
module Validator {
  import opened Js

  /** isValid: the "required field" gate. Undefined and null fail, a string
      fails when it holds nothing but white space, every other value passes
      (false, 0, empty arrays and objects included). */
  predicate IsValid(v: Value)
    ensures IsValid(v) <==>
      match v
      case Undefined => false
      case Null => false
      case Str(s) => exists i :: 0 <= i < |s| && !IsWhitespace(s[i])
      case _ => true
  {
    if v.Undefined? || v.Null? then false
    else if v.Str? && |Trim(v.s)| == 0 then false
    else true
  }

  /** For strings, isValid looks only at the trimmed text. */
  lemma IsValidDependsOnTrim(a: string, b: string)
    requires Trim(a) == Trim(b)
    ensures IsValid(Str(a)) == IsValid(Str(b))
  {
  }

  const Titles: seq<string> := ["Mr", "Mrs", "Miss", "Mast"]

  /** Array.prototype.indexOf over a list of strings: the first position
      whose element is strictly equal (===) to `v`, or -1. */
  function IndexOf(list: seq<string>, v: Value): (r: int)
    ensures -1 <= r < |list|
    ensures r >= 0 ==> v == Str(list[r]) && forall j :: 0 <= j < r ==> v != Str(list[j])
    ensures r == -1 <==> forall j :: 0 <= j < |list| ==> v != Str(list[j])
  {
    if |list| == 0 then -1
    else if v == Str(list[0]) then 0
    else
      var k := IndexOf(list[1..], v);
      if k == -1 then -1 else k + 1
  }

  /** isValidTitle: exactly the four strings Mr, Mrs, Miss and Mast, compared
      case-sensitively; a value that is not a string never qualifies. */
  predicate IsValidTitle(v: Value)
    ensures IsValidTitle(v) <==> v.Str? && v.s in {"Mr", "Mrs", "Miss", "Mast"}
  {
    IndexOf(Titles, v) != -1
  }

  /** isValidRequestBody: the body has at least one key. */
  predicate IsValidRequestBody(body: Dict)
    ensures IsValidRequestBody(body) <==> exists k :: k in body
  {
    |body.Keys| > 0
  }
}
