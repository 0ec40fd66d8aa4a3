// Short-circuit validation chains: checks run in a fixed order and the first
// one that fails decides the response.
module Chains {
  import opened Common

  /** Every check of `order` passes. */
  predicate AllPass<C>(order: seq<C>, passes: C -> bool)
  {
    forall i :: 0 <= i < |order| ==> passes(order[i])
  }

  /** `c` is the first check of `order` that fails. */
  predicate FirstFailure<C(==)>(order: seq<C>, passes: C -> bool, c: C)
  {
    exists i :: 0 <= i < |order| && order[i] == c && !passes(c) && AllPass(order[..i], passes)
  }

  /** The first failing check of `order`, if any: the checks run one after
      another and the first failure stops the chain. */
  function FirstFailing<C(==)>(order: seq<C>, passes: C -> bool): (r: Option<C>)
    ensures r.None? <==> AllPass(order, passes)
    ensures r.Some? ==> FirstFailure(order, passes, r.value)
  {
    if order == [] then None
    else if !passes(order[0]) then
      assert order[..0] == [];
      Some(order[0])
    else
      var r := FirstFailing(order[1..], passes);
      if r.Some? then
        var i :| 0 <= i < |order[1..]| && order[1..][i] == r.value && !passes(r.value) && AllPass(order[1..][..i], passes);
        assert order[..i + 1] == [order[0]] + order[1..][..i];
        r
      else
        assert forall i :: 0 < i < |order| ==> order[i] == order[1..][i - 1];
        r
  }
}
