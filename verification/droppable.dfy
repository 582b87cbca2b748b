/**
 The droppable-identifier lists: for each flow, the card identifiers of the
 policies that may be dropped on it, in the order of the policy list.
 */
module Droppable {
  import opened Seqs
  import opened PolicyTypes

  /** The prefix of every policy card's drag identifier. */
  const CardPrefix: string := "policyCard-"

  /** The drag identifier of the card of the policy with identifier `id`. */
  function CardId(id: string): (r: string)
    ensures |r| == |CardPrefix| + |id|
    ensures r[..|CardPrefix|] == CardPrefix && r[|CardPrefix|..] == id
  {
    CardPrefix + id
  }

  /** Distinct policies have distinct card identifiers. */
  lemma CardIdInjective(a: string, b: string)
    ensures CardId(a) == CardId(b) <==> a == b
  {
    if CardId(a) == CardId(b) {
      assert a == CardId(a)[|CardPrefix|..];
    }
  }

  /** The card identifier of `p` when `p` may be dropped on `f`. */
  function CardFor(f: Flow): Policy -> Option<string> {
    (p: Policy) => if AppliesTo(p, f) then Some(CardId(p.id)) else None
  }

  /** The droppable-identifier list of flow `f` for the policy list `policies`. */
  function DroppableList(policies: seq<Policy>, f: Flow): (r: seq<string>)
    ensures |r| <= |policies|
  {
    FilterMap(policies, CardFor(f))
  }

  /**
   Exact membership: an identifier is in the list of flow `f` if and only if it
   is the card identifier of some policy applicable to `f`.
   */
  lemma DroppableExact(policies: seq<Policy>, f: Flow, x: string)
    ensures x in DroppableList(policies, f) <==>
            exists i :: 0 <= i < |policies| && AppliesTo(policies[i], f) && x == CardId(policies[i].id)
  {
    FilterMapMembership(policies, CardFor(f), x);
    if exists i :: 0 <= i < |policies| && AppliesTo(policies[i], f) && x == CardId(policies[i].id) {
      var i :| 0 <= i < |policies| && AppliesTo(policies[i], f) && x == CardId(policies[i].id);
      assert CardFor(f)(policies[i]) == Some(x);
    }
  }

  /** The policies applicable to `f`, as increasing positions in `policies`. */
  function ApplicablePositions(policies: seq<Policy>, f: Flow): seq<nat> {
    Kept(policies, CardFor(f))
  }

  /**
   Order: the k-th identifier of the list is the card of the k-th applicable
   policy, the applicable policies are taken in list order, and a position is
   taken exactly when its policy applies to `f`.
   */
  lemma DroppableOrder(policies: seq<Policy>, f: Flow)
    ensures var r, ks := DroppableList(policies, f), ApplicablePositions(policies, f);
      && |ks| == |r|
      && IncreasingIndices(ks, |policies|)
      && (forall k :: 0 <= k < |ks| ==> AppliesTo(policies[ks[k]], f) && r[k] == CardId(policies[ks[k]].id))
      && (forall i :: 0 <= i < |policies| ==> (AppliesTo(policies[i], f) <==> i in ks))
  {
    FilterMapPositions(policies, CardFor(f));
  }

  /** The list of a concatenation is the concatenation of the lists. */
  lemma DroppableAppend(ps: seq<Policy>, qs: seq<Policy>, f: Flow)
    ensures DroppableList(ps + qs, f) == DroppableList(ps, f) + DroppableList(qs, f)
  {
    FilterMapAppend(ps, qs, CardFor(f));
  }

  /** One more policy extends a flow's list by its card exactly when it applies to the flow. */
  lemma DroppableSnoc(ps: seq<Policy>, p: Policy, f: Flow)
    ensures DroppableList(ps + [p], f) ==
            DroppableList(ps, f) + (if AppliesTo(p, f) then [CardId(p.id)] else [])
  {
    FilterMapSnoc(ps, p, CardFor(f));
  }

  /**
   The three flow checks are independent: a policy applicable to several flows
   has its card in the list of every one of them.
   */
  lemma DroppableInEveryApplicableFlow(policies: seq<Policy>, i: nat)
    requires i < |policies|
    ensures forall f: Flow :: AppliesTo(policies[i], f) ==> CardId(policies[i].id) in DroppableList(policies, f)
  {
    forall f: Flow | AppliesTo(policies[i], f)
      ensures CardId(policies[i].id) in DroppableList(policies, f)
    {
      DroppableExact(policies, f, CardId(policies[i].id));
    }
  }

  /**
   The effect body that runs when the policy list changes: one pass over the
   list that pushes a card identifier onto each flow's list the policy applies to.
   The body spells out the flow names and the card template as the source does;
   `DroppableSnoc` relates each push to `AppliesTo` and `CardId`.
   */
  method BuildDroppableLists(policyList: seq<Policy>)
    returns (requestList: seq<string>, responseList: seq<string>, faultList: seq<string>)
    ensures requestList == DroppableList(policyList, Request)
    ensures responseList == DroppableList(policyList, Response)
    ensures faultList == DroppableList(policyList, Fault)
  {
    requestList, responseList, faultList := [], [], [];
    var i := 0;
    while i < |policyList|
      invariant 0 <= i <= |policyList|
      invariant requestList == DroppableList(policyList[..i], Request)
      invariant responseList == DroppableList(policyList[..i], Response)
      invariant faultList == DroppableList(policyList[..i], Fault)
    {
      var policy := policyList[i];
      assert policyList[..i + 1] == policyList[..i] + [policy];
      DroppableSnoc(policyList[..i], policy, Request);
      DroppableSnoc(policyList[..i], policy, Response);
      DroppableSnoc(policyList[..i], policy, Fault);
      if "request" in policy.applicableFlows {
        requestList := requestList + [CardPrefix + policy.id];
      }
      if "response" in policy.applicableFlows {
        responseList := responseList + [CardPrefix + policy.id];
      }
      if "fault" in policy.applicableFlows {
        faultList := faultList + [CardPrefix + policy.id];
      }
      i := i + 1;
    }
    assert policyList[..i] == policyList;
  }
}
