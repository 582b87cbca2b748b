/**
 Two concrete instances of the operations effect: a rate-limit policy attached to
 the request flow by identifier, and a record naming a policy the catalog
 does not hold.
 */
module Scenarios {
  import opened Seqs
  import opened PolicyTypes
  import opened OperationSelect
  import opened AttachmentResolve
  import opened Expansion

  const RateLimit: PolicySpec := PolicySpec("p1", "RateLimit", ["request"], map[])

  /** One `GET /pets` operation whose request flow carries the given records. */
  function PetsOperation(request: seq<Attachment>): Operation {
    Operation("/pets", "GET", OperationPolicies(request, [], []))
  }

  /** The props of the `GET /pets` view with a one-entry catalog, Choreo Connect off. */
  const PetsProps: Props := Props("/pets", "GET", Some([RateLimit]), false)

  /** The request list holds exactly the catalog entry keyed by the record's uuid. */
  lemma ResolvedByIdScenario(lower: string -> string)
    ensures var st := OnOperationsChange(PetsProps, lower, InitialState(),
                                         [PetsOperation([Attachment("p1", "RateLimit", "u1")])]);
      && st.requestFlowPolicyList == [AttachedPolicy(RateLimit, "u1")]
      && st.responseFlowPolicyList == []
      && st.faultFlowPolicyList == []
  {
    var ops := [PetsOperation([Attachment("p1", "RateLimit", "u1")])];
    assert Fits(ops[0], "/pets", "GET", false, lower);
    var atts := [Attachment("p1", "RateLimit", "u1")];
    assert Resolve(Some([RateLimit]), atts[0]) == Some(RateLimit);
    AllResolvedKeys(Some([RateLimit]), atts);
  }

  /** A record whose identifier and name are both unknown is left out. */
  lemma MissingPolicyScenario(lower: string -> string)
    ensures var st := OnOperationsChange(PetsProps, lower, InitialState(),
                                         [PetsOperation([Attachment("missing", "Nope", "u2")])]);
      st.requestFlowPolicyList == []
  {
    var ops := [PetsOperation([Attachment("missing", "Nope", "u2")])];
    assert Fits(ops[0], "/pets", "GET", false, lower);
    var atts := [Attachment("missing", "Nope", "u2")];
    assert Resolve(Some([RateLimit]), atts[0]).None?;
    UnresolvedSkipped(Some([RateLimit]), [], atts[0], []);
  }
}
