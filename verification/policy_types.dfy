/**
 The entities the policy-attachment view works on: the flows of an API call,
 the policies offered for dragging, the policy catalog, the attachment records
 an operation carries per flow, and the attached-policy entries shown per flow.
 */
module PolicyTypes {
  import opened Seqs

  /** A phase of an API call through which policies run. */
  datatype Flow = Request | Response | Fault

  /** The name a flow goes by in a policy's `applicableFlows` list. */
  function FlowName(f: Flow): string {
    match f
    case Request => "request"
    case Response => "response"
    case Fault => "fault"
  }

  /** An entry of the list of policies offered for dragging onto the flows. */
  datatype Policy = Policy(id: string, applicableFlows: seq<string>)

  /** A policy may be dropped on flow `f` when `f`'s name is among its applicable flows. */
  predicate AppliesTo(p: Policy, f: Flow) {
    FlowName(f) in p.applicableFlows
  }

  /**
   An entry of the policy catalog. Only `id` and `name` take part in the
   projection; every other field of the catalog entry travels in `details`.
   */
  datatype PolicySpec = PolicySpec(
    id: string,
    name: string,
    applicableFlows: seq<string>,
    details: map<string, string>)

  /** The catalog may be absent (`null`) while it is still being fetched. */
  type Catalog = Option<seq<PolicySpec>>

  /** One policy attached to one flow of an operation. */
  datatype Attachment = Attachment(policyId: string, policyName: string, uuid: string)

  /** The attachment records of an operation, one ordered list per flow. */
  datatype OperationPolicies = OperationPolicies(
    request: seq<Attachment>,
    response: seq<Attachment>,
    fault: seq<Attachment>)

  /** An API operation: a resource path, an HTTP verb and its attachments. */
  datatype Operation = Operation(target: string, verb: string, operationPolicies: OperationPolicies)

  /** The attachment records of `op` on flow `f`. */
  function AttachmentsOf(op: Operation, f: Flow): seq<Attachment> {
    match f
    case Request => op.operationPolicies.request
    case Response => op.operationPolicies.response
    case Fault => op.operationPolicies.fault
  }

  /**
   A catalog entry as shown on a flow: a copy of the entry tagged with the
   attachment's instance identifier as `uniqueKey`.
   */
  datatype AttachedPolicy = AttachedPolicy(spec: PolicySpec, uniqueKey: string)
}
