/**
 The policy-attachment view's derived state and the effects that recompute it.
 Each effect is a pure function from the component's inputs and its current
 state to its next state; a list the effect does not set keeps its value.
 */
module Expansion {
  import opened Seqs
  import opened PolicyTypes
  import opened Droppable
  import opened OperationSelect
  import opened AttachmentResolve

  /** The component's inputs that the effects read. */
  datatype Props = Props(
    target: string,
    verb: string,
    allPolicies: Catalog,
    isChoreoConnectEnabled: bool)

  /** The six derived lists: attached policies and droppable card identifiers per flow. */
  datatype ViewState = ViewState(
    requestFlowPolicyList: seq<AttachedPolicy>,
    responseFlowPolicyList: seq<AttachedPolicy>,
    faultFlowPolicyList: seq<AttachedPolicy>,
    requestFlowDroppablePolicyList: seq<string>,
    responseFlowDroppablePolicyList: seq<string>,
    faultFlowDroppablePolicyList: seq<string>)

  /** The state before any effect has run: every list empty. */
  function InitialState(): ViewState {
    ViewState([], [], [], [], [], [])
  }

  /** The attached-policy list a state holds for flow `f`. */
  function AttachedOf(st: ViewState, f: Flow): seq<AttachedPolicy> {
    match f
    case Request => st.requestFlowPolicyList
    case Response => st.responseFlowPolicyList
    case Fault => st.faultFlowPolicyList
  }

  /** The droppable-identifier list a state holds for flow `f`. */
  function DroppableOf(st: ViewState, f: Flow): seq<string> {
    match f
    case Request => st.requestFlowDroppablePolicyList
    case Response => st.responseFlowDroppablePolicyList
    case Fault => st.faultFlowDroppablePolicyList
  }

  /** Whether the gateway mode shows flow `f`: the fault flow is absent under Choreo Connect. */
  predicate FlowShown(props: Props, f: Flow) {
    f != Fault || !props.isChoreoConnectEnabled
  }

  /**
   The effect run when the policy list changes: every droppable list is
   rebuilt from the policy list, and the attached lists are untouched.
   */
  function OnPolicyListChange(st: ViewState, policyList: seq<Policy>): (st': ViewState)
    ensures forall f :: AttachedOf(st', f) == AttachedOf(st, f)
    ensures forall f :: DroppableOf(st', f) == DroppableList(policyList, f)
    ensures forall f :: |DroppableOf(st', f)| <= |policyList|
  {
    st.(requestFlowDroppablePolicyList := DroppableList(policyList, Request),
        responseFlowDroppablePolicyList := DroppableList(policyList, Response),
        faultFlowDroppablePolicyList := DroppableList(policyList, Fault))
  }

  /** The operation the operations effect acts on, if the operations hold one. */
  function OperationInAction(props: Props, lower: string -> string, apiOperations: seq<Operation>): Option<Operation> {
    SelectOperation(apiOperations, props.target, props.verb, props.isChoreoConnectEnabled, lower)
  }

  /**
   The effect run when the operation collection changes: the attached list of
   every flow the gateway mode shows is recomputed from the selected operation's
   records, the fault list is left as it was under Choreo Connect, and the
   droppable lists are untouched. The source reads the selected operation's
   records unguarded, so an operation must be selectable.
   */
  function OnOperationsChange(props: Props, lower: string -> string, st: ViewState,
                              apiOperations: seq<Operation>): (st': ViewState)
    requires OperationInAction(props, lower, apiOperations).Some?
    ensures forall f :: DroppableOf(st', f) == DroppableOf(st, f)
    ensures forall f :: FlowShown(props, f) ==>
              AttachedOf(st', f) ==
              ResolveFlow(props.allPolicies, AttachmentsOf(OperationInAction(props, lower, apiOperations).value, f))
    ensures forall f :: !FlowShown(props, f) ==> AttachedOf(st', f) == AttachedOf(st, f)
  {
    var op := OperationInAction(props, lower, apiOperations).value;
    ViewState(
      ResolveFlow(props.allPolicies, op.operationPolicies.request),
      ResolveFlow(props.allPolicies, op.operationPolicies.response),
      if props.isChoreoConnectEnabled then st.faultFlowPolicyList
      else ResolveFlow(props.allPolicies, op.operationPolicies.fault),
      st.requestFlowDroppablePolicyList,
      st.responseFlowDroppablePolicyList,
      st.faultFlowDroppablePolicyList)
  }

  /** A change of one of the inputs an effect depends on. */
  datatype Trigger =
    | PolicyListChanged(policyList: seq<Policy>)
    | OperationsChanged(apiOperations: seq<Operation>)
    | GatewayChanged

  /** The state after the effect `t` triggers has run. */
  function Step(props: Props, lower: string -> string, st: ViewState, t: Trigger): (st': ViewState)
    requires t.OperationsChanged? ==> OperationInAction(props, lower, t.apiOperations).Some?
    ensures t.GatewayChanged? ==> st' == st
    ensures !t.PolicyListChanged? ==> forall f :: DroppableOf(st', f) == DroppableOf(st, f)
    ensures !t.OperationsChanged? ==> forall f :: AttachedOf(st', f) == AttachedOf(st, f)
    ensures props.isChoreoConnectEnabled ==> st'.faultFlowPolicyList == st.faultFlowPolicyList
  {
    match t
    case PolicyListChanged(policyList) => OnPolicyListChange(st, policyList)
    case OperationsChanged(apiOperations) => OnOperationsChange(props, lower, st, apiOperations)
    case GatewayChanged => st
  }

  /**
   No ghost entries survive a change of the operations: every entry of a shown
   flow afterwards is a catalog entry that one of the selected operation's
   records on that flow resolves to, keyed by that record's uuid.
   */
  lemma OperationsChangeNoGhosts(props: Props, lower: string -> string, st: ViewState,
                                 apiOperations: seq<Operation>, f: Flow, e: AttachedPolicy)
    requires OperationInAction(props, lower, apiOperations).Some?
    requires FlowShown(props, f)
    requires e in AttachedOf(OnOperationsChange(props, lower, st, apiOperations), f)
    ensures props.allPolicies.Some? && e.spec in props.allPolicies.value
    ensures var atts := AttachmentsOf(OperationInAction(props, lower, apiOperations).value, f);
      exists i :: 0 <= i < |atts| && Resolve(props.allPolicies, atts[i]) == Some(e.spec) && e.uniqueKey == atts[i].uuid
  {
    var atts := AttachmentsOf(OperationInAction(props, lower, apiOperations).value, f);
    ResolveFlowProvenance(props.allPolicies, atts, e);
  }

  /** With no catalog, a change of the operations empties every shown flow. */
  lemma NullCatalogEmptiesShownFlows(props: Props, lower: string -> string, st: ViewState,
                                     apiOperations: seq<Operation>)
    requires props.allPolicies.None?
    requires OperationInAction(props, lower, apiOperations).Some?
    ensures forall f :: FlowShown(props, f) ==> AttachedOf(OnOperationsChange(props, lower, st, apiOperations), f) == []
  {
    var op := OperationInAction(props, lower, apiOperations).value;
    forall f | FlowShown(props, f)
      ensures AttachedOf(OnOperationsChange(props, lower, st, apiOperations), f) == []
    {
      NullCatalogEmpty(AttachmentsOf(op, f));
    }
  }

  /**
   The two recomputing effects write disjoint lists, so running them in either
   order gives the same state.
   */
  lemma EffectsCommute(props: Props, lower: string -> string, st: ViewState,
                       policyList: seq<Policy>, apiOperations: seq<Operation>)
    requires OperationInAction(props, lower, apiOperations).Some?
    ensures OnPolicyListChange(OnOperationsChange(props, lower, st, apiOperations), policyList) ==
            OnOperationsChange(props, lower, OnPolicyListChange(st, policyList), apiOperations)
  {
  }

  /** Re-running an effect on unchanged inputs changes nothing more. */
  lemma EffectsIdempotent(props: Props, lower: string -> string, st: ViewState,
                          policyList: seq<Policy>, apiOperations: seq<Operation>)
    requires OperationInAction(props, lower, apiOperations).Some?
    ensures var st1 := OnOperationsChange(props, lower, st, apiOperations);
      OnOperationsChange(props, lower, st1, apiOperations) == st1
    ensures var st2 := OnPolicyListChange(st, policyList);
      OnPolicyListChange(st2, policyList) == st2
  {
  }

  /**
   The first render runs the three effects in declaration order: droppable
   lists, attached lists, and the no-op gateway effect. Every shown flow then
   holds the selected operation's resolved records; a hidden fault flow stays empty.
   */
  function Mount(props: Props, lower: string -> string, policyList: seq<Policy>,
                 apiOperations: seq<Operation>): (st: ViewState)
    requires OperationInAction(props, lower, apiOperations).Some?
    ensures props.isChoreoConnectEnabled ==> st.faultFlowPolicyList == []
    ensures forall f :: DroppableOf(st, f) == DroppableList(policyList, f)
    ensures forall f :: FlowShown(props, f) ==>
              AttachedOf(st, f) ==
              ResolveFlow(props.allPolicies, AttachmentsOf(OperationInAction(props, lower, apiOperations).value, f))
  {
    var st1 := Step(props, lower, InitialState(), PolicyListChanged(policyList));
    var st2 := Step(props, lower, st1, OperationsChanged(apiOperations));
    Step(props, lower, st2, GatewayChanged)
  }
}
