# Policy attachment projection of the API publisher's policies view

This project models the derived state of `PoliciesExpansion`, the panel of the
API publisher portal where governance policies are attached to an API
operation. The panel shows up to three flows: request, response and fault. The fault
flow is hidden under Choreo Connect. For each
flow it keeps two lists:

- the **attached-policy list**: the catalog entries that the selected
  operation's attachment records on that flow refer to, each tagged with the
  record's instance identifier as `uniqueKey`;
- the **droppable-identifier list**: `policyCard-<id>` for every policy in the
  policy list whose `applicableFlows` names that flow.

The panel recomputes these lists in React effects. Here each effect is a pure
function from the component's inputs and its current state to its next state.
A list the effect does not set keeps its previous value.

Modules:

- `Seqs`: `Option` (the model of `null`/`undefined`), `Find` (the semantics
  of `Array.prototype.find`) and `FilterMap` (the "push the mapped element when
  there is one" loop). Their order and membership lemmas are proved once here.
- `PolicyTypes`: flows, policies, catalog entries, attachment records,
  operations, and attached-policy entries.
- `Droppable`: the droppable-identifier lists, and the single-pass loop that
  builds all three.
- `OperationSelect`: choosing the operation in action. The selected operation
  is the first whose target matches and, unless Choreo Connect is on, whose
  verb matches after lower-casing. Under Choreo Connect the verb is ignored. String lower-casing is
  the parameter `lower`, an arbitrary total function on strings applied to
  both verbs.
- `AttachmentResolve`: looking up a record by identifier, then by name, and
  building a flow's attached-policy list.
- `Expansion`: the six-list view state, the effects, and their
  frame/commutation properties.
- `Scenarios`: two concrete instances of the operations effect, one resolved by
  identifier and one unresolvable.

The effects' dependency arrays decide what is recomputed when:

- The droppable lists are rebuilt when `policyList` changes (dependency
  array, line 141).
- The attached lists are rebuilt when `apiOperations` changes (line 195).
  That effect reads the catalog, target, verb and gateway mode as they are at
  that moment.
- A change of the catalog alone recomputes nothing, so the model has no
  catalog-changed trigger.

## Model

| member | source | states |
|---|---|---|
| Seqs.Find | portals/publisher/source/src/app/components/Apis/Details/Policies/PoliciesExpansion.tsx:159-160 | `find` yields nothing exactly when no element satisfies the predicate, and otherwise yields the element at the least index that does |
| Droppable.CardId | portals/publisher/source/src/app/components/Apis/Details/Policies/PoliciesExpansion.tsx:129 | a card identifier is the prefix `policyCard-` followed by the policy identifier, unchanged |
| Droppable.CardIdInjective | portals/publisher/source/src/app/components/Apis/Details/Policies/PoliciesExpansion.tsx:129 | two policies have the same card identifier if and only if they have the same identifier |
| Droppable.DroppableList | portals/publisher/source/src/app/components/Apis/Details/Policies/PoliciesExpansion.tsx:127-137 | a flow's droppable list is never longer than the policy list |
| Droppable.DroppableExact | portals/publisher/source/src/app/components/Apis/Details/Policies/PoliciesExpansion.tsx:127-137 | an identifier is in flow F's list if and only if it is `policyCard-` plus the id of some policy whose applicable flows name F; nothing else is in it |
| Droppable.DroppableOrder | portals/publisher/source/src/app/components/Apis/Details/Policies/PoliciesExpansion.tsx:127-137 | the k-th identifier is the card of the k-th applicable policy, the applicable policies are taken in list order, and a policy is taken exactly when it applies to F |
| Droppable.DroppableAppend | portals/publisher/source/src/app/components/Apis/Details/Policies/PoliciesExpansion.tsx:127-137 | the list for a concatenated policy list is the concatenation of the two lists, so relative order is kept |
| Droppable.DroppableSnoc | portals/publisher/source/src/app/components/Apis/Details/Policies/PoliciesExpansion.tsx:128-130 | one more policy extends flow F's list by `policyCard-` plus its id exactly when its applicable flows name F, and by nothing otherwise |
| Droppable.DroppableInEveryApplicableFlow | portals/publisher/source/src/app/components/Apis/Details/Policies/PoliciesExpansion.tsx:128-136 | the three flow checks are independent: a policy applicable to several flows has its card in each of those flows' lists |
| Droppable.BuildDroppableLists | portals/publisher/source/src/app/components/Apis/Details/Policies/PoliciesExpansion.tsx:123-140 | one pass over the policy list builds, for each of the three flows, exactly the droppable list characterised above |
| OperationSelect.SelectOperation | portals/publisher/source/src/app/components/Apis/Details/Policies/PoliciesExpansion.tsx:145-152 | a selected operation is one of the operations, has the requested target and, with Choreo Connect off, a verb that lower-cases like the requested one |
| OperationSelect.SelectExact | portals/publisher/source/src/app/components/Apis/Details/Policies/PoliciesExpansion.tsx:145-152 | none is selected exactly when no operation fits (target equal, and verb equal after lower-casing unless Choreo Connect is on); otherwise the first fitting operation is selected |
| OperationSelect.ChoreoConnectIgnoresVerb | portals/publisher/source/src/app/components/Apis/Details/Policies/PoliciesExpansion.tsx:149-151 | with Choreo Connect on, the selection is the same whatever the verb and whatever the lower-casing function |
| OperationSelect.VerbCaseInsensitive | portals/publisher/source/src/app/components/Apis/Details/Policies/PoliciesExpansion.tsx:147-148 | two verbs that lower-case alike select the same operation |
| OperationSelect.ChoreoConnectFindsEarlier | portals/publisher/source/src/app/components/Apis/Details/Policies/PoliciesExpansion.tsx:145-152 | whenever the verb-aware search selects an operation, the target-only search selects one at the same or an earlier position |
| AttachmentResolve.Resolve | portals/publisher/source/src/app/components/Apis/Details/Policies/PoliciesExpansion.tsx:158-161 | a resolved entry is an entry of the non-null catalog whose id is the record's policy id or whose name is the record's policy name |
| AttachmentResolve.ResolveExact | portals/publisher/source/src/app/components/Apis/Details/Policies/PoliciesExpansion.tsx:158-161 | a record resolves to the first catalog entry with its policy id. Only when no entry has that id does it resolve to the first entry with its policy name. It resolves to nothing exactly when the catalog is null or no entry has the id or the name |
| AttachmentResolve.ResolvePrecedence | portals/publisher/source/src/app/components/Apis/Details/Policies/PoliciesExpansion.tsx:159-160 | a resolved entry either has the record's id, or has the record's name and the catalog holds no entry with the record's id |
| AttachmentResolve.AbsentIdFallsBack | portals/publisher/source/src/app/components/Apis/Details/Policies/PoliciesExpansion.tsx:158-160 | a record whose policy id no catalog entry has (as with an absent `policyId`) resolves exactly when some entry has its name, and then to the first entry with that name |
| AttachmentResolve.ResolveFlow | portals/publisher/source/src/app/components/Apis/Details/Policies/PoliciesExpansion.tsx:155-164 | a flow's attached list is no longer than its records, and every entry of it is an entry of the (non-null) catalog: no ghost entries |
| AttachmentResolve.ResolveFlowProvenance | portals/publisher/source/src/app/components/Apis/Details/Policies/PoliciesExpansion.tsx:157-164 | every attached entry is what some record of the flow resolves to, and its `uniqueKey` is that record's uuid |
| AttachmentResolve.ResolveFlowOrder | portals/publisher/source/src/app/components/Apis/Details/Policies/PoliciesExpansion.tsx:155-164 | the k-th attached entry comes from the k-th resolving record: it is the catalog entry that record resolves to, with `uniqueKey` set to that record's uuid. Resolving records are kept in record order, and a record is kept exactly when it resolves |
| AttachmentResolve.ResolveFlowAppend | portals/publisher/source/src/app/components/Apis/Details/Policies/PoliciesExpansion.tsx:157-164 | the attached list of concatenated records is the concatenation of the attached lists |
| AttachmentResolve.ResolveFlowSnoc | portals/publisher/source/src/app/components/Apis/Details/Policies/PoliciesExpansion.tsx:159-163 | one more record extends the attached list by its resolved entry keyed by its uuid when it resolves, and leaves the list unchanged otherwise |
| AttachmentResolve.UnresolvedSkipped | portals/publisher/source/src/app/components/Apis/Details/Policies/PoliciesExpansion.tsx:159-163 | an unresolvable record is dropped silently: inserting it anywhere leaves the attached list unchanged |
| AttachmentResolve.NullCatalogEmpty | portals/publisher/source/src/app/components/Apis/Details/Policies/PoliciesExpansion.tsx:159-161 | with a null catalog the attached list is empty, whatever the records |
| AttachmentResolve.AllResolvedKeys | portals/publisher/source/src/app/components/Apis/Details/Policies/PoliciesExpansion.tsx:157-164 | when every record resolves, the attached list has one entry per record, and the k-th entry is the k-th record's entry keyed by its uuid |
| AttachmentResolve.ResolveFlowList | portals/publisher/source/src/app/components/Apis/Details/Policies/PoliciesExpansion.tsx:155-165 | the record-by-record loop (id lookup, name fallback, push when found) builds exactly the attached list characterised above |
| Expansion.OnPolicyListChange | portals/publisher/source/src/app/components/Apis/Details/Policies/PoliciesExpansion.tsx:123-141 | the policy-list effect replaces the three droppable lists, each no longer than the policy list, and leaves all attached lists unchanged |
| Expansion.OnOperationsChange | portals/publisher/source/src/app/components/Apis/Details/Policies/PoliciesExpansion.tsx:143-195 | the operations effect needs a selectable operation. It recomputes the attached list of every flow the gateway mode shows from that operation's records, keeps the fault list under Choreo Connect, and leaves the droppable lists unchanged |
| Expansion.Step | portals/publisher/source/src/app/components/Apis/Details/Policies/PoliciesExpansion.tsx:123-202 | the gateway-changed effect changes nothing. Only the policy-list effect touches droppable lists and only the operations effect touches attached lists. Under Choreo Connect no effect changes the fault list |
| Expansion.OperationsChangeNoGhosts | portals/publisher/source/src/app/components/Apis/Details/Policies/PoliciesExpansion.tsx:154-193 | after the operations effect, every entry of a shown flow is a catalog entry that one of the selected operation's records on that flow resolves to, keyed by that record's uuid |
| Expansion.NullCatalogEmptiesShownFlows | portals/publisher/source/src/app/components/Apis/Details/Policies/PoliciesExpansion.tsx:154-193 | with a null catalog the operations effect empties every flow the gateway mode shows |
| Expansion.EffectsCommute | portals/publisher/source/src/app/components/Apis/Details/Policies/PoliciesExpansion.tsx:123-195 | the policy-list effect and the operations effect write disjoint lists, so running them in either order gives the same state |
| Expansion.EffectsIdempotent | portals/publisher/source/src/app/components/Apis/Details/Policies/PoliciesExpansion.tsx:123-195 | re-running either effect on unchanged inputs leaves the state as the first run left it |
| Expansion.Mount | portals/publisher/source/src/app/components/Apis/Details/Policies/PoliciesExpansion.tsx:111-202 | after the first render's effects, each droppable list matches the policy list. Each flow the gateway mode shows holds the attached list resolved from the selected operation's records on that flow. Under Choreo Connect the fault list is still the initial empty list |
| Scenarios.ResolvedByIdScenario | portals/publisher/source/src/app/components/Apis/Details/Policies/PoliciesExpansion.tsx:154-193 | for any lower-casing function, a `GET /pets` operation whose request record names catalog policy `p1` yields a request list of `p1` keyed `u1`, and empty response and fault lists |
| Scenarios.MissingPolicyScenario | portals/publisher/source/src/app/components/Apis/Details/Policies/PoliciesExpansion.tsx:157-164 | a request record whose id and name match no catalog entry yields an empty request list, with no error |

## Left out

- Styling (`getStyles`, `makeStyles`, `Utils.hexToRGBA`, lines 41-106): cosmetic. It depends on a theme object and a helper that are not part of this model.
- Rendering (JSX, `PolicyDropzone`, `FlowArrow`, `FormattedMessage`, lines 205-273): user interface and translations. The child components are not part of this model. This includes the setters handed to the drop zones, through which children may rewrite the attached lists.
- React scheduling (`useState`, `useEffect`, `useContext`): effects are modelled as the pure functions `OnPolicyListChange`, `OnOperationsChange` and `Step`. The first render is the sequence `Mount`. The operation collection, which the source reads from a context, is an explicit argument.
- The shapes of `Policy`, `PolicySpec` and `AttachedPolicy` from `./Types`: `./Types` is not part of this model. A catalog entry is its `id`, `name`, `applicableFlows` and an opaque `details` map. The object spread is modelled as the entry plus `uniqueKey`.
- `toLowerCase`: Unicode case mapping is not modelled. The lower-casing is the parameter `lower`, applied to both verbs, so every selection property holds for any lower-casing function.
- Expansion.OnOperationsChange: when no operation fits, the source fails with a runtime error when it reads `operationPolicies`. The model makes an existing match a precondition instead of modelling the crash; `Expansion.Mount`, `Expansion.OperationsChangeNoGhosts` and the other lemmas about this effect carry the same precondition.
- Inputs that raise runtime errors in the source are not expressible in the typed model: a missing `operationPolicies`; a missing or non-array flow list on the selected operation (the fault list only when Choreo Connect is off); a `null` attachment record; and, with Choreo Connect off, an undefined `verb` on an operation whose target matches (the `&&` at line 148 short-circuits for other targets). Missing fields on a record raise nothing. A missing `policyId` matches no entry, so the record is looked up by name alone (`AbsentIdFallsBack`, with an id no catalog entry has). A missing `uuid` gives `uniqueKey: undefined`, and a missing `target` makes `===` false. The model represents these fields as strings.
- `target` is typed `any` in the source and compared with `===`. The model uses strings.
- The gateway-changed effect (lines 197-202) has an empty body. Its commented-out reset of the attached lists is not modelled, and `Step` proves the effect changes nothing.
