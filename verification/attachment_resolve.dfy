/**
 Resolving a flow's attachment records against the policy catalog: each record
 is looked up by policy identifier first and by policy name second, resolved
 records become catalog entries tagged with the record's instance identifier,
 and unresolved records are skipped without error.
 */
module AttachmentResolve {
  import opened Seqs
  import opened PolicyTypes

  /** `find` predicate: the entry has identifier `id`. */
  function WithId(id: string): PolicySpec -> bool {
    (s: PolicySpec) => s.id == id
  }

  /** `find` predicate: the entry has name `name`. */
  function WithName(name: string): PolicySpec -> bool {
    (s: PolicySpec) => s.name == name
  }

  /**
   The catalog entry an attachment record refers to: the first entry with the
   record's policy identifier or, only when no entry has that identifier, the
   first entry with the record's policy name. An absent catalog resolves nothing.
   */
  function Resolve(catalog: Catalog, a: Attachment): (r: Option<PolicySpec>)
    ensures r.Some? ==> catalog.Some? && r.value in catalog.value
    ensures r.Some? ==> r.value.id == a.policyId || r.value.name == a.policyName
  {
    match catalog
    case None => None
    case Some(c) =>
      match Find(c, WithId(a.policyId))
      case Some(s) => Some(s)
      case None => Find(c, WithName(a.policyName))
  }

  /**
   Resolution characterised against the catalog: nothing resolves against a
   null catalog or when no entry has the record's identifier or name; the
   first entry with the identifier wins; the first entry with the name wins
   only when no entry has the identifier.
   */
  lemma ResolveExact(catalog: Catalog, a: Attachment)
    ensures catalog.None? ==> Resolve(catalog, a).None?
    ensures catalog.Some? ==> var c, r := catalog.value, Resolve(catalog, a);
      && (r.None? <==> forall i :: 0 <= i < |c| ==> c[i].id != a.policyId && c[i].name != a.policyName)
      && (forall i :: 0 <= i < |c| && c[i].id == a.policyId && (forall j :: 0 <= j < i ==> c[j].id != a.policyId) ==>
            r == Some(c[i]))
      && (forall i :: 0 <= i < |c| && c[i].name == a.policyName &&
                      (forall j :: 0 <= j < |c| ==> c[j].id != a.policyId) &&
                      (forall j :: 0 <= j < i ==> c[j].name != a.policyName) ==>
            r == Some(c[i]))
  {
    if catalog.Some? {
      assert forall s :: WithId(a.policyId)(s) == (s.id == a.policyId);
      assert forall s :: WithName(a.policyName)(s) == (s.name == a.policyName);
    }
  }

  /**
   A resolved entry matches its record by identifier, or by name when no entry
   of the catalog has the identifier.
   */
  lemma ResolvePrecedence(c: seq<PolicySpec>, a: Attachment)
    requires Resolve(Some(c), a).Some?
    ensures var s := Resolve(Some(c), a).value;
      || s.id == a.policyId
      || (s.name == a.policyName && forall i :: 0 <= i < |c| ==> c[i].id != a.policyId)
  {
    var s := Resolve(Some(c), a).value;
    ResolveExact(Some(c), a);
    if exists i :: 0 <= i < |c| && c[i].id == a.policyId {
      var i :| 0 <= i < |c| && c[i].id == a.policyId;
      var j := FirstMatch(c, WithId(a.policyId), i);
      assert s == c[j];
    } else {
      var i :| 0 <= i < |c| && c[i] == s;
      var j := FirstMatch(c, WithName(a.policyName), i);
      assert s == c[j];
    }
  }

  /**
   A record whose policy identifier no catalog entry has (an absent `policyId`
   among them) is looked up by name alone: it resolves exactly when some entry
   has its name, and then to the first such entry.
   */
  lemma AbsentIdFallsBack(c: seq<PolicySpec>, a: Attachment)
    requires forall i :: 0 <= i < |c| ==> c[i].id != a.policyId
    ensures Resolve(Some(c), a).None? <==> forall i :: 0 <= i < |c| ==> c[i].name != a.policyName
    ensures forall i :: 0 <= i < |c| && c[i].name == a.policyName &&
                        (forall j :: 0 <= j < i ==> c[j].name != a.policyName) ==>
              Resolve(Some(c), a) == Some(c[i])
  {
    ResolveExact(Some(c), a);
  }

  /** The entry shown for one record: the resolved catalog entry tagged with the record's uuid. */
  function Attach(catalog: Catalog): Attachment -> Option<AttachedPolicy> {
    (a: Attachment) =>
      match Resolve(catalog, a)
      case Some(s) => Some(AttachedPolicy(s, a.uuid))
      case None => None
  }

  /** A shown entry is the record's resolved catalog entry, keyed by the record's uuid. */
  lemma AttachTags(catalog: Catalog, a: Attachment)
    ensures Attach(catalog)(a).Some? <==> Resolve(catalog, a).Some?
    ensures Attach(catalog)(a).Some? ==>
              Attach(catalog)(a).value == AttachedPolicy(Resolve(catalog, a).value, a.uuid)
  {
  }

  /**
   The attached-policy list of a flow: the records that resolve, in record
   order, each as its catalog entry tagged with the record's uuid.
   */
  function ResolveFlow(catalog: Catalog, atts: seq<Attachment>): (r: seq<AttachedPolicy>)
    ensures |r| <= |atts|
    ensures forall e :: e in r ==> catalog.Some? && e.spec in catalog.value
  {
    var list := FilterMap(atts, Attach(catalog));
    CatalogEntriesOnly(catalog, atts);
    list
  }

  /** Every entry the flow list can hold comes from the catalog. */
  lemma CatalogEntriesOnly(catalog: Catalog, atts: seq<Attachment>)
    ensures forall e :: e in FilterMap(atts, Attach(catalog)) ==> catalog.Some? && e.spec in catalog.value
  {
    forall e | e in FilterMap(atts, Attach(catalog))
      ensures catalog.Some? && e.spec in catalog.value
    {
      FilterMapMembership(atts, Attach(catalog), e);
      var i :| 0 <= i < |atts| && Attach(catalog)(atts[i]) == Some(e);
      AttachTags(catalog, atts[i]);
    }
  }

  /**
   No ghost entries: every shown entry is a catalog entry that some record of
   the flow resolves to, carrying that record's uuid as its key.
   */
  lemma ResolveFlowProvenance(catalog: Catalog, atts: seq<Attachment>, e: AttachedPolicy)
    requires e in ResolveFlow(catalog, atts)
    ensures exists i :: 0 <= i < |atts| && Resolve(catalog, atts[i]) == Some(e.spec) && e.uniqueKey == atts[i].uuid
  {
    FilterMapMembership(atts, Attach(catalog), e);
    var i :| 0 <= i < |atts| && Attach(catalog)(atts[i]) == Some(e);
    assert Resolve(catalog, atts[i]) == Some(e.spec);
  }

  /** The records of a flow that resolve, as increasing positions. */
  function ResolvedPositions(catalog: Catalog, atts: seq<Attachment>): seq<nat> {
    Kept(atts, Attach(catalog))
  }

  /**
   Order and keys: the k-th shown entry comes from the k-th resolving record,
   resolving records are taken in order, and a record is shown exactly when it
   resolves.
   */
  lemma ResolveFlowOrder(catalog: Catalog, atts: seq<Attachment>)
    ensures var r, ks := ResolveFlow(catalog, atts), ResolvedPositions(catalog, atts);
      && |ks| == |r|
      && IncreasingIndices(ks, |atts|)
      && (forall k :: 0 <= k < |ks| ==>
            Resolve(catalog, atts[ks[k]]) == Some(r[k].spec) && r[k].uniqueKey == atts[ks[k]].uuid)
      && (forall i :: 0 <= i < |atts| ==> (Resolve(catalog, atts[i]).Some? <==> i in ks))
  {
    var r, ks := ResolveFlow(catalog, atts), ResolvedPositions(catalog, atts);
    FilterMapPositions(atts, Attach(catalog));
    forall k | 0 <= k < |ks|
      ensures Resolve(catalog, atts[ks[k]]) == Some(r[k].spec) && r[k].uniqueKey == atts[ks[k]].uuid
    {
      assert Attach(catalog)(atts[ks[k]]) == Some(r[k]);
    }
    forall i | 0 <= i < |atts|
      ensures Resolve(catalog, atts[i]).Some? <==> i in ks
    {
      assert Attach(catalog)(atts[i]).Some? <==> Resolve(catalog, atts[i]).Some?;
    }
  }

  /** The list of a concatenation of records is the concatenation of the lists. */
  lemma ResolveFlowAppend(catalog: Catalog, xs: seq<Attachment>, ys: seq<Attachment>)
    ensures ResolveFlow(catalog, xs + ys) == ResolveFlow(catalog, xs) + ResolveFlow(catalog, ys)
  {
    FilterMapAppend(xs, ys, Attach(catalog));
  }

  /** One more record extends the list by its tagged entry when it resolves, and by nothing otherwise. */
  lemma ResolveFlowSnoc(catalog: Catalog, atts: seq<Attachment>, a: Attachment)
    ensures Resolve(catalog, a).Some? ==>
              ResolveFlow(catalog, atts + [a]) == ResolveFlow(catalog, atts) + [AttachedPolicy(Resolve(catalog, a).value, a.uuid)]
    ensures Resolve(catalog, a).None? ==> ResolveFlow(catalog, atts + [a]) == ResolveFlow(catalog, atts)
  {
    FilterMapSnoc(atts, a, Attach(catalog));
    AttachTags(catalog, a);
  }

  /** An unresolvable record is skipped: removing it changes nothing. */
  lemma UnresolvedSkipped(catalog: Catalog, xs: seq<Attachment>, a: Attachment, ys: seq<Attachment>)
    requires Resolve(catalog, a).None?
    ensures ResolveFlow(catalog, xs + [a] + ys) == ResolveFlow(catalog, xs + ys)
  {
    ResolveFlowAppend(catalog, xs + [a], ys);
    ResolveFlowSnoc(catalog, xs, a);
    ResolveFlowAppend(catalog, xs, ys);
  }

  /** With no catalog, every flow list is empty. */
  lemma NullCatalogEmpty(atts: seq<Attachment>)
    ensures ResolveFlow(None, atts) == []
  {
    FilterMapNothing(atts, Attach(None));
  }

  /** When every record resolves, the k-th entry carries the k-th record's uuid. */
  lemma AllResolvedKeys(catalog: Catalog, atts: seq<Attachment>)
    requires forall i :: 0 <= i < |atts| ==> Resolve(catalog, atts[i]).Some?
    ensures |ResolveFlow(catalog, atts)| == |atts|
    ensures forall k :: 0 <= k < |atts| ==>
              ResolveFlow(catalog, atts)[k] == AttachedPolicy(Resolve(catalog, atts[k]).value, atts[k].uuid)
  {
    FilterMapTotal(atts, Attach(catalog));
  }

  /**
   The per-flow effect body: walk the records, look each up by identifier then
   by name, and push the tagged entry when the lookup found one.
   */
  method ResolveFlowList(allPolicies: Catalog, flow: seq<Attachment>) returns (list: seq<AttachedPolicy>)
    ensures list == ResolveFlow(allPolicies, flow)
  {
    list := [];
    var i := 0;
    while i < |flow|
      invariant 0 <= i <= |flow|
      invariant list == ResolveFlow(allPolicies, flow[..i])
    {
      var a := flow[i];
      assert flow[..i + 1] == flow[..i] + [a];
      ResolveFlowSnoc(allPolicies, flow[..i], a);
      var policyObj := Resolve(allPolicies, a);
      if policyObj.Some? {
        list := list + [AttachedPolicy(policyObj.value, a.uuid)];
      }
      i := i + 1;
    }
    assert flow[..i] == flow;
  }
}
