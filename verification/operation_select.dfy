/**
 Choosing the operation whose attachments the view shows: the first operation
 with the given target and, unless the gateway is Choreo Connect, the given verb
 compared case-insensitively. `lower` stands for the string lower-casing the
 comparison applies to both verbs.
 */
module OperationSelect {
  import opened Seqs
  import opened PolicyTypes

  /** `op` is the operation for `target` and `verb` under the given gateway mode. */
  predicate Fits(op: Operation, target: string, verb: string, choreoConnect: bool, lower: string -> string) {
    op.target == target && (choreoConnect || lower(op.verb) == lower(verb))
  }

  /** The search predicate handed to `find`. */
  function Matcher(target: string, verb: string, choreoConnect: bool, lower: string -> string): Operation -> bool {
    (op: Operation) => Fits(op, target, verb, choreoConnect, lower)
  }

  /**
   The operation in action: the first fitting operation, or `None` when no
   operation fits.
   */
  function SelectOperation(ops: seq<Operation>, target: string, verb: string, choreoConnect: bool,
                           lower: string -> string): (r: Option<Operation>)
    ensures r.Some? ==> r.value in ops && r.value.target == target
    ensures r.Some? && !choreoConnect ==> lower(r.value.verb) == lower(verb)
  {
    Find(ops, Matcher(target, verb, choreoConnect, lower))
  }

  /**
   Selection characterised against the operations: nothing is selected exactly
   when no operation fits, and otherwise the first fitting operation is.
   */
  lemma SelectExact(ops: seq<Operation>, target: string, verb: string, choreoConnect: bool,
                    lower: string -> string)
    ensures var r := SelectOperation(ops, target, verb, choreoConnect, lower);
      && (r.None? <==> forall i :: 0 <= i < |ops| ==> !Fits(ops[i], target, verb, choreoConnect, lower))
      && (forall i :: 0 <= i < |ops| && Fits(ops[i], target, verb, choreoConnect, lower) &&
                      (forall j :: 0 <= j < i ==> !Fits(ops[j], target, verb, choreoConnect, lower)) ==>
            r == Some(ops[i]))
  {
    var m := Matcher(target, verb, choreoConnect, lower);
    assert forall op :: m(op) == Fits(op, target, verb, choreoConnect, lower);
  }

  /** With Choreo Connect on, the verb plays no part in the choice. */
  lemma ChoreoConnectIgnoresVerb(ops: seq<Operation>, target: string, verb1: string, verb2: string,
                                 lower1: string -> string, lower2: string -> string)
    ensures SelectOperation(ops, target, verb1, true, lower1) == SelectOperation(ops, target, verb2, true, lower2)
  {
    FindCongruent(ops, Matcher(target, verb1, true, lower1), Matcher(target, verb2, true, lower2));
  }

  /** Verbs that lower-case alike select the same operation. */
  lemma VerbCaseInsensitive(ops: seq<Operation>, target: string, verb1: string, verb2: string,
                            choreoConnect: bool, lower: string -> string)
    requires lower(verb1) == lower(verb2)
    ensures SelectOperation(ops, target, verb1, choreoConnect, lower) ==
            SelectOperation(ops, target, verb2, choreoConnect, lower)
  {
    FindCongruent(ops, Matcher(target, verb1, choreoConnect, lower), Matcher(target, verb2, choreoConnect, lower));
  }

  /**
   Switching Choreo Connect on never loses the operation: whenever the verb-aware
   search finds one, the target-only search finds one no later in the list.
   */
  lemma ChoreoConnectFindsEarlier(ops: seq<Operation>, target: string, verb: string,
                                  lower: string -> string, i: nat)
    requires i < |ops| && SelectOperation(ops, target, verb, false, lower) == Some(ops[i])
    ensures exists j :: 0 <= j <= i && SelectOperation(ops, target, verb, true, lower) == Some(ops[j])
  {
    var loose := SelectOperation(ops, target, verb, true, lower);
    SelectExact(ops, target, verb, false, lower);
    SelectExact(ops, target, verb, true, lower);
    assert Fits(ops[i], target, verb, true, lower);
    var j := FirstMatch(ops, Matcher(target, verb, true, lower), i);
    assert loose == Some(ops[j]);
  }
}
