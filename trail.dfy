/**
 * The breadcrumb trail: the nodes entered in the current family session, in
 * order, each optionally annotated with the label of the option chosen from it.
 */
module Trail {
  import opened Options

  datatype Step = Step(nodeId: string, chosen: Option<string>)

  /** No two consecutive steps are at the same node. */
  predicate NoRepeats(t: seq<Step>) {
    forall i :: 0 < i < |t| ==> t[i - 1].nodeId != t[i].nodeId
  }

  /** Every step is at a node of the table. */
  predicate Within<V>(t: seq<Step>, table: map<string, V>) {
    forall i :: 0 <= i < |t| ==> t[i].nodeId in table
  }

  /** Every step has a non-empty node id. */
  predicate NamedSteps(t: seq<Step>) {
    forall i :: 0 <= i < |t| ==> t[i].nodeId != ""
  }

  /** `pushToTrail`: append the step unless the last step is already at that node. */
  function Pushed(t: seq<Step>, step: Step): (r: seq<Step>)
    ensures t <= r && 0 < |r| <= |t| + 1
    ensures r[|r| - 1].nodeId == step.nodeId
    ensures r == t <==> (t != [] && t[|t| - 1].nodeId == step.nodeId)
    ensures r != t ==> r[|t|] == step
  {
    if t != [] && t[|t| - 1].nodeId == step.nodeId then t else t + [step]
  }

  /** Pushing keeps the trail free of consecutive repeats, inside the table and with named steps. */
  lemma PushedKeepsInvariants<V>(t: seq<Step>, step: Step, table: map<string, V>)
    requires NoRepeats(t) && Within(t, table) && NamedSteps(t)
    requires step.nodeId in table && step.nodeId != ""
    ensures var r := Pushed(t, step); NoRepeats(r) && Within(r, table) && NamedSteps(r)
  {
  }

  /** Entering the node just entered again changes nothing. */
  lemma PushedIdempotent(t: seq<Step>, step: Step, other: Option<string>)
    ensures Pushed(Pushed(t, step), Step(step.nodeId, other)) == Pushed(t, step)
  {
  }

  /** `handleOption`'s annotation: the last step records the chosen label, nothing else changes. */
  function Annotated(t: seq<Step>, text: string): (r: seq<Step>)
    ensures |r| == |t|
    ensures forall i :: 0 <= i < |t| - 1 ==> r[i] == t[i]
    ensures t != [] ==> r[|t| - 1] == t[|t| - 1].(chosen := Some(text))
  {
    if t == [] then [] else t[..|t| - 1] + [t[|t| - 1].(chosen := Some(text))]
  }

  /** Annotating keeps every node id, so it keeps the trail invariants. */
  lemma AnnotatedKeepsInvariants<V>(t: seq<Step>, text: string, table: map<string, V>)
    requires NoRepeats(t) && Within(t, table) && NamedSteps(t)
    ensures var r := Annotated(t, text); NoRepeats(r) && Within(r, table) && NamedSteps(r)
  {
    var r := Annotated(t, text);
    assert forall i :: 0 <= i < |t| ==> r[i].nodeId == t[i].nodeId;
  }

  /**
   * A breadcrumb click at `idx`: cut the trail to its first `idx` steps and
   * enter that step's node again. On a trail without consecutive repeats this
   * keeps the prefix, ends at that node with no chosen label, and has length `idx + 1`.
   */
  lemma BacktrackShape(t: seq<Step>, idx: nat)
    requires NoRepeats(t) && idx < |t|
    ensures var r := Pushed(t[..idx], Step(t[idx].nodeId, None));
      r == t[..idx] + [Step(t[idx].nodeId, None)] && |r| == idx + 1
  {
    if idx > 0 {
      assert t[..idx][idx - 1] == t[idx - 1];
    }
  }
}
