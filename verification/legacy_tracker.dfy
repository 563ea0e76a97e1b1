/** The older tracking model (`DcaPlotterTrackingModel`): the live state is a
    plain list of input numbers per DCA, `calculate_diff` compares add/remove
    lists against it without names, and `call_cue` appends and removes. */
module LegacyTracker {
  import opened Wrappers
  import opened Primitives
  import opened Actions
  import opened Tracker
  import opened TrackerProofs

  /** `current_active`: the inputs assigned to each DCA, in assignment order. */
  type Active = seq<seq<int>>

  /** One DCA's part of the diff: its assigns, then its unassigns. */
  function LegacyDca(d: nat, a: AddRem, cur: seq<int>): (r: seq<Action>)
    ensures OnlyMembership(r, d)
  {
    AssignsFor(d, a.add, cur) + UnassignsFor(d, a.rem, cur)
  }

  /** What DCA `k` contributes; the DCA of each action is the position of its
      element in `new_assigns`. */
  function LegacyParts(na: seq<AddRem>, active: Active): nat -> seq<Action> {
    (k: nat) => if k < |na| && k < |active| then LegacyDca(k, na[k], active[k]) else []
  }

  /** Actions (before mutes) of the older `calculate_diff`, for the DCAs that
      have a live list. */
  function LegacyActions(na: seq<AddRem>, active: Active): seq<Action> {
    PerDca(LegacyParts(na, active), 0, |na|)
  }

  /** Some element of `new_assigns` past the end of `current_active` lists an
      input to add or remove: indexing its live list raises `IndexError`. */
  predicate LegacyOverruns(na: seq<AddRem>, active: Active) {
    exists d :: |active| <= d < |na| && (na[d].add != [] || na[d].rem != [])
  }

  /** `calculate_diff` of the older model: `None` where the source raises. */
  function LegacyDiff(na: seq<AddRem>, active: Active): (r: Option<seq<Action>>)
    ensures r.None? <==> LegacyOverruns(na, active)
    ensures r.Some? ==> r.value == CalculateDiff(AsTargets(na), AsLive(active))
  {
    LegacyMatchesTracker(na, active);
    if LegacyOverruns(na, active) then None else Some(WithMutes(LegacyActions(na, active)))
  }

  /** The elements of `new_assigns` the diff reaches: those with a live list. */
  function Reach(na: seq<AddRem>, active: Active): (r: seq<AddRem>)
    ensures |r| <= |active| && |r| <= |na| && (|r| == |na| || |r| == |active|)
    ensures forall d :: 0 <= d < |r| ==> r[d] == na[d]
  {
    if |na| <= |active| then na else na[..|active|]
  }

  /** Elements past the end of `current_active` contribute nothing to the
      actions. */
  lemma LegacyActionsReach(na: seq<AddRem>, active: Active)
    ensures LegacyActions(na, active) == LegacyActions(Reach(na, active), active)
    ensures !LegacyOverruns(Reach(na, active), active)
  {
    var rn := Reach(na, active);
    if |active| < |na| {
      var p := LegacyParts(na, active);
      var q := LegacyParts(rn, active);
      PerDcaSplit(p, 0, |active|, |na|);
      PerDcaEmpty(p, |active|, |na|);
      forall k | 0 <= k < |active| ensures p(k) == q(k) { }
      PerDcaSame(p, q, 0, |active|);
    }
  }

  // ---- Bridge to the tracker ----

  /** A live block holding exactly the given inputs, in the given order, with
      no name. */
  function AsBlock(vs: seq<int>): (b: Block)
    ensures Values(b.entries) == vs && BlockName(b) == ""
  {
    Block(None, "", seq(|vs|, i requires 0 <= i < |vs| => NewEntry(vs[i], NoneState)))
  }

  function AsLive(active: Active): (live: Live)
    ensures |live| == |active|
    ensures forall d :: 0 <= d < |active| ==> live[d] == AsBlock(active[d])
  {
    seq(|active|, d requires 0 <= d < |active| => AsBlock(active[d]))
  }

  /** The change-cue targets with no names that correspond to `new_assigns`. */
  function AsTargets(na: seq<AddRem>): (ts: seq<DcaTarget>)
    ensures |ts| == |na|
    ensures forall d :: 0 <= d < |na| ==> ts[d] == DcaTarget("", na[d].add, na[d].rem)
  {
    seq(|na|, d requires 0 <= d < |na| => DcaTarget("", na[d].add, na[d].rem))
  }

  /** The older diff is the tracker's `calculate_diff` with every name unset. */
  lemma LegacyMatchesTracker(na: seq<AddRem>, active: Active)
    ensures LegacyActions(na, active) == DiffActions(AsTargets(na), AsLive(active))
  {
    var live := AsLive(active);
    var ts := AsTargets(na);
    forall k | 0 <= k < |na| ensures LegacyParts(na, active)(k) == DiffParts(ts, live)(k) {
      if k < |active| {
        var t := ts[k];
        assert Values(live[k].entries) == active[k];
        assert RenameIfChanged(k, t.name, live[k]) == [];
        assert DiffDca(k, t, live[k]) == LegacyDca(k, na[k], active[k]);
      }
    }
    PerDcaSame(LegacyParts(na, active), DiffParts(ts, live), 0, |na|);
  }

  /** What the older diff emits when it does not raise: assigns of inputs to
      add not yet active on that DCA, unassigns of inputs to remove that are
      active on it, never a rename; then an unmute per input only assigned and
      a mute per input only unassigned. */
  lemma LegacyDiffContents(na: seq<AddRem>, active: Active, e: nat, x: int, n: string)
    ensures var acts := LegacyActions(na, active);
      var r := LegacyDiff(na, active);
      r.Some? ==>
      && r.value[..|acts|] == acts
      && (forall i :: |acts| <= i < |r.value| ==> r.value[i].Mute? || r.value[i].Unmute?)
      && (AssignAction(e, x) in r.value <==>
            e < |na| && e < |active| && x in na[e].add && x !in active[e])
      && (UnassignAction(e, x) in r.value <==>
            e < |na| && e < |active| && x in na[e].rem && x in active[e])
      && Rename(e, n) !in r.value
      && (Unmute(x) in r.value <==> HasAssign(acts, x) && !HasUnassign(acts, x))
      && (Mute(x) in r.value <==> HasUnassign(acts, x) && !HasAssign(acts, x))
  {
    var rn := Reach(na, active);
    LegacyActionsReach(na, active);
    LegacyMatchesTracker(rn, active);
    CalculateDiffContents(AsTargets(rn), AsLive(active), e, x, n);
    if e < |rn| {
      assert LiveValues(AsLive(active), e) == active[e];
    }
  }

  // ---- The commit loop of `call_cue` ----

  /** One step: an assign appends the input to its DCA, an unassign removes the
      first occurrence; anything else is skipped. `None` where the source
      raises: a DCA out of range, or removing an input that is not there. */
  function LegacyCommitAction(active: Active, a: Action): (r: Option<Active>)
    ensures r.Some? ==> |r.value| == |active|
    ensures r.Some? ==> forall e :: 0 <= e < |active| && e != DcaKey(a) ==> r.value[e] == active[e]
    ensures a.AssignAction? ==> (r.Some? <==> a.dca < |active|)
    ensures a.AssignAction? && r.Some? ==> r.value[a.dca] == active[a.dca] + [a.input]
    ensures a.UnassignAction? ==> (r.Some? <==> a.dca < |active| && a.input in active[a.dca])
    ensures a.UnassignAction? && r.Some? ==>
      multiset(r.value[a.dca]) == multiset(active[a.dca]) - multiset{a.input}
    ensures !a.AssignAction? && !a.UnassignAction? ==> r == Some(active)
  {
    match a
    case AssignAction(d, x) =>
      if d < |active| then Some(active[d := active[d] + [x]]) else None
    case UnassignAction(d, x) =>
      if d < |active| && x in active[d] then Some(active[d := RemoveFirst(active[d], x)]) else None
    case _ => Some(active)
  }

  function LegacyCommit(active: Active, acts: seq<Action>): (r: Option<Active>)
    ensures r.Some? ==> |r.value| == |active|
    decreases |acts|
  {
    if |acts| == 0 then Some(active)
    else
      match LegacyCommitAction(active, acts[0])
      case None => None
      case Some(a) => LegacyCommit(a, acts[1..])
  }

  /** `call_cue` of the older model: diff, then commit. */
  function LegacyCallCue(active: Active, na: seq<AddRem>): (r: Option<Active>)
    ensures LegacyOverruns(na, active) ==> r.None?
  {
    match LegacyDiff(na, active)
    case None => None
    case Some(acts) => LegacyCommit(active, acts)
  }

  // ---- Appending versus sorted insertion ----

  /** The older live state and the tracker's hold the same inputs per DCA, up to
      order. */
  ghost predicate Agrees(active: Active, live: Live) {
    |active| == |live| &&
    forall d :: 0 <= d < |active| ==> multiset(active[d]) == multiset(LiveValues(live, d))
  }

  /** One rename-free step keeps the two live states in agreement. */
  lemma StepAgrees(active: Active, live: Live, a: Action)
    requires Agrees(active, live) && !a.Rename?
    ensures LegacyCommitAction(active, a).Some? <==> CommitAction(live, a).Some?
    ensures LegacyCommitAction(active, a).Some? ==>
      Agrees(LegacyCommitAction(active, a).value, CommitAction(live, a).value)
  {
    var ra := LegacyCommitAction(active, a);
    var rl := CommitAction(live, a);
    if a.UnassignAction? && a.dca < |active| {
      assert a.input in active[a.dca] <==> a.input in multiset(LiveValues(live, a.dca));
    }
    if ra.Some? {
      forall d | 0 <= d < |active|
        ensures multiset(ra.value[d]) == multiset(LiveValues(rl.value, d))
      {
        if d != DcaKey(a) {
          assert ra.value[d] == active[d] && rl.value[d] == live[d];
        } else if a.AssignAction? {
          assert multiset(active[d] + [a.input]) == multiset(active[d]) + multiset{a.input};
        }
      }
    }
  }

  /** The older commit loop (append, remove first) and the tracker's (sorted
      insert, remove at index) succeed on the same rename-free action lists and
      leave the same inputs per DCA. */
  lemma {:induction false} CommitsAgree(active: Active, live: Live, acts: seq<Action>)
    requires Agrees(active, live)
    requires forall i :: 0 <= i < |acts| ==> !acts[i].Rename?
    ensures LegacyCommit(active, acts).Some? <==> Commit(live, acts).Some?
    ensures LegacyCommit(active, acts).Some? ==>
      Agrees(LegacyCommit(active, acts).value, Commit(live, acts).value)
    decreases |acts|
  {
    if |acts| > 0 {
      StepAgrees(active, live, acts[0]);
      var ra := LegacyCommitAction(active, acts[0]);
      var rl := CommitAction(live, acts[0]);
      if ra.Some? {
        assert LegacyCommit(active, acts) == LegacyCommit(ra.value, acts[1..]);
        assert Commit(live, acts) == Commit(rl.value, acts[1..]);
        CommitsAgree(ra.value, rl.value, acts[1..]);
      }
    }
  }

  /** DCAs no action names keep their list exactly. */
  lemma {:induction false} LegacyUntouched(active: Active, acts: seq<Action>, d: nat)
    requires d < |active| && Untouched(acts, d)
    ensures LegacyCommit(active, acts).Some? ==> LegacyCommit(active, acts).value[d] == active[d]
    decreases |acts|
  {
    if |acts| > 0 {
      match LegacyCommitAction(active, acts[0])
      case None =>
      case Some(a1) =>
        assert Untouched(acts[1..], d) by {
          forall i | 0 <= i < |acts[1..]| ensures DcaKey(acts[1..][i]) != d {
            assert acts[i + 1] == acts[1..][i];
          }
        }
        LegacyUntouched(a1, acts[1..], d);
    }
  }

  /** The older diff never renames, and names only DCAs of `new_assigns` that
      have a live list. */
  lemma LegacyDiffShape(na: seq<AddRem>, active: Active)
    ensures var r := LegacyDiff(na, active);
      r.Some? ==> forall i :: 0 <= i < |r.value| ==>
        !r.value[i].Rename? && DcaKey(r.value[i]) < |na| && DcaKey(r.value[i]) < |active|
  {
    var rn := Reach(na, active);
    LegacyActionsReach(na, active);
    var p := LegacyParts(rn, active);
    var acts := LegacyActions(rn, active);
    WithMutesSplit(acts);
    forall i | 0 <= i < |acts| ensures !acts[i].Rename? && DcaKey(acts[i]) < |rn| {
      assert acts[i] in acts;
      PerDcaMembers(p, 0, |rn|, acts[i]);
      var k :| 0 <= k < |rn| && acts[i] in p(k);
      var part := LegacyDca(k, rn[k], active[k]);
      assert p(k) == part;
      var j :| 0 <= j < |part| && part[j] == acts[i];
    }
  }

  /** Committing the older `call_cue` (add and remove lists without repeats,
      active lists without duplicates, no element past the live lists that
      adds or removes) never raises; afterwards a covered DCA holds an input
      iff it was active and not to be removed, or was not active and is to be
      added; other DCAs are unchanged. */
  lemma LegacyCallCueReconciles(active: Active, na: seq<AddRem>)
    requires !LegacyOverruns(na, active)
    requires forall d :: 0 <= d < |na| ==> DistinctInts(na[d].add) && DistinctInts(na[d].rem)
    requires forall d :: 0 <= d < |active| ==> DistinctInts(active[d])
    ensures var r := LegacyCallCue(active, na);
      && r.Some? && |r.value| == |active|
      && (forall d, y :: 0 <= d < |na| && d < |active| ==>
            (y in r.value[d] <==> if y in active[d] then y !in na[d].rem else y in na[d].add))
      && (forall d :: |na| <= d < |active| ==> r.value[d] == active[d])
  {
    var rn := Reach(na, active);
    LegacyActionsReach(na, active);
    assert LegacyCallCue(active, na) == LegacyCallCue(active, rn);
    ReconcilesInReach(active, rn);
  }

  /** `LegacyCallCueReconciles` for a `new_assigns` no longer than the live
      lists. */
  lemma ReconcilesInReach(active: Active, na: seq<AddRem>)
    requires |na| <= |active|
    requires forall d :: 0 <= d < |na| ==> DistinctInts(na[d].add) && DistinctInts(na[d].rem)
    requires forall d :: 0 <= d < |active| ==> DistinctInts(active[d])
    ensures var r := LegacyCallCue(active, na);
      && r.Some? && |r.value| == |active|
      && (forall d, y :: 0 <= d < |na| ==>
            (y in r.value[d] <==> if y in active[d] then y !in na[d].rem else y in na[d].add))
      && (forall d :: |na| <= d < |active| ==> r.value[d] == active[d])
  {
    var live := AsLive(active);
    var ts := AsTargets(na);
    assert !LegacyOverruns(na, active);
    var full := LegacyDiff(na, active).value;
    assert full == CalculateDiff(ts, live);
    forall d | 0 <= d < |active| ensures LiveValues(live, d) == active[d] { }
    DiffReconciles(ts, live);
    LegacyDiffShape(na, active);
    CommitsAgree(active, live, full);
    var r := LegacyCallCue(active, na).value;
    var l := Commit(live, full).value;
    forall d, y | 0 <= d < |na|
      ensures y in r[d] <==> if y in active[d] then y !in na[d].rem else y in na[d].add
    {
      assert y in r[d] <==> y in multiset(LiveValues(l, d));
    }
    forall d | |na| <= d < |active| ensures r[d] == active[d] {
      assert Untouched(full, d);
      LegacyUntouched(active, full, d);
    }
  }
}
