/** The live-state tracker (tracker/model.py, DcaTrackingModel): diffs a cue
    against the live DCA assignments, and commits the emitted actions back. */
module Tracker {
  import opened Wrappers
  import opened Primitives
  import opened Actions

  /** Row 0 of the tracking model: one block per DCA holding the inputs
      currently assigned to it and its last-sent name. */
  type Live = seq<Block>

  /** One DCA's entry of a change cue's `dca_changes`: `name` ("" when unset),
      the inputs to add and the inputs to remove. */
  datatype DcaTarget = DcaTarget(name: string, add: seq<int>, rem: seq<int>)

  function LiveValues(live: Live, d: nat): seq<int>
    requires d < |live|
  {
    Values(live[d].entries)
  }

  /** Rank of an action kind inside one DCA's part of `calculate_diff`. */
  function OrderKey(a: Action): int {
    match a
    case Rename(d, _) => 3 * d
    case AssignAction(d, _) => 3 * d + 1
    case UnassignAction(d, _) => 3 * d + 2
    case _ => -1
  }

  function DcaKey(a: Action): int {
    match a
    case Rename(d, _) => d
    case AssignAction(d, _) => d
    case UnassignAction(d, _) => d
    case _ => -1
  }

  /** Emitted DCA by DCA; within a DCA, the rename, then assigns, then unassigns. */
  ghost predicate InDiffOrder(acts: seq<Action>) {
    forall i, j :: 0 <= i < j < |acts| ==> OrderKey(acts[i]) <= OrderKey(acts[j])
  }

  /** Emitted DCA by DCA. */
  ghost predicate InDcaOrder(acts: seq<Action>) {
    forall i, j :: 0 <= i < j < |acts| ==> DcaKey(acts[i]) <= DcaKey(acts[j])
  }

  /** All of the actions are assigns or unassigns on DCA `d`. */
  ghost predicate OnlyMembership(acts: seq<Action>, d: nat) {
    forall i :: 0 <= i < |acts| ==>
      (acts[i].AssignAction? || acts[i].UnassignAction?) && acts[i].dca == d
  }

  /** The `for to_add in dca['add']` loop: an assign for each input not already
      live on the DCA, in list order. */
  function AssignsFor(d: nat, adds: seq<int>, live: seq<int>): (r: seq<Action>)
    ensures forall i :: 0 <= i < |r| ==> r[i].AssignAction? && r[i].dca == d
  {
    if |adds| == 0 then []
    else
      var rest := AssignsFor(d, adds[1..], live);
      if adds[0] in live then rest else [AssignAction(d, adds[0])] + rest
  }

  /** The assigns are those of the inputs to add that are not live. */
  lemma {:induction false} AssignsForMembers(d: nat, adds: seq<int>, live: seq<int>, x: int)
    ensures AssignAction(d, x) in AssignsFor(d, adds, live) <==> x in adds && x !in live
    decreases |adds|
  {
    if |adds| > 0 {
      AssignsForMembers(d, adds[1..], live, x);
      assert x in adds <==> x == adds[0] || x in adds[1..];
    }
  }

  /** The `for to_rem in dca['rem']` loop: an unassign for each input currently
      live on the DCA, in list order. */
  function UnassignsFor(d: nat, rems: seq<int>, live: seq<int>): (r: seq<Action>)
    ensures forall i :: 0 <= i < |r| ==> r[i].UnassignAction? && r[i].dca == d
  {
    if |rems| == 0 then []
    else
      var rest := UnassignsFor(d, rems[1..], live);
      if rems[0] !in live then rest else [UnassignAction(d, rems[0])] + rest
  }

  /** The unassigns are those of the inputs to remove that are live. */
  lemma {:induction false} UnassignsForMembers(d: nat, rems: seq<int>, live: seq<int>, x: int)
    ensures UnassignAction(d, x) in UnassignsFor(d, rems, live) <==> x in rems && x in live
    decreases |rems|
  {
    if |rems| > 0 {
      UnassignsForMembers(d, rems[1..], live, x);
      assert x in rems <==> x == rems[0] || x in rems[1..];
    }
  }

  /** The rename test shared by both diffs: a truthy name that differs from
      the name the DCA shows now. */
  function RenameIfChanged(d: nat, name: string, current: Block): (r: seq<Action>)
    ensures |r| <= 1
    ensures |r| == 1 <==> name != "" && BlockName(current) != name
    ensures forall i :: 0 <= i < |r| ==> r[i] == Rename(d, name)
  {
    if name != "" && BlockName(current) != name then [Rename(d, name)] else []
  }

  /** One DCA's part of `calculate_diff`: the rename, the assigns, the unassigns. */
  function DiffDca(d: nat, t: DcaTarget, cur: Block): seq<Action> {
    RenameIfChanged(d, t.name, cur) + AssignsFor(d, t.add, Values(cur.entries)) + UnassignsFor(d, t.rem, Values(cur.entries))
  }

  /** One DCA's part of `calculate_diff` names only that DCA, and ranks
      between its rename and its unassigns. */
  lemma DiffDcaRange(d: nat, t: DcaTarget, cur: Block)
    ensures forall i :: 0 <= i < |DiffDca(d, t, cur)| ==>
      3 * d <= OrderKey(DiffDca(d, t, cur)[i]) <= 3 * d + 2 && DcaKey(DiffDca(d, t, cur)[i]) == d
  {
    var rn := RenameIfChanged(d, t.name, cur);
    var asg := AssignsFor(d, t.add, Values(cur.entries));
    var un := UnassignsFor(d, t.rem, Values(cur.entries));
    DcaPartsInOrder(d, rn, asg, un);
  }

  /** A rename, assigns and unassigns of one DCA, in that order, are in diff
      order. */
  lemma DcaPartsInOrder(d: nat, rn: seq<Action>, asg: seq<Action>, un: seq<Action>)
    requires forall i :: 0 <= i < |rn| ==> rn[i].Rename? && rn[i].dca == d
    requires forall i :: 0 <= i < |asg| ==> asg[i].AssignAction? && asg[i].dca == d
    requires forall i :: 0 <= i < |un| ==> un[i].UnassignAction? && un[i].dca == d
    ensures forall i :: 0 <= i < |rn + asg + un| ==>
      3 * d <= OrderKey((rn + asg + un)[i]) <= 3 * d + 2 && DcaKey((rn + asg + un)[i]) == d
  {
    var r := rn + asg + un;
    forall i | 0 <= i < |r|
      ensures DcaKey(r[i]) == d && 3 * d <= OrderKey(r[i]) <= 3 * d + 2
    {
      if i < |rn| {
        assert r[i] == rn[i];
      } else if i < |rn| + |asg| {
        assert r[i] == asg[i - |rn|];
      } else {
        assert r[i] == un[i - |rn| - |asg|];
      }
    }
  }

  /** Within one DCA's part of `calculate_diff`, the rename comes first,
      then the assigns, then the unassigns. */
  lemma DiffDcaInOrder(d: nat, t: DcaTarget, cur: Block)
    ensures InDiffOrder(DiffDca(d, t, cur))
  {
    var rn := RenameIfChanged(d, t.name, cur);
    var asg := AssignsFor(d, t.add, Values(cur.entries));
    var un := UnassignsFor(d, t.rem, Values(cur.entries));
    var r := rn + asg + un;
    assert DiffDca(d, t, cur) == r;
    forall i | 0 <= i < |r|
      ensures OrderKey(r[i]) == 3 * d + (if i < |rn| then 0 else if i < |rn| + |asg| then 1 else 2)
    {
      if i < |rn| {
        assert r[i] == rn[i];
      } else if i < |rn| + |asg| {
        assert r[i] == asg[i - |rn|];
      } else {
        assert r[i] == un[i - |rn| - |asg|];
      }
    }
  }

  lemma ConcatInDiffOrder(a: seq<Action>, b: seq<Action>)
    requires InDiffOrder(a) && InDiffOrder(b)
    requires forall i, j :: 0 <= i < |a| && 0 <= j < |b| ==> OrderKey(a[i]) <= OrderKey(b[j])
    ensures InDiffOrder(a + b)
  {
  }

  lemma ConcatInDcaOrder(a: seq<Action>, b: seq<Action>)
    requires InDcaOrder(a) && InDcaOrder(b)
    requires forall i, j :: 0 <= i < |a| && 0 <= j < |b| ==> DcaKey(a[i]) <= DcaKey(b[j])
    ensures InDcaOrder(a + b)
  {
  }

  // ---- Walking the row DCA by DCA ----

  /** The parts of DCAs `d` to `n - 1`, one after the other: every diff of the
      tracker walks the row this way, `part(k)` being what DCA `k` adds. */
  function PerDca(part: nat -> seq<Action>, d: nat, n: nat): seq<Action>
    decreases n - d
  {
    if d >= n then [] else part(d) + PerDca(part, d + 1, n)
  }

  /** Each of the first `n` parts names only its own DCA. */
  ghost predicate PartsKeyed(part: nat -> seq<Action>, n: nat) {
    forall k, i :: 0 <= k < n && 0 <= i < |part(k)| ==> DcaKey(part(k)[i]) == k
  }

  /** An action is in the walk iff one of the walked parts holds it. */
  lemma {:induction false} PerDcaMembers(part: nat -> seq<Action>, d: nat, n: nat, a: Action)
    ensures a in PerDca(part, d, n) <==> exists k :: d <= k < n && a in part(k)
    decreases n - d
  {
    if d < n {
      PerDcaMembers(part, d + 1, n, a);
    }
  }

  /** With keyed parts, an action is in the walk iff its own DCA is walked and
      that DCA's part holds it. */
  lemma {:induction false} PerDcaKeyedMember(part: nat -> seq<Action>, d: nat, n: nat, a: Action)
    requires PartsKeyed(part, n)
    ensures a in PerDca(part, d, n) <==> d <= DcaKey(a) < n && a in part(DcaKey(a))
    decreases n - d
  {
    if d < n {
      PerDcaKeyedMember(part, d + 1, n, a);
      if a in part(d) {
        var i :| 0 <= i < |part(d)| && part(d)[i] == a;
      }
    }
  }

  /** With keyed parts, the walk from DCA `d` names only DCAs `d` to `n - 1`. */
  lemma PerDcaRange(part: nat -> seq<Action>, d: nat, n: nat)
    requires PartsKeyed(part, n)
    ensures forall i :: 0 <= i < |PerDca(part, d, n)| ==> d <= DcaKey(PerDca(part, d, n)[i]) < n
  {
    var w := PerDca(part, d, n);
    forall i | 0 <= i < |w| ensures d <= DcaKey(w[i]) < n {
      assert w[i] in w;
      PerDcaKeyedMember(part, d, n, w[i]);
    }
  }

  /** With keyed parts, the walk goes DCA by DCA. */
  lemma {:induction false} PerDcaInDcaOrder(part: nat -> seq<Action>, d: nat, n: nat)
    requires PartsKeyed(part, n)
    ensures InDcaOrder(PerDca(part, d, n))
    decreases n - d
  {
    if d < n {
      var here := part(d);
      var rest := PerDca(part, d + 1, n);
      PerDcaInDcaOrder(part, d + 1, n);
      PerDcaRange(part, d + 1, n);
      assert forall i :: 0 <= i < |here| ==> DcaKey(here[i]) == d;
      ConcatInDcaOrder(here, rest);
    }
  }

  /** With keyed parts each in diff order, the whole walk is in diff order. */
  lemma {:induction false} PerDcaInDiffOrder(part: nat -> seq<Action>, d: nat, n: nat)
    requires PartsKeyed(part, n)
    requires forall k :: d <= k < n ==> InDiffOrder(part(k))
    ensures InDiffOrder(PerDca(part, d, n))
    decreases n - d
  {
    if d < n {
      var here := part(d);
      var rest := PerDca(part, d + 1, n);
      PerDcaInDiffOrder(part, d + 1, n);
      PerDcaRange(part, d + 1, n);
      assert forall i :: 0 <= i < |here| ==> DcaKey(here[i]) == d;
      ConcatInDiffOrder(here, rest);
    }
  }

  /** Walks over parts that agree on the walked DCAs are equal. */
  lemma {:induction false} PerDcaSame(p: nat -> seq<Action>, q: nat -> seq<Action>, d: nat, n: nat)
    requires forall k :: d <= k < n ==> p(k) == q(k)
    ensures PerDca(p, d, n) == PerDca(q, d, n)
    decreases n - d
  {
    if d < n {
      PerDcaSame(p, q, d + 1, n);
    }
  }

  // ---- `calculate_diff` ----

  /** What DCA `k` contributes to `calculate_diff`; nothing past the targets. */
  function DiffParts(targets: seq<DcaTarget>, live: Live): nat -> seq<Action> {
    (k: nat) => if k < |targets| && k < |live| then DiffDca(k, targets[k], live[k]) else []
  }

  /** Actions (before mutes) of `calculate_diff`: in DCA order, and within a
      DCA rename, assigns, unassigns. */
  function DiffActions(targets: seq<DcaTarget>, live: Live): seq<Action>
  {
    PerDca(DiffParts(targets, live), 0, |targets|)
  }

  /** Each DCA's part of `calculate_diff` names only that DCA. */
  lemma DiffPartsKeyed(targets: seq<DcaTarget>, live: Live)
    requires |targets| <= |live|
    ensures PartsKeyed(DiffParts(targets, live), |targets|)
  {
    var p := DiffParts(targets, live);
    forall k, i | 0 <= k < |targets| && 0 <= i < |p(k)| ensures DcaKey(p(k)[i]) == k {
      DiffDcaRange(k, targets[k], live[k]);
    }
  }

  /** The actions of `calculate_diff` name only DCAs of the targets. */
  lemma DiffActionsRange(targets: seq<DcaTarget>, live: Live)
    requires |targets| <= |live|
    ensures forall i :: 0 <= i < |DiffActions(targets, live)| ==> 0 <= DcaKey(DiffActions(targets, live)[i]) < |targets|
  {
    DiffPartsKeyed(targets, live);
    PerDcaRange(DiffParts(targets, live), 0, |targets|);
  }

  /** `calculate_diff` goes DCA by DCA; within a DCA, the rename, then the
      assigns, then the unassigns. */
  lemma DiffActionsInOrder(targets: seq<DcaTarget>, live: Live)
    requires |targets| <= |live|
    ensures InDiffOrder(DiffActions(targets, live))
  {
    var p := DiffParts(targets, live);
    DiffPartsKeyed(targets, live);
    forall k | 0 <= k < |targets| ensures InDiffOrder(p(k)) {
      DiffDcaInOrder(k, targets[k], live[k]);
    }
    PerDcaInDiffOrder(p, 0, |targets|);
  }

  /** Which actions one DCA's part of `calculate_diff` holds for that DCA. */
  lemma DiffDcaMembers(d: nat, t: DcaTarget, cur: Block, x: int, n: string)
    ensures AssignAction(d, x) in DiffDca(d, t, cur) <==> x in t.add && x !in Values(cur.entries)
    ensures UnassignAction(d, x) in DiffDca(d, t, cur) <==> x in t.rem && x in Values(cur.entries)
    ensures Rename(d, n) in DiffDca(d, t, cur) <==> n == t.name && n != "" && BlockName(cur) != n
  {
    var vs := Values(cur.entries);
    var rn := RenameIfChanged(d, t.name, cur);
    var asg := AssignsFor(d, t.add, vs);
    var un := UnassignsFor(d, t.rem, vs);
    AssignsForMembers(d, t.add, vs, x);
    UnassignsForMembers(d, t.rem, vs, x);
    assert DiffDca(d, t, cur) == rn + asg + un;
    assert AssignAction(d, x) !in rn && AssignAction(d, x) !in un;
    assert UnassignAction(d, x) !in rn && UnassignAction(d, x) !in asg;
    assert Rename(d, n) !in asg && Rename(d, n) !in un;
    assert Rename(d, n) in rn <==> |rn| == 1 && rn[0] == Rename(d, n);
  }

  /** `calculate_diff` emits `assign(e, x)` exactly for the inputs `x` of DCA
      `e`'s add list that are not live on DCA `e`. */
  lemma DiffActionsAssigns(targets: seq<DcaTarget>, live: Live, e: nat, x: int)
    requires |targets| <= |live|
    ensures AssignAction(e, x) in DiffActions(targets, live) <==>
      e < |targets| && x in targets[e].add && x !in LiveValues(live, e)
  {
    DiffPartsKeyed(targets, live);
    PerDcaKeyedMember(DiffParts(targets, live), 0, |targets|, AssignAction(e, x));
    if e < |targets| {
      DiffDcaMembers(e, targets[e], live[e], x, "");
    }
  }

  /** `calculate_diff` emits `unassign(e, x)` exactly for the inputs `x` of DCA
      `e`'s remove list that are live on DCA `e`. */
  lemma DiffActionsUnassigns(targets: seq<DcaTarget>, live: Live, e: nat, x: int)
    requires |targets| <= |live|
    ensures UnassignAction(e, x) in DiffActions(targets, live) <==>
      e < |targets| && x in targets[e].rem && x in LiveValues(live, e)
  {
    DiffPartsKeyed(targets, live);
    PerDcaKeyedMember(DiffParts(targets, live), 0, |targets|, UnassignAction(e, x));
    if e < |targets| {
      DiffDcaMembers(e, targets[e], live[e], x, "");
    }
  }

  /** `calculate_diff` emits `rename(e, n)` exactly when `n` is DCA `e`'s
      non-empty target name and differs from the name DCA `e` shows. */
  lemma DiffActionsRenames(targets: seq<DcaTarget>, live: Live, e: nat, n: string)
    requires |targets| <= |live|
    ensures Rename(e, n) in DiffActions(targets, live) <==>
      e < |targets| && n == targets[e].name && n != "" && BlockName(live[e]) != n
  {
    DiffPartsKeyed(targets, live);
    PerDcaKeyedMember(DiffParts(targets, live), 0, |targets|, Rename(e, n));
    if e < |targets| {
      DiffDcaMembers(e, targets[e], live[e], 0, n);
    }
  }

  /** `calculate_diff`: per DCA, rename / assigns / unassigns against the same
      DCA's live entries only, then the coalesced mutes. */
  function CalculateDiff(targets: seq<DcaTarget>, live: Live): seq<Action>
  {
    WithMutes(DiffActions(targets, live))
  }

  /** A walk over parts that are all empty is empty. */
  lemma {:induction false} PerDcaEmpty(part: nat -> seq<Action>, d: nat, n: nat)
    requires forall k :: d <= k < n ==> part(k) == []
    ensures PerDca(part, d, n) == []
    decreases n - d
  {
    if d < n {
      PerDcaEmpty(part, d + 1, n);
    }
  }

  /** A walk splits at any DCA between its ends. */
  lemma {:induction false} PerDcaSplit(part: nat -> seq<Action>, d: nat, m: nat, n: nat)
    requires d <= m <= n
    ensures PerDca(part, d, n) == PerDca(part, d, m) + PerDca(part, m, n)
    decreases m - d
  {
    if d < m {
      PerDcaSplit(part, d + 1, m, n);
      assert PerDca(part, d, n) == part(d) + PerDca(part, d + 1, n);
      assert PerDca(part, d, m) == part(d) + PerDca(part, d + 1, m);
    }
  }

  /** Targets past the live row contribute nothing: the diff of a longer
      target list is the diff of its first `|live|` targets. Where the source
      raises on such targets is `DiffOverruns`. */
  lemma DiffActionsTrim(targets: seq<DcaTarget>, live: Live)
    requires |live| < |targets|
    ensures DiffActions(targets, live) == DiffActions(targets[..|live|], live)
    ensures CalculateDiff(targets, live) == CalculateDiff(targets[..|live|], live)
  {
    var p := DiffParts(targets, live);
    var q := DiffParts(targets[..|live|], live);
    PerDcaSplit(p, 0, |live|, |targets|);
    PerDcaEmpty(p, |live|, |targets|);
    PerDcaSame(p, q, 0, |live|);
  }

  /** A target `calculate_diff` reads the live block for: one with a name or
      something to add or remove. */
  predicate Touches(t: DcaTarget) {
    t.name != "" || t.add != [] || t.rem != []
  }

  /** `calculate_diff` indexes past the live row, and so raises `IndexError`:
      some target beyond it touches its DCA. */
  predicate DiffOverruns(targets: seq<DcaTarget>, live: Live) {
    exists d :: |live| <= d < |targets| && Touches(targets[d])
  }

  // ---- The stored form of a change cue's `dca_changes` ----

  /** One element of a change cue's `dca_changes` as stored: a dict whose
      `name` key may be absent (`None`). */
  datatype CueTarget = CueTarget(name: Option<string>, add: seq<int>, rem: seq<int>)

  /** The `dca_changes` that the cue's settings page stores: the dicts that
      `DcaCueModel.serialise` writes, holding `add` and `rem` and no `name`. */
  function Stored(items: seq<AddRem>): (ts: seq<CueTarget>)
    ensures |ts| == |items|
    ensures forall d :: 0 <= d < |items| ==>
      ts[d].name.None? && ts[d].add == items[d].add && ts[d].rem == items[d].rem
  {
    seq(|items|, d requires 0 <= d < |items| => CueTarget(None, items[d].add, items[d].rem))
  }

  /** The targets read with `dca.get('name')`: an absent name is no name. */
  function TargetsOf(ts: seq<CueTarget>): (r: seq<DcaTarget>)
    ensures |r| == |ts|
    ensures forall d :: 0 <= d < |ts| ==> r[d].add == ts[d].add && r[d].rem == ts[d].rem
    ensures forall d :: 0 <= d < |ts| ==> (r[d].name != "" ==> ts[d].name == Some(r[d].name))
    ensures forall d :: 0 <= d < |ts| ==> (ts[d].name.Some? ==> r[d].name == ts[d].name.value)
  {
    seq(|ts|, d requires 0 <= d < |ts| =>
      DcaTarget(if ts[d].name.Some? then ts[d].name.value else "", ts[d].add, ts[d].rem))
  }

  /** `calculate_diff` as written: `dca['name']` raises `KeyError` for a
      stored target with no `name` key, and `current_assigns[dca_num]` raises
      `IndexError` past the live row. */
  function CalculateDiffAsWritten(ts: seq<CueTarget>, live: Live): (r: Option<seq<Action>>)
    ensures r.None? <==>
      (exists d :: 0 <= d < |ts| && ts[d].name.None?) || DiffOverruns(TargetsOf(ts), live)
    ensures r.Some? ==> r.value == CalculateDiff(TargetsOf(ts), live)
  {
    if (exists d :: 0 <= d < |ts| && ts[d].name.None?) || DiffOverruns(TargetsOf(ts), live) then None
    else Some(CalculateDiff(TargetsOf(ts), live))
  }

  /** `calculate_diff` reading the name with `dca.get('name')`: it raises only
      where it indexes past the live row. */
  function CalculateDiffOfCue(ts: seq<CueTarget>, live: Live): (r: Option<seq<Action>>)
    ensures r.None? <==> DiffOverruns(TargetsOf(ts), live)
    ensures r.Some? ==> r.value == CalculateDiff(TargetsOf(ts), live)
  {
    if DiffOverruns(TargetsOf(ts), live) then None else Some(CalculateDiff(TargetsOf(ts), live))
  }

  /** Values of a block's entries whose state is not UNASSIGN. */
  function NonUnassigned(es: seq<Entry>): (r: seq<int>)
    ensures forall x :: x in r <==> exists i :: 0 <= i < |es| && es[i].value == x && es[i].state != Unassign
  {
    if |es| == 0 then []
    else
      var rest := NonUnassigned(es[1..]);
      assert forall i :: 1 <= i < |es| ==> es[i] == es[1..][i - 1];
      if es[0].state != Unassign then [es[0].value] + rest else rest
  }

  /** Values of a block's entries whose state is UNASSIGN. */
  function Unassigned(es: seq<Entry>): (r: seq<int>)
    ensures forall x :: x in r <==> exists i :: 0 <= i < |es| && es[i].value == x && es[i].state == Unassign
  {
    if |es| == 0 then []
    else
      var rest := Unassigned(es[1..]);
      assert forall i :: 1 <= i < |es| ==> es[i] == es[1..][i - 1];
      if es[0].state == Unassign then [es[0].value] + rest else rest
  }

  /** The entry loop of `calculate_diff_from_mapper`: an entry not live is
      assigned unless its state is UNASSIGN; a live entry is unassigned when its
      state is UNASSIGN. */
  function EntryActions(d: nat, es: seq<Entry>, live: seq<int>): (r: seq<Action>)
    ensures OnlyMembership(r, d)
  {
    if |es| == 0 then []
    else
      var e := es[0];
      var head :=
        if e.value !in live then (if e.state != Unassign then [AssignAction(d, e.value)] else [])
        else if e.state == Unassign then [UnassignAction(d, e.value)]
        else [];
      head + EntryActions(d, es[1..], live)
  }

  /** The entry loop assigns the non-UNASSIGN inputs that are not live and
      unassigns the UNASSIGN inputs that are. */
  lemma {:induction false} EntryActionsMembers(d: nat, es: seq<Entry>, live: seq<int>, x: int)
    ensures AssignAction(d, x) in EntryActions(d, es, live) <==> x in NonUnassigned(es) && x !in live
    ensures UnassignAction(d, x) in EntryActions(d, es, live) <==> x in Unassigned(es) && x in live
    decreases |es|
  {
    if |es| > 0 {
      EntryActionsMembers(d, es[1..], live, x);
      var e := es[0];
      var head :=
        if e.value !in live then (if e.state != Unassign then [AssignAction(d, e.value)] else [])
        else if e.state == Unassign then [UnassignAction(d, e.value)]
        else [];
      assert EntryActions(d, es, live) == head + EntryActions(d, es[1..], live);
      assert x in NonUnassigned(es) <==> (x == e.value && e.state != Unassign) || x in NonUnassigned(es[1..]) by {
        assert forall i :: 1 <= i < |es| ==> es[i] == es[1..][i - 1];
      }
      assert x in Unassigned(es) <==> (x == e.value && e.state == Unassign) || x in Unassigned(es[1..]) by {
        assert forall i :: 1 <= i < |es| ==> es[i] == es[1..][i - 1];
      }
    }
  }

  /** The `for input_num in currently_assigned` loop: unassign every live input
      the cue row does not mention at all. */
  function LeftoverUnassigns(d: nat, live: seq<int>, cueValues: seq<int>): (r: seq<Action>)
    ensures forall i :: 0 <= i < |r| ==> r[i].UnassignAction? && r[i].dca == d
  {
    if |live| == 0 then []
    else
      var rest := LeftoverUnassigns(d, live[1..], cueValues);
      if live[0] !in cueValues then [UnassignAction(d, live[0])] + rest else rest
  }

  /** The leftover loop unassigns exactly the live inputs the row omits. */
  lemma {:induction false} LeftoverMembers(d: nat, live: seq<int>, cueValues: seq<int>, x: int)
    ensures UnassignAction(d, x) in LeftoverUnassigns(d, live, cueValues) <==> x in live && x !in cueValues
    decreases |live|
  {
    if |live| > 0 {
      LeftoverMembers(d, live[1..], cueValues, x);
      assert x in live <==> x == live[0] || x in live[1..];
    }
  }

  /** One DCA's part of `calculate_diff_from_mapper`. */
  function DiffMapperDca(d: nat, blk: Block, cur: Block): seq<Action> {
    RenameIfChanged(d, BlockName(blk), cur) + EntryActions(d, blk.entries, Values(cur.entries))
      + LeftoverUnassigns(d, Values(cur.entries), Values(blk.entries))
  }

  /** One DCA's part of the mapper diff names only that DCA. */
  lemma DiffMapperDcaRange(d: nat, blk: Block, cur: Block)
    ensures forall i :: 0 <= i < |DiffMapperDca(d, blk, cur)| ==> DcaKey(DiffMapperDca(d, blk, cur)[i]) == d
  {
    var live := Values(cur.entries);
    var rn := RenameIfChanged(d, BlockName(blk), cur);
    var ea := EntryActions(d, blk.entries, live);
    var lo := LeftoverUnassigns(d, live, Values(blk.entries));
    MapperPartsInOrder(d, rn, ea, lo);
  }

  /** Actions all on DCA `d` are none of them a mute. */
  lemma MapperPartsInOrder(d: nat, rn: seq<Action>, ea: seq<Action>, lo: seq<Action>)
    requires forall i :: 0 <= i < |rn| ==> rn[i].Rename? && rn[i].dca == d
    requires OnlyMembership(ea, d)
    requires forall i :: 0 <= i < |lo| ==> lo[i].UnassignAction? && lo[i].dca == d
    ensures forall i :: 0 <= i < |rn + ea + lo| ==> DcaKey((rn + ea + lo)[i]) == d
  {
    var r := rn + ea + lo;
    forall i | 0 <= i < |r| ensures DcaKey(r[i]) == d {
      if i < |rn| {
        assert r[i] == rn[i];
      } else if i < |rn| + |ea| {
        assert r[i] == ea[i - |rn|];
      } else {
        assert r[i] == lo[i - |rn| - |ea|];
      }
    }
  }

  /** What DCA `k` contributes to `calculate_diff_from_mapper`; nothing past
      the row. */
  function MapperParts(row: seq<Block>, live: Live): nat -> seq<Action> {
    (k: nat) => if k < |row| && k < |live| then DiffMapperDca(k, row[k], live[k]) else []
  }

  /** Actions (before mutes) of `calculate_diff_from_mapper`. */
  function MapperActions(row: seq<Block>, live: Live): seq<Action>
    requires |row| <= |live|
  {
    PerDca(MapperParts(row, live), 0, |row|)
  }

  /** Each DCA's part of the mapper diff names only that DCA. */
  lemma MapperPartsKeyed(row: seq<Block>, live: Live)
    requires |row| <= |live|
    ensures PartsKeyed(MapperParts(row, live), |row|)
  {
    var p := MapperParts(row, live);
    forall k, i | 0 <= k < |row| && 0 <= i < |p(k)| ensures DcaKey(p(k)[i]) == k {
      DiffMapperDcaRange(k, row[k], live[k]);
    }
  }

  /** The actions of the mapper diff name only DCAs of the row. */
  lemma MapperActionsRange(row: seq<Block>, live: Live)
    requires |row| <= |live|
    ensures forall i :: 0 <= i < |MapperActions(row, live)| ==> 0 <= DcaKey(MapperActions(row, live)[i]) < |row|
  {
    MapperPartsKeyed(row, live);
    PerDcaRange(MapperParts(row, live), 0, |row|);
  }

  /** `calculate_diff_from_mapper` goes DCA by DCA. */
  lemma MapperActionsInOrder(row: seq<Block>, live: Live)
    requires |row| <= |live|
    ensures InDcaOrder(MapperActions(row, live))
  {
    MapperPartsKeyed(row, live);
    PerDcaInDcaOrder(MapperParts(row, live), 0, |row|);
  }

  /** Which assigns and unassigns one DCA's part of the mapper diff holds for
      that DCA. */
  lemma DiffMapperDcaMembers(d: nat, blk: Block, cur: Block, x: int)
    ensures AssignAction(d, x) in DiffMapperDca(d, blk, cur) <==>
      x in NonUnassigned(blk.entries) && x !in Values(cur.entries)
    ensures UnassignAction(d, x) in DiffMapperDca(d, blk, cur) <==>
      x in Values(cur.entries) && (x in Unassigned(blk.entries) || x !in Values(blk.entries))
  {
    var vs := Values(cur.entries);
    var rn := RenameIfChanged(d, BlockName(blk), cur);
    var ea := EntryActions(d, blk.entries, vs);
    var lo := LeftoverUnassigns(d, vs, Values(blk.entries));
    EntryActionsMembers(d, blk.entries, vs, x);
    LeftoverMembers(d, vs, Values(blk.entries), x);
    assert DiffMapperDca(d, blk, cur) == rn + ea + lo;
    assert AssignAction(d, x) !in rn && AssignAction(d, x) !in lo;
    assert UnassignAction(d, x) !in rn;
  }

  /** The mapper diff assigns exactly the non-UNASSIGN entries of the cue row
      that are not live on their DCA. */
  lemma MapperActionsAssigns(row: seq<Block>, live: Live, e: nat, x: int)
    requires |row| <= |live|
    ensures AssignAction(e, x) in MapperActions(row, live) <==>
      e < |row| && x in NonUnassigned(row[e].entries) && x !in LiveValues(live, e)
  {
    MapperPartsKeyed(row, live);
    PerDcaKeyedMember(MapperParts(row, live), 0, |row|, AssignAction(e, x));
    if e < |row| {
      DiffMapperDcaMembers(e, row[e], live[e], x);
    }
  }

  /** The mapper diff unassigns exactly the live inputs the cue row marks
      UNASSIGN or does not mention. */
  lemma MapperActionsUnassigns(row: seq<Block>, live: Live, e: nat, x: int)
    requires |row| <= |live|
    ensures UnassignAction(e, x) in MapperActions(row, live) <==>
      e < |row| && x in LiveValues(live, e) &&
      (x in Unassigned(row[e].entries) || x !in Values(row[e].entries))
  {
    MapperPartsKeyed(row, live);
    PerDcaKeyedMember(MapperParts(row, live), 0, |row|, UnassignAction(e, x));
    if e < |row| {
      DiffMapperDcaMembers(e, row[e], live[e], x);
    }
  }

  /** `calculate_diff_from_mapper`: diff the mapper's resolved row for the cue
      against the live state, then the coalesced mutes. */
  function CalculateDiffFromMapper(row: seq<Block>, live: Live): seq<Action>
    requires |row| <= |live|
  {
    WithMutes(MapperActions(row, live))
  }

  /** The unassigns `cancel_current` emits for one DCA: one per live entry, in order. */
  function UnassignEach(d: nat, vs: seq<int>): (r: seq<Action>)
    ensures |r| == |vs|
    ensures forall i :: 0 <= i < |r| ==> r[i] == UnassignAction(d, vs[i])
  {
    seq(|vs|, i requires 0 <= i < |vs| => UnassignAction(d, vs[i]))
  }

  /** Actions (before mutes) of `cancel_current` for DCAs `d..`. */
  function CancelFrom(live: Live, newName: string, d: nat): (r: seq<Action>)
    requires d <= |live|
    ensures NoMutes(r)
    ensures forall i :: 0 <= i < |r| ==> !r[i].AssignAction? && d <= DcaKey(r[i]) < |live|
    decreases |live| - d
  {
    if d == |live| then []
    else [Rename(d, newName)] + UnassignEach(d, LiveValues(live, d)) + CancelFrom(live, newName, d + 1)
  }

  /** `cancel_current` renames every DCA from `d` on, to the new name only. */
  lemma {:induction false} CancelFromRenames(live: Live, newName: string, d: nat, e: nat, n: string)
    requires d <= |live|
    ensures Rename(e, n) in CancelFrom(live, newName, d) <==> d <= e < |live| && n == newName
    decreases |live| - d
  {
    if d < |live| {
      var un := UnassignEach(d, LiveValues(live, d));
      var rest := CancelFrom(live, newName, d + 1);
      assert CancelFrom(live, newName, d) == [Rename(d, newName)] + un + rest;
      assert Rename(e, n) !in un;
      CancelFromRenames(live, newName, d + 1, e, n);
    }
  }

  /** `cancel_current` unassigns exactly the live entries of the DCAs from `d` on. */
  lemma {:induction false} CancelFromUnassigns(live: Live, newName: string, d: nat, e: nat, x: int)
    requires d <= |live|
    ensures UnassignAction(e, x) in CancelFrom(live, newName, d) <==> d <= e < |live| && x in LiveValues(live, e)
    decreases |live| - d
  {
    if d < |live| {
      var vs := LiveValues(live, d);
      var un := UnassignEach(d, vs);
      var rest := CancelFrom(live, newName, d + 1);
      assert CancelFrom(live, newName, d) == [Rename(d, newName)] + un + rest;
      if e == d && x in vs {
        var i :| 0 <= i < |vs| && vs[i] == x;
        assert un[i] == UnassignAction(e, x);
      }
      CancelFromUnassigns(live, newName, d + 1, e, x);
    }
  }

  /** `cancel_current` (a reset cue): rename every DCA, unassign every live
      entry, then the mutes. */
  function CancelCurrent(live: Live, newName: string): seq<Action> {
    WithMutes(CancelFrom(live, newName, 0))
  }

  /** One step of the commit loop of `call_cue`. `None` is where the source
      raises: a DCA index out of range, or an unassign of an input the block does
      not hold (`list.index` ValueError). */
  function CommitAction(live: Live, a: Action): (r: Option<Live>)
    ensures r.Some? ==> |r.value| == |live|
    ensures r.Some? ==> forall e :: 0 <= e < |live| && e != DcaKey(a) ==> r.value[e] == live[e]
    ensures (a.Mute? || a.Unmute?) ==> r == Some(live)
    ensures a.AssignAction? ==> (r.Some? <==> a.dca < |live|)
    ensures a.AssignAction? && r.Some? ==>
      && r.value[a.dca].given == live[a.dca].given
      && multiset(Values(r.value[a.dca].entries)) == multiset(Values(live[a.dca].entries)) + multiset{a.input}
      && (Sorted(live[a.dca].entries) ==> Sorted(r.value[a.dca].entries))
    ensures a.UnassignAction? ==> (r.Some? <==> a.dca < |live| && a.input in LiveValues(live, a.dca))
    ensures a.UnassignAction? && r.Some? ==>
      && r.value[a.dca].given == live[a.dca].given
      && multiset(Values(r.value[a.dca].entries)) == multiset(Values(live[a.dca].entries)) - multiset{a.input}
      && (Sorted(live[a.dca].entries) ==> Sorted(r.value[a.dca].entries))
    ensures a.Rename? ==> (r.Some? <==> a.dca < |live|)
    ensures a.Rename? && r.Some? ==>
      r.value[a.dca] == live[a.dca].(given := GivenFrom(a.name))
  {
    match a
    case AssignAction(d, x) =>
      if d < |live| then
        var es := live[d].entries;
        var es' := AddChild(es, NewEntry(x, NoneState));
        Some(live[d := live[d].(entries := es')])
      else None
    case UnassignAction(d, x) =>
      if d < |live| then
        var es := live[d].entries;
        match IndexOf(Values(es), x)
        case None => None
        case Some(i) =>
          var es' := RemoveAt(es, i);
          ValuesRemoveAt(es, i);
          RemoveAtSorted(es, i);
          Some(live[d := live[d].(entries := es')])
      else None
    case Rename(d, n) =>
      if d < |live| then Some(live[d := BlockSetData(live[d], n, EditRole).0]) else None
    case _ => Some(live)
  }

  /** The commit loop of `call_cue`: apply the actions in emission order;
      `None` if any step would raise. */
  function Commit(live: Live, acts: seq<Action>): (r: Option<Live>)
    ensures r.Some? ==> |r.value| == |live|
    decreases |acts|
  {
    if |acts| == 0 then Some(live)
    else
      match CommitAction(live, acts[0])
      case None => None
      case Some(l) => Commit(l, acts[1..])
  }

  /** A cue as `call_cue` sees it. */
  datatype Cue = ChangeCue(id: nat, changes: seq<CueTarget>) | ResetCue(id: nat, newName: string)

  /** The tracker's own state: the live row, the diff cached by the last
      selection, the id of the last selected cue, and whether the predictive
      (mapper-backed) mode is on. */
  datatype TrackerState = TrackerState(
    live: Live, cached: seq<Action>, lastSelected: Option<nat>, predictive: bool)

  /** Which change list `call_cue` uses: the cached diff if it is non-empty and
      belongs to this cue; else the mapper diff (predictive mode, `mapperRow` being
      the mapper's row for the cue, `None` where `find_cuerow` finds nothing) or
      the diff of the stored `dca_changes` (names read as by `dca.get`) for a
      change cue; else `cancel_current` for a reset cue. */
  function ChangesFor(st: TrackerState, cue: Cue, mapperRow: Option<seq<Block>>): (r: Option<seq<Action>>)
    ensures st.cached != [] && st.lastSelected == Some(cue.id) ==> r == Some(st.cached)
    ensures !(st.cached != [] && st.lastSelected == Some(cue.id)) && cue.ResetCue? ==>
      r == Some(CancelCurrent(st.live, cue.newName))
    ensures !(st.cached != [] && st.lastSelected == Some(cue.id)) && cue.ChangeCue? && st.predictive ==>
      (r.Some? <==> mapperRow.Some? && |mapperRow.value| <= |st.live|)
    ensures !(st.cached != [] && st.lastSelected == Some(cue.id)) && cue.ChangeCue? && !st.predictive ==>
      (r.Some? <==> !DiffOverruns(TargetsOf(cue.changes), st.live)) &&
      (r.Some? ==> r.value == CalculateDiff(TargetsOf(cue.changes), st.live))
  {
    if st.cached != [] && st.lastSelected == Some(cue.id) then Some(st.cached)
    else if cue.ChangeCue? then
      if st.predictive then
        match mapperRow
        case None => None
        case Some(row) => if |row| <= |st.live| then Some(CalculateDiffFromMapper(row, st.live)) else None
      else CalculateDiffOfCue(cue.changes, st.live)
    else Some(CancelCurrent(st.live, cue.newName))
  }

  /** `call_cue` without the MIDI send: pick the changes, then commit them into
      the live row. */
  function CallCue(st: TrackerState, cue: Cue, mapperRow: Option<seq<Block>>): (r: Option<TrackerState>)
    ensures r.Some? ==> r.value.cached == st.cached && r.value.lastSelected == st.lastSelected
    ensures r.Some? ==>
      ChangesFor(st, cue, mapperRow).Some? &&
      Some(r.value.live) == Commit(st.live, ChangesFor(st, cue, mapperRow).value)
  {
    match ChangesFor(st, cue, mapperRow)
    case None => None
    case Some(changes) =>
      match Commit(st.live, changes)
      case None => None
      case Some(l) => Some(st.(live := l))
  }
}
