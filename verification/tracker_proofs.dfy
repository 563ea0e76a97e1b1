/** What the tracker's diffs mean once committed: `calculate_diff` and
    `cancel_current` contents, and set reconciliation of the mapper diff. */
module TrackerProofs {
  import opened Wrappers
  import opened Primitives
  import opened Actions
  import opened Tracker
  import CueModel

  ghost function SetOf(vs: seq<int>): set<int> {
    set i | 0 <= i < |vs| :: vs[i]
  }

  /** The whole of `calculate_diff`: assigns for adds not live on the same DCA,
      unassigns for removes live on the same DCA, renames for changed non-empty
      names, then an unmute for each input only assigned and a mute for each input
      only unassigned, after every other action. */
  lemma CalculateDiffContents(targets: seq<DcaTarget>, live: Live, e: nat, x: int, n: string)
    requires |targets| <= |live|
    ensures var acts := DiffActions(targets, live);
      var r := CalculateDiff(targets, live);
      && r[..|acts|] == acts && InDiffOrder(acts)
      && (forall i :: |acts| <= i < |r| ==> r[i].Mute? || r[i].Unmute?)
      && (AssignAction(e, x) in r <==>
            e < |targets| && x in targets[e].add && x !in LiveValues(live, e))
      && (UnassignAction(e, x) in r <==>
            e < |targets| && x in targets[e].rem && x in LiveValues(live, e))
      && (Rename(e, n) in r <==>
            e < |targets| && n == targets[e].name && n != "" && BlockName(live[e]) != n)
      && (Unmute(x) in r <==> HasAssign(acts, x) && !HasUnassign(acts, x))
      && (Mute(x) in r <==> HasUnassign(acts, x) && !HasAssign(acts, x))
  {
    var acts := DiffActions(targets, live);
    var r := CalculateDiff(targets, live);
    DiffActionsInOrder(targets, live);
    DiffActionsRange(targets, live);
    MuteTail(acts, x);
    DiffActionsAssigns(targets, live, e, x);
    DiffActionsUnassigns(targets, live, e, x);
    DiffActionsRenames(targets, live, e, n);
    var mutes := CalculateMutes(ScratchOf(acts));
    assert r == acts + mutes;
    assert AssignAction(e, x) !in mutes && UnassignAction(e, x) !in mutes && Rename(e, n) !in mutes;
  }

  /** `cancel_current`: exactly one rename to the new name per DCA, an unassign
      for every live entry, no assigns, and only mutes (never an unmute). */
  lemma CancelCurrentContents(live: Live, newName: string, e: nat, x: int, n: string)
    ensures var r := CancelCurrent(live, newName);
      && (Rename(e, n) in r <==> e < |live| && n == newName)
      && (UnassignAction(e, x) in r <==> e < |live| && x in LiveValues(live, e))
      && AssignAction(e, x) !in r
      && Unmute(x) !in r
      && (Mute(x) in r <==> exists d :: 0 <= d < |live| && x in LiveValues(live, d))
  {
    var acts := CancelFrom(live, newName, 0);
    var r := CancelCurrent(live, newName);
    MuteTail(acts, x);
    CancelFromRenames(live, newName, 0, e, n);
    CancelFromUnassigns(live, newName, 0, e, x);
    var mutes := CalculateMutes(ScratchOf(acts));
    assert r == acts + mutes;
    assert Rename(e, n) !in mutes && UnassignAction(e, x) !in mutes && AssignAction(e, x) !in mutes;
    assert !HasAssign(acts, x);
    if exists d :: 0 <= d < |live| && x in LiveValues(live, d) {
      var d :| 0 <= d < |live| && x in LiveValues(live, d);
      CancelFromUnassigns(live, newName, 0, d, x);
      assert UnassignAction(d, x) in acts;
    }
    if HasUnassign(acts, x) {
      var i :| 0 <= i < |acts| && acts[i].UnassignAction? && acts[i].input == x;
      assert acts[i] in acts;
      CancelFromUnassigns(live, newName, 0, acts[i].dca, x);
    }
  }

  /** Committing a concatenation commits the parts in turn. */
  lemma {:induction false} CommitAppend(l: Live, a: seq<Action>, b: seq<Action>)
    ensures Commit(l, a + b) ==
      match Commit(l, a)
      case None => None
      case Some(l') => Commit(l', b)
    decreases |a|
  {
    if |a| == 0 {
      assert a + b == b;
    } else {
      assert (a + b)[0] == a[0];
      assert (a + b)[1..] == a[1..] + b;
      match CommitAction(l, a[0])
      case None =>
      case Some(l1) => CommitAppend(l1, a[1..], b);
    }
  }

  /** Mutes and unmutes leave the live state as it is. */
  lemma {:induction false} CommitMutes(l: Live, m: seq<Action>)
    requires forall i :: 0 <= i < |m| ==> m[i].Mute? || m[i].Unmute?
    ensures Commit(l, m) == Some(l)
    decreases |m|
  {
    if |m| > 0 {
      CommitMutes(l, m[1..]);
    }
  }

  /** Unassigning the first entry's input drops exactly that entry. */
  lemma CommitUnassignHead(l: Live, d: nat)
    requires d < |l| && |l[d].entries| > 0
    ensures CommitAction(l, UnassignAction(d, LiveValues(l, d)[0])) ==
      Some(l[d := l[d].(entries := l[d].entries[1..])])
  {
    var es := l[d].entries;
    assert IndexOf(Values(es), es[0].value) == Some(0);
    assert RemoveAt(es, 0) == es[1..];
  }

  /** Committing unassigns of every entry value of DCA `d`, in entry order,
      empties that block and changes nothing else. */
  lemma {:induction false} CommitUnassignEach(l: Live, d: nat)
    requires d < |l|
    ensures Commit(l, UnassignEach(d, LiveValues(l, d))) == Some(l[d := l[d].(entries := [])])
    decreases |l[d].entries|
  {
    var es := l[d].entries;
    var vs := LiveValues(l, d);
    var u := UnassignEach(d, vs);
    if |es| == 0 {
      assert l[d := l[d].(entries := [])] == l;
    } else {
      var l1 := l[d := l[d].(entries := es[1..])];
      CommitUnassignHead(l, d);
      UnassignEachTail(d, vs);
      assert LiveValues(l1, d) == vs[1..];
      CommitUnassignEach(l1, d);
      assert l1[d].(entries := []) == l[d].(entries := []);
      UpdateTwice(l, d, l1[d], l[d].(entries := []));
    }
  }

  lemma UpdateTwice(l: Live, d: nat, b1: Block, b2: Block)
    requires d < |l|
    ensures l[d := b1][d := b2] == l[d := b2]
  {
  }

  lemma UnassignEachTail(d: nat, vs: seq<int>)
    requires |vs| > 0
    ensures UnassignEach(d, vs)[0] == UnassignAction(d, vs[0])
    ensures UnassignEach(d, vs)[1..] == UnassignEach(d, vs[1..])
  {
  }

  /** `CancelFrom` reads only the DCAs from `d` on. */
  lemma {:induction false} CancelFromFrame(l: Live, l': Live, n: string, d: nat)
    requires |l| == |l'| && d <= |l|
    requires forall e :: d <= e < |l| ==> l[e] == l'[e]
    ensures CancelFrom(l, n, d) == CancelFrom(l', n, d)
    decreases |l| - d
  {
    if d < |l| {
      CancelFromFrame(l, l', n, d + 1);
    }
  }

  /** The live row after cancelling DCAs `d..`: emptied and renamed. */
  ghost function CancelledFrom(l: Live, n: string, d: nat): (r: Live)
    ensures |r| == |l|
    ensures forall e :: 0 <= e < |l| ==>
      r[e] == if e < d then l[e] else l[e].(given := GivenFrom(n), entries := [])
  {
    seq(|l|, e requires 0 <= e < |l| => if e < d then l[e] else l[e].(given := GivenFrom(n), entries := []))
  }

  /** Committing `cancel_current` leaves every DCA empty and named with the new
      name (cleared if the new name is empty); the inherited names stay. */
  lemma CommitCancelCurrent(live: Live, newName: string)
    ensures var r := Commit(live, CancelCurrent(live, newName));
      && r.Some? && |r.value| == |live|
      && forall e :: 0 <= e < |live| ==>
           r.value[e] == live[e].(given := GivenFrom(newName), entries := [])
  {
    var acts := CancelFrom(live, newName, 0);
    var mutes := CalculateMutes(ScratchOf(acts));
    assert CancelCurrent(live, newName) == acts + mutes;
    CommitAppend(live, acts, mutes);
    CommitCancelFrom(live, newName, 0);
    CommitMutes(CancelledFrom(live, newName, 0), mutes);
  }

  lemma {:induction false} CommitCancelFrom(l: Live, n: string, d: nat)
    requires d <= |l|
    ensures Commit(l, CancelFrom(l, n, d)) == Some(CancelledFrom(l, n, d))
    decreases |l| - d
  {
    if d == |l| {
      assert CancelledFrom(l, n, d) == l;
    } else {
      var l1 := l[d := l[d].(given := GivenFrom(n))];
      assert CommitAction(l, Rename(d, n)) == Some(l1);
      assert Commit(l, [Rename(d, n)]) == Some(l1);
      var un := UnassignEach(d, LiveValues(l, d));
      assert un == UnassignEach(d, LiveValues(l1, d));
      CommitUnassignEach(l1, d);
      var l2 := l1[d := l1[d].(entries := [])];
      var rest := CancelFrom(l, n, d + 1);
      CancelFromFrame(l, l2, n, d + 1);
      CommitCancelFrom(l2, n, d + 1);
      CommitAppend(l, [Rename(d, n)], un);
      CommitAppend(l, [Rename(d, n)] + un, rest);
      assert CancelFrom(l, n, d) == [Rename(d, n)] + un + rest;
      assert CancelledFrom(l2, n, d + 1) == CancelledFrom(l, n, d);
    }
  }

  // ---- Set reconciliation of a commit ----

  ghost predicate IsMembership(a: Action) {
    a.AssignAction? || a.UnassignAction?
  }

  /** No assign or unassign action occurs twice. */
  ghost predicate NoRepeats(acts: seq<Action>) {
    forall i, j :: 0 <= i < j < |acts| && IsMembership(acts[i]) ==> acts[i] != acts[j]
  }

  /** A list every step of which can be committed: DCAs in range, no repeated
      membership action, assigns only of inputs not live on their DCA and
      unassigns only of inputs live on it. */
  ghost predicate CleanFor(live: Live, acts: seq<Action>) {
    && (forall i :: 0 <= i < |acts| ==> DcaKey(acts[i]) < |live|)
    && NoRepeats(acts)
    && (forall i :: 0 <= i < |acts| && acts[i].AssignAction? ==>
          acts[i].input !in LiveValues(live, acts[i].dca))
    && (forall i :: 0 <= i < |acts| && acts[i].UnassignAction? ==>
          acts[i].input in LiveValues(live, acts[i].dca))
  }

  ghost predicate LiveDistinct(live: Live) {
    forall d :: 0 <= d < |live| ==> DistinctInts(LiveValues(live, d))
  }

  ghost function AssignedOn(acts: seq<Action>, d: nat): set<int> {
    set i | 0 <= i < |acts| && acts[i].AssignAction? && acts[i].dca == d :: acts[i].input
  }

  ghost function UnassignedOn(acts: seq<Action>, d: nat): set<int> {
    set i | 0 <= i < |acts| && acts[i].UnassignAction? && acts[i].dca == d :: acts[i].input
  }

  ghost predicate Untouched(acts: seq<Action>, d: nat) {
    forall i :: 0 <= i < |acts| ==> DcaKey(acts[i]) != d
  }

  lemma DistinctInsertAt(s: seq<int>, k: nat, x: int)
    requires k <= |s| && DistinctInts(s) && x !in s
    ensures DistinctInts(InsertAt(s, k, x)) && SetOf(InsertAt(s, k, x)) == SetOf(s) + {x}
  {
    var r := InsertAt(s, k, x);
    forall y | y in SetOf(s) + {x} ensures y in SetOf(r) {
      if y != x {
        var i :| 0 <= i < |s| && s[i] == y;
        if i < k { assert r[i] == y; } else { assert r[i + 1] == y; }
      } else {
        assert r[k] == x;
      }
    }
  }

  lemma DistinctRemoveAt(s: seq<int>, k: nat)
    requires k < |s| && DistinctInts(s)
    ensures DistinctInts(RemoveAt(s, k)) && SetOf(RemoveAt(s, k)) == SetOf(s) - {s[k]}
  {
    var r := RemoveAt(s, k);
    forall y | y in SetOf(s) - {s[k]} ensures y in SetOf(r) {
      var i :| 0 <= i < |s| && s[i] == y;
      if i < k { assert r[i] == y; } else { assert r[i - 1] == y; }
    }
  }

  /** One clean step: the block it touches gains or loses exactly the input
      and stays duplicate-free; a rename keeps its inputs. */
  lemma CommitActionSets(live: Live, a: Action)
    requires DcaKey(a) < |live|
    requires IsMembership(a) ==> DistinctInts(LiveValues(live, a.dca))
    requires a.AssignAction? ==> a.input !in LiveValues(live, a.dca)
    requires a.UnassignAction? ==> a.input in LiveValues(live, a.dca)
    ensures CommitAction(live, a).Some?
    ensures IsMembership(a) ==> DistinctInts(LiveValues(CommitAction(live, a).value, a.dca))
    ensures a.AssignAction? ==>
      SetOf(LiveValues(CommitAction(live, a).value, a.dca)) == SetOf(LiveValues(live, a.dca)) + {a.input}
    ensures a.UnassignAction? ==>
      SetOf(LiveValues(CommitAction(live, a).value, a.dca)) == SetOf(LiveValues(live, a.dca)) - {a.input}
    ensures a.Rename? ==> LiveValues(CommitAction(live, a).value, a.dca) == LiveValues(live, a.dca)
  {
    var l := CommitAction(live, a).value;
    match a {
    case AssignAction(d, x) =>
      var es := live[d].entries;
      var k := InsertPoint(Values(es), x);
      assert Values(l[d].entries) == InsertAt(Values(es), k, x);
      DistinctInsertAt(Values(es), k, x);
    case UnassignAction(d, x) =>
      var es := live[d].entries;
      var i := IndexOf(Values(es), x).value;
      assert l[d].entries == RemoveAt(es, i);
      ValuesRemoveAt(es, i);
      DistinctRemoveAt(Values(es), i);
    case Rename(d, n) =>
      assert l[d].entries == live[d].entries;
    case _ =>
    }
  }

  /** A clean step keeps every block duplicate-free. */
  lemma CommitActionDistinct(live: Live, a: Action)
    requires LiveDistinct(live) && DcaKey(a) < |live|
    requires a.AssignAction? ==> a.input !in LiveValues(live, a.dca)
    requires a.UnassignAction? ==> a.input in LiveValues(live, a.dca)
    ensures CommitAction(live, a).Some?
    ensures LiveDistinct(CommitAction(live, a).value)
  {
    if IsMembership(a) {
      assert DistinctInts(LiveValues(live, a.dca));
    }
    CommitActionSets(live, a);
    var l := CommitAction(live, a).value;
    forall e | 0 <= e < |l| ensures DistinctInts(LiveValues(l, e)) {
      assert DistinctInts(LiveValues(live, e));
      if e != DcaKey(a) {
        assert l[e] == live[e];
      }
    }
  }

  /** After a clean first step the rest of the list is still clean. */
  lemma CleanStep(live: Live, acts: seq<Action>)
    requires CleanFor(live, acts) && LiveDistinct(live) && |acts| > 0
    ensures CommitAction(live, acts[0]).Some?
    ensures CleanFor(CommitAction(live, acts[0]).value, acts[1..])
    ensures LiveDistinct(CommitAction(live, acts[0]).value)
  {
    var rest := acts[1..];
    CommitActionDistinct(live, acts[0]);
    var l1 := CommitAction(live, acts[0]).value;
    CleanStepMembership(live, acts);
    forall i | 0 <= i < |rest| ensures DcaKey(rest[i]) < |l1| {
      assert acts[i + 1] == rest[i];
    }
    forall i, j | 0 <= i < j < |rest| && IsMembership(rest[i]) ensures rest[i] != rest[j] {
      assert acts[i + 1] == rest[i] && acts[j + 1] == rest[j];
    }
  }

  /** After a clean first step, the later assigns are still of inputs not live
      and the later unassigns of inputs live. */
  lemma CleanStepMembership(live: Live, acts: seq<Action>)
    requires CleanFor(live, acts) && LiveDistinct(live) && |acts| > 0
    ensures CommitAction(live, acts[0]).Some?
    ensures forall i :: 1 <= i < |acts| && acts[i].AssignAction? ==>
      acts[i].input !in LiveValues(CommitAction(live, acts[0]).value, acts[i].dca)
    ensures forall i :: 1 <= i < |acts| && acts[i].UnassignAction? ==>
      acts[i].input in LiveValues(CommitAction(live, acts[0]).value, acts[i].dca)
  {
    CommitActionDistinct(live, acts[0]);
    forall i | 1 <= i < |acts| && IsMembership(acts[i])
      ensures acts[i].AssignAction? ==> acts[i].input !in LiveValues(CommitAction(live, acts[0]).value, acts[i].dca)
      ensures acts[i].UnassignAction? ==> acts[i].input in LiveValues(CommitAction(live, acts[0]).value, acts[i].dca)
    {
      StepKeeps(live, acts[0], acts[i]);
    }
  }

  /** A clean step `a` keeps another membership action `b` clean. */
  lemma StepKeeps(live: Live, a: Action, b: Action)
    requires LiveDistinct(live) && DcaKey(a) < |live|
    requires a.AssignAction? ==> a.input !in LiveValues(live, a.dca)
    requires a.UnassignAction? ==> a.input in LiveValues(live, a.dca)
    requires IsMembership(b) && b.dca < |live| && a != b
    requires b.AssignAction? ==> b.input !in LiveValues(live, b.dca)
    requires b.UnassignAction? ==> b.input in LiveValues(live, b.dca)
    ensures CommitAction(live, a).Some?
    ensures b.AssignAction? ==> b.input !in LiveValues(CommitAction(live, a).value, b.dca)
    ensures b.UnassignAction? ==> b.input in LiveValues(CommitAction(live, a).value, b.dca)
  {
    if IsMembership(a) {
      assert DistinctInts(LiveValues(live, a.dca));
    }
    CommitActionSets(live, a);
    var l1 := CommitAction(live, a).value;
    if DcaKey(a) != b.dca {
      assert l1[b.dca] == live[b.dca];
    } else if a.Rename? {
      assert LiveValues(l1, b.dca) == LiveValues(live, b.dca);
    } else {
      assert b.input in SetOf(LiveValues(l1, b.dca)) <==> b.input in LiveValues(l1, b.dca);
      assert b.input in SetOf(LiveValues(live, b.dca)) <==> b.input in LiveValues(live, b.dca);
    }
  }

  /** The set equation survives prefixing one clean step. */
  lemma SetEffectStep(live: Live, acts: seq<Action>, l: Live, d: nat)
    requires |acts| > 0 && DcaKey(acts[0]) < |live| && d < |live|
    requires IsMembership(acts[0]) ==> DistinctInts(LiveValues(live, acts[0].dca))
    requires acts[0].AssignAction? ==>
      acts[0].input !in LiveValues(live, acts[0].dca) && acts[0].input !in UnassignedOn(acts[1..], acts[0].dca)
    requires acts[0].UnassignAction? ==>
      acts[0].input in LiveValues(live, acts[0].dca) && acts[0].input !in AssignedOn(acts[1..], acts[0].dca)
    requires CommitAction(live, acts[0]).Some?
    requires var l1 := CommitAction(live, acts[0]).value;
      d < |l1| && d < |l| &&
      SetOf(LiveValues(l, d)) == (SetOf(LiveValues(l1, d)) - UnassignedOn(acts[1..], d)) + AssignedOn(acts[1..], d)
    ensures SetOf(LiveValues(l, d)) == (SetOf(LiveValues(live, d)) - UnassignedOn(acts, d)) + AssignedOn(acts, d)
  {
    var a := acts[0];
    var rest := acts[1..];
    CommitActionSets(live, a);
    var l1 := CommitAction(live, a).value;
    SetsOfStep(acts, d);
    if DcaKey(a) != d {
      assert l1[d] == live[d];
    }
    var x := if IsMembership(a) then a.input else 0;
    SetStep(SetOf(LiveValues(live, d)), SetOf(LiveValues(l1, d)), UnassignedOn(acts, d), AssignedOn(acts, d),
      UnassignedOn(rest, d), AssignedOn(rest, d), x);
  }

  /** The set algebra of one step: nothing changes, or `x` is added to the
      live set and to the assigned ones, or removed and unassigned. */
  lemma SetStep(s0: set<int>, s1: set<int>, u: set<int>, a: set<int>, u1: set<int>, a1: set<int>, x: int)
    requires || (s1 == s0 && u == u1 && a == a1)
             || (s1 == s0 + {x} && u == u1 && a == a1 + {x} && x !in u1)
             || (s1 == s0 - {x} && u == u1 + {x} && a == a1 && x !in a1)
    ensures (s1 - u1) + a1 == (s0 - u) + a
  {
  }

  /** In a clean list an input assigned first is not unassigned later on the
      same DCA, and one unassigned first is not assigned later. */
  lemma FirstNoClash(live: Live, acts: seq<Action>)
    requires CleanFor(live, acts) && |acts| > 0
    ensures acts[0].AssignAction? ==> acts[0].input !in UnassignedOn(acts[1..], acts[0].dca)
    ensures acts[0].UnassignAction? ==> acts[0].input !in AssignedOn(acts[1..], acts[0].dca)
  {
    var a := acts[0];
    var rest := acts[1..];
    forall i | 0 <= i < |rest| && IsMembership(a) && IsMembership(rest[i]) && rest[i].dca == DcaKey(a) && rest[i].input == a.input
      ensures rest[i].AssignAction? <==> a.AssignAction?
    {
      assert acts[i + 1] == rest[i];
    }
  }

  /** The set effect of committing a clean list: each DCA ends up holding its
      old inputs, minus those unassigned from it, plus those assigned to it,
      still without duplicates; a DCA no action names is unchanged. */
  lemma {:induction false} CommitSetEffect(live: Live, acts: seq<Action>)
    requires CleanFor(live, acts) && LiveDistinct(live)
    ensures Commit(live, acts).Some?
    ensures var l := Commit(live, acts).value;
      && LiveDistinct(l)
      && (forall d :: 0 <= d < |live| ==>
            SetOf(LiveValues(l, d)) == (SetOf(LiveValues(live, d)) - UnassignedOn(acts, d)) + AssignedOn(acts, d))
      && (forall d :: 0 <= d < |live| && Untouched(acts, d) ==> l[d] == live[d])
    decreases |acts|
  {
    if |acts| == 0 {
      forall d | 0 <= d < |live| ensures UnassignedOn(acts, d) == {} && AssignedOn(acts, d) == {} { }
    } else {
      CleanStep(live, acts);
      var l1 := CommitAction(live, acts[0]).value;
      CommitSetEffect(l1, acts[1..]);
      assert Commit(live, acts) == Commit(l1, acts[1..]);
      var l := Commit(l1, acts[1..]).value;
      FirstNoClash(live, acts);
      assert acts[0].AssignAction? ==> acts[0].input !in LiveValues(live, acts[0].dca);
      assert acts[0].UnassignAction? ==> acts[0].input in LiveValues(live, acts[0].dca);
      assert IsMembership(acts[0]) ==> DistinctInts(LiveValues(live, acts[0].dca));
      forall d | 0 <= d < |live|
        ensures SetOf(LiveValues(l, d)) == (SetOf(LiveValues(live, d)) - UnassignedOn(acts, d)) + AssignedOn(acts, d)
      {
        SetEffectStep(live, acts, l, d);
      }
      forall d | 0 <= d < |live| && Untouched(acts, d) ensures l[d] == live[d] {
        assert DcaKey(acts[0]) != d;
        assert Untouched(acts[1..], d) by {
          forall i | 0 <= i < |acts[1..]| ensures DcaKey(acts[1..][i]) != d {
            assert acts[i + 1] == acts[1..][i];
          }
        }
      }
    }
  }

  lemma SetsOfStep(acts: seq<Action>, d: nat)
    requires |acts| > 0
    ensures AssignedOn(acts, d) ==
      AssignedOn(acts[1..], d) + (if acts[0].AssignAction? && acts[0].dca == d then {acts[0].input} else {})
    ensures UnassignedOn(acts, d) ==
      UnassignedOn(acts[1..], d) + (if acts[0].UnassignAction? && acts[0].dca == d then {acts[0].input} else {})
  {
    var rest := acts[1..];
    forall x | x in AssignedOn(acts, d)
      ensures x in AssignedOn(rest, d) || (acts[0].AssignAction? && acts[0].dca == d && x == acts[0].input)
    {
      var i :| 0 <= i < |acts| && acts[i].AssignAction? && acts[i].dca == d && acts[i].input == x;
      if i > 0 { assert rest[i - 1] == acts[i]; }
    }
    forall x | x in AssignedOn(rest, d) ensures x in AssignedOn(acts, d) {
      var i :| 0 <= i < |rest| && rest[i].AssignAction? && rest[i].dca == d && rest[i].input == x;
      assert acts[i + 1] == rest[i];
    }
    forall x | x in UnassignedOn(acts, d)
      ensures x in UnassignedOn(rest, d) || (acts[0].UnassignAction? && acts[0].dca == d && x == acts[0].input)
    {
      var i :| 0 <= i < |acts| && acts[i].UnassignAction? && acts[i].dca == d && acts[i].input == x;
      if i > 0 { assert rest[i - 1] == acts[i]; }
    }
    forall x | x in UnassignedOn(rest, d) ensures x in UnassignedOn(acts, d) {
      var i :| 0 <= i < |rest| && rest[i].UnassignAction? && rest[i].dca == d && rest[i].input == x;
      assert acts[i + 1] == rest[i];
    }
  }

  // ---- The mapper diff reconciles the live row with the cue row ----

  lemma NoRepeatsConcat(a: seq<Action>, b: seq<Action>)
    requires NoRepeats(a) && NoRepeats(b)
    requires forall i, j :: 0 <= i < |a| && 0 <= j < |b| && IsMembership(a[i]) ==> a[i] != b[j]
    ensures NoRepeats(a + b)
  {
    var c := a + b;
    forall i, j | 0 <= i < j < |c| && IsMembership(c[i]) ensures c[i] != c[j] {
      if j < |a| {
        assert c[i] == a[i] && c[j] == a[j];
      } else if i < |a| {
        assert c[i] == a[i] && c[j] == b[j - |a|];
      } else {
        assert c[i] == b[i - |a|] && c[j] == b[j - |a|];
      }
    }
  }

  /** The entry loop never emits the same action twice for a duplicate-free
      row block, and only mentions inputs of that block. */
  lemma {:induction false} EntryActionsNoRepeats(d: nat, es: seq<Entry>, live: seq<int>)
    requires DistinctInts(Values(es))
    ensures var r := EntryActions(d, es, live);
      NoRepeats(r) && forall i :: 0 <= i < |r| ==> r[i].input in Values(es)
    decreases |es|
  {
    if |es| > 0 {
      var e := es[0];
      var r := EntryActions(d, es, live);
      var rest := EntryActions(d, es[1..], live);
      var head :=
        if e.value !in live then (if e.state != Unassign then [AssignAction(d, e.value)] else [])
        else if e.state == Unassign then [UnassignAction(d, e.value)]
        else [];
      assert r == head + rest;
      assert Values(es[1..]) == Values(es)[1..];
      EntryActionsNoRepeats(d, es[1..], live);
      forall j | 0 <= j < |rest| ensures rest[j].input != e.value && rest[j].input in Values(es) {
        assert rest[j].input in Values(es)[1..];
      }
      NoRepeatsConcat(head, rest);
      forall i | 0 <= i < |r| ensures r[i].input in Values(es) {
        if i >= |head| { assert r[i] == rest[i - |head|]; }
      }
    }
  }

  /** The leftover loop never unassigns the same input twice for a
      duplicate-free live block. */
  lemma {:induction false} LeftoverNoRepeats(d: nat, live: seq<int>, cueValues: seq<int>)
    requires DistinctInts(live)
    ensures NoRepeats(LeftoverUnassigns(d, live, cueValues))
    decreases |live|
  {
    if |live| > 0 {
      var r := LeftoverUnassigns(d, live, cueValues);
      var rest := LeftoverUnassigns(d, live[1..], cueValues);
      var head := r[..|r| - |rest|];
      assert r == head + rest;
      assert DistinctInts(live[1..]);
      LeftoverNoRepeats(d, live[1..], cueValues);
      forall j | 0 <= j < |rest| ensures rest[j].input != live[0] {
        assert rest[j] == UnassignAction(d, rest[j].input);
        assert rest[j] in rest;
        LeftoverMembers(d, live[1..], cueValues, rest[j].input);
      }
      NoRepeatsConcat(head, rest);
    }
  }

  lemma DiffMapperDcaNoRepeats(d: nat, blk: Block, cur: Block)
    requires DistinctInts(Values(blk.entries)) && DistinctInts(Values(cur.entries))
    ensures NoRepeats(DiffMapperDca(d, blk, cur))
  {
    var live := Values(cur.entries);
    var rn := RenameIfChanged(d, BlockName(blk), cur);
    var ea := EntryActions(d, blk.entries, live);
    var lo := LeftoverUnassigns(d, live, Values(blk.entries));
    EntryActionsNoRepeats(d, blk.entries, live);
    LeftoverNoRepeats(d, live, Values(blk.entries));
    forall i, j | 0 <= i < |ea| && 0 <= j < |lo| && IsMembership(ea[i]) ensures ea[i] != lo[j] {
      assert lo[j] == UnassignAction(d, lo[j].input);
      assert lo[j] in lo;
      LeftoverMembers(d, live, Values(blk.entries), lo[j].input);
    }
    NoRepeatsConcat(ea, lo);
    NoRepeatsConcat(rn, ea + lo);
    assert DiffMapperDca(d, blk, cur) == rn + (ea + lo);
  }

  /** Keyed parts without repeats make a walk without repeats: two parts
      never share an assign or unassign, as they name different DCAs. */
  lemma {:induction false} PerDcaNoRepeats(part: nat -> seq<Action>, d: nat, n: nat)
    requires PartsKeyed(part, n)
    requires forall k :: d <= k < n ==> NoRepeats(part(k))
    ensures NoRepeats(PerDca(part, d, n))
    decreases n - d
  {
    if d < n {
      var here := part(d);
      var rest := PerDca(part, d + 1, n);
      PerDcaNoRepeats(part, d + 1, n);
      PerDcaRange(part, d + 1, n);
      assert forall i :: 0 <= i < |here| ==> DcaKey(here[i]) == d;
      NoRepeatsConcat(here, rest);
    }
  }

  lemma MapperActionsNoRepeats(row: seq<Block>, live: Live)
    requires |row| <= |live|
    requires forall e :: 0 <= e < |row| ==> DistinctInts(Values(row[e].entries))
    requires LiveDistinct(live)
    ensures NoRepeats(MapperActions(row, live))
  {
    var p := MapperParts(row, live);
    MapperPartsKeyed(row, live);
    forall k | 0 <= k < |row| ensures NoRepeats(p(k)) {
      assert DistinctInts(LiveValues(live, k));
      DiffMapperDcaNoRepeats(k, row[k], live[k]);
    }
    PerDcaNoRepeats(p, 0, |row|);
  }

  /** Under duplicate-free row blocks and live blocks, the mapper diff can be
      committed step by step. */
  lemma DiffMapperClean(row: seq<Block>, live: Live)
    requires |row| <= |live|
    requires forall e :: 0 <= e < |row| ==> DistinctInts(Values(row[e].entries))
    requires LiveDistinct(live)
    ensures CleanFor(live, MapperActions(row, live))
  {
    var acts := MapperActions(row, live);
    MapperActionsNoRepeats(row, live);
    MapperActionsRange(row, live);
    forall i | 0 <= i < |acts| && acts[i].AssignAction?
      ensures acts[i].input !in LiveValues(live, acts[i].dca)
    {
      assert acts[i] in acts;
      MapperActionsAssigns(row, live, acts[i].dca, acts[i].input);
    }
    forall i | 0 <= i < |acts| && acts[i].UnassignAction?
      ensures acts[i].input in LiveValues(live, acts[i].dca)
    {
      assert acts[i] in acts;
      MapperActionsUnassigns(row, live, acts[i].dca, acts[i].input);
    }
  }

  /** In a duplicate-free block no input is both UNASSIGN and not. */
  lemma StatesExclusive(es: seq<Entry>, y: int)
    requires DistinctInts(Values(es))
    ensures !(y in NonUnassigned(es) && y in Unassigned(es))
    ensures y in Values(es) <==> y in NonUnassigned(es) || y in Unassigned(es)
  {
    if y in Values(es) {
      var i :| 0 <= i < |es| && Values(es)[i] == y;
      assert es[i].value == y;
      forall j | 0 <= j < |es| && es[j].value == y ensures j == i {
        assert Values(es)[j] == y;
      }
    }
    if y in NonUnassigned(es) || y in Unassigned(es) {
      var j :| 0 <= j < |es| && es[j].value == y;
      assert Values(es)[j] == y;
    }
  }

  lemma ReconcileDca(row: seq<Block>, live: Live, l: Live, d: nat)
    requires |row| <= |live| == |l| && d < |row|
    requires DistinctInts(Values(row[d].entries))
    requires var acts := MapperActions(row, live);
      SetOf(LiveValues(l, d)) == (SetOf(LiveValues(live, d)) - UnassignedOn(acts, d)) + AssignedOn(acts, d)
    ensures SetOf(LiveValues(l, d)) == SetOf(NonUnassigned(row[d].entries))
  {
    var acts := MapperActions(row, live);
    var es := row[d].entries;
    forall y ensures y in SetOf(LiveValues(l, d)) <==> y in SetOf(NonUnassigned(es)) {
      MapperActionsAssigns(row, live, d, y);
      MapperActionsUnassigns(row, live, d, y);
      StatesExclusive(es, y);
      assert y in AssignedOn(acts, d) <==> AssignAction(d, y) in acts by {
        if AssignAction(d, y) in acts {
          var i :| 0 <= i < |acts| && acts[i] == AssignAction(d, y);
        }
      }
      assert y in UnassignedOn(acts, d) <==> UnassignAction(d, y) in acts by {
        if UnassignAction(d, y) in acts {
          var i :| 0 <= i < |acts| && acts[i] == UnassignAction(d, y);
        }
      }
      assert y in SetOf(LiveValues(live, d)) <==> y in LiveValues(live, d);
      assert y in SetOf(NonUnassigned(es)) <==> y in NonUnassigned(es);
    }
  }

  /** Committing `calculate_diff_from_mapper` makes every DCA the cue row covers
      hold exactly the row's non-UNASSIGN inputs, without duplicates, and leaves
      the other DCAs alone (row blocks and live blocks duplicate-free). */
  lemma MapperDiffReconciles(row: seq<Block>, live: Live)
    requires |row| <= |live|
    requires forall d :: 0 <= d < |row| ==> DistinctInts(Values(row[d].entries))
    requires LiveDistinct(live)
    ensures var r := Commit(live, CalculateDiffFromMapper(row, live));
      && r.Some? && |r.value| == |live| && LiveDistinct(r.value)
      && (forall d :: 0 <= d < |row| ==> SetOf(LiveValues(r.value, d)) == SetOf(NonUnassigned(row[d].entries)))
      && (forall d :: |row| <= d < |live| ==> r.value[d] == live[d])
  {
    var acts := MapperActions(row, live);
    var mutes := CalculateMutes(ScratchOf(acts));
    assert CalculateDiffFromMapper(row, live) == acts + mutes;
    DiffMapperClean(row, live);
    CommitSetEffect(live, acts);
    var l := Commit(live, acts).value;
    CommitAppend(live, acts, mutes);
    CommitMutes(l, mutes);
    forall d | 0 <= d < |row| ensures SetOf(LiveValues(l, d)) == SetOf(NonUnassigned(row[d].entries)) {
      ReconcileDca(row, live, l, d);
    }
    MapperActionsRange(row, live);
    forall d | |row| <= d < |live| ensures l[d] == live[d] {
      assert Untouched(acts, d);
    }
  }

  // ---- `calculate_diff` reconciles the live row with the targets ----

  lemma {:induction false} AssignsForNoRepeats(d: nat, adds: seq<int>, live: seq<int>)
    requires DistinctInts(adds)
    ensures NoRepeats(AssignsFor(d, adds, live))
    decreases |adds|
  {
    if |adds| > 0 {
      var r := AssignsFor(d, adds, live);
      var rest := AssignsFor(d, adds[1..], live);
      var head := if adds[0] in live then [] else [AssignAction(d, adds[0])];
      assert r == head + rest;
      assert DistinctInts(adds[1..]);
      AssignsForNoRepeats(d, adds[1..], live);
      forall j | 0 <= j < |rest| ensures rest[j].input != adds[0] {
        assert rest[j] == AssignAction(d, rest[j].input);
        assert rest[j] in rest;
        AssignsForMembers(d, adds[1..], live, rest[j].input);
      }
      NoRepeatsConcat(head, rest);
    }
  }

  lemma {:induction false} UnassignsForNoRepeats(d: nat, rems: seq<int>, live: seq<int>)
    requires DistinctInts(rems)
    ensures NoRepeats(UnassignsFor(d, rems, live))
    decreases |rems|
  {
    if |rems| > 0 {
      var r := UnassignsFor(d, rems, live);
      var rest := UnassignsFor(d, rems[1..], live);
      var head := if rems[0] !in live then [] else [UnassignAction(d, rems[0])];
      assert r == head + rest;
      assert DistinctInts(rems[1..]);
      UnassignsForNoRepeats(d, rems[1..], live);
      forall j | 0 <= j < |rest| ensures rest[j].input != rems[0] {
        assert rest[j] == UnassignAction(d, rest[j].input);
        assert rest[j] in rest;
        UnassignsForMembers(d, rems[1..], live, rest[j].input);
      }
      NoRepeatsConcat(head, rest);
    }
  }

  /** Add and remove lists without repeats. */
  ghost predicate TargetsDistinct(targets: seq<DcaTarget>) {
    forall d :: 0 <= d < |targets| ==> DistinctInts(targets[d].add) && DistinctInts(targets[d].rem)
  }

  lemma DiffDcaNoRepeats(d: nat, t: DcaTarget, cur: Block)
    requires DistinctInts(t.add) && DistinctInts(t.rem)
    ensures NoRepeats(DiffDca(d, t, cur))
  {
    var rn := RenameIfChanged(d, t.name, cur);
    var asg := AssignsFor(d, t.add, Values(cur.entries));
    var un := UnassignsFor(d, t.rem, Values(cur.entries));
    AssignsForNoRepeats(d, t.add, Values(cur.entries));
    UnassignsForNoRepeats(d, t.rem, Values(cur.entries));
    NoRepeatsConcat(rn, asg);
    NoRepeatsConcat(rn + asg, un);
    assert DiffDca(d, t, cur) == rn + asg + un;
  }

  lemma DiffActionsNoRepeats(targets: seq<DcaTarget>, live: Live)
    requires |targets| <= |live| && TargetsDistinct(targets)
    ensures NoRepeats(DiffActions(targets, live))
  {
    var p := DiffParts(targets, live);
    DiffPartsKeyed(targets, live);
    forall k | 0 <= k < |targets| ensures NoRepeats(p(k)) {
      DiffDcaNoRepeats(k, targets[k], live[k]);
    }
    PerDcaNoRepeats(p, 0, |targets|);
  }

  lemma DiffClean(targets: seq<DcaTarget>, live: Live)
    requires |targets| <= |live| && TargetsDistinct(targets)
    ensures CleanFor(live, DiffActions(targets, live))
  {
    var acts := DiffActions(targets, live);
    DiffActionsNoRepeats(targets, live);
    DiffActionsRange(targets, live);
    forall i | 0 <= i < |acts| && acts[i].AssignAction?
      ensures acts[i].input !in LiveValues(live, acts[i].dca)
    {
      assert acts[i] in acts;
      DiffActionsAssigns(targets, live, acts[i].dca, acts[i].input);
    }
    forall i | 0 <= i < |acts| && acts[i].UnassignAction?
      ensures acts[i].input in LiveValues(live, acts[i].dca)
    {
      assert acts[i] in acts;
      DiffActionsUnassigns(targets, live, acts[i].dca, acts[i].input);
    }
  }

  lemma DiffReconcilesDca(targets: seq<DcaTarget>, live: Live, l: Live, d: nat, y: int)
    requires |targets| <= |live| == |l| && d < |targets|
    requires var acts := DiffActions(targets, live);
      SetOf(LiveValues(l, d)) == (SetOf(LiveValues(live, d)) - UnassignedOn(acts, d)) + AssignedOn(acts, d)
    ensures y in LiveValues(l, d) <==>
      if y in LiveValues(live, d) then y !in targets[d].rem else y in targets[d].add
  {
    var acts := DiffActions(targets, live);
    DiffActionsAssigns(targets, live, d, y);
    DiffActionsUnassigns(targets, live, d, y);
    assert y in AssignedOn(acts, d) <==> AssignAction(d, y) in acts by {
      if AssignAction(d, y) in acts {
        var i :| 0 <= i < |acts| && acts[i] == AssignAction(d, y);
      }
    }
    assert y in UnassignedOn(acts, d) <==> UnassignAction(d, y) in acts by {
      if UnassignAction(d, y) in acts {
        var i :| 0 <= i < |acts| && acts[i] == UnassignAction(d, y);
      }
    }
    assert y in SetOf(LiveValues(live, d)) <==> y in LiveValues(live, d);
    assert y in SetOf(LiveValues(l, d)) <==> y in LiveValues(l, d);
  }

  /** Committing `calculate_diff` (add and remove lists without repeats, live
      blocks without duplicates): a DCA the targets cover holds an input after
      the commit iff it was live and not in the remove list, or was not live
      and is in the add list; other DCAs are unchanged. */
  lemma DiffReconciles(targets: seq<DcaTarget>, live: Live)
    requires |targets| <= |live| && TargetsDistinct(targets) && LiveDistinct(live)
    ensures var r := Commit(live, CalculateDiff(targets, live));
      && r.Some? && |r.value| == |live| && LiveDistinct(r.value)
      && (forall d, y :: 0 <= d < |targets| ==>
            (y in LiveValues(r.value, d) <==>
               if y in LiveValues(live, d) then y !in targets[d].rem else y in targets[d].add))
      && (forall d :: |targets| <= d < |live| ==> r.value[d] == live[d])
  {
    var acts := DiffActions(targets, live);
    var mutes := CalculateMutes(ScratchOf(acts));
    assert CalculateDiff(targets, live) == acts + mutes;
    DiffClean(targets, live);
    CommitSetEffect(live, acts);
    var l := Commit(live, acts).value;
    CommitAppend(live, acts, mutes);
    CommitMutes(l, mutes);
    forall d, y | 0 <= d < |targets|
      ensures y in LiveValues(l, d) <==>
        if y in LiveValues(live, d) then y !in targets[d].rem else y in targets[d].add
    {
      DiffReconcilesDca(targets, live, l, d, y);
    }
    DiffActionsRange(targets, live);
    forall d | |targets| <= d < |live| ensures l[d] == live[d] {
      assert Untouched(acts, d);
    }
  }

  // ---- The stored `dca_changes` and the `name` key ----

  /** As written, `calculate_diff` raises on every change cue its settings
      page stored with at least one DCA: `serialise` writes no `name` key and
      `dca['name']` raises `KeyError`. */
  lemma StoredCueRaises(blocks: seq<Block>, live: Live)
    requires |blocks| > 0
    ensures CalculateDiffAsWritten(Stored(CueModel.Serialise(blocks)), live).None?
  {
    var ts := Stored(CueModel.Serialise(blocks));
    assert ts[0].name.None?;
  }

  /** Reading the name with `dca.get('name')`, a stored cue that fits the live
      row always diffs: it never renames, assigns the inputs its row lists to
      add that are not live, and unassigns the live inputs it lists to
      remove. */
  lemma StoredCueDiffs(blocks: seq<Block>, live: Live, e: nat, x: int, n: string)
    requires |blocks| <= |live|
    ensures var r := CalculateDiffOfCue(Stored(CueModel.Serialise(blocks)), live);
      && r.Some?
      && Rename(e, n) !in r.value
      && (AssignAction(e, x) in r.value <==>
            e < |blocks| && x in CueModel.ValuesIn(blocks[e].entries, Assign) && x !in LiveValues(live, e))
      && (UnassignAction(e, x) in r.value <==>
            e < |blocks| && x in CueModel.ValuesIn(blocks[e].entries, Unassign) && x in LiveValues(live, e))
  {
    var items := CueModel.Serialise(blocks);
    var ts := TargetsOf(Stored(items));
    assert !DiffOverruns(ts, live);
    CalculateDiffContents(ts, live, e, x, n);
    if e < |blocks| {
      assert ts[e].name == "";
    }
  }
}
