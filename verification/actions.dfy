/** The action list the trackers emit (tracker/model.py `_create_*_action`),
    and the mute-coalescing scratch map (`assign_changes`) behind it. */
module Actions {
  import opened Wrappers
  import opened Primitives

  /** One wire action. DCAs are 0-based; the input is the `strip` number. */
  datatype Action =
    | AssignAction(dca: nat, input: int)
    | UnassignAction(dca: nat, input: int)
    | Rename(dca: nat, name: string)
    | Mute(input: int)
    | Unmute(input: int)

  /** Scratch-map values: 1 = unmute, 0 = mute, -1 = keep on (moved between DCAs). */
  const UNMUTE: int := 1
  const MUTE: int := 0
  const KEEP_ON: int := -1

  datatype Direction = Assigning | Unassigning

  /** The scratch map as Python keeps it: an insertion-ordered dictionary,
      written as an association list. */
  type Scratch = seq<(int, int)>

  ghost predicate DistinctKeys(s: Scratch) {
    forall i, j :: 0 <= i < j < |s| ==> s[i].0 != s[j].0
  }

  ghost predicate ScratchValues(s: Scratch) {
    forall i :: 0 <= i < |s| ==> s[i].1 in {UNMUTE, MUTE, KEEP_ON}
  }

  /** `assign_changes.get(x)`. */
  function Lookup(s: Scratch, x: int): (r: Option<int>)
    ensures r.None? <==> x !in Keys(s)
    ensures r.Some? ==> exists i :: 0 <= i < |s| && s[i] == (x, r.value)
  {
    if |s| == 0 then None
    else if s[0].0 == x then Some(s[0].1)
    else Lookup(s[1..], x)
  }

  lemma LookupAt(s: Scratch, i: nat)
    requires DistinctKeys(s) && i < |s|
    ensures Lookup(s, s[i].0) == Some(s[i].1)
  {
    if i > 0 {
      LookupAt(s[1..], i - 1);
    }
  }

  /** `assign_changes[x] = c` for a key already present: the key keeps its place. */
  function Overwrite(s: Scratch, x: int, c: int): (r: Scratch)
    requires DistinctKeys(s)
    ensures Keys(r) == Keys(s) && DistinctKeys(r)
    ensures ScratchValues(s) && c in {UNMUTE, MUTE, KEEP_ON} ==> ScratchValues(r)
    ensures x in Keys(s) ==> Lookup(r, x) == Some(c)
    ensures forall y :: y != x ==> Lookup(r, y) == Lookup(s, y)
  {
    var r := seq(|s|, i requires 0 <= i < |s| => if s[i].0 == x then (x, c) else s[i]);
    assert Keys(r) == Keys(s);
    OverwriteLookup(s, r, x, c);
    r
  }

  lemma {:induction false} OverwriteLookup(s: Scratch, r: Scratch, x: int, c: int)
    requires |r| == |s|
    requires forall i :: 0 <= i < |s| ==> r[i] == (if s[i].0 == x then (x, c) else s[i])
    ensures x in Keys(s) ==> Lookup(r, x) == Some(c)
    ensures forall y :: y != x ==> Lookup(r, y) == Lookup(s, y)
    decreases |s|
  {
    if |s| > 0 {
      OverwriteLookup(s[1..], r[1..], x, c);
    }
  }

  /** `_update_assign_changes`: the scratch map's state machine.
      An assign sets an absent key to 1 and turns a 0 into -1; an unassign sets
      an absent key to 0 and turns a 1 into -1; every other case leaves the map
      as it was. No other key changes, and a new key goes at the end. */
  function Update(s: Scratch, dir: Direction, x: int): (r: Scratch)
    requires DistinctKeys(s)
    ensures DistinctKeys(r)
    ensures ScratchValues(s) ==> ScratchValues(r)
    ensures Keys(r) == (if x in Keys(s) then Keys(s) else Keys(s) + [x])
    ensures forall y :: y != x ==> Lookup(r, y) == Lookup(s, y)
    ensures dir == Assigning ==>
      && (Lookup(s, x).None? ==> Lookup(r, x) == Some(UNMUTE))
      && (Lookup(s, x) == Some(MUTE) ==> Lookup(r, x) == Some(KEEP_ON))
      && (Lookup(s, x) in {Some(UNMUTE), Some(KEEP_ON)} ==> r == s)
    ensures dir == Unassigning ==>
      && (Lookup(s, x).None? ==> Lookup(r, x) == Some(MUTE))
      && (Lookup(s, x) == Some(UNMUTE) ==> Lookup(r, x) == Some(KEEP_ON))
      && (Lookup(s, x) in {Some(MUTE), Some(KEEP_ON)} ==> r == s)
  {
    match Lookup(s, x)
    case None =>
      var r := s + [(x, if dir == Assigning then UNMUTE else MUTE)];
      AppendLookup(s, x, r[|s|].1);
      assert Keys(r) == Keys(s) + [x];
      r
    case Some(c) =>
      if dir == Assigning && c == MUTE then Overwrite(s, x, KEEP_ON)
      else if dir == Unassigning && c == UNMUTE then Overwrite(s, x, KEEP_ON)
      else s
  }

  lemma {:induction false} AppendLookup(s: Scratch, x: int, c: int)
    requires x !in Keys(s)
    ensures Lookup(s + [(x, c)], x) == Some(c)
    ensures forall y :: y != x ==> Lookup(s + [(x, c)], y) == Lookup(s, y)
    decreases |s|
  {
    if |s| > 0 {
      assert (s + [(x, c)])[1..] == s[1..] + [(x, c)];
      assert Keys(s[1..]) == Keys(s)[1..];
      AppendLookup(s[1..], x, c);
    }
  }

  /** The scratch-map effect of one action: assigns and unassigns feed the state
      machine, renames and mutes do not touch it. */
  function StepScratch(s: Scratch, a: Action): (r: Scratch)
    requires DistinctKeys(s)
    ensures DistinctKeys(r)
  {
    match a
    case AssignAction(_, x) => Update(s, Assigning, x)
    case UnassignAction(_, x) => Update(s, Unassigning, x)
    case _ => s
  }

  /** The scratch map after the diff has created `acts`: `_update_assign_changes`
      runs once per created assign/unassign action, in emission order. */
  function ScratchOf(acts: seq<Action>): (s: Scratch)
    ensures DistinctKeys(s) && ScratchValues(s)
  {
    if |acts| == 0 then [] else StepScratch(ScratchOf(acts[..|acts| - 1]), acts[|acts| - 1])
  }

  ghost predicate HasAssign(acts: seq<Action>, x: int) {
    exists i :: 0 <= i < |acts| && acts[i].AssignAction? && acts[i].input == x
  }

  ghost predicate HasUnassign(acts: seq<Action>, x: int) {
    exists i :: 0 <= i < |acts| && acts[i].UnassignAction? && acts[i].input == x
  }

  /** What the scratch map ends up saying about input `x`, independently of the
      order of the actions: nothing if `x` was never touched, unmute if it was
      only assigned, mute if it was only unassigned, keep-on if both. */
  lemma {:induction false} ScratchMeaning(acts: seq<Action>, x: int)
    ensures Lookup(ScratchOf(acts), x) ==
      if !HasAssign(acts, x) && !HasUnassign(acts, x) then None
      else if !HasUnassign(acts, x) then Some(UNMUTE)
      else if !HasAssign(acts, x) then Some(MUTE)
      else Some(KEEP_ON)
    decreases |acts|
  {
    if |acts| > 0 {
      var init := acts[..|acts| - 1];
      var a := acts[|acts| - 1];
      ScratchMeaning(init, x);
      HasSnoc(acts, x);
      var s := ScratchOf(init);
      assert ScratchOf(acts) == StepScratch(s, a);
      match a
      case AssignAction(_, y) =>
        assert Lookup(Update(s, Assigning, y), x) == (if y == x then Lookup(Update(s, Assigning, x), x) else Lookup(s, x));
      case UnassignAction(_, y) =>
        assert Lookup(Update(s, Unassigning, y), x) == (if y == x then Lookup(Update(s, Unassigning, x), x) else Lookup(s, x));
      case _ =>
    }
  }

  /** Whether a list holds an assign or unassign of `x`, one action at a time. */
  lemma HasSnoc(acts: seq<Action>, x: int)
    requires |acts| > 0
    ensures var init := acts[..|acts| - 1]; var a := acts[|acts| - 1];
      && (HasAssign(acts, x) <==> HasAssign(init, x) || (a.AssignAction? && a.input == x))
      && (HasUnassign(acts, x) <==> HasUnassign(init, x) || (a.UnassignAction? && a.input == x))
  {
    var init := acts[..|acts| - 1];
    assert forall i :: 0 <= i < |init| ==> init[i] == acts[i];
  }

  /** `_calculate_mutes`: walk the scratch map in insertion order, emitting an
      unmute for a 1, a mute for a 0 and nothing for a -1. */
  function CalculateMutes(s: Scratch): (r: seq<Action>)
    requires DistinctKeys(s)
    ensures forall i :: 0 <= i < |r| ==> r[i].Mute? || r[i].Unmute?
    ensures forall i :: 0 <= i < |r| ==> r[i].input in Keys(s)
  {
    if |s| == 0 then []
    else
      var x := s[0].0;
      var c := s[0].1;
      var head := if c == UNMUTE then [Unmute(x)] else if c == MUTE then [Mute(x)] else [];
      assert Keys(s) == [x] + Keys(s[1..]);
      head + CalculateMutes(s[1..])
  }

  /** The mutes name each key at most once: an unmute exactly for the keys
      mapped to 1 and a mute exactly for those mapped to 0. */
  lemma {:induction false} CalculateMutesRules(s: Scratch)
    requires DistinctKeys(s)
    ensures var r := CalculateMutes(s);
      && (forall x :: Unmute(x) in r <==> Lookup(s, x) == Some(UNMUTE))
      && (forall x :: Mute(x) in r <==> Lookup(s, x) == Some(MUTE))
      && (forall i, j :: 0 <= i < j < |r| ==> r[i] != r[j])
    decreases |s|
  {
    if |s| > 0 {
      var x := s[0].0;
      var c := s[0].1;
      var tail := CalculateMutes(s[1..]);
      assert Keys(s) == [x] + Keys(s[1..]);
      assert x !in Keys(s[1..]) by {
        forall i | 0 <= i < |s[1..]| ensures s[1..][i].0 != x {
          assert s[1..][i] == s[i + 1];
        }
      }
      CalculateMutesRules(s[1..]);
      assert Unmute(x) !in tail && Mute(x) !in tail;
    }
  }

  /** A diff's final action list: its assign/unassign/rename actions, then the
      coalesced mutes and unmutes. */
  function WithMutes(acts: seq<Action>): seq<Action> {
    acts + CalculateMutes(ScratchOf(acts))
  }

  /** The diff comes first, unchanged; after it only mutes and unmutes. */
  lemma WithMutesSplit(acts: seq<Action>)
    ensures forall i :: 0 <= i < |acts| ==> WithMutes(acts)[i] == acts[i]
    ensures forall i :: |acts| <= i < |WithMutes(acts)| ==> WithMutes(acts)[i].Mute? || WithMutes(acts)[i].Unmute?
  {
    var m := CalculateMutes(ScratchOf(acts));
    forall i | |acts| <= i < |WithMutes(acts)| ensures WithMutes(acts)[i].Mute? || WithMutes(acts)[i].Unmute? {
      assert WithMutes(acts)[i] == m[i - |acts|];
    }
  }

  ghost predicate NoMutes(acts: seq<Action>) {
    forall i :: 0 <= i < |acts| ==> !acts[i].Mute? && !acts[i].Unmute?
  }

  /** The mute/unmute tail of a diff: an unmute for exactly the inputs that were
      only assigned, a mute for exactly those only unassigned, nothing for an
      input both assigned and unassigned (it moved between DCAs and stays on),
      each at most once and only after every other action. */
  lemma MuteTail(acts: seq<Action>, x: int)
    requires NoMutes(acts)
    ensures var r := WithMutes(acts);
      && r[..|acts|] == acts
      && (forall i :: |acts| <= i < |r| ==> r[i].Mute? || r[i].Unmute?)
      && (Unmute(x) in r <==> HasAssign(acts, x) && !HasUnassign(acts, x))
      && (Mute(x) in r <==> HasUnassign(acts, x) && !HasAssign(acts, x))
  {
    ScratchMeaning(acts, x);
    CalculateMutesRules(ScratchOf(acts));
    var r := WithMutes(acts);
    assert r[..|acts|] == acts;
    assert Unmute(x) in acts ==> false;
    assert Mute(x) in acts ==> false;
  }
}
