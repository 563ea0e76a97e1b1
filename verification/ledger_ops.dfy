/** The mapper's row operations: finding, appending, amending, removing and
    moving cue rows, each followed by the forward cascade of its changes. */
module LedgerOps {
  import opened Wrappers
  import opened Primitives
  import opened Ledger

  /** `find_cuerow`: the first row of the cue, if any. */
  function FindCuerow(rows: seq<Row>, id: nat): (r: Option<nat>)
    ensures r.Some? ==>
      (r.value < |rows| && rows[r.value].cue == id && forall j :: 0 <= j < r.value ==> rows[j].cue != id)
    ensures r.None? <==> forall j :: 0 <= j < |rows| ==> rows[j].cue != id
    decreases |rows|
  {
    if |rows| == 0 then None
    else if rows[0].cue == id then Some(0)
    else
      match FindCuerow(rows[1..], id)
      case None => None
      case Some(j) => Some(j + 1)
  }

  // ---- Setting a row's own assigns ----

  /** The explicit pairs a list of inputs contributes with one state. */
  ghost function Pairs(vs: seq<int>, s: AssignState): multiset<(int, AssignState)>
    decreases |vs|
  {
    if |vs| == 0 then multiset{} else multiset{(vs[0], s)} + Pairs(vs[1..], s)
  }

  lemma {:induction false} ExplicitAppend(a: seq<Entry>, b: seq<Entry>)
    ensures Explicit(a + b) == Explicit(a) + Explicit(b)
    decreases |a|
  {
    if |a| > 0 {
      assert (a + b)[1..] == a[1..] + b;
      ExplicitAppend(a[1..], b);
    } else {
      assert a + b == b;
    }
  }

  /** Inserting an explicit entry adds its pair to the explicit part. */
  lemma AddChildExplicit(es: seq<Entry>, e: Entry)
    requires e.state != NoneState
    ensures multiset(Explicit(AddChild(es, e))) == multiset(Explicit(es)) + multiset{(e.value, e.state)}
  {
    var k := InsertPoint(Values(es), e.value);
    var r := AddChild(es, e);
    assert r == es[..k] + [e] + es[k..];
    assert es == es[..k] + es[k..];
    ExplicitAppend(es[..k] + [e], es[k..]);
    ExplicitAppend(es[..k], [e]);
    ExplicitAppend(es[..k], es[k..]);
    assert Explicit([e]) == [(e.value, e.state)];
  }

  /** The `for entry in ...` loops of `_set_initial_assigns`: each input is
      added as a new entry of the given state, in order of value. */
  function AddAll(es: seq<Entry>, vs: seq<int>, s: AssignState): (r: seq<Entry>)
    ensures |r| == |es| + |vs|
    ensures Sorted(es) ==> Sorted(r)
    decreases |vs|
  {
    if |vs| == 0 then es
    else AddAll(AddChild(es, NewEntry(vs[0], s)), vs[1..], s)
  }

  /** The explicit part grows by exactly the added inputs with their state. */
  lemma {:induction false} AddAllExplicit(es: seq<Entry>, vs: seq<int>, s: AssignState)
    requires s != NoneState
    ensures multiset(Explicit(AddAll(es, vs, s))) == multiset(Explicit(es)) + Pairs(vs, s)
    decreases |vs|
  {
    if |vs| > 0 {
      var e := NewEntry(vs[0], s);
      AddChildExplicit(es, e);
      AddAllExplicit(AddChild(es, e), vs[1..], s);
    }
  }

  /** One block's base assigns: optionally cleared, then the adds as ASSIGN and
      the removes as UNASSIGN. */
  function DefineBlock(b: Block, ar: AddRem, clearFirst: bool): (r: Block)
    ensures r.given == b.given && r.inheritedName == b.inheritedName
    ensures Sorted(b.entries) ==> Sorted(r.entries)
  {
    var base := if clearFirst then ClearNode(b).entries else b.entries;
    b.(entries := AddAll(AddAll(base, ar.add, Assign), ar.rem, Unassign))
  }

  /** A block's explicit entries after it is defined: the adds as ASSIGN and the
      removes as UNASSIGN, on top of what was there unless it was cleared. */
  lemma DefineBlockExplicit(b: Block, ar: AddRem, clearFirst: bool)
    ensures multiset(Explicit(DefineBlock(b, ar, clearFirst).entries)) ==
      (if clearFirst then multiset{} else multiset(Explicit(b.entries))) +
      Pairs(ar.add, Assign) + Pairs(ar.rem, Unassign)
  {
    var base := if clearFirst then ClearNode(b).entries else b.entries;
    AddAllExplicit(base, ar.add, Assign);
    AddAllExplicit(AddAll(base, ar.add, Assign), ar.rem, Unassign);
    if clearFirst {
      assert Explicit(base) == [];
    }
  }

  /** The loop of `_set_initial_assigns` over the cue's `dca_changes`: block
      `d` is defined from entry `d`; blocks past the list keep theirs. `None`
      where the source raises: a list longer than the row, whose block `d`
      does not exist. */
  function DefineBlocks(blocks: seq<Block>, defined: seq<AddRem>, clearFirst: bool): (r: Option<seq<Block>>)
    ensures r.None? <==> |defined| > |blocks|
    ensures r.Some? ==> |r.value| == |blocks|
    ensures r.Some? ==> forall d :: 0 <= d < |blocks| ==>
      r.value[d] == if d < |defined| then DefineBlock(blocks[d], defined[d], clearFirst) else blocks[d]
  {
    if |defined| > |blocks| then None
    else
      Some(seq(|blocks|, d requires 0 <= d < |blocks| =>
        if d < |defined| then DefineBlock(blocks[d], defined[d], clearFirst) else blocks[d]))
  }

  /** `_set_initial_assigns` on the assign row at `k`: define its blocks from
      the cue's `dca_changes`, then apply the derived tuples of the previous row
      when that is an assign row. `None` where the source raises: a
      `dca_changes` longer than the DCA count. */
  function SetInitialAssigns(rows: seq<Row>, n: nat, k: nat, defined: seq<AddRem>, clearFirst: bool): (r: Option<seq<Row>>)
    requires WellFormed(rows, n) && k < |rows| && rows[k].AssignRow?
    ensures r.None? <==> |defined| > n
    ensures r.Some? ==> |r.value| == |rows| && WellFormed(r.value, n)
    ensures r.Some? ==> forall j :: 0 <= j < |rows| && j != k ==> r.value[j] == rows[j]
    ensures r.Some? ==> r.value[k].AssignRow? && r.value[k].cue == rows[k].cue
  {
    var row := rows[k];
    match DefineBlocks(row.blocks, defined, clearFirst)
    case None => None
    case Some(blocks) =>
      var defRow := AssignRow(row.cue, blocks);
      var prev := PrevSibling(rows, k);
      var newRow :=
        if prev.Some? && prev.value.AssignRow? then Apply(defRow, Derive(prev)).0 else defRow;
      Some(rows[k := newRow])
  }

  /** What `_set_initial_assigns` leaves a row defining: each block the cue
      mentions holds the adds as ASSIGN and the removes as UNASSIGN (on top of
      its old explicit entries unless cleared); the rest keep theirs; names are
      kept. Inherited NONE entries are whatever the previous row passes on. */
  lemma SetInitialAssignsDefines(rows: seq<Row>, n: nat, k: nat, defined: seq<AddRem>, clearFirst: bool)
    requires WellFormed(rows, n) && k < |rows| && rows[k].AssignRow?
    ensures var r := SetInitialAssigns(rows, n, k, defined, clearFirst);
      r.Some? ==>
      && |r.value[k].blocks| == n
      && (forall d :: 0 <= d < n ==>
            r.value[k].blocks[d].given == rows[k].blocks[d].given &&
            r.value[k].blocks[d].inheritedName == rows[k].blocks[d].inheritedName)
      && (forall d :: 0 <= d < |defined| ==>
            multiset(Explicit(r.value[k].blocks[d].entries)) ==
              (if clearFirst then multiset{} else multiset(Explicit(rows[k].blocks[d].entries))) +
              Pairs(defined[d].add, Assign) + Pairs(defined[d].rem, Unassign))
      && (forall d :: |defined| <= d < n ==>
            Explicit(r.value[k].blocks[d].entries) == Explicit(rows[k].blocks[d].entries))
  {
    var row := rows[k];
    if |defined| <= n {
      var blocks := DefineBlocks(row.blocks, defined, clearFirst).value;
      var defRow := AssignRow(row.cue, blocks);
      var prev := PrevSibling(rows, k);
      if prev.Some? && prev.value.AssignRow? {
        ApplyExplicit(defRow, Derive(prev));
      }
      forall d | 0 <= d < |defined|
        ensures multiset(Explicit(blocks[d].entries)) ==
          (if clearFirst then multiset{} else multiset(Explicit(row.blocks[d].entries))) +
          Pairs(defined[d].add, Assign) + Pairs(defined[d].rem, Unassign)
      {
        DefineBlockExplicit(row.blocks[d], defined[d], clearFirst);
      }
    }
  }

  // ---- amend_cuerow ----

  /** The loop that follows an edit: each pre-edit ASSIGN tuple not among the
      post-edit tuples is appended with its state unset. */
  function AppendRemoved(before: seq<Change>, after: seq<Change>): (r: seq<Change>)
    ensures |after| <= |r| <= |after| + |before| && r[..|after|] == after
    ensures forall n: nat :: Fits(before, n) && Fits(after, n) ==> Fits(r, n)
    decreases |before|
  {
    if |before| == 0 then after
    else
      var c := before[0];
      var after' := if c !in after && c.state == Some(Assign) then after + [c.(state := None)] else after;
      var r := AppendRemoved(before[1..], after');
      assert r[..|after|] == r[..|after'|][..|after|];
      r
  }

  /** With every tuple carrying a state, the tuples appended are exactly the
      removed assigns, with their state unset. */
  lemma AppendRemovedContents(before: seq<Change>, after: seq<Change>, c: Change)
    requires forall i :: 0 <= i < |before| ==> before[i].state.Some?
    requires forall i :: 0 <= i < |after| ==> after[i].state.Some?
    ensures var r := AppendRemoved(before, after);
      && (c in r <==>
            c in after ||
            (c.state.None? && c.(state := Some(Assign)) in before && c.(state := Some(Assign)) !in after))
      && (forall i :: |after| <= i < |r| ==> r[i].state.None?)
  {
    assert after + [] == after;
    AppendRemovedExtras(before, after, [], c);
  }

  /** The loop invariant: `after` followed by a run of unset tuples already
      appended. */
  lemma {:induction false} AppendRemovedExtras(before: seq<Change>, after: seq<Change>, extras: seq<Change>, c: Change)
    requires forall i :: 0 <= i < |before| ==> before[i].state.Some?
    requires forall i :: 0 <= i < |after| ==> after[i].state.Some?
    requires forall i :: 0 <= i < |extras| ==> extras[i].state.None?
    ensures var r := AppendRemoved(before, after + extras);
      && (c in r <==>
            c in after || c in extras ||
            (c.state.None? && c.(state := Some(Assign)) in before && c.(state := Some(Assign)) !in after))
      && (forall i :: |after| <= i < |r| ==> r[i].state.None?)
    decreases |before|
  {
    var acc := after + extras;
    if |before| > 0 {
      var b := before[0];
      forall i | 0 <= i < |before[1..]| ensures before[1..][i].state.Some? {
        assert before[1..][i] == before[i + 1];
      }
      assert b in acc <==> b in after;
      if b !in after && b.state == Some(Assign) {
        assert acc + [b.(state := None)] == after + (extras + [b.(state := None)]);
        AppendRemovedExtras(before[1..], after, extras + [b.(state := None)], c);
      } else {
        AppendRemovedExtras(before[1..], after, extras, c);
      }
      assert forall x :: x in before <==> x == b || x in before[1..];
    } else {
      forall i | |after| <= i < |acc| ensures acc[i].state.None? {
        assert acc[i] == extras[i - |after|];
      }
    }
  }

  /** `amend_cuerow`: only a change to `dca_changes` of a change cue does
      anything. The row is redefined from the new value (cleared first, then
      re-inheriting from its predecessor), removed assigns are added as unset
      tuples, and the result cascades to the following rows. `None` where the
      source raises: no row for the cue, or a value longer than the DCA
      count. */
  function AmendCuerow(rows: seq<Row>, n: nat, id: nat, isReset: bool, property: string, value: seq<AddRem>): (r: Option<seq<Row>>)
    requires WellFormed(rows, n)
    ensures property != "dca_changes" || isReset ==> r == Some(rows)
    ensures property == "dca_changes" && !isReset ==>
      (r.None? <==> FindCuerow(rows, id).None? ||
                    (rows[FindCuerow(rows, id).value].AssignRow? && |value| > n))
    ensures r.Some? ==> |r.value| == |rows| && WellFormed(r.value, n)
    ensures r.Some? && FindCuerow(rows, id).Some? ==>
      forall j :: 0 <= j < FindCuerow(rows, id).value ==> r.value[j] == rows[j]
  {
    if property != "dca_changes" || isReset then Some(rows)
    else
      match FindCuerow(rows, id)
      case None => None
      case Some(k) =>
        if rows[k].ResetRow? then Some(rows)
        else AmendRow(rows, n, k, value)
  }

  /** The body of `amend_cuerow` once the change row at `k` is found. */
  function AmendRow(rows: seq<Row>, n: nat, k: nat, value: seq<AddRem>): (r: Option<seq<Row>>)
    requires WellFormed(rows, n) && k < |rows| && rows[k].AssignRow?
    ensures r.None? <==> |value| > n
    ensures r.Some? ==> |r.value| == |rows| && WellFormed(r.value, n)
    ensures r.Some? ==> forall j :: 0 <= j < k ==> r.value[j] == rows[j]
  {
    var before := Derive(Some(rows[k]));
    match SetInitialAssigns(rows, n, k, value, true)
    case None => None
    case Some(rows1) =>
      var after := AppendRemoved(before, Derive(Some(rows1[k])));
      Some(Cascade(rows1, n, k, after))
  }

  /** What an amended row defines: exactly the new adds as ASSIGN and removes
      as UNASSIGN for the DCAs the value covers; the rows after it keep their
      definitions too. */
  lemma AmendCuerowDefines(rows: seq<Row>, n: nat, id: nat, value: seq<AddRem>)
    requires WellFormed(rows, n)
    requires FindCuerow(rows, id).Some? && rows[FindCuerow(rows, id).value].AssignRow?
    ensures var k := FindCuerow(rows, id).value;
      var r := AmendCuerow(rows, n, id, false, "dca_changes", value);
      r.Some? ==>
      && r.value[k].AssignRow? && |r.value[k].blocks| == n
      && (forall d :: 0 <= d < |value| ==>
            multiset(Explicit(r.value[k].blocks[d].entries)) ==
              Pairs(value[d].add, Assign) + Pairs(value[d].rem, Unassign))
      && (forall j :: k < j < |rows| ==> SameDefinition(r.value[j], rows[j]))
  {
    var k := FindCuerow(rows, id).value;
    assert AmendCuerow(rows, n, id, false, "dca_changes", value) == AmendRow(rows, n, k, value);
    AmendRowDefines(rows, n, k, value);
  }

  lemma AmendRowDefines(rows: seq<Row>, n: nat, k: nat, value: seq<AddRem>)
    requires WellFormed(rows, n) && k < |rows| && rows[k].AssignRow?
    ensures var r := AmendRow(rows, n, k, value);
      r.Some? ==>
      && r.value[k].AssignRow? && |r.value[k].blocks| == n
      && (forall d :: 0 <= d < |value| ==>
            multiset(Explicit(r.value[k].blocks[d].entries)) ==
              Pairs(value[d].add, Assign) + Pairs(value[d].rem, Unassign))
      && (forall j :: k < j < |rows| ==> SameDefinition(r.value[j], rows[j]))
  {
    if |value| <= n {
      var rows1 := SetInitialAssigns(rows, n, k, value, true).value;
      var after := AppendRemoved(Derive(Some(rows[k])), Derive(Some(rows1[k])));
      assert AmendRow(rows, n, k, value) == Some(Cascade(rows1, n, k, after));
      AmendStepDefines(rows, n, k, value, rows1, after);
    }
  }

  /** The success case of AmendRowDefines, on the redefined rows. */
  lemma AmendStepDefines(rows: seq<Row>, n: nat, k: nat, value: seq<AddRem>, rows1: seq<Row>, after: seq<Change>)
    requires WellFormed(rows, n) && k < |rows| && rows[k].AssignRow? && |value| <= n
    requires SetInitialAssigns(rows, n, k, value, true) == Some(rows1) && Fits(after, n)
    ensures var r := Cascade(rows1, n, k, after);
      && r[k].AssignRow? && |r[k].blocks| == n
      && (forall d :: 0 <= d < |value| ==>
            multiset(Explicit(r[k].blocks[d].entries)) ==
              Pairs(value[d].add, Assign) + Pairs(value[d].rem, Unassign))
      && (forall j :: k < j < |rows| ==> SameDefinition(r[j], rows[j]))
  {
    var r := Cascade(rows1, n, k, after);
    SetInitialAssignsDefines(rows, n, k, value, true);
    assert r[k] == rows1[k];
    CascadeKeepsDefinitions(rows1, n, k + 1, after);
    forall j | k < j < |rows| ensures SameDefinition(r[j], rows[j]) {
      assert rows1[j] == rows[j];
    }
  }

  // ---- append_cuerow ----

  /** A cue as `append_cuerow` receives it. */
  datatype CueDef = ChangeCueDef(id: nat, changes: seq<AddRem>) | ResetCueDef(id: nat)

  /** A fresh assign row: `n` blocks with no entries and no given name; block
      `d` inherits the default name of DCA `d + 1`. */
  function NewAssignRow(id: nat, n: nat, dcaName: nat -> string): (r: Row)
    ensures r.AssignRow? && r.cue == id && |r.blocks| == n
    ensures forall d :: 0 <= d < n ==> r.blocks[d] == NewBlock(dcaName(d + 1))
  {
    AssignRow(id, seq(n, d requires 0 <= d < n => NewBlock(dcaName(d + 1))))
  }

  /** `append_cuerow`: the new row goes at the end; a change cue's row is then
      given its own assigns and inherits from the row before it. No cascade
      follows. `None` where the source raises: a change cue whose
      `dca_changes` is longer than the DCA count. */
  function AppendCuerow(rows: seq<Row>, n: nat, cue: CueDef, dcaName: nat -> string): (r: Option<seq<Row>>)
    requires WellFormed(rows, n)
    ensures r.None? <==> cue.ChangeCueDef? && |cue.changes| > n
    ensures r.Some? ==> |r.value| == |rows| + 1 && r.value[..|rows|] == rows && WellFormed(r.value, n)
    ensures r.Some? ==> r.value[|rows|].cue == cue.id && (r.value[|rows|].AssignRow? <==> cue.ChangeCueDef?)
  {
    match cue
    case ResetCueDef(id) => Some(rows + [ResetRow(id)])
    case ChangeCueDef(id, changes) =>
      var rows1 := rows + [NewAssignRow(id, n, dcaName)];
      var r := SetInitialAssigns(rows1, n, |rows|, changes, false);
      assert r.Some? ==> r.value[..|rows|] == rows;
      r
  }

  /** The appended row of a change cue defines exactly the cue's adds and
      removes and keeps the default names. */
  lemma AppendCuerowDefines(rows: seq<Row>, n: nat, cue: CueDef, dcaName: nat -> string)
    requires WellFormed(rows, n) && cue.ChangeCueDef?
    ensures var r := AppendCuerow(rows, n, cue, dcaName);
      r.Some? ==>
      var row := r.value[|rows|];
      && row.AssignRow? && |row.blocks| == n
      && (forall d :: 0 <= d < n ==>
            row.blocks[d].given.None? && row.blocks[d].inheritedName == dcaName(d + 1))
      && (forall d :: 0 <= d < |cue.changes| ==>
            multiset(Explicit(row.blocks[d].entries)) ==
              Pairs(cue.changes[d].add, Assign) + Pairs(cue.changes[d].rem, Unassign))
      && (forall d :: |cue.changes| <= d < n ==> Explicit(row.blocks[d].entries) == [])
  {
    var newRow := NewAssignRow(cue.id, n, dcaName);
    var rows1 := rows + [newRow];
    assert rows1[|rows|] == newRow;
    var r := SetInitialAssigns(rows1, n, |rows|, cue.changes, false);
    assert AppendCuerow(rows, n, cue, dcaName) == r;
    SetInitialAssignsDefines(rows1, n, |rows|, cue.changes, false);
    forall d | 0 <= d < n
      ensures newRow.blocks[d].given.None? && newRow.blocks[d].inheritedName == dcaName(d + 1)
      ensures Explicit(newRow.blocks[d].entries) == []
    {
      assert newRow.blocks[d].entries == [];
    }
  }

  // ---- remove_cuerow ----

  /** The tuples a row's departure sends forward: its own, inverted, for an
      assign row; the previous row's, re-applied, for a reset row. */
  function LeaveChanges(rows: seq<Row>, n: nat, k: nat): (r: seq<Change>)
    requires WellFormed(rows, n) && k < |rows|
    ensures Fits(r, n)
  {
    if rows[k].AssignRow? then Invert(Derive(Some(rows[k])))
    else Derive(PrevSibling(rows, k))
  }

  /** `remove_cuerow`: cascade the departure's tuples from the row, then drop
      it. `None` where the source raises: no row for the cue. */
  function RemoveCuerow(rows: seq<Row>, n: nat, id: nat): (r: Option<seq<Row>>)
    requires WellFormed(rows, n)
    ensures r.None? <==> FindCuerow(rows, id).None?
    ensures r.Some? ==> |r.value| == |rows| - 1 && WellFormed(r.value, n)
    ensures r.Some? ==> forall j :: 0 <= j < FindCuerow(rows, id).value ==> r.value[j] == rows[j]
  {
    match FindCuerow(rows, id)
    case None => None
    case Some(k) =>
      var rows1 := Cascade(rows, n, k, LeaveChanges(rows, n, k));
      Some(RemoveAt(rows1, k))
  }

  /** Removing a row keeps every other row's definition, in order. */
  lemma RemoveCuerowKeepsOthers(rows: seq<Row>, n: nat, id: nat)
    requires WellFormed(rows, n) && FindCuerow(rows, id).Some?
    ensures var k := FindCuerow(rows, id).value;
      var r := RemoveCuerow(rows, n, id).value;
      forall j :: k <= j < |r| ==> SameDefinition(r[j], rows[j + 1])
  {
    var k := FindCuerow(rows, id).value;
    CascadeKeepsDefinitions(rows, n, k + 1, LeaveChanges(rows, n, k));
  }

  // ---- move_cuerow ----

  /** The row at `k` taken out and put back at `m`. */
  function Relocate<T>(s: seq<T>, k: nat, m: nat): (r: seq<T>)
    requires k < |s| && m < |s|
    ensures |r| == |s| && r[m] == s[k] && multiset(r) == multiset(s)
    ensures forall j :: 0 <= j < |s| && j < k && j < m ==> r[j] == s[j]
  {
    InsertAt(RemoveAt(s, k), m, s[k])
  }

  /** Taking a row out and putting it back where it was changes nothing. */
  lemma RelocateInPlace<T>(s: seq<T>, k: nat)
    requires k < |s|
    ensures Relocate(s, k, k) == s
  {
    var t := RemoveAt(s, k);
    var r := Relocate(s, k, k);
    assert r == InsertAt(t, k, s[k]);
    forall j | 0 <= j < |s| ensures r[j] == s[j] {
      if k < j {
        assert r[j] == t[j - 1];
      }
    }
  }

  /** Relocating two row lists that define the same, row by row, gives lists
      that define the same, row by row. */
  lemma RelocateKeepsDefinitions(a: seq<Row>, b: seq<Row>, k: nat, m: nat)
    requires |a| == |b| && k < |a| && m < |a|
    requires forall j :: 0 <= j < |a| ==> SameDefinition(a[j], b[j])
    ensures forall j :: 0 <= j < |a| ==> SameDefinition(Relocate(a, k, m)[j], Relocate(b, k, m)[j])
  {
    var ta := RemoveAt(a, k);
    var tb := RemoveAt(b, k);
    var ra := Relocate(a, k, m);
    var rb := Relocate(b, k, m);
    assert ra == InsertAt(ta, m, a[k]) && rb == InsertAt(tb, m, b[k]);
    forall j | 0 <= j < |a| ensures SameDefinition(ra[j], rb[j]) {
      if j < m {
        assert ra[j] == ta[j] && rb[j] == tb[j];
      } else if m < j {
        assert ra[j] == ta[j - 1] && rb[j] == tb[j - 1];
      }
    }
  }

  /** The clean-up of a moved row's entries: every entry loses its inherited
      flag and NONE entries go. */
  function CleanEntries(es: seq<Entry>): (r: seq<Entry>)
    ensures forall i :: 0 <= i < |r| ==> r[i].state != NoneState && !r[i].inherited
    ensures forall x :: x in Values(r) ==> x in Values(es)
    decreases |es|
  {
    if |es| == 0 then []
    else
      var rest := CleanEntries(es[1..]);
      assert forall x :: x in Values(es[1..]) ==> x in Values(es);
      if es[0].state != NoneState then
        var r := [es[0].(inherited := false)] + rest;
        assert Values(r) == [es[0].value] + Values(rest);
        r
      else rest
  }

  /** The clean-up keeps a block's explicit assigns and unassigns, in order. */
  lemma {:induction false} CleanEntriesExplicit(es: seq<Entry>)
    ensures Explicit(CleanEntries(es)) == Explicit(es)
    decreases |es|
  {
    if |es| > 0 {
      CleanEntriesExplicit(es[1..]);
      var rest := CleanEntries(es[1..]);
      if es[0].state != NoneState {
        var r := [es[0].(inherited := false)] + rest;
        assert r[1..] == rest;
      }
    }
  }

  /** The clean-up keeps entries in order. */
  lemma {:induction false} CleanEntriesSorted(es: seq<Entry>)
    requires Sorted(es)
    ensures Sorted(CleanEntries(es))
    decreases |es|
  {
    if |es| > 0 {
      SortedTail(es);
      CleanEntriesSorted(es[1..]);
      var rest := CleanEntries(es[1..]);
      if es[0].state != NoneState {
        HeadBelowRest(es, rest);
        SortedCons(es[0].(inherited := false), rest);
      }
    }
  }

  lemma SortedTail(es: seq<Entry>)
    requires |es| > 0 && Sorted(es)
    ensures Sorted(es[1..])
  {
  }

  /** A head at most every later value keeps a sorted list sorted. */
  lemma SortedCons(e: Entry, rest: seq<Entry>)
    requires Sorted(rest) && forall j :: 0 <= j < |rest| ==> e.value <= rest[j].value
    ensures Sorted([e] + rest)
  {
  }

  /** In a sorted list the head is at most every value drawn from its tail. */
  lemma HeadBelowRest(es: seq<Entry>, rest: seq<Entry>)
    requires |es| > 0
    requires forall x :: x in Values(rest) ==> x in Values(es[1..])
    ensures Sorted(es) ==> forall j :: 0 <= j < |rest| ==> es[0].value <= rest[j].value
  {
    if Sorted(es) {
      forall j | 0 <= j < |rest| ensures es[0].value <= rest[j].value {
        assert rest[j].value in Values(rest);
        var m :| 0 <= m < |es[1..]| && Values(es[1..])[m] == rest[j].value;
        assert es[m + 1].value == rest[j].value;
      }
    }
  }

  function Cleanup(row: Row): (r: Row)
    ensures SameDefinition(r, row)
    ensures row.AssignRow? ==> forall d :: 0 <= d < |row.blocks| && Sorted(row.blocks[d].entries) ==>
      Sorted(r.blocks[d].entries)
  {
    match row
    case ResetRow(_) => row
    case AssignRow(cue, blocks) =>
      assert forall d :: 0 <= d < |blocks| ==> Explicit(CleanEntries(blocks[d].entries)) == Explicit(blocks[d].entries) by {
        forall d | 0 <= d < |blocks| { CleanEntriesExplicit(blocks[d].entries); }
      }
      assert forall d :: 0 <= d < |blocks| && Sorted(blocks[d].entries) ==> Sorted(CleanEntries(blocks[d].entries)) by {
        forall d | 0 <= d < |blocks| && Sorted(blocks[d].entries) { CleanEntriesSorted(blocks[d].entries); }
      }
      AssignRow(cue, seq(|blocks|, d requires 0 <= d < |blocks| =>
        blocks[d].(entries := CleanEntries(blocks[d].entries))))
  }

  lemma RelocateWellFormed(rows: seq<Row>, n: nat, k: nat, m: nat)
    requires WellFormed(rows, n) && k < |rows| && m < |rows|
    ensures WellFormed(Relocate(rows, k, m), n)
  {
    var r := Relocate(rows, k, m);
    forall j | 0 <= j < |r| && r[j].AssignRow?
      ensures |r[j].blocks| == n && forall d :: 0 <= d < n ==> Sorted(r[j].blocks[d].entries)
    {
      assert r[j] in multiset(rows);
      var i :| 0 <= i < |rows| && r[j] == rows[i];
    }
  }

  /** The moved row at `m` stripped to its own assigns and re-inherited from
      its new predecessor; it still defines what it did. */
  function Settle(rows: seq<Row>, n: nat, m: nat): (r: Row)
    requires WellFormed(rows, n) && m < |rows|
    ensures SameDefinition(r, rows[m])
    ensures WellFormed(rows[m := r], n)
  {
    var moved := Cleanup(rows[m]);
    var prev := PrevSibling(rows, m);
    if prev.Some? && prev.value.AssignRow? then
      ApplyExplicit(moved, Derive(prev));
      Apply(moved, Derive(prev)).0
    else moved
  }

  /** What a settled row at `m` passes on: its own tuples, or for a reset row
      the predecessor's, cleared. */
  function Passes(rows: seq<Row>, n: nat, m: nat): (r: seq<Change>)
    requires WellFormed(rows, n) && m < |rows|
    ensures Fits(r, n)
  {
    if rows[m].ResetRow? then
      var r := Clear(Derive(PrevSibling(rows, m)));
      assert forall i :: 0 <= i < |r| ==> r[i].dca < n by {
        forall i | 0 <= i < |r| ensures r[i].dca < n {
          assert r[i] in r;
        }
      }
      r
    else Derive(Some(rows[m]))
  }

  /** The arrival half of `move_cuerow` for the row now at `m`: settle it,
      then cascade what it now passes on. */
  function Arrive(rows: seq<Row>, n: nat, m: nat): (r: seq<Row>)
    requires WellFormed(rows, n) && m < |rows|
    ensures |r| == |rows| && WellFormed(r, n)
    ensures forall j :: 0 <= j < m ==> r[j] == rows[j]
    ensures r[m].cue == rows[m].cue && r[m].AssignRow? == rows[m].AssignRow?
  {
    var rows3 := rows[m := Settle(rows, n, m)];
    Cascade(rows3, n, m, Passes(rows3, n, m))
  }

  /** The arrival keeps what every row defines. */
  lemma ArriveKeepsDefinitions(rows: seq<Row>, n: nat, m: nat)
    requires WellFormed(rows, n) && m < |rows|
    ensures forall j :: 0 <= j < |rows| ==> SameDefinition(Arrive(rows, n, m)[j], rows[j])
  {
    var rows3 := rows[m := Settle(rows, n, m)];
    var arrive := Passes(rows3, n, m);
    var r := CascadeFrom(rows3, n, m + 1, arrive);
    assert Arrive(rows, n, m) == r;
    CascadeKeepsDefinitions(rows3, n, m + 1, arrive);
    forall j | 0 <= j < |rows| ensures SameDefinition(r[j], rows[j]) {
      assert SameDefinition(r[j], rows3[j]);
      if j != m {
        assert rows3[j] == rows[j];
      }
    }
  }

  /** `move_cuerow`, with the move itself abstract (out at the old position,
      in at `newIndex`): cascade the departure, relocate, then arrive. `None`
      where the source raises: no row for the cue. */
  function MoveCuerow(rows: seq<Row>, n: nat, id: nat, newIndex: nat): (r: Option<seq<Row>>)
    requires WellFormed(rows, n) && newIndex < |rows|
    ensures r.None? <==> FindCuerow(rows, id).None?
    ensures r.Some? ==> |r.value| == |rows| && WellFormed(r.value, n)
    ensures r.Some? ==> r.value[newIndex].cue == id
    ensures r.Some? ==> forall j :: 0 <= j < |rows| && j < FindCuerow(rows, id).value && j < newIndex ==>
      r.value[j] == rows[j]
  {
    match FindCuerow(rows, id)
    case None => None
    case Some(k) =>
      if k == newIndex then Some(rows)
      else
        var rows1 := Cascade(rows, n, k, LeaveChanges(rows, n, k));
        RelocateWellFormed(rows1, n, k, newIndex);
        Some(Arrive(Relocate(rows1, k, newIndex), n, newIndex))
  }

  /** Moving a row changes no cue's definition: each row of the result defines
      what the row in its place defines once the moved row is taken out and
      put back at `newIndex`. */
  lemma MoveCuerowDefines(rows: seq<Row>, n: nat, id: nat, newIndex: nat)
    requires WellFormed(rows, n) && newIndex < |rows| && FindCuerow(rows, id).Some?
    ensures var r := MoveCuerow(rows, n, id, newIndex);
      r.Some? && forall j :: 0 <= j < |rows| ==>
        SameDefinition(r.value[j], Relocate(rows, FindCuerow(rows, id).value, newIndex)[j])
  {
    var k := FindCuerow(rows, id).value;
    if k == newIndex {
      RelocateInPlace(rows, k);
      assert MoveCuerow(rows, n, id, newIndex) == Some(rows);
      forall j | 0 <= j < |rows| ensures SameDefinition(rows[j], rows[j]) { }
    } else {
      MovedDefines(rows, n, k, newIndex);
      var rows1 := Cascade(rows, n, k, LeaveChanges(rows, n, k));
      var r := Arrive(Relocate(rows1, k, newIndex), n, newIndex);
      assert MoveCuerow(rows, n, id, newIndex) == Some(r);
    }
  }

  /** The departure and relocation of the row at `k` keep every definition,
      shifted as the relocation shifts the rows. */
  lemma DepartDefines(rows: seq<Row>, n: nat, k: nat, m: nat)
    requires WellFormed(rows, n) && k < |rows| && m < |rows|
    ensures var rel := Relocate(Cascade(rows, n, k, LeaveChanges(rows, n, k)), k, m);
      && WellFormed(rel, n)
      && forall j :: 0 <= j < |rows| ==> SameDefinition(rel[j], Relocate(rows, k, m)[j])
  {
    var leave := LeaveChanges(rows, n, k);
    var rows1 := Cascade(rows, n, k, leave);
    CascadeKeepsDefinitions(rows, n, k + 1, leave);
    assert |rows1| == |rows|;
    RelocateKeepsDefinitions(rows1, rows, k, m);
    RelocateWellFormed(rows1, n, k, m);
    var rel := Relocate(rows1, k, m);
    assert WellFormed(rel, n);
    assert forall j :: 0 <= j < |rows| ==> SameDefinition(rel[j], Relocate(rows, k, m)[j]);
  }

  /** The departure, relocation and arrival of the row at `k` keep every
      definition, shifted as the relocation shifts the rows. */
  lemma MovedDefines(rows: seq<Row>, n: nat, k: nat, m: nat)
    requires WellFormed(rows, n) && k < |rows| && m < |rows|
    ensures var rel := Relocate(Cascade(rows, n, k, LeaveChanges(rows, n, k)), k, m);
      && WellFormed(rel, n)
      && forall j :: 0 <= j < |rows| ==> SameDefinition(Arrive(rel, n, m)[j], Relocate(rows, k, m)[j])
  {
    DepartDefines(rows, n, k, m);
    var rel := Relocate(Cascade(rows, n, k, LeaveChanges(rows, n, k)), k, m);
    ArriveKeepsDefinitions(rel, n, m);
    var r := Arrive(rel, n, m);
    var moved := Relocate(rows, k, m);
    forall j | 0 <= j < |rows| ensures SameDefinition(r[j], moved[j]) {
      assert SameDefinition(r[j], rel[j]);
      assert SameDefinition(rel[j], moved[j]);
    }
  }
}
