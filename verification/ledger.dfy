/** The mapper's cue-sequence inheritance ledger (`DcaMappingModel`): one row
    per DCA cue, in cue order. An assign row holds one block per DCA; a reset
    row holds nothing. Edits travel forward as change tuples until they are
    absorbed or a reset row stops them. */
module Ledger {
  import opened Wrappers
  import opened Primitives

  /** A cue row; the variant stands for the cue's type. */
  datatype Row = AssignRow(cue: nat, blocks: seq<Block>) | ResetRow(cue: nat)

  /** A change tuple `(dca, value, state)`; `state` is `None` for the tuples
      `amend_cuerow` adds for removed assigns. */
  datatype Change = Change(dca: nat, value: int, state: Option<AssignState>)

  /** Every change names a DCA below `n`. */
  ghost predicate Fits(cs: seq<Change>, n: nat) {
    forall i :: 0 <= i < |cs| ==> cs[i].dca < n
  }

  /** Every assign row has `n` blocks, each sorted by value. */
  ghost predicate WellFormed(rows: seq<Row>, n: nat) {
    forall k :: 0 <= k < |rows| && rows[k].AssignRow? ==>
      |rows[k].blocks| == n && forall d :: 0 <= d < n ==> Sorted(rows[k].blocks[d].entries)
  }

  // ---- Deriving, inverting and clearing change tuples ----

  /** The tuples of one block, in entry order. */
  function EntryChanges(d: nat, es: seq<Entry>): (r: seq<Change>)
    ensures |r| == |es|
    ensures forall i :: 0 <= i < |es| ==> r[i] == Change(d, es[i].value, Some(es[i].state))
  {
    seq(|es|, i requires 0 <= i < |es| => Change(d, es[i].value, Some(es[i].state)))
  }

  function DeriveFrom(blocks: seq<Block>, d: nat): (r: seq<Change>)
    requires d <= |blocks|
    ensures forall i :: 0 <= i < |r| ==> d <= r[i].dca < |blocks| && r[i].state.Some?
    decreases |blocks| - d
  {
    if d == |blocks| then []
    else EntryChanges(d, blocks[d].entries) + DeriveFrom(blocks, d + 1)
  }

  /** `_change_tuples_derive`: nothing for a missing or reset row, else one
      tuple per entry, in DCA then entry order. */
  function Derive(row: Option<Row>): (r: seq<Change>)
    ensures row.None? || row.value.ResetRow? ==> r == []
    ensures row.Some? && row.value.AssignRow? ==> Fits(r, |row.value.blocks|)
    ensures forall i :: 0 <= i < |r| ==> r[i].state.Some?
  {
    match row
    case None => []
    case Some(ResetRow(_)) => []
    case Some(AssignRow(_, blocks)) => DeriveFrom(blocks, 0)
  }

  /** The derived tuples are exactly the entries of the row: one per entry,
      carrying its DCA, value and state. */
  lemma {:induction false} DeriveFromContents(blocks: seq<Block>, d: nat, c: Change)
    requires d <= |blocks|
    ensures c in DeriveFrom(blocks, d) <==>
      d <= c.dca < |blocks| && c.state.Some? &&
      Entry(c.value, c.state.value, false) in Strip(blocks[c.dca].entries)
    decreases |blocks| - d
  {
    if d < |blocks| {
      var es := blocks[d].entries;
      var here := EntryChanges(d, es);
      assert DeriveFrom(blocks, d) == here + DeriveFrom(blocks, d + 1);
      DeriveFromContents(blocks, d + 1, c);
      if c.dca == d && c.state.Some? {
        var e := Entry(c.value, c.state.value, false);
        if e in Strip(es) {
          var i :| 0 <= i < |es| && Strip(es)[i] == e;
          assert here[i] == c;
        }
        if c in here {
          var i :| 0 <= i < |here| && here[i] == c;
          assert Strip(es)[i] == e;
        }
      }
    }
  }

  /** The entries of a block with the inherited flag dropped. */
  function Strip(es: seq<Entry>): (r: seq<Entry>)
    ensures |r| == |es|
    ensures forall i :: 0 <= i < |es| ==> r[i] == es[i].(inherited := false)
  {
    seq(|es|, i requires 0 <= i < |es| => es[i].(inherited := false))
  }

  ghost predicate DcaOrdered(cs: seq<Change>) {
    forall i, j :: 0 <= i < j < |cs| ==> cs[i].dca <= cs[j].dca
  }

  /** Derived tuples are listed DCA by DCA. */
  lemma {:induction false} DeriveFromOrdered(blocks: seq<Block>, d: nat)
    requires d <= |blocks|
    ensures DcaOrdered(DeriveFrom(blocks, d))
    decreases |blocks| - d
  {
    if d < |blocks| {
      var here := EntryChanges(d, blocks[d].entries);
      var rest := DeriveFrom(blocks, d + 1);
      var r := here + rest;
      assert DeriveFrom(blocks, d) == r;
      DeriveFromOrdered(blocks, d + 1);
      forall i, j | 0 <= i < j < |r| ensures r[i].dca <= r[j].dca {
        if j < |here| {
          assert r[i] == here[i] && r[j] == here[j];
        } else if i < |here| {
          assert r[i] == here[i] && r[j] == rest[j - |here|];
        } else {
          assert r[i] == rest[i - |here|] && r[j] == rest[j - |here|];
        }
      }
    }
  }

  function SwapState(s: Option<AssignState>): Option<AssignState> {
    match s
    case Some(Assign) => Some(Unassign)
    case Some(Unassign) => Some(Assign)
    case _ => s
  }

  /** `_change_tuples_invert`: same length, same DCA and value in each place,
      ASSIGN and UNASSIGN swapped, other states kept. */
  function Invert(cs: seq<Change>): (r: seq<Change>)
    ensures |r| == |cs|
    ensures forall i :: 0 <= i < |cs| ==>
      r[i].dca == cs[i].dca && r[i].value == cs[i].value &&
      (cs[i].state == Some(Assign) ==> r[i].state == Some(Unassign)) &&
      (cs[i].state == Some(Unassign) ==> r[i].state == Some(Assign)) &&
      (cs[i].state != Some(Assign) && cs[i].state != Some(Unassign) ==> r[i].state == cs[i].state)
  {
    seq(|cs|, i requires 0 <= i < |cs| => cs[i].(state := SwapState(cs[i].state)))
  }

  /** Inverting twice gives back the original tuples. */
  lemma InvertInvolution(cs: seq<Change>)
    ensures Invert(Invert(cs)) == cs
  {
    var r := Invert(Invert(cs));
    forall i | 0 <= i < |cs| ensures r[i] == cs[i] {
      var s := cs[i].state;
      if s.Some? {
        match s.value {
          case Assign =>
          case Unassign =>
          case NoneState =>
        }
      }
    }
  }

  /** `_change_tuples_clear`: UNASSIGN tuples are dropped and every other tuple
      becomes an UNASSIGN of the same DCA and value, order kept. */
  function Clear(cs: seq<Change>): (r: seq<Change>)
    ensures |r| <= |cs|
    ensures forall i :: 0 <= i < |r| ==> r[i].state == Some(Unassign)
    ensures forall c :: c in r <==>
      c.state == Some(Unassign) &&
      exists i :: 0 <= i < |cs| && cs[i].dca == c.dca && cs[i].value == c.value && cs[i].state != Some(Unassign)
  {
    if |cs| == 0 then []
    else
      var rest := Clear(cs[1..]);
      assert forall i :: 1 <= i < |cs| ==> cs[i] == cs[1..][i - 1];
      if cs[0].state != Some(Unassign) then [cs[0].(state := Some(Unassign))] + rest else rest
  }

  lemma {:induction false} ClearOfUnassigns(cs: seq<Change>)
    requires forall i :: 0 <= i < |cs| ==> cs[i].state == Some(Unassign)
    ensures Clear(cs) == []
    decreases |cs|
  {
    if |cs| > 0 {
      ClearOfUnassigns(cs[1..]);
    }
  }

  /** A cleared list clears to nothing. */
  lemma ClearTwice(cs: seq<Change>)
    ensures Clear(Clear(cs)) == []
  {
    ClearOfUnassigns(Clear(cs));
  }

  // ---- Applying change tuples to a row ----

  /** One tuple against the block of its DCA, with the pending list (see
      `ApplyOneRules`). The pending list never grows and the block stays sorted. */
  function ApplyOne(b: Block, pending: seq<Change>, c: Change): (r: (Block, seq<Change>))
    ensures r.0.given == b.given && r.0.inheritedName == b.inheritedName
    ensures |r.1| <= |pending| && multiset(r.1) <= multiset(pending)
    ensures Sorted(b.entries) ==> Sorted(r.0.entries)
  {
    var es := b.entries;
    match IndexOf(Values(es), c.value)
    case None =>
      if c.state != Some(Unassign) then (b.(entries := AddChild(es, Entry(c.value, NoneState, true))), pending)
      else (b, pending)
    case Some(i) =>
      var e := es[i];
      if e.state != NoneState then
        var es' := es[i := e.(inherited := c.state != Some(Unassign))];
        assert Values(es') == Values(es);
        (b.(entries := es'), RemoveFirst(pending, c))
      else if c.state.None? || c.state == Some(Unassign) then
        RemoveAtSorted(es, i);
        (b.(entries := RemoveAt(es, i)), pending)
      else (b, pending)
  }

  /** The rules of one tuple:
      - value absent: unless the tuple is an UNASSIGN, a new inherited NONE
        entry is inserted (in order); an UNASSIGN changes nothing;
      - value present with an explicit state: the tuple is absorbed (its first
        copy leaves the pending list) and that entry alone changes, becoming
        inherited iff the tuple is not an UNASSIGN;
      - value present with state NONE: the entry is removed if the tuple's
        state is unset or UNASSIGN, and nothing changes otherwise. */
  lemma ApplyOneRules(b: Block, pending: seq<Change>, c: Change)
    ensures var r := ApplyOne(b, pending, c);
      && (c.value !in Values(b.entries) && c.state != Some(Unassign) ==>
            r.1 == pending &&
            multiset(r.0.entries) == multiset(b.entries) + multiset{Entry(c.value, NoneState, true)})
      && (c.value !in Values(b.entries) && c.state == Some(Unassign) ==> r == (b, pending))
  {
  }

  lemma ApplyOnePresentRules(b: Block, pending: seq<Change>, c: Change, i: nat)
    requires i < |b.entries| && b.entries[i].value == c.value && c.value !in Values(b.entries)[..i]
    ensures var r := ApplyOne(b, pending, c);
      var e := b.entries[i];
      && (e.state != NoneState ==>
            && r.1 == RemoveFirst(pending, c)
            && |r.0.entries| == |b.entries|
            && r.0.entries[i] == e.(inherited := c.state != Some(Unassign))
            && forall j :: 0 <= j < |b.entries| && j != i ==> r.0.entries[j] == b.entries[j])
      && (e.state == NoneState && (c.state.None? || c.state == Some(Unassign)) ==>
            r.1 == pending && multiset(r.0.entries) == multiset(b.entries) - multiset{e})
      && (e.state == NoneState && c.state.Some? && c.state != Some(Unassign) ==> r == (b, pending))
  {
    IndexOfFirst(Values(b.entries), c.value, i);
  }

  /** The loop of `_change_tuples_apply`: walk a snapshot of the pending list,
      applying each tuple to the row as it stands. */
  function ApplyLoop(blocks: seq<Block>, snap: seq<Change>, pending: seq<Change>): (r: (seq<Block>, seq<Change>))
    requires Fits(snap, |blocks|)
    ensures |r.0| == |blocks|
    ensures |r.1| <= |pending| && multiset(r.1) <= multiset(pending)
    ensures forall d :: 0 <= d < |blocks| && Sorted(blocks[d].entries) ==> Sorted(r.0[d].entries)
    ensures forall d :: 0 <= d < |blocks| ==>
      r.0[d].given == blocks[d].given && r.0[d].inheritedName == blocks[d].inheritedName
    decreases |snap|
  {
    if |snap| == 0 then (blocks, pending)
    else
      var c := snap[0];
      var one := ApplyOne(blocks[c.dca], pending, c);
      ApplyLoop(blocks[c.dca := one.0], snap[1..], one.1)
  }

  /** `_change_tuples_apply`: a reset row empties the change list and is left
      as it is; an assign row gets every tuple applied. */
  function Apply(row: Row, pending: seq<Change>): (r: (Row, seq<Change>))
    requires row.AssignRow? ==> Fits(pending, |row.blocks|)
    ensures row.ResetRow? ==> r == (row, [])
    ensures r.0.cue == row.cue && r.0.AssignRow? == row.AssignRow?
    ensures row.AssignRow? ==> |r.0.blocks| == |row.blocks|
    ensures row.AssignRow? ==> forall d :: 0 <= d < |row.blocks| && Sorted(row.blocks[d].entries) ==>
      Sorted(r.0.blocks[d].entries)
    ensures |r.1| <= |pending| && multiset(r.1) <= multiset(pending)
  {
    match row
    case ResetRow(_) => (row, [])
    case AssignRow(cue, blocks) =>
      var res := ApplyLoop(blocks, pending, pending);
      (AssignRow(cue, res.0), res.1)
  }

  /** `_change_tuples_cascade_apply` from row `k` on: stop when the list is
      empty or the rows run out. */
  function CascadeFrom(rows: seq<Row>, n: nat, k: nat, pending: seq<Change>): (r: seq<Row>)
    requires WellFormed(rows, n) && Fits(pending, n)
    ensures |r| == |rows| && WellFormed(r, n)
    ensures forall j :: 0 <= j < |rows| && j < k ==> r[j] == rows[j]
    ensures forall j :: 0 <= j < |rows| ==> r[j].cue == rows[j].cue && r[j].AssignRow? == rows[j].AssignRow?
    decreases |rows| - k
  {
    if |pending| == 0 || k >= |rows| then rows
    else
      var step := Apply(rows[k], pending);
      CascadeStep(rows, n, k, pending);
      CascadeFrom(rows[k := step.0], n, k + 1, step.1)
  }

  /** One step of the cascade keeps the rows well formed and the remaining
      tuples within the DCAs. */
  lemma CascadeStep(rows: seq<Row>, n: nat, k: nat, pending: seq<Change>)
    requires WellFormed(rows, n) && Fits(pending, n) && k < |rows|
    ensures Fits(Apply(rows[k], pending).1, n)
    ensures WellFormed(rows[k := Apply(rows[k], pending).0], n)
  {
    var step := Apply(rows[k], pending);
    forall i | 0 <= i < |step.1| ensures step.1[i].dca < n {
      assert step.1[i] in multiset(pending);
    }
  }

  /** Cascading after the row at `idx`: rows up to and including it are kept. */
  function Cascade(rows: seq<Row>, n: nat, idx: nat, pending: seq<Change>): (r: seq<Row>)
    requires WellFormed(rows, n) && Fits(pending, n)
    ensures |r| == |rows| && WellFormed(r, n)
    ensures forall j :: 0 <= j <= idx && j < |rows| ==> r[j] == rows[j]
    ensures forall j :: 0 <= j < |rows| ==> r[j].cue == rows[j].cue && r[j].AssignRow? == rows[j].AssignRow?
  {
    CascadeFrom(rows, n, idx + 1, pending)
  }

  // ---- What applying and cascading keep ----

  /** The explicit (ASSIGN or UNASSIGN) entries of a block, as value and state,
      in order: what the cue itself defines. */
  ghost function Explicit(es: seq<Entry>): seq<(int, AssignState)>
    decreases |es|
  {
    if |es| == 0 then []
    else (if es[0].state != NoneState then [(es[0].value, es[0].state)] else []) + Explicit(es[1..])
  }

  lemma {:induction false} ExplicitInsertNone(es: seq<Entry>, k: nat, e: Entry)
    requires k <= |es| && e.state == NoneState
    ensures Explicit(InsertAt(es, k, e)) == Explicit(es)
    decreases k
  {
    var r := InsertAt(es, k, e);
    if k == 0 {
      assert r[1..] == es;
    } else {
      assert r[0] == es[0];
      assert r[1..] == InsertAt(es[1..], k - 1, e);
      ExplicitInsertNone(es[1..], k - 1, e);
    }
  }

  lemma {:induction false} ExplicitRemoveNone(es: seq<Entry>, k: nat)
    requires k < |es| && es[k].state == NoneState
    ensures Explicit(RemoveAt(es, k)) == Explicit(es)
    decreases k
  {
    var r := RemoveAt(es, k);
    if k == 0 {
      assert r == es[1..];
    } else {
      assert r[0] == es[0];
      assert r[1..] == RemoveAt(es[1..], k - 1);
      ExplicitRemoveNone(es[1..], k - 1);
    }
  }

  lemma {:induction false} ExplicitSetFlag(es: seq<Entry>, k: nat, f: bool)
    requires k < |es|
    ensures Explicit(es[k := es[k].(inherited := f)]) == Explicit(es)
    decreases k
  {
    var r := es[k := es[k].(inherited := f)];
    if k > 0 {
      assert r[1..] == es[1..][k - 1 := es[k].(inherited := f)];
      ExplicitSetFlag(es[1..], k - 1, f);
    } else {
      assert r[1..] == es[1..];
    }
  }

  /** A tuple never adds, removes or alters an explicit entry; only NONE
      entries come and go, and only inherited flags change. */
  lemma ApplyOneExplicit(b: Block, pending: seq<Change>, c: Change)
    ensures Explicit(ApplyOne(b, pending, c).0.entries) == Explicit(b.entries)
  {
    var es := b.entries;
    match IndexOf(Values(es), c.value)
    case None =>
      if c.state != Some(Unassign) {
        var e := Entry(c.value, NoneState, true);
        assert AddChild(es, e) == InsertAt(es, InsertPoint(Values(es), c.value), e);
        ExplicitInsertNone(es, InsertPoint(Values(es), c.value), e);
      }
    case Some(i) =>
      if es[i].state != NoneState {
        ExplicitSetFlag(es, i, c.state != Some(Unassign));
      } else if c.state.None? || c.state == Some(Unassign) {
        ExplicitRemoveNone(es, i);
      }
  }

  lemma {:induction false} ApplyLoopExplicit(blocks: seq<Block>, snap: seq<Change>, pending: seq<Change>)
    requires Fits(snap, |blocks|)
    ensures var r := ApplyLoop(blocks, snap, pending);
      forall d :: 0 <= d < |blocks| ==> Explicit(r.0[d].entries) == Explicit(blocks[d].entries)
    decreases |snap|
  {
    if |snap| > 0 {
      var c := snap[0];
      var one := ApplyOne(blocks[c.dca], pending, c);
      ApplyOneExplicit(blocks[c.dca], pending, c);
      var blocks' := blocks[c.dca := one.0];
      ApplyLoopExplicit(blocks', snap[1..], one.1);
      forall d | 0 <= d < |blocks| ensures Explicit(blocks'[d].entries) == Explicit(blocks[d].entries) {
      }
    }
  }

  /** Two rows of the same kind and cue whose blocks hold the same explicit
      entries and the same names. */
  ghost predicate SameDefinition(a: Row, b: Row) {
    && a.cue == b.cue && a.AssignRow? == b.AssignRow?
    && (a.AssignRow? ==>
          |a.blocks| == |b.blocks| &&
          forall d :: 0 <= d < |a.blocks| ==>
            Explicit(a.blocks[d].entries) == Explicit(b.blocks[d].entries) &&
            a.blocks[d].given == b.blocks[d].given && a.blocks[d].inheritedName == b.blocks[d].inheritedName)
  }

  lemma ApplyExplicit(row: Row, pending: seq<Change>)
    requires row.AssignRow? ==> Fits(pending, |row.blocks|)
    ensures SameDefinition(Apply(row, pending).0, row)
  {
    if row.AssignRow? {
      ApplyLoopExplicit(row.blocks, pending, pending);
    }
  }

  /** Cascading never changes what any cue defines: kinds, cue ids, names and
      explicit entries of every row are kept. */
  lemma {:induction false} CascadeKeepsDefinitions(rows: seq<Row>, n: nat, k: nat, pending: seq<Change>)
    requires WellFormed(rows, n) && Fits(pending, n)
    ensures var r := CascadeFrom(rows, n, k, pending);
      forall j :: 0 <= j < |rows| ==> SameDefinition(r[j], rows[j])
    decreases |rows| - k
  {
    if |pending| > 0 && k < |rows| {
      var step := Apply(rows[k], pending);
      ApplyExplicit(rows[k], pending);
      CascadeStep(rows, n, k, pending);
      var rows' := rows[k := step.0];
      CascadeKeepsDefinitions(rows', n, k + 1, step.1);
      assert CascadeFrom(rows, n, k, pending) == CascadeFrom(rows', n, k + 1, step.1);
    }
  }

  /** A reset row stops the cascade: no row after it is touched. */
  lemma {:induction false} CascadeStopsAtReset(rows: seq<Row>, n: nat, k: nat, pending: seq<Change>, j: nat)
    requires WellFormed(rows, n) && Fits(pending, n)
    requires k <= j < |rows| && rows[j].ResetRow?
    ensures forall m :: j < m < |rows| ==> CascadeFrom(rows, n, k, pending)[m] == rows[m]
    decreases |rows| - k
  {
    if |pending| > 0 && k < |rows| {
      var step := Apply(rows[k], pending);
      CascadeStep(rows, n, k, pending);
      var rows' := rows[k := step.0];
      assert CascadeFrom(rows, n, k, pending) == CascadeFrom(rows', n, k + 1, step.1);
      if k == j {
        assert step.1 == [];
      } else {
        CascadeStopsAtReset(rows', n, k + 1, step.1, j);
      }
    }
  }
}
