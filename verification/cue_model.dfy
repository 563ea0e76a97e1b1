/** The per-cue editor model (cue/model.py): one assign row of DCA blocks,
    filled from a cue's `dca_changes` and written back to it. */
module CueModel {
  import opened Wrappers
  import opened Primitives
  import opened Ledger
  import opened LedgerOps

  /** One DCA's `dca_changes` dict, as its items in insertion order. */
  type Items = seq<(string, seq<int>)>

  // ---- serialise ----

  /** The values of the entries in state `s`, in entry order. */
  function ValuesIn(es: seq<Entry>, s: AssignState): (r: seq<int>)
    ensures |r| <= |es|
    ensures forall x :: x in r ==> x in Values(es)
    decreases |es|
  {
    if |es| == 0 then []
    else
      var rest := ValuesIn(es[1..], s);
      assert forall x :: x in Values(es[1..]) ==> x in Values(es);
      (if es[0].state == s then [es[0].value] else []) + rest
  }

  /** `serialise`: one `{add, rem}` per block, in block order. */
  function Serialise(blocks: seq<Block>): (r: seq<AddRem>)
    ensures |r| == |blocks|
    ensures forall d :: 0 <= d < |blocks| ==>
      r[d].add == ValuesIn(blocks[d].entries, Assign) && r[d].rem == ValuesIn(blocks[d].entries, Unassign)
  {
    seq(|blocks|, d requires 0 <= d < |blocks| =>
      AddRem(ValuesIn(blocks[d].entries, Assign), ValuesIn(blocks[d].entries, Unassign)))
  }

  /** The explicit pairs of one state, as values. */
  ghost function Project(ps: seq<(int, AssignState)>, s: AssignState): seq<int>
    decreases |ps|
  {
    if |ps| == 0 then []
    else (if ps[0].1 == s then [ps[0].0] else []) + Project(ps[1..], s)
  }

  /** What `serialise` writes for a block depends only on its explicit entries:
      NONE entries and inherited flags are never written. */
  lemma {:induction false} ValuesInExplicit(es: seq<Entry>, s: AssignState)
    requires s != NoneState
    ensures ValuesIn(es, s) == Project(Explicit(es), s)
    decreases |es|
  {
    if |es| > 0 {
      ValuesInExplicit(es[1..], s);
      var head := if es[0].state != NoneState then [(es[0].value, es[0].state)] else [];
      assert Explicit(es) == head + Explicit(es[1..]);
      ProjectAppend(head, Explicit(es[1..]), s);
    }
  }

  lemma {:induction false} ProjectAppend(a: seq<(int, AssignState)>, b: seq<(int, AssignState)>, s: AssignState)
    ensures Project(a + b, s) == Project(a, s) + Project(b, s)
    decreases |a|
  {
    if |a| > 0 {
      assert (a + b)[1..] == a[1..] + b;
      ProjectAppend(a[1..], b, s);
    } else {
      assert a + b == b;
    }
  }

  /** The values written for a state are the values of that state's explicit
      pairs, counted with multiplicity. */
  lemma {:induction false} ValuesInCount(es: seq<Entry>, s: AssignState, x: int)
    requires s != NoneState
    ensures multiset(ValuesIn(es, s))[x] == multiset(Explicit(es))[(x, s)]
    decreases |es|
  {
    if |es| > 0 {
      ValuesInCount(es[1..], s, x);
      var head := if es[0].state != NoneState then [(es[0].value, es[0].state)] else [];
      assert Explicit(es) == head + Explicit(es[1..]);
      assert ValuesIn(es, s) == (if es[0].state == s then [es[0].value] else []) + ValuesIn(es[1..], s);
    }
  }

  /** Written from a value-sorted block, each list comes out ascending. */
  lemma {:induction false} ValuesInSorted(es: seq<Entry>, s: AssignState)
    requires Sorted(es)
    ensures SortedInts(ValuesIn(es, s))
    ensures |es| > 0 ==> forall i :: 0 <= i < |ValuesIn(es, s)| ==> es[0].value <= ValuesIn(es, s)[i]
    decreases |es|
  {
    if |es| > 0 {
      var rest := ValuesIn(es[1..], s);
      ValuesInSorted(es[1..], s);
      assert ValuesIn(es, s) == (if es[0].state == s then [es[0].value] else []) + rest;
      forall i | 0 <= i < |rest| ensures es[0].value <= rest[i] {
        assert rest[i] in Values(es[1..]);
        var m :| 0 <= m < |es[1..]| && Values(es[1..])[m] == rest[i];
        assert es[m + 1].value == rest[i];
      }
    }
  }

  // ---- deserialise ----

  /** The state a dict key stands for: `'rem'` is UNASSIGN, any other key ASSIGN. */
  function KeyState(key: string): (s: AssignState)
    ensures s != NoneState
    ensures s == Unassign <==> key == "rem"
  {
    if key == "rem" then Unassign else Assign
  }

  /** The loop over one DCA's dict items: each number becomes an entry of the
      key's state, inserted in order of value. */
  function AddItems(es: seq<Entry>, items: Items): (r: seq<Entry>)
    ensures Sorted(es) ==> Sorted(r)
    decreases |items|
  {
    if |items| == 0 then es
    else AddItems(AddAll(es, items[0].1, KeyState(items[0].0)), items[1..])
  }

  /** The numbers filed under keys other than `'rem'`, in item order. */
  function AddsOf(items: Items): seq<int>
    decreases |items|
  {
    if |items| == 0 then []
    else (if items[0].0 != "rem" then items[0].1 else []) + AddsOf(items[1..])
  }

  /** The numbers filed under `'rem'`, in item order. */
  function RemsOf(items: Items): seq<int>
    decreases |items|
  {
    if |items| == 0 then []
    else (if items[0].0 == "rem" then items[0].1 else []) + RemsOf(items[1..])
  }

  lemma {:induction false} PairsAppend(a: seq<int>, b: seq<int>, s: AssignState)
    ensures Pairs(a + b, s) == Pairs(a, s) + Pairs(b, s)
    decreases |a|
  {
    if |a| > 0 {
      assert (a + b)[1..] == a[1..] + b;
      PairsAppend(a[1..], b, s);
    } else {
      assert a + b == b;
    }
  }

  /** A pair of `Pairs(vs, s)` carries state `s` and occurs as often as its
      value occurs in `vs`. */
  lemma {:induction false} PairsCount(vs: seq<int>, s: AssignState, x: int, t: AssignState)
    ensures Pairs(vs, s)[(x, t)] == (if t == s then multiset(vs)[x] else 0)
    decreases |vs|
  {
    if |vs| > 0 {
      PairsCount(vs[1..], s, x, t);
      assert vs == [vs[0]] + vs[1..];
    }
  }

  /** The explicit entries of a DCA after its items are added: the old ones
      plus every number of a `'rem'` item as UNASSIGN and every other number
      as ASSIGN. */
  lemma {:induction false} AddItemsExplicit(es: seq<Entry>, items: Items)
    ensures multiset(Explicit(AddItems(es, items))) ==
      multiset(Explicit(es)) + Pairs(AddsOf(items), Assign) + Pairs(RemsOf(items), Unassign)
    decreases |items|
  {
    if |items| > 0 {
      var key := items[0].0;
      var vs := items[0].1;
      var es' := AddAll(es, vs, KeyState(key));
      AddAllExplicit(es, vs, KeyState(key));
      AddItemsExplicit(es', items[1..]);
      var e, p := multiset(Explicit(es)), Pairs(vs, KeyState(key));
      var a, u := Pairs(AddsOf(items[1..]), Assign), Pairs(RemsOf(items[1..]), Unassign);
      if key == "rem" {
        assert AddsOf(items) == [] + AddsOf(items[1..]) == AddsOf(items[1..]);
        assert RemsOf(items) == vs + RemsOf(items[1..]);
        PairsAppend(vs, RemsOf(items[1..]), Unassign);
        ShiftPart(e, p, a, u);
      } else {
        assert AddsOf(items) == vs + AddsOf(items[1..]);
        assert RemsOf(items) == [] + RemsOf(items[1..]) == RemsOf(items[1..]);
        PairsAppend(vs, AddsOf(items[1..]), Assign);
        ShiftPart(e, p, a, u);
      }
    }
  }

  /** A part added to the first of three sums may be added to any of them. */
  lemma ShiftPart<T>(e: multiset<T>, p: multiset<T>, x: multiset<T>, y: multiset<T>)
    ensures (e + p) + x + y == e + (p + x) + y
    ensures (e + p) + x + y == e + x + (p + y)
  {
  }

  /** One inherited entry of the mapper's row: an entry of the same value is
      flagged inherited (the first, as `list.index` finds it); with none, a new
      inherited NONE entry is inserted. Entries not inherited in the mapper do
      nothing. */
  function InheritOne(es: seq<Entry>, m: Entry): (r: seq<Entry>)
    ensures Sorted(es) ==> Sorted(r)
    ensures Explicit(r) == Explicit(es)
    ensures multiset(Values(r)) == multiset(Values(es)) + (if m.inherited && m.value !in Values(es) then multiset{m.value} else multiset{})
  {
    if !m.inherited then es
    else
      match IndexOf(Values(es), m.value)
      case Some(i) =>
        var r := es[i := es[i].(inherited := true)];
        ExplicitSetFlag(es, i, true);
        assert Values(r) == Values(es);
        r
      case None =>
        var e := Entry(m.value, NoneState, true);
        ExplicitInsertNone(es, InsertPoint(Values(es), m.value), e);
        AddChild(es, e)
  }

  /** Some entry of value `v` in `es` has its inherited flag set. */
  ghost predicate FlaggedIn(es: seq<Entry>, v: int) {
    exists e :: e in es && e.value == v && e.inherited
  }

  /** The per-entry rules: an inherited mapper value ends up flagged in the
      block, and where the value was present no entry is added. */
  lemma InheritOneRules(es: seq<Entry>, m: Entry)
    ensures m.inherited ==> FlaggedIn(InheritOne(es, m), m.value)
    ensures m.inherited && m.value in Values(es) ==> |InheritOne(es, m)| == |es|
    ensures m.inherited && m.value !in Values(es) ==>
      Entry(m.value, NoneState, true) in InheritOne(es, m) && |InheritOne(es, m)| == |es| + 1
    ensures !m.inherited ==> InheritOne(es, m) == es
  {
    if m.inherited {
      match IndexOf(Values(es), m.value)
      case Some(i) =>
        var r := es[i := es[i].(inherited := true)];
        assert InheritOne(es, m) == r;
        assert Values(es)[i] == es[i].value == m.value;
        assert r[i] == Entry(m.value, es[i].state, true) && r[i] in r;
      case None =>
        var e := Entry(m.value, NoneState, true);
        assert AddChild(es, e)[InsertPoint(Values(es), m.value)] == e;
    }
  }

  /** Flags once set are kept by later steps. */
  lemma InheritOneKeepsFlags(es: seq<Entry>, m: Entry, v: int)
    requires FlaggedIn(es, v)
    ensures FlaggedIn(InheritOne(es, m), v)
  {
    if m.inherited {
      match IndexOf(Values(es), m.value)
      case Some(i) =>
        var r := es[i := es[i].(inherited := true)];
        var e :| e in es && e.value == v && e.inherited;
        var j :| 0 <= j < |es| && es[j] == e;
        assert r[j] == e.(inherited := true) == e;
        assert InheritOne(es, m) == r;
      case None =>
        var e := Entry(m.value, NoneState, true);
        var x :| x in es && x.value == v && x.inherited;
        assert multiset(AddChild(es, e)) == multiset(es) + multiset{e};
        assert x in multiset(es);
        assert x in AddChild(es, e);
    }
  }

  /** The inheritance loop of one DCA, over the mapper row's entries in order. */
  function InheritAll(es: seq<Entry>, mapper: seq<Entry>): (r: seq<Entry>)
    ensures Sorted(es) ==> Sorted(r)
    ensures Explicit(r) == Explicit(es)
    decreases |mapper|
  {
    if |mapper| == 0 then es else InheritAll(InheritOne(es, mapper[0]), mapper[1..])
  }

  /** Every value inherited in the mapper's row is flagged inherited in the
      block afterwards. */
  lemma {:induction false} InheritAllFlags(es: seq<Entry>, mapper: seq<Entry>, v: int)
    ensures (FlaggedIn(es, v) || exists i :: 0 <= i < |mapper| && mapper[i].inherited && mapper[i].value == v) ==>
      FlaggedIn(InheritAll(es, mapper), v)
    decreases |mapper|
  {
    if |mapper| > 0 {
      var es' := InheritOne(es, mapper[0]);
      InheritOneRules(es, mapper[0]);
      if FlaggedIn(es, v) {
        InheritOneKeepsFlags(es, mapper[0], v);
      }
      InheritAllFlags(es', mapper[1..], v);
      if exists i :: 0 <= i < |mapper| && mapper[i].inherited && mapper[i].value == v {
        var i :| 0 <= i < |mapper| && mapper[i].inherited && mapper[i].value == v;
        if i > 0 {
          assert mapper[1..][i - 1] == mapper[i];
        }
      }
    }
  }

  /** `deserialise` of a cue's `dca_changes` into the row `blocks`.
      `mapperRow` is the cue's row in the mapper when inherits are enabled
      and `None` when they are not; the mapper's row has a block for each of
      ours. `None` where the source raises: a `dca_changes` longer than the
      row, whose block `d` does not exist. */
  function Deserialise(blocks: seq<Block>, changes: seq<Items>, mapperRow: Option<seq<Block>>): (r: Option<seq<Block>>)
    requires mapperRow.Some? ==> |blocks| <= |mapperRow.value|
    ensures r.None? <==> |changes| > |blocks|
    ensures r.Some? ==> |r.value| == |blocks|
    ensures r.Some? ==> forall d :: 0 <= d < |blocks| ==>
      r.value[d].given == blocks[d].given && r.value[d].inheritedName == blocks[d].inheritedName
    ensures r.Some? ==> forall d :: 0 <= d < |blocks| && Sorted(blocks[d].entries) ==> Sorted(r.value[d].entries)
  {
    if |changes| > |blocks| then None
    else
      Some(seq(|blocks|, d requires 0 <= d < |blocks| =>
        var own := if d < |changes| then AddItems(blocks[d].entries, changes[d]) else blocks[d].entries;
        blocks[d].(entries := if mapperRow.Some? then InheritAll(own, mapperRow.value[d].entries) else own)))
  }

  /** Inherits only add NONE entries and set flags, so what `serialise` writes
      back is the same whether inherits are enabled or not. */
  lemma SerialiseIgnoresInherits(blocks: seq<Block>, changes: seq<Items>, mapperRow: seq<Block>)
    requires |blocks| <= |mapperRow|
    ensures var a := Deserialise(blocks, changes, Some(mapperRow));
      var b := Deserialise(blocks, changes, None);
      a.Some? == b.Some? && (a.Some? ==> Serialise(a.value) == Serialise(b.value))
  {
    if |changes| <= |blocks| {
      var a := Deserialise(blocks, changes, Some(mapperRow)).value;
      var b := Deserialise(blocks, changes, None).value;
      forall d | 0 <= d < |blocks|
        ensures ValuesIn(a[d].entries, Assign) == ValuesIn(b[d].entries, Assign)
        ensures ValuesIn(a[d].entries, Unassign) == ValuesIn(b[d].entries, Unassign)
      {
        ValuesInExplicit(a[d].entries, Assign);
        ValuesInExplicit(b[d].entries, Assign);
        ValuesInExplicit(a[d].entries, Unassign);
        ValuesInExplicit(b[d].entries, Unassign);
      }
    }
  }

  /** With inherits enabled, every entry inherited in the mapper's row for
      DCA `d` is flagged inherited in block `d`. */
  lemma DeserialiseFlagsInherits(blocks: seq<Block>, changes: seq<Items>, mapperRow: seq<Block>, d: nat, i: nat)
    requires |blocks| <= |mapperRow|
    requires d < |blocks| && i < |mapperRow[d].entries| && mapperRow[d].entries[i].inherited
    ensures var r := Deserialise(blocks, changes, Some(mapperRow));
      r.Some? ==> FlaggedIn(r.value[d].entries, mapperRow[d].entries[i].value)
  {
    var own := if d < |changes| then AddItems(blocks[d].entries, changes[d]) else blocks[d].entries;
    InheritAllFlags(own, mapperRow[d].entries, mapperRow[d].entries[i].value);
  }

  /** One value's count in one state, from an empty block. */
  lemma RoundTripCount(items: Items, s: AssignState, x: int)
    requires s != NoneState
    ensures multiset(ValuesIn(AddItems([], items), s))[x] ==
      multiset(if s == Assign then AddsOf(items) else RemsOf(items))[x]
  {
    var es := AddItems([], items);
    AddItemsExplicit([], items);
    assert Explicit([]) == [];
    ValuesInCount(es, s, x);
    PairsCount(AddsOf(items), Assign, x, s);
    PairsCount(RemsOf(items), Unassign, x, s);
  }

  /** One DCA of the round trip: from an empty block, the numbers written
      back are the ones read in, by state. */
  lemma RoundTripDca(items: Items)
    ensures var es := AddItems([], items);
      && multiset(ValuesIn(es, Assign)) == multiset(AddsOf(items))
      && multiset(ValuesIn(es, Unassign)) == multiset(RemsOf(items))
  {
    var es := AddItems([], items);
    forall x ensures multiset(ValuesIn(es, Assign))[x] == multiset(AddsOf(items))[x] {
      RoundTripCount(items, Assign, x);
    }
    forall x ensures multiset(ValuesIn(es, Unassign))[x] == multiset(RemsOf(items))[x] {
      RoundTripCount(items, Unassign, x);
    }
  }

  /** The round trip on a fresh model: `serialise` after `deserialise` gives,
      for each DCA listed, the same add and rem numbers (as multisets),
      ascending; DCAs not listed come back empty. */
  lemma RoundTrip(blocks: seq<Block>, changes: seq<Items>, mapperRow: Option<seq<Block>>)
    requires mapperRow.Some? ==> |blocks| <= |mapperRow.value|
    requires forall d :: 0 <= d < |blocks| ==> blocks[d].entries == []
    ensures var des := Deserialise(blocks, changes, mapperRow);
      des.Some? ==>
      var r := Serialise(des.value);
      && |r| == |blocks|
      && (forall d :: 0 <= d < |changes| ==>
            multiset(r[d].add) == multiset(AddsOf(changes[d])) &&
            multiset(r[d].rem) == multiset(RemsOf(changes[d])))
      && (forall d :: |changes| <= d < |blocks| ==> r[d].add == [] && r[d].rem == [])
      && (forall d :: 0 <= d < |blocks| ==> SortedInts(r[d].add) && SortedInts(r[d].rem))
  {
    if |changes| <= |blocks| {
      if mapperRow.Some? {
        SerialiseIgnoresInherits(blocks, changes, mapperRow.value);
      }
      var des := Deserialise(blocks, changes, None).value;
      var r := Serialise(des);
      forall d | 0 <= d < |blocks|
        ensures SortedInts(r[d].add) && SortedInts(r[d].rem)
        ensures d >= |changes| ==> r[d].add == [] && r[d].rem == []
        ensures d < |changes| ==> multiset(r[d].add) == multiset(AddsOf(changes[d]))
        ensures d < |changes| ==> multiset(r[d].rem) == multiset(RemsOf(changes[d]))
      {
        assert Sorted(blocks[d].entries);
        ValuesInSorted(des[d].entries, Assign);
        ValuesInSorted(des[d].entries, Unassign);
        if d < |changes| {
          RoundTripDca(changes[d]);
        }
      }
    }
  }
}
