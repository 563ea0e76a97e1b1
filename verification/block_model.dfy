/** The earlier single-DCA editor model (dca_plotter_models.py): three
    categories of mic leaves (new assigns, inherited, removed assigns), sorted
    insertion, the unused-mic filter, and the remove-or-relocate action. */
module BlockModel {
  import opened Wrappers
  import opened Primitives

  /** The keys of `CATEGORIES`, in their order. */
  datatype Category = Assigns | Inherited | Unassigns

  /** The keys of `ACTIONS`. */
  datatype ActionName = AddNewAssign | AddNewUnassign | RemoveAssign | PinInherited | RemoveInherited | RestoreInherited

  /** A tree node: a leaf carries a mic value; a branch a caption and children. */
  datatype Node =
    | Leaf(value: int, actions: seq<ActionName>)
    | Branch(caption: string, actions: seq<ActionName>, children: seq<Node>)

  /** The category's position among the root's children. */
  function CategoryRow(c: Category): (r: nat)
    ensures r < 3
  {
    match c
    case Assigns => 0
    case Inherited => 1
    case Unassigns => 2
  }

  /** `CATEGORIES[c]['child_actions']`. */
  function ChildActions(c: Category): seq<ActionName> {
    match c
    case Assigns => [RemoveAssign]
    case Inherited => [RemoveInherited, PinInherited]
    case Unassigns => [RestoreInherited]
  }

  /** `ACTIONS[a]['dest']`: only the leaf actions name a destination. */
  function Dest(a: ActionName): (r: Option<Category>)
    ensures r.Some? <==> a !in [AddNewAssign, AddNewUnassign]
  {
    match a
    case RemoveAssign => Some(Inherited)
    case PinInherited => Some(Assigns)
    case RemoveInherited => Some(Unassigns)
    case RestoreInherited => Some(Inherited)
    case _ => None
  }

  /** Every leaf action moves its leaf to another category than the one whose
      leaves carry it. */
  lemma ChildActionsLeave(c: Category, a: ActionName)
    requires a in ChildActions(c)
    ensures Dest(a).Some? && Dest(a).value != c
  {
  }

  // ---- addChild / getInsertPoint ----

  predicate AllLeaves(ns: seq<Node>) {
    forall i :: 0 <= i < |ns| ==> ns[i].Leaf?
  }

  /** `getChildIndexes` over leaves. */
  function LeafValues(ns: seq<Node>): (vs: seq<int>)
    requires AllLeaves(ns)
    ensures |vs| == |ns| && forall i :: 0 <= i < |ns| ==> vs[i] == ns[i].value
  {
    seq(|ns|, i requires 0 <= i < |ns| => ns[i].value)
  }

  ghost predicate SortedLeaves(ns: seq<Node>)
    requires AllLeaves(ns)
  {
    SortedInts(LeafValues(ns))
  }

  /** `DcaBlockBranch.addChild`: a leaf goes in at the insert point of its
      value; any other node is appended. A leaf can only be placed among
      leaves (the source reads `value` of every child). */
  function AddChild(ns: seq<Node>, child: Node): (r: seq<Node>)
    requires child.Leaf? ==> AllLeaves(ns)
    ensures |r| == |ns| + 1 && multiset(r) == multiset(ns) + multiset{child}
    ensures !child.Leaf? ==> r == ns + [child]
    ensures child.Leaf? ==> AllLeaves(r) && r[InsertPoint(LeafValues(ns), child.value)] == child
    ensures child.Leaf? ==> LeafValues(r) == InsertAt(LeafValues(ns), InsertPoint(LeafValues(ns), child.value), child.value)
  {
    if child.Leaf? then
      var k := InsertPoint(LeafValues(ns), child.value);
      var r := InsertAt(ns, k, child);
      assert LeafValues(r) == InsertAt(LeafValues(ns), k, child.value);
      r
    else ns + [child]
  }

  /** Among sorted leaves the new leaf lands after every smaller value and
      before every greater or equal one, so the leaves stay sorted. */
  lemma AddChildPlacement(ns: seq<Node>, child: Node)
    requires child.Leaf? && AllLeaves(ns) && SortedLeaves(ns)
    ensures var r := AddChild(ns, child); var k := InsertPoint(LeafValues(ns), child.value);
      && (forall i :: 0 <= i < k ==> r[i].value < child.value)
      && (forall i :: k < i < |r| ==> child.value <= r[i].value)
      && SortedLeaves(r)
  {
    InsertPointSplits(LeafValues(ns), child.value);
  }

  // ---- the model ----

  /** DcaBlockModel: the leaves of each category, in `CategoryRow` order,
      and the list of inherited values. */
  datatype Model = Model(cats: seq<seq<Node>>, inherited: seq<int>)

  ghost predicate Valid(m: Model) {
    Shaped(m) && forall c :: 0 <= c < 3 ==> SortedLeaves(m.cats[c])
  }

  /** Three categories, each of leaves only. */
  predicate Shaped(m: Model) {
    |m.cats| == 3 && forall c :: 0 <= c < 3 ==> AllLeaves(m.cats[c])
  }

  /** The values of every leaf of every category, category by category. */
  function UsedValues(cats: seq<seq<Node>>): (r: seq<int>)
    requires forall c :: 0 <= c < |cats| ==> AllLeaves(cats[c])
    ensures forall x :: x in r <==> exists c :: 0 <= c < |cats| && x in LeafValues(cats[c])
    decreases |cats|
  {
    if |cats| == 0 then []
    else
      var rest := UsedValues(cats[1..]);
      assert forall c :: 1 <= c < |cats| ==> cats[c] == cats[1..][c - 1];
      LeafValues(cats[0]) + rest
  }

  /** `get_values_not_used`: the mic numbers 1 to `micCount` that no leaf
      holds, ascending. `micCount` stands for the plugin's microphone count. */
  method GetValuesNotUsed(m: Model, micCount: nat) returns (r: seq<int>)
    requires Shaped(m)
    ensures forall i, j :: 0 <= i < j < |r| ==> r[i] < r[j]
    ensures forall x :: x in r <==> 1 <= x <= micCount && forall c :: 0 <= c < 3 ==> x !in LeafValues(m.cats[c])
  {
    var current := UsedValues(m.cats);
    r := [];
    var num := 1;
    while num <= micCount
      invariant 1 <= num <= micCount + 1
      invariant forall x :: x in r <==> 1 <= x < num && x !in current
      invariant forall i, j :: 0 <= i < j < |r| ==> r[i] < r[j]
      invariant forall i :: 0 <= i < |r| ==> r[i] < num
    {
      if num !in current {
        r := r + [num];
      }
      num := num + 1;
    }
  }

  /** `remove_entry`: the leaf at `row` of category `c` goes. */
  function RemoveEntry(m: Model, c: nat, row: nat): (r: Model)
    requires Valid(m) && c < 3 && row < |m.cats[c]|
    ensures Valid(r) && r.inherited == m.inherited
    ensures multiset(LeafValues(r.cats[c])) == multiset(LeafValues(m.cats[c])) - multiset{m.cats[c][row].value}
    ensures forall d :: 0 <= d < 3 && d != c ==> r.cats[d] == m.cats[d]
  {
    var ns := RemoveAt(m.cats[c], row);
    assert LeafValues(ns) == RemoveAt(LeafValues(m.cats[c]), row);
    m.(cats := m.cats[c := ns])
  }

  /** `relocate_entry`: the leaf at `row` of category `c` moves to category
      `dest`, takes that category's leaf actions, and is inserted in order. */
  function RelocateEntry(m: Model, c: nat, row: nat, dest: Category): (r: Model)
    requires Valid(m) && c < 3 && row < |m.cats[c]|
    ensures Valid(r) && r.inherited == m.inherited
    ensures Leaf(m.cats[c][row].value, ChildActions(dest)) in r.cats[CategoryRow(dest)]
  {
    var leaf := m.cats[c][row];
    var removed := RemoveEntry(m, c, row);
    var moved := Leaf(leaf.value, ChildActions(dest));
    var d := CategoryRow(dest);
    var ns := AddChild(removed.cats[d], moved);
    AddChildPlacement(removed.cats[d], moved);
    var r := removed.(cats := removed.cats[d := ns]);
    assert r.cats[d][InsertPoint(LeafValues(removed.cats[d]), moved.value)] == moved;
    r
  }

  /** All the values of a model, counted with multiplicity. */
  ghost function AllValues(m: Model): multiset<int>
    requires Shaped(m)
  {
    multiset(LeafValues(m.cats[0])) + multiset(LeafValues(m.cats[1])) + multiset(LeafValues(m.cats[2]))
  }

  /** Replacing one category's leaves by ones with a value more adds that
      value to the total. */
  lemma GrowCategory(m: Model, d: nat, ns: seq<Node>, v: int)
    requires Valid(m) && d < 3 && AllLeaves(ns) && SortedLeaves(ns)
    requires multiset(LeafValues(ns)) == multiset(LeafValues(m.cats[d])) + multiset{v}
    ensures Valid(m.(cats := m.cats[d := ns]))
    ensures AllValues(m.(cats := m.cats[d := ns])) == AllValues(m) + multiset{v}
  {
    ReplaceValid(m, d, ns);
    GrowTotal(m, d, ns, v);
  }

  lemma GrowTotal(m: Model, d: nat, ns: seq<Node>, v: int)
    requires Shaped(m) && d < 3 && AllLeaves(ns)
    requires multiset(LeafValues(ns)) == multiset(LeafValues(m.cats[d])) + multiset{v}
    ensures Shaped(m.(cats := m.cats[d := ns]))
    ensures AllValues(m.(cats := m.cats[d := ns])) == AllValues(m) + multiset{v}
  {
    var m' := m.(cats := m.cats[d := ns]);
    assert Shaped(m') by {
      forall c | 0 <= c < 3 ensures AllLeaves(m'.cats[c]) {
        if c != d { assert m'.cats[c] == m.cats[c]; }
      }
    }
    var a0, a1, a2 := multiset(LeafValues(m.cats[0])), multiset(LeafValues(m.cats[1])), multiset(LeafValues(m.cats[2]));
    var b0, b1, b2 := multiset(LeafValues(m'.cats[0])), multiset(LeafValues(m'.cats[1])), multiset(LeafValues(m'.cats[2]));
    if d == 0 {
      assert m'.cats[1] == m.cats[1] && m'.cats[2] == m.cats[2];
      SumGrows(a0, a1, a2, b0, v);
    } else if d == 1 {
      assert m'.cats[0] == m.cats[0] && m'.cats[2] == m.cats[2];
      SumGrows(a1, a0, a2, b1, v);
      assert b0 + b1 + b2 == a0 + a1 + a2 + multiset{v};
    } else {
      assert m'.cats[0] == m.cats[0] && m'.cats[1] == m.cats[1];
      SumGrows(a2, a0, a1, b2, v);
      assert b0 + b1 + b2 == a0 + a1 + a2 + multiset{v};
    }
  }

  /** Growing one of three parts grows the sum, whichever part it is. */
  lemma SumGrows(x: multiset<int>, y: multiset<int>, z: multiset<int>, x': multiset<int>, v: int)
    requires x' == x + multiset{v}
    ensures x' + y + z == x + y + z + multiset{v}
    ensures y + x' + z == y + x + z + multiset{v}
    ensures y + z + x' == y + z + x + multiset{v}
  {
  }

  lemma ReplaceValid(m: Model, d: nat, ns: seq<Node>)
    requires Valid(m) && d < 3 && AllLeaves(ns) && SortedLeaves(ns)
    ensures Valid(m.(cats := m.cats[d := ns]))
  {
  }

  /** Removing takes away exactly the removed value. */
  lemma RemoveKeepsOthers(m: Model, c: nat, row: nat)
    requires Valid(m) && c < 3 && row < |m.cats[c]|
    ensures AllValues(RemoveEntry(m, c, row)) + multiset{m.cats[c][row].value} == AllValues(m)
  {
    var v := m.cats[c][row].value;
    var r := RemoveEntry(m, c, row);
    assert v in multiset(LeafValues(m.cats[c])) by {
      assert LeafValues(m.cats[c])[row] == v;
    }
    assert multiset(LeafValues(m.cats[c])) == multiset(LeafValues(r.cats[c])) + multiset{v};
    assert m == r.(cats := r.cats[c := m.cats[c]]);
    GrowCategory(r, c, m.cats[c], v);
  }

  /** Relocating keeps every value exactly once: the total multiset of values
      is unchanged. */
  lemma RelocateKeepsValues(m: Model, c: nat, row: nat, dest: Category)
    requires Valid(m) && c < 3 && row < |m.cats[c]|
    ensures AllValues(RelocateEntry(m, c, row, dest)) == AllValues(m)
  {
    var v := m.cats[c][row].value;
    var removed := RemoveEntry(m, c, row);
    RemoveKeepsOthers(m, c, row);
    var d := CategoryRow(dest);
    var moved := Leaf(v, ChildActions(dest));
    var ns := AddChild(removed.cats[d], moved);
    AddChildPlacement(removed.cats[d], moved);
    assert RelocateEntry(m, c, row, dest) == removed.(cats := removed.cats[d := ns]);
    GrowCategory(removed, d, ns, v);
  }

  /** `remove_or_relocate_entry`: an inherited value is moved to the action's
      destination, any other value is removed. The action is one of the
      leaf's own, so it names a destination. */
  function RemoveOrRelocate(m: Model, c: nat, row: nat, action: ActionName): (r: Model)
    requires Valid(m) && c < 3 && row < |m.cats[c]| && Dest(action).Some?
    ensures Valid(r)
    ensures m.cats[c][row].value in m.inherited ==>
      AllValues(r) == AllValues(m) && Leaf(m.cats[c][row].value, ChildActions(Dest(action).value)) in r.cats[CategoryRow(Dest(action).value)]
    ensures m.cats[c][row].value !in m.inherited ==>
      AllValues(r) == AllValues(m) - multiset{m.cats[c][row].value}
  {
    RelocateKeepsValues(m, c, row, Dest(action).value);
    RemoveKeepsOthers(m, c, row);
    if m.cats[c][row].value in m.inherited then RelocateEntry(m, c, row, Dest(action).value)
    else RemoveEntry(m, c, row)
  }
}
