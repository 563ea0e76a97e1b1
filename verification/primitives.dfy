/** The tree primitives every item model of the plugin is built from
    (model_primitives.py): assign states, entries, DCA blocks and the
    sorted-insertion rule, with parent pointers replaced by sequence indices. */
module Primitives {
  import opened Wrappers

  /** AssignStateEnum. `NoneState` is the source's NONE: an entry present only
      because a predecessor produced it, with no explicit opinion of its own. */
  datatype AssignState = Assign | Unassign | NoneState

  /** The Qt data roles the modelled `setData`/`data` rules distinguish. */
  datatype ItemRole = DisplayRole | EditRole | CheckStateRole | OtherRole

  /** ModelsEntry: one input (mic number) under a DCA block. */
  datatype Entry = Entry(value: int, state: AssignState, inherited: bool)

  /** ModelsBlock: one DCA of a row. `given` is the user's explicit name
      (`_given_name`, `False` in the source when unset, never the empty string);
      `inheritedName` is the propagated or default name. */
  datatype Block = Block(given: Option<string>, inheritedName: string, entries: seq<Entry>)

  /** One DCA's element of a cue's `dca_changes`: inputs to add and to remove. */
  datatype AddRem = AddRem(add: seq<int>, rem: seq<int>)

  /** A freshly constructed ModelsEntry: state as supplied, not inherited. */
  function NewEntry(value: int, state: AssignState): (e: Entry)
    ensures e.value == value && e.state == state && !e.inherited
  {
    Entry(value, state, false)
  }

  /** A freshly constructed ModelsBlock: no given name, no entries. */
  function NewBlock(defaultName: string): (b: Block)
    ensures BlockInherited(b) && BlockName(b) == defaultName && b.entries == []
  {
    Block(None, defaultName, [])
  }

  /** `getChildValues`. */
  function Values(es: seq<Entry>): (vs: seq<int>)
    ensures |vs| == |es|
    ensures forall i :: 0 <= i < |es| ==> vs[i] == es[i].value
  {
    seq(|es|, i requires 0 <= i < |es| => es[i].value)
  }

  ghost predicate SortedInts(vs: seq<int>) {
    forall i, j :: 0 <= i < j < |vs| ==> vs[i] <= vs[j]
  }

  /** Entries ordered by value, as every `_add_node` keeps them. */
  ghost predicate Sorted(es: seq<Entry>) {
    forall i, j :: 0 <= i < j < |es| ==> es[i].value <= es[j].value
  }

  ghost predicate DistinctInts(vs: seq<int>) {
    forall i, j :: 0 <= i < j < |vs| ==> vs[i] != vs[j]
  }

  /** `getInsertPoint(v)`: the first index of `v` in `sorted(values + [v])`,
      which is the number of existing values strictly below `v`. */
  function InsertPoint(vs: seq<int>, v: int): (r: nat)
    ensures r <= |vs|
  {
    if |vs| == 0 then 0
    else InsertPoint(vs[..|vs| - 1], v) + (if vs[|vs| - 1] < v then 1 else 0)
  }

  /** In a sorted list the insert point splits the values below `v` from the rest:
      it is where `v` goes to keep the list sorted, before any equal value. */
  lemma {:induction false} InsertPointSplits(vs: seq<int>, v: int)
    requires SortedInts(vs)
    ensures forall i :: 0 <= i < InsertPoint(vs, v) ==> vs[i] < v
    ensures forall i :: InsertPoint(vs, v) <= i < |vs| ==> v <= vs[i]
    decreases |vs|
  {
    if |vs| > 0 {
      var init := vs[..|vs| - 1];
      InsertPointSplits(init, v);
    }
  }

  /** The positions of `vs` holding a value below `v`. */
  ghost function IndicesBelow(vs: seq<int>, v: int): set<int> {
    set i | 0 <= i < |vs| && vs[i] < v
  }

  /** The insert point counts the values below `v`, whatever their order. */
  lemma {:induction false} InsertPointCounts(vs: seq<int>, v: int)
    ensures InsertPoint(vs, v) == |IndicesBelow(vs, v)|
    decreases |vs|
  {
    if |vs| > 0 {
      InsertPointCounts(vs[..|vs| - 1], v);
      IndicesBelowLast(vs, v);
    }
  }

  /** Dropping the last value drops its position from the positions below `v`. */
  lemma IndicesBelowLast(vs: seq<int>, v: int)
    requires |vs| > 0
    ensures |IndicesBelow(vs, v)| == |IndicesBelow(vs[..|vs| - 1], v)| + (if vs[|vs| - 1] < v then 1 else 0)
  {
    var last := |vs| - 1;
    var init := vs[..last];
    var below := IndicesBelow(vs, v);
    var belowInit := IndicesBelow(init, v);
    assert below - {last} == belowInit by {
      forall i | i in below - {last} ensures i in belowInit {
        assert init[i] == vs[i];
      }
      forall i | i in belowInit ensures i in below - {last} {
        assert init[i] == vs[i];
      }
    }
    if vs[last] < v {
      assert below == belowInit + {last};
      assert last !in belowInit;
    } else {
      assert below == belowInit;
    }
  }

  /** Insert `x` at position `k`. */
  function InsertAt<T>(s: seq<T>, k: nat, x: T): (r: seq<T>)
    requires k <= |s|
    ensures |r| == |s| + 1 && r[k] == x
    ensures forall i :: 0 <= i < k ==> r[i] == s[i]
    ensures forall i :: k < i < |r| ==> r[i] == s[i - 1]
    ensures multiset(r) == multiset(s) + multiset{x}
  {
    assert s == s[..k] + s[k..];
    s[..k] + [x] + s[k..]
  }

  /** Remove the element at position `k` (Python `list.pop(k)`). */
  function RemoveAt<T>(s: seq<T>, k: nat): (r: seq<T>)
    requires k < |s|
    ensures |r| == |s| - 1
    ensures forall i :: 0 <= i < k ==> r[i] == s[i]
    ensures forall i :: k <= i < |r| ==> r[i] == s[i + 1]
    ensures multiset(r) == multiset(s) - multiset{s[k]}
  {
    assert s == s[..k] + [s[k]] + s[k + 1..];
    s[..k] + s[k + 1..]
  }

  /** The keys of an insertion-ordered dict kept as an association list, in
      insertion order (Python's `d.keys()`). */
  function Keys<K, V>(d: seq<(K, V)>): (ks: seq<K>)
    ensures |ks| == |d| && forall i :: 0 <= i < |d| ==> ks[i] == d[i].0
  {
    seq(|d|, i requires 0 <= i < |d| => d[i].0)
  }

  /** Python `list.index(x)`: the first position of `x`; `None` where Python
      raises ValueError. */
  function IndexOf<T(==)>(s: seq<T>, x: T): (r: Option<nat>)
    ensures r.Some? ==> r.value < |s| && s[r.value] == x && x !in s[..r.value]
    ensures r.None? <==> x !in s
  {
    if |s| == 0 then None
    else if s[0] == x then Some(0)
    else
      match IndexOf(s[1..], x)
      case None => None
      case Some(i) => Some(i + 1)
  }

  /** A position holding `x` with no `x` before it is the one `IndexOf` finds. */
  lemma {:induction false} IndexOfFirst<T>(s: seq<T>, x: T, i: nat)
    requires i < |s| && s[i] == x && x !in s[..i]
    ensures IndexOf(s, x) == Some(i)
  {
    if i > 0 {
      assert s[0] in s[..i];
      assert s[1..][..i - 1] == s[1..i];
      assert forall y :: y in s[1..i] ==> y in s[..i];
      IndexOfFirst(s[1..], x, i - 1);
    }
  }

  /** Python `list.remove(x)`: drop the first occurrence of `x`, if any
      (the callers here only remove elements they know are present). */
  function RemoveFirst<T(==)>(s: seq<T>, x: T): (r: seq<T>)
    ensures x in s ==> |r| == |s| - 1 && multiset(r) == multiset(s) - multiset{x}
    ensures x !in s ==> r == s
  {
    match IndexOf(s, x)
    case None => s
    case Some(i) => RemoveAt(s, i)
  }

  /** `ModelsBlock.addChild` / `_add_node`: insert the entry at the insert point
      of its value. The list grows by exactly one, keeps every old entry, and
      stays sorted. */
  function AddChild(es: seq<Entry>, e: Entry): (r: seq<Entry>)
    ensures |r| == |es| + 1
    ensures multiset(r) == multiset(es) + multiset{e}
    ensures r[InsertPoint(Values(es), e.value)] == e
    ensures Sorted(es) ==> Sorted(r)
    ensures Values(r) == InsertAt(Values(es), InsertPoint(Values(es), e.value), e.value)
    ensures multiset(Values(r)) == multiset(Values(es)) + multiset{e.value}
  {
    InsertKeepsSorted(es, e);
    var k := InsertPoint(Values(es), e.value);
    var r := InsertAt(es, k, e);
    assert Values(r) == InsertAt(Values(es), k, e.value);
    r
  }

  /** Removing entry `k` removes value `k`. */
  lemma ValuesRemoveAt(es: seq<Entry>, k: nat)
    requires k < |es|
    ensures Values(RemoveAt(es, k)) == RemoveAt(Values(es), k)
    ensures multiset(Values(RemoveAt(es, k))) == multiset(Values(es)) - multiset{es[k].value}
  {
    assert Values(RemoveAt(es, k)) == RemoveAt(Values(es), k);
  }

  lemma InsertKeepsSorted(es: seq<Entry>, e: Entry)
    ensures Sorted(es) ==> Sorted(InsertAt(es, InsertPoint(Values(es), e.value), e))
  {
    if Sorted(es) {
      InsertPointSplits(Values(es), e.value);
    }
  }

  /** Removing an entry keeps a sorted block sorted. */
  lemma RemoveAtSorted(es: seq<Entry>, k: nat)
    requires k < |es|
    ensures Sorted(es) ==> Sorted(RemoveAt(es, k))
  {
  }

  /** `ModelsBlock.data(DisplayRole | EditRole)`. */
  function BlockName(b: Block): string {
    if b.given.Some? then b.given.value else b.inheritedName
  }

  /** `ModelsBlock.inherited()`. */
  predicate BlockInherited(b: Block) {
    b.given.None?
  }

  /** The name `setData(value, EditRole)` stores: any falsy value (None or "",
      both written "" here) clears it. */
  function GivenFrom(value: string): (g: Option<string>)
    ensures g.Some? <==> value != ""
  {
    if value != "" then Some(value) else None
  }

  /** `ModelsBlock.setData`: only EditRole is accepted; it sets or clears the
      given name and touches nothing else. Returns the block and the success flag. */
  function BlockSetData(b: Block, value: string, role: ItemRole): (r: (Block, bool))
    ensures r.1 <==> role == EditRole
    ensures r.0.entries == b.entries && r.0.inheritedName == b.inheritedName
    ensures role != EditRole ==> r.0 == b
  {
    if role != EditRole then (b, false)
    else (b.(given := GivenFrom(value)), true)
  }

  /** `ModelsBlock.serialiseName`: the given name, or `None` for Python's `False`. */
  function SerialiseName(b: Block): Option<string> {
    b.given
  }

  /** What `data` shows after `setData(v, EditRole)`: a non-empty `v` is
      shown and makes the name given; an empty one makes the block show its
      inherited name again. `serialiseName` then reads back `v`, or `False`. */
  lemma SetDataShows(b: Block, v: string)
    ensures var c := BlockSetData(b, v, EditRole).0;
      && (BlockInherited(c) <==> v == "")
      && BlockName(c) == (if v == "" then b.inheritedName else v)
      && SerialiseName(c) == (if v == "" then None else Some(v))
  {
  }

  /** `deserialiseName(serialiseName())` gives the block back, for any block
      whose given name `setData` could have stored (never the empty string). */
  lemma NameRoundTrip(b: Block)
    requires b.given != Some("")
    ensures var v := if SerialiseName(b).Some? then SerialiseName(b).value else "";
      BlockSetData(b, v, EditRole).0 == b
  {
  }

  /** `ModelsBlock.setInherited`: replaces only the inherited name. */
  function SetInheritedName(b: Block, name: string): (r: Block)
    ensures r.given == b.given && r.entries == b.entries && r.inheritedName == name
  {
    b.(inheritedName := name)
  }

  /** How the name rules fit together: after an EditRole `setData(v)` the block
      displays `v` if `v` is non-empty and otherwise falls back to the inherited
      name; it counts as inherited exactly when `v` is empty; `serialiseName`
      returns `v` or nothing; and a later `setInherited` changes the display only
      when no given name is set. */
  lemma NameRules(b: Block, v: string, n: string)
    ensures var s := BlockSetData(b, v, EditRole).0;
      && BlockName(s) == (if v != "" then v else b.inheritedName)
      && (BlockInherited(s) <==> v == "")
      && SerialiseName(s) == (if v != "" then Some(v) else None)
      && BlockName(SetInheritedName(s, n)) == (if v != "" then v else n)
  {
  }

  /** `prev_sibling` of the node at row `k` of `rows`: none for the first row
      (`if self.rownum()` is false for row 0), else the row before it. */
  function PrevSibling<T>(rows: seq<T>, k: nat): (r: Option<T>)
    requires k < |rows|
    ensures k == 0 <==> r.None?
    ensures k > 0 ==> r == Some(rows[k - 1])
  {
    if k == 0 then None else Some(rows[k - 1])
  }

  /** `_clear_node`: the block is left with no entries; its names are kept. */
  function ClearNode(b: Block): (r: Block)
    ensures r.entries == [] && r.given == b.given && r.inheritedName == b.inheritedName
  {
    b.(entries := [])
  }

  /** `_remove_node`: an invalid index (`None`) leaves the entries as they were;
      a valid one removes exactly that entry. */
  function RemoveNode(es: seq<Entry>, index: Option<nat>): (r: seq<Entry>)
    requires index.Some? ==> index.value < |es|
    ensures index.None? ==> r == es
    ensures index.Some? ==> |r| == |es| - 1 && multiset(r) == multiset(es) - multiset{es[index.value]}
  {
    match index
    case None => es
    case Some(k) => RemoveAt(es, k)
  }
}
