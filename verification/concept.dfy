/** The grouping model shared by the choir and role settings
    (config/concept_assign_model.py): top-level groups with generated ids,
    each holding assigned channels. The id pattern is `prefix + "{0}"`, so a
    group id is the prefix followed by the group counter in decimal. */
module Concept {
  import opened Wrappers
  import opened Text
  import opened Primitives

  /** A channel tuple such as `('input', 3)`. */
  datatype Channel = Channel(category: string, num: int)

  /** An assign row: its channel and whether its check box (column 1) is set.
      Rows whose class has no check box are never checked. */
  datatype AssignChild = AssignChild(channel: Channel, checked: bool)

  /** GroupRow. */
  datatype Group = Group(id: string, name: string, children: seq<AssignChild>)

  /** ConceptTreeModel: its groups, the group counter, the id prefix and
      whether one channel may be assigned to several groups. */
  datatype ConceptModel = ConceptModel(groups: seq<Group>, count: nat, idPrefix: string, allowMulti: bool)

  /** The `QModelIndex` handed to `get_assignable_selection_choice`: invalid,
      a group row, or an assign row inside a group. */
  datatype ModelIndex = Invalid | GroupAt(g: nat) | AssignAt(g: nat, c: nat)

  /** `group_id_pattern.format(count)`. */
  function FormatId(prefix: string, count: nat): (r: string)
    ensures |r| > |prefix| && r[..|prefix|] == prefix
  {
    prefix + NatToString(count)
  }

  /** The channels of a group's assign rows, in row order. */
  function ChannelsOf(children: seq<AssignChild>): (r: seq<Channel>)
    ensures |r| == |children|
    ensures forall i :: 0 <= i < |children| ==> r[i] == children[i].channel
  {
    seq(|children|, i requires 0 <= i < |children| => children[i].channel)
  }

  /** `addGroup`: the new group, with the next generated id and no rows, goes
      at the end; the counter grows by one; the row number is returned. */
  function AddGroup(m: ConceptModel, name: string): (r: (ConceptModel, nat))
    ensures r.1 == |m.groups| && |r.0.groups| == |m.groups| + 1
    ensures r.0.groups[..|m.groups|] == m.groups
    ensures r.0.groups[r.1] == Group(FormatId(m.idPrefix, m.count), name, [])
    ensures r.0.count == m.count + 1
    ensures r.0.idPrefix == m.idPrefix && r.0.allowMulti == m.allowMulti
  {
    var g := Group(FormatId(m.idPrefix, m.count), name, []);
    var groups := m.groups + [g];
    assert groups[..|m.groups|] == m.groups;
    (m.(groups := groups, count := m.count + 1), |m.groups|)
  }

  /** `addAssign`: the channel becomes the last row of group `g`; every other
      group is untouched. */
  function AddAssign(m: ConceptModel, g: nat, ch: Channel): (r: ConceptModel)
    requires g < |m.groups|
    ensures |r.groups| == |m.groups| && r.count == m.count
    ensures r.groups[g].id == m.groups[g].id && r.groups[g].name == m.groups[g].name
    ensures ChannelsOf(r.groups[g].children) == ChannelsOf(m.groups[g].children) + [ch]
    ensures forall j :: 0 <= j < |m.groups| && j != g ==> r.groups[j] == m.groups[j]
    ensures r.idPrefix == m.idPrefix && r.allowMulti == m.allowMulti
  {
    var grp := m.groups[g];
    var grp' := grp.(children := grp.children + [AssignChild(ch, false)]);
    assert ChannelsOf(grp'.children) == ChannelsOf(grp.children) + [ch];
    m.(groups := m.groups[g := grp'])
  }

  // ---- get_assignable_selection_choice ----

  /** `a` is `b` with some elements left out, order kept. */
  ghost predicate Subseq<T>(a: seq<T>, b: seq<T>)
    decreases |b|
  {
    if |a| == 0 then true
    else if |b| == 0 then false
    else (a[0] == b[0] && Subseq(a[1..], b[1..])) || Subseq(a, b[1..])
  }

  lemma {:induction false} SubseqRefl<T>(s: seq<T>)
    ensures Subseq(s, s)
    decreases |s|
  {
    if |s| > 0 {
      SubseqRefl(s[1..]);
    }
  }

  lemma {:induction false} SubseqTrans<T>(a: seq<T>, b: seq<T>, c: seq<T>)
    requires Subseq(a, b) && Subseq(b, c)
    ensures Subseq(a, c)
    decreases |c|
  {
    if |a| > 0 {
      if b[0] == c[0] && Subseq(b[1..], c[1..]) {
        if a[0] == b[0] && Subseq(a[1..], b[1..]) {
          SubseqTrans(a[1..], b[1..], c[1..]);
        } else {
          SubseqTrans(a, b[1..], c[1..]);
        }
      } else {
        SubseqTrans(a, b, c[1..]);
      }
    }
  }

  lemma {:induction false} RemoveAtSubseq<T>(s: seq<T>, i: nat)
    requires i < |s|
    ensures Subseq(RemoveAt(s, i), s)
    decreases i
  {
    var r := RemoveAt(s, i);
    if i == 0 {
      assert r == s[1..];
      SubseqRefl(s[1..]);
    } else {
      assert r[1..] == RemoveAt(s[1..], i - 1);
      RemoveAtSubseq(s[1..], i - 1);
    }
  }

  lemma RemoveFirstSubseq<T>(s: seq<T>, x: T)
    ensures Subseq(RemoveFirst(s, x), s)
  {
    match IndexOf(s, x)
    case None => SubseqRefl(s);
    case Some(i) => RemoveAtSubseq(s, i);
  }

  /** The removal loop: for each used channel, `if ch in assignables:
      assignables.remove(ch)`. */
  function RemoveEach(a: seq<Channel>, used: seq<Channel>): (r: seq<Channel>)
    ensures |r| <= |a|
    decreases |used|
  {
    if |used| == 0 then a else RemoveEach(RemoveFirst(a, used[0]), used[1..])
  }

  /** Each use takes away one copy of its channel, while copies last: a
      channel keeps as many copies as it had minus the number of uses, and
      never fewer than none. */
  lemma {:induction false} RemoveEachCount(a: seq<Channel>, used: seq<Channel>)
    ensures multiset(RemoveEach(a, used)) == multiset(a) - multiset(used)
    decreases |used|
  {
    if |used| > 0 {
      var a' := RemoveFirst(a, used[0]);
      RemoveEachCount(a', used[1..]);
      assert multiset(a') == multiset(a) - multiset{used[0]};
      HeadTail(used);
      SubtractTwice(multiset(a), multiset{used[0]}, multiset(used[1..]));
    }
  }

  lemma HeadTail<T>(s: seq<T>)
    requires |s| > 0
    ensures multiset(s) == multiset{s[0]} + multiset(s[1..])
  {
    assert s == [s[0]] + s[1..];
  }

  lemma SubtractTwice<T>(a: multiset<T>, b: multiset<T>, c: multiset<T>)
    ensures (a - b) - c == a - (b + c)
  {
    forall x ensures ((a - b) - c)[x] == (a - (b + c))[x] {
    }
  }

  /** A list without repeats holds each value at most once. */
  lemma {:induction false} DistinctCount<T>(s: seq<T>, x: T)
    requires forall i, j :: 0 <= i < j < |s| ==> s[i] != s[j]
    ensures multiset(s)[x] <= 1
    decreases |s|
  {
    if |s| > 0 {
      assert s == [s[0]] + s[1..];
      forall i, j | 0 <= i < j < |s[1..]| ensures s[1..][i] != s[1..][j] {
        assert s[1..][i] == s[i + 1] && s[1..][j] == s[j + 1];
      }
      DistinctCount(s[1..], x);
      assert s[0] !in s[1..] by {
        forall i | 0 <= i < |s[1..]| ensures s[1..][i] != s[0] {
          assert s[1..][i] == s[i + 1];
        }
      }
    }
  }

  /** The choice keeps the supplied order. */
  lemma {:induction false} RemoveEachSubseq(a: seq<Channel>, used: seq<Channel>)
    ensures Subseq(RemoveEach(a, used), a)
    decreases |used|
  {
    if |used| == 0 {
      SubseqRefl(a);
    } else {
      var a' := RemoveFirst(a, used[0]);
      RemoveFirstSubseq(a, used[0]);
      RemoveEachSubseq(a', used[1..]);
      SubseqTrans(RemoveEach(a', used[1..]), a', a);
    }
  }

  /** The channels of every group, group by group. */
  function AllChannels(groups: seq<Group>): (r: seq<Channel>)
    ensures forall g, i :: 0 <= g < |groups| && 0 <= i < |groups[g].children| ==>
      groups[g].children[i].channel in r
    decreases |groups|
  {
    if |groups| == 0 then []
    else
      var rest := AllChannels(groups[1..]);
      forall g, i | 1 <= g < |groups| && 0 <= i < |groups[g].children|
        ensures groups[g].children[i].channel in rest
      {
        assert groups[1..][g - 1] == groups[g];
      }
      ChannelsOf(groups[0].children) + rest
  }

  /** An index that points at a row the model holds. */
  predicate IndexOk(m: ConceptModel, idx: ModelIndex) {
    match idx
    case Invalid => true
    case GroupAt(g) => g < |m.groups|
    case AssignAt(g, c) => g < |m.groups| && c < |m.groups[idx.g].children|
  }

  /** The channels a choice for group `g` must leave out: in multi-assign mode
      those of this group, otherwise those of every group. */
  function UsedFor(m: ConceptModel, g: nat): seq<Channel>
    requires g < |m.groups|
  {
    if m.allowMulti then ChannelsOf(m.groups[g].children) else AllChannels(m.groups)
  }

  /** `get_assignable_selection_choice`: nothing for an invalid index or an
      assign row; for a group, the supplied assignables less one copy per
      use. `assignables` stands for the plugin's list for this model's
      categories. */
  function SelectionChoice(m: ConceptModel, idx: ModelIndex, assignables: seq<Channel>): (r: seq<Channel>)
    requires IndexOk(m, idx)
    ensures !idx.GroupAt? ==> r == []
    ensures idx.GroupAt? ==> Subseq(r, assignables)
    ensures idx.GroupAt? ==> multiset(r) == multiset(assignables) - multiset(UsedFor(m, idx.g))
  {
    match idx
    case GroupAt(g) =>
      var r := RemoveEach(assignables, UsedFor(m, g));
      RemoveEachSubseq(assignables, UsedFor(m, g));
      RemoveEachCount(assignables, UsedFor(m, g));
      r
    case _ => []
  }

  /** With each assignable listed once, a channel is offered exactly when it
      is assignable and not used: in multi-assign mode, not in this group; in
      single-assign mode, not in any group. */
  lemma SelectionChoiceMembers(m: ConceptModel, g: nat, assignables: seq<Channel>, x: Channel)
    requires g < |m.groups|
    requires forall i, j :: 0 <= i < j < |assignables| ==> assignables[i] != assignables[j]
    ensures x in SelectionChoice(m, GroupAt(g), assignables) <==>
      x in assignables && x !in UsedFor(m, g)
  {
    var r := SelectionChoice(m, GroupAt(g), assignables);
    DistinctCount(assignables, x);
    assert x in r <==> x in multiset(r);
    assert x in UsedFor(m, g) <==> x in multiset(UsedFor(m, g));
  }

  /** Once a channel is added to a group, a choice for that group no longer
      offers it (each assignable listed once). */
  lemma AddAssignHidesChannel(m: ConceptModel, g: nat, ch: Channel, assignables: seq<Channel>)
    requires g < |m.groups|
    requires forall i, j :: 0 <= i < j < |assignables| ==> assignables[i] != assignables[j]
    ensures ch !in SelectionChoice(AddAssign(m, g, ch), GroupAt(g), assignables)
  {
    var m' := AddAssign(m, g, ch);
    var cs := ChannelsOf(m'.groups[g].children);
    assert cs[|cs| - 1] == ch;
    SelectionChoiceMembers(m', g, assignables, ch);
  }

  // ---- GroupRow ----

  /** `GroupRow.removeChild`: the row goes; if it was checked and rows remain,
      the first remaining row becomes checked. Channels keep their order. */
  function GroupRemoveChild(grp: Group, c: nat): (r: Group)
    requires c < |grp.children|
    ensures r.id == grp.id && r.name == grp.name
    ensures ChannelsOf(r.children) == RemoveAt(ChannelsOf(grp.children), c)
    ensures forall i :: 1 <= i < |r.children| ==> r.children[i] == RemoveAt(grp.children, c)[i]
    ensures |r.children| > 0 ==>
      (r.children[0].checked <==> RemoveAt(grp.children, c)[0].checked || grp.children[c].checked)
  {
    var rest := RemoveAt(grp.children, c);
    var rest' := if grp.children[c].checked && |rest| > 0 then rest[0 := rest[0].(checked := true)] else rest;
    assert ChannelsOf(rest') == RemoveAt(ChannelsOf(grp.children), c);
    grp.(children := rest')
  }

  /** A group in which some row is checked keeps a checked row after any
      removal that leaves rows behind. */
  lemma RemoveChildKeepsCheck(grp: Group, c: nat)
    requires c < |grp.children| && |grp.children| > 1
    requires exists i :: 0 <= i < |grp.children| && grp.children[i].checked
    ensures exists i :: 0 <= i < |GroupRemoveChild(grp, c).children| && GroupRemoveChild(grp, c).children[i].checked
  {
    var r := GroupRemoveChild(grp, c);
    var i :| 0 <= i < |grp.children| && grp.children[i].checked;
    if i < c {
      if i == 0 {
        assert r.children[0].checked;
      } else {
        assert r.children[i] == grp.children[i];
      }
    } else if i == c {
      assert r.children[0].checked;
    } else {
      if i - 1 == 0 {
        assert r.children[0].checked;
      } else {
        assert r.children[i - 1] == grp.children[i];
      }
    }
  }

  /** `GroupRow.setData`: renames only for column 0 with EditRole. */
  function GroupSetData(grp: Group, col: int, name: string, role: ItemRole): (r: (Group, bool))
    ensures r.1 <==> col == 0 && role == EditRole
    ensures r.1 ==> r.0 == grp.(name := name)
    ensures !r.1 ==> r.0 == grp
  {
    if col == 0 && role == EditRole then (grp.(name := name), true) else (grp, false)
  }
}
