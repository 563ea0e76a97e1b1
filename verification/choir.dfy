/** The choir settings model (choir/choir_tree_model.py): a concept model
    with ids `choir#<n>`, single-assign mode, and a dict form for saving. */
module Choir {
  import opened Wrappers
  import opened Text
  import opened Concept
  import opened Primitives

  /** The id pattern `'choir#{0}'`, as its prefix. */
  const ChoirPrefix: string := "choir#"

  /** A fresh ChoirTreeModel: no groups, counter 0, single-assign mode. */
  function NewChoirModel(): (m: ConceptModel)
    ensures m.groups == [] && m.count == 0 && m.idPrefix == ChoirPrefix && !m.allowMulti
  {
    ConceptModel([], 0, ChoirPrefix, false)
  }

  /** One saved group: `{name, assigns}`. */
  datatype GroupData = GroupData(name: string, assigns: seq<Channel>)

  /** The saved dict `{id: {name, assigns}}`, as its items in order. */
  type Data = seq<(string, GroupData)>

  /** `int(group_id.split('#')[1])`: `None` where Python raises (no `#`, or a
      field that is not a decimal number). */
  function GroupNumber(id: string): Option<nat> {
    match SecondField(id, '#')
    case None => None
    case Some(f) => ParseNat(f)
  }

  /** The group row built from one saved group. */
  function GroupFrom(id: string, g: GroupData): (r: Group)
    ensures r.id == id && r.name == g.name && ChannelsOf(r.children) == g.assigns
  {
    var children := seq(|g.assigns|, i requires 0 <= i < |g.assigns| => AssignChild(g.assigns[i], false));
    assert ChannelsOf(children) == g.assigns;
    Group(id, g.name, children)
  }

  /** The groups a saved dict describes, in its order. */
  function GroupsFrom(data: Data): (r: seq<Group>)
    ensures |r| == |data|
    ensures forall i :: 0 <= i < |data| ==> r[i] == GroupFrom(data[i].0, data[i].1)
  {
    seq(|data|, i requires 0 <= i < |data| => GroupFrom(data[i].0, data[i].1))
  }

  /** Every id of the saved dict carries a group number. */
  predicate AllNumbered(data: Data) {
    forall i :: 0 <= i < |data| ==> GroupNumber(data[i].0).Some?
  }

  /** The largest of `c` and every group number of the saved dict. */
  function MaxNumber(c: nat, data: Data): (r: nat)
    requires AllNumbered(data)
    decreases |data|
  {
    if |data| == 0 then c
    else
      var k := GroupNumber(data[0].0).value;
      assert AllNumbered(data[1..]) by {
        forall i | 0 <= i < |data[1..]| ensures GroupNumber(data[1..][i].0).Some? {
          assert data[1..][i] == data[i + 1];
        }
      }
      MaxNumber(if c < k then k else c, data[1..])
  }

  /** `MaxNumber` is the least bound of `c` and every group number. */
  lemma {:induction false} MaxNumberIsLeastBound(c: nat, data: Data, b: nat)
    requires AllNumbered(data)
    ensures c <= MaxNumber(c, data)
    ensures forall i :: 0 <= i < |data| ==> GroupNumber(data[i].0).value <= MaxNumber(c, data)
    ensures c <= b && (forall i :: 0 <= i < |data| ==> GroupNumber(data[i].0).value <= b) ==>
      MaxNumber(c, data) <= b
    decreases |data|
  {
    if |data| > 0 {
      var k := GroupNumber(data[0].0).value;
      forall i | 0 <= i < |data[1..]| ensures data[1..][i] == data[i + 1] {
      }
      MaxNumberIsLeastBound(if c < k then k else c, data[1..], b);
    }
  }

  /** The loop of `deserialise`: append each group, keeping the counter at
      the largest number seen. */
  function LoadFrom(m: ConceptModel, data: Data): (r: Option<ConceptModel>)
    ensures r.Some? <==> AllNumbered(data)
    ensures r.Some? ==> r.value.groups == m.groups + GroupsFrom(data)
    ensures r.Some? ==> r.value.idPrefix == m.idPrefix && r.value.allowMulti == m.allowMulti
    ensures r.Some? ==> r.value.count == MaxNumber(m.count, data)
    decreases |data|
  {
    if |data| == 0 then Some(m)
    else
      match GroupNumber(data[0].0)
      case None => None
      case Some(k) =>
        var m' := m.(groups := m.groups + [GroupFrom(data[0].0, data[0].1)], count := if m.count < k then k else m.count);
        DataTail(m.groups, data);
        LoadFrom(m', data[1..])
  }

  /** Peeling off the first saved group. */
  lemma DataTail(gs: seq<Group>, data: Data)
    requires |data| > 0
    ensures AllNumbered(data) <==> GroupNumber(data[0].0).Some? && AllNumbered(data[1..])
    ensures gs + GroupsFrom(data) == (gs + [GroupFrom(data[0].0, data[0].1)]) + GroupsFrom(data[1..])
  {
    forall i | 0 <= i < |data[1..]| ensures data[1..][i] == data[i + 1] {
    }
    assert GroupsFrom(data) == [GroupFrom(data[0].0, data[0].1)] + GroupsFrom(data[1..]);
  }

  /** `deserialise`: a model that already has groups is left alone. Otherwise
      the saved groups are appended in order and the counter ends one past the
      largest of its old value and every group number. `None` where the source
      raises. */
  function Deserialise(m: ConceptModel, data: Data): (r: Option<ConceptModel>)
    ensures |m.groups| > 0 ==> r == Some(m)
    ensures |m.groups| == 0 ==> (r.Some? <==> AllNumbered(data))
    ensures |m.groups| == 0 && r.Some? ==> r.value.groups == GroupsFrom(data)
    ensures |m.groups| == 0 && r.Some? ==> r.value.count == MaxNumber(m.count, data) + 1
  {
    if |m.groups| > 0 then Some(m)
    else
      match LoadFrom(m, data)
      case None => None
      case Some(m') =>
        assert m.groups + GroupsFrom(data) == GroupsFrom(data);
        Some(m'.(count := m'.count + 1))
  }

  /** The counter after `deserialise` is above the old counter and every
      group number, and is the least such. */
  lemma DeserialiseCount(m: ConceptModel, data: Data, b: nat)
    requires |m.groups| == 0 && AllNumbered(data)
    ensures var c := Deserialise(m, data).value.count;
      && m.count < c
      && (forall i :: 0 <= i < |data| ==> GroupNumber(data[i].0).value < c)
      && (m.count < b && (forall i :: 0 <= i < |data| ==> GroupNumber(data[i].0).value < b) ==> c <= b)
  {
    MaxNumberIsLeastBound(m.count, data, if b > 0 then b - 1 else 0);
  }

  /** Every group's number is below the counter: the next id `addGroup` makes
      is then new. */
  ghost predicate IdsBelow(m: ConceptModel) {
    forall i :: 0 <= i < |m.groups| ==>
      GroupNumber(m.groups[i].id).Some? && GroupNumber(m.groups[i].id).value < m.count
  }

  /** The number read back from a generated choir id is the counter it was
      made from. */
  lemma GroupNumberOfFormat(n: nat)
    ensures GroupNumber(FormatId(ChoirPrefix, n)) == Some(n)
  {
    assert FormatId(ChoirPrefix, n) == "choir" + ['#'] + NatToString(n);
    assert '#' !in NatToString(n) by {
      forall i | 0 <= i < |NatToString(n)| ensures NatToString(n)[i] != '#' {
        assert IsDigit(NatToString(n)[i]);
      }
    }
    SecondFieldOfJoin("choir", '#', NatToString(n));
    ParseNatToString(n);
  }

  /** With every number below the counter, the id `addGroup` makes next is
      none of the existing ids. */
  lemma NextIdIsFresh(m: ConceptModel)
    requires IdsBelow(m) && m.idPrefix == ChoirPrefix
    ensures forall i :: 0 <= i < |m.groups| ==> m.groups[i].id != FormatId(m.idPrefix, m.count)
  {
    GroupNumberOfFormat(m.count);
  }

  /** `deserialise` into a fresh choir model leaves every number below the
      counter, and `addGroup` keeps it so: generated ids stay fresh for good. */
  lemma IdsBelowKept(data: Data, m: ConceptModel, name: string)
    requires AllNumbered(data)
    requires IdsBelow(m) && m.idPrefix == ChoirPrefix
    ensures IdsBelow(Deserialise(NewChoirModel(), data).value)
    ensures IdsBelow(AddGroup(m, name).0)
  {
    DeserialiseCount(NewChoirModel(), data, 0);
    GroupNumberOfFormat(m.count);
    var r := AddGroup(m, name).0;
    forall i | 0 <= i < |r.groups|
      ensures GroupNumber(r.groups[i].id).Some? && GroupNumber(r.groups[i].id).value < r.count
    {
      if i < |m.groups| {
        assert r.groups[i] == r.groups[..|m.groups|][i] == m.groups[i];
      }
    }
  }

  // ---- serialise ----

  /** `data[key] = value` on an insertion-ordered dict: an existing key keeps
      its place and takes the new value; a new key goes at the end. */
  function Put(d: Data, key: string, v: GroupData): (r: Data)
    ensures key in Keys(d) ==> |r| == |d|
    ensures key !in Keys(d) ==> r == d + [(key, v)]
    decreases |d|
  {
    if |d| == 0 then [(key, v)]
    else if d[0].0 == key then [(key, v)] + d[1..]
    else
      assert Keys(d) == [d[0].0] + Keys(d[1..]);
      [d[0]] + Put(d[1..], key, v)
  }

  /** `serialise`: each group's id maps to its name and its channels, in row
      order. */
  function SerialiseFrom(d: Data, groups: seq<Group>): (r: Data)
    decreases |groups|
  {
    if |groups| == 0 then d
    else SerialiseFrom(Put(d, groups[0].id, GroupData(groups[0].name, ChannelsOf(groups[0].children))), groups[1..])
  }

  function Serialise(m: ConceptModel): (r: Data) {
    SerialiseFrom([], m.groups)
  }

  /** Ids listed once each. */
  predicate DistinctIds(data: Data) {
    forall i, j :: 0 <= i < j < |data| ==> data[i].0 != data[j].0
  }

  lemma {:induction false} SerialiseFromDistinct(d: Data, data: Data)
    requires DistinctIds(d + data)
    ensures SerialiseFrom(d, GroupsFrom(data)) == d + data
    decreases |data|
  {
    if |data| == 0 {
      assert d + data == d;
    } else {
      var gs := GroupsFrom(data);
      var g := gs[0];
      assert g == GroupFrom(data[0].0, data[0].1);
      forall i | 0 <= i < |d| ensures Keys(d)[i] != g.id {
        assert (d + data)[i] == d[i] && (d + data)[|d|] == data[0];
      }
      var d' := Put(d, g.id, GroupData(g.name, ChannelsOf(g.children)));
      assert d' == d + [data[0]];
      assert gs[1..] == GroupsFrom(data[1..]);
      assert d' + data[1..] == d + data;
      SerialiseFromDistinct(d', data[1..]);
    }
  }

  /** The round trip: `serialise` after `deserialise` into a fresh model gives
      back the same ids, names and channel lists, in the same order. */
  lemma RoundTrip(data: Data)
    requires AllNumbered(data) && DistinctIds(data)
    ensures Serialise(Deserialise(NewChoirModel(), data).value) == data
  {
    assert [] + data == data;
    SerialiseFromDistinct([], data);
  }
}
