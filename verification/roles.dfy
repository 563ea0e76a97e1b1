/** The role switcher's model (roles/roles_switcher_model.py): one row per
    configured role, each holding the role's assignable channels and the one
    currently chosen. Channel ids are plain strings here. */
module Roles {
  import opened Wrappers
  import opened Primitives

  /** A row of the switcher: the `{id, name, current, assigns}` dict. */
  datatype Role = Role(id: string, name: string, current: string, assigns: seq<string>)

  /** One role of the plugin config's `assigns['role']` list. */
  datatype ConfigRole = ConfigRole(id: string, name: string, default: string, assigns: seq<string>)

  /** The index of the LAST row with this id: the `{id: idx}` dict built in
      `renew` keeps the last position written for a key. */
  function LastIndexOf(roles: seq<Role>, id: string): (r: Option<nat>)
    ensures r.Some? ==> r.value < |roles| && roles[r.value].id == id
    ensures r.Some? ==> forall j :: r.value < j < |roles| ==> roles[j].id != id
    ensures r.None? <==> forall j :: 0 <= j < |roles| ==> roles[j].id != id
    decreases |roles|
  {
    if |roles| == 0 then None
    else if roles[|roles| - 1].id == id then Some(|roles| - 1)
    else LastIndexOf(roles[..|roles| - 1], id)
  }

  /** One renewed row: the config's id, name and assigns, choosing the old
      current of the same id if it is still among the assigns, else the
      default. */
  function RenewOne(roles: seq<Role>, c: ConfigRole): (r: Role)
    ensures r.id == c.id && r.name == c.name && r.assigns == c.assigns
    ensures var k := LastIndexOf(roles, c.id);
      r.current == if k.Some? && roles[k.value].current in c.assigns then roles[k.value].current else c.default
  {
    var keep := match LastIndexOf(roles, c.id)
      case Some(k) => if roles[k].current in c.assigns then Some(roles[k].current) else None
      case None => None;
    Role(c.id, c.name, if keep.Some? then keep.value else c.default, c.assigns)
  }

  /** `renew`: with no `role` key in the config (`None`) nothing changes;
      otherwise the rows are rebuilt from the config, in its order, and roles
      absent from it are dropped. A row keeps the previous choice exactly
      when a row of the same id existed (the last such) and its choice is
      still offered; otherwise it takes the default. */
  function Renew(roles: seq<Role>, config: Option<seq<ConfigRole>>): (r: seq<Role>)
    ensures config.None? ==> r == roles
    ensures config.Some? ==> |r| == |config.value|
    ensures config.Some? ==> forall i :: 0 <= i < |r| ==>
      r[i].id == config.value[i].id && r[i].name == config.value[i].name && r[i].assigns == config.value[i].assigns
    ensures config.Some? ==> forall i :: 0 <= i < |r| ==>
      var k := LastIndexOf(roles, config.value[i].id);
      r[i].current ==
        if k.Some? && roles[k.value].current in config.value[i].assigns then roles[k.value].current
        else config.value[i].default
  {
    match config
    case None => roles
    case Some(cs) => seq(|cs|, i requires 0 <= i < |cs| => RenewOne(roles, cs[i]))
  }

  /** A renewed choice is always on offer when the default is. */
  lemma RenewChoiceOffered(roles: seq<Role>, cs: seq<ConfigRole>)
    requires forall i :: 0 <= i < |cs| ==> cs[i].default in cs[i].assigns
    ensures var r := Renew(roles, Some(cs));
      forall i :: 0 <= i < |r| ==> r[i].current in r[i].assigns
  {
  }

  /** `current(role_id)`: the choice of the first row with that id. */
  function Current(roles: seq<Role>, id: string): (r: Option<string>)
    ensures r.None? <==> forall j :: 0 <= j < |roles| ==> roles[j].id != id
    decreases |roles|
  {
    if |roles| == 0 then None
    else if roles[0].id == id then Some(roles[0].current)
    else Current(roles[1..], id)
  }

  /** `current` reads the first row carrying the id. */
  lemma {:induction false} CurrentIsFirst(roles: seq<Role>, id: string, i: nat)
    requires i < |roles| && roles[i].id == id
    requires forall j :: 0 <= j < i ==> roles[j].id != id
    ensures Current(roles, id) == Some(roles[i].current)
    decreases i
  {
    if i > 0 {
      assert roles[0].id != id;
      forall j | 0 <= j < i - 1 ensures roles[1..][j].id != id {
        assert roles[1..][j] == roles[j + 1];
      }
      CurrentIsFirst(roles[1..], id, i - 1);
    }
  }

  /** With distinct ids in the config, `current` after `renew` is exactly the
      renewed choice of each configured role. */
  lemma RenewThenCurrent(roles: seq<Role>, cs: seq<ConfigRole>, i: nat)
    requires i < |cs|
    requires forall a, b :: 0 <= a < b < |cs| ==> cs[a].id != cs[b].id
    ensures Current(Renew(roles, Some(cs)), cs[i].id) == Some(Renew(roles, Some(cs))[i].current)
  {
    var r := Renew(roles, Some(cs));
    CurrentIsFirst(r, cs[i].id, i);
  }

  /** A `QModelIndex` the model hands out: `index(row, col)` is valid for a
      row of the table and a column from 0 (the name) to the assign count. */
  predicate ValidIndex(roles: seq<Role>, row: int, col: int) {
    0 <= row < |roles| && 0 <= col <= |roles[row].assigns|
  }

  /** The check state `data` reports for an assign column: checked exactly
      when that column's assign is the current choice. */
  function IsChecked(roles: seq<Role>, row: nat, col: nat): (b: bool)
    requires ValidIndex(roles, row, col) && col >= 1
  {
    roles[row].assigns[col - 1] == roles[row].current
  }

  /** `setData`: only a valid index, CheckStateRole, the Checked value and an
      assign column (not the name column) succeed; success makes that
      column's assign the current choice and changes nothing else. */
  function SetData(roles: seq<Role>, row: int, col: int, itemRole: ItemRole, checked: bool): (r: (seq<Role>, bool))
    ensures r.1 <==> ValidIndex(roles, row, col) && itemRole == CheckStateRole && checked && col >= 1
    ensures !r.1 ==> r.0 == roles
    ensures r.1 ==> |r.0| == |roles| && r.0[row] == roles[row].(current := roles[row].assigns[col - 1])
    ensures r.1 ==> forall j :: 0 <= j < |roles| && j != row ==> r.0[j] == roles[j]
  {
    if !ValidIndex(roles, row, col) || itemRole != CheckStateRole || !checked || col < 1 then (roles, false)
    else (roles[row := roles[row].(current := roles[row].assigns[col - 1])], true)
  }

  /** After a successful check, the clicked column reads as checked, and so
      does exactly every column offering the same channel. */
  lemma SetDataChecks(roles: seq<Role>, row: nat, col: nat, other: nat)
    requires ValidIndex(roles, row, col) && col >= 1
    requires 1 <= other <= |roles[row].assigns|
    ensures var r := SetData(roles, row, col, CheckStateRole, true).0;
      && IsChecked(r, row, col)
      && (IsChecked(r, row, other) <==> roles[row].assigns[other - 1] == roles[row].assigns[col - 1])
  {
  }

  /** A choice made with `setData` survives a `renew` whose config still
      offers it under the same role id. */
  lemma SetDataSurvivesRenew(roles: seq<Role>, row: nat, col: nat, cs: seq<ConfigRole>, i: nat)
    requires ValidIndex(roles, row, col) && col >= 1
    requires forall j :: 0 <= j < |roles| && j != row ==> roles[j].id != roles[row].id
    requires i < |cs| && cs[i].id == roles[row].id && roles[row].assigns[col - 1] in cs[i].assigns
    ensures Renew(SetData(roles, row, col, CheckStateRole, true).0, Some(cs))[i].current == roles[row].assigns[col - 1]
  {
    var r := SetData(roles, row, col, CheckStateRole, true).0;
    var k := LastIndexOf(r, cs[i].id);
    assert r[row].id == cs[i].id;
    assert k == Some(row);
  }
}
