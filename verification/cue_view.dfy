/** The decision rules of the cue editor's view (cue/view.py): the automatic
    DCA naming and the context-menu entries. `micName` stands for the
    plugin's mic-name lookup, which is not part of this model. */
module CueView {
  import opened Wrappers
  import opened Primitives

  /** The values of a block's entries that assign or inherit (every state but
      UNASSIGN), in entry order. */
  function Assigned(es: seq<Entry>): (r: seq<int>)
    ensures |r| <= |es|
    ensures forall i :: 0 <= i < |es| && es[i].state != Unassign ==> es[i].value in r
    ensures forall x :: x in r ==> exists i :: 0 <= i < |es| && es[i].state != Unassign && es[i].value == x
    decreases |es|
  {
    if |es| == 0 then []
    else
      var rest := Assigned(es[1..]);
      forall i | 1 <= i < |es| && es[i].state != Unassign ensures es[i].value in rest {
        assert es[1..][i - 1] == es[i];
      }
      forall x | x in rest ensures exists i :: 0 <= i < |es| && es[i].state != Unassign && es[i].value == x {
        var j :| 0 <= j < |es[1..]| && es[1..][j].state != Unassign && es[1..][j].value == x;
        assert es[j + 1] == es[1..][j];
      }
      (if es[0].state != Unassign then [es[0].value] else []) + rest
  }

  /** `_auto_name`: with no given name and exactly one non-UNASSIGN entry, the
      block is named after that entry's mic; with none at all, the given name
      is cleared; otherwise nothing changes. Only the given name ever changes. */
  function AutoName(b: Block, micName: int -> string): (r: Block)
    ensures r.entries == b.entries && r.inheritedName == b.inheritedName
    ensures BlockInherited(b) && |Assigned(b.entries)| == 1 ==>
      r.given == GivenFrom(micName(Assigned(b.entries)[0]))
    ensures !(BlockInherited(b) && |Assigned(b.entries)| == 1) && |Assigned(b.entries)| == 0 ==>
      BlockInherited(r)
    ensures !(BlockInherited(b) && |Assigned(b.entries)| == 1) && |Assigned(b.entries)| != 0 ==> r == b
  {
    var assigns := Assigned(b.entries);
    if BlockInherited(b) && |assigns| == 1 then BlockSetData(b, micName(assigns[0]), EditRole).0
    else if |assigns| == 0 then BlockSetData(b, "", EditRole).0
    else b
  }

  /** Naming twice is naming once: a block named after its single mic keeps
      that name, and a cleared block stays cleared. */
  lemma AutoNameIdempotent(b: Block, micName: int -> string)
    ensures AutoName(AutoName(b, micName), micName) == AutoName(b, micName)
  {
  }

  /** After auto-naming, a block with one assigned mic and no name of its own
      displays that mic's name (when it has one); a block with no assigned mic
      displays its inherited name. */
  lemma AutoNameDisplays(b: Block, micName: int -> string)
    ensures BlockInherited(b) && |Assigned(b.entries)| == 1 && micName(Assigned(b.entries)[0]) != "" ==>
      BlockName(AutoName(b, micName)) == micName(Assigned(b.entries)[0])
    ensures |Assigned(b.entries)| == 0 ==> BlockName(AutoName(b, micName)) == b.inheritedName
  {
  }

  /** The caption of the entry's remove action in `contextMenuEvent`. */
  function Caption(e: Entry): (c: string)
    ensures c == "Remove" <==> !e.inherited
  {
    if !e.inherited then "Remove"
    else if e.state == Assign then "Unpin"
    else if e.state == Unassign then "Restore"
    else "Unassign"
  }

  /** The table written beside that code, as an independent reference: it
      names the caption for every explicit entry and for inherited entries,
      and says nothing about a non-inherited NONE entry. */
  function TableCaption(e: Entry): (c: Option<string>)
    ensures c.None? <==> e.state == NoneState && !e.inherited
  {
    match (e.state, e.inherited)
    case (Assign, false) => Some("Remove")
    case (Assign, true) => Some("Unpin")
    case (Unassign, false) => Some("Remove")
    case (Unassign, true) => Some("Restore")
    case (NoneState, true) => Some("Unassign")
    case (NoneState, false) => None
  }

  /** The code agrees with its table wherever the table speaks, and gives
      `Remove` in the one case it leaves open. */
  lemma CaptionMatchesTable(e: Entry)
    ensures TableCaption(e).Some? ==> Caption(e) == TableCaption(e).value
    ensures TableCaption(e).None? ==> Caption(e) == "Remove"
  {
  }

  /** The menu items for a selected entry: `Pin` for a NONE entry, then the
      caption. */
  function EntryMenu(e: Entry): (r: seq<string>)
    ensures "Pin" in r <==> e.state == NoneState
    ensures |r| >= 1 && r[|r| - 1] == Caption(e)
  {
    (if e.state == NoneState then ["Pin"] else []) + [Caption(e)]
  }

  /** The menu items for a selected block: `New Assign`, and `New Unassign`
      only when inherits are disabled. */
  function BlockMenu(inheritsEnabled: bool): (r: seq<string>)
    ensures |r| >= 1 && r[0] == "New Assign"
    ensures "New Unassign" in r <==> !inheritsEnabled
  {
    ["New Assign"] + (if !inheritsEnabled then ["New Unassign"] else [])
  }
}
