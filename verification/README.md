# DCA Plotter: a Dafny model of its assign tracking and cue mapping

DCA Plotter is a plugin for Linux Show Player. It drives the DCAs (digitally
controlled amplifier groups) of a mixing desk from cues. A *change cue* says,
DCA by DCA, which inputs to add and which to remove, and may give a new DCA
name. A *reset cue* empties every DCA and renames them all. This project
models the plugin's core logic in Dafny:

- **The tracker** (`Tracker`, `TrackerProofs`, `Actions`). This is the live
  state of the desk. `calculate_diff` and `calculate_diff_from_mapper` turn a
  cue into a list of rename, assign and unassign actions, followed by the
  mutes and unmutes that the `assign_changes` scratch map calls for.
  `cancel_current` does the same for a reset cue. `call_cue` commits the
  list into the live state.
- **The older tracking model** (`LegacyTracker`). It has no names and keeps
  plain lists. It is proved to agree with the tracker.
- **The mapper's ledger** (`Ledger`, `LedgerOps`). This holds one row per
  DCA cue, in cue order. It derives, inverts, clears and applies change
  tuples. It also appends, amends, moves and removes cue rows, cascading each
  edit forward until a reset row stops it.
- **The tree primitives** (`Primitives`): entries, blocks, insert points and
  name rules.
- **A cue's own editing model** (`CueModel`): `serialise` and `deserialise`,
  including inherited entries. Its view rules (`CueView`) cover the context
  menus, the remove-action caption and automatic DCA naming.
- **The concept models** (`Concept`, `Choir`): groups of assignable channels,
  the selection offered for a group, and the choir model's save format.
- **The role switcher** (`Roles`).
- **The older block editor** (`BlockModel`).
- **The naming helpers** (`Utilities`, `Text`).

Every operation is a pure function over immutable datatypes. A Python
exception that the source can raise becomes `None` of an `Option`, except
where "Left out" names a precondition that excludes it instead. Python's
insertion-ordered dicts become association lists, so the order in which mutes
are emitted follows the source.

## Model

| member | source | states |
|---|---|---|
| Primitives.Keys | tracker/model.py:213 | The keys of an insertion-ordered dict (the scratch map, a saved choir dict) are listed in insertion order, the order `_calculate_mutes` walks them. |
| Actions.Lookup | tracker/model.py:256-264 | `assign_changes.get(x)` finds the value stored for key `x`, or nothing when `x` was never stored. |
| Actions.LookupAt | tracker/model.py:256-264 | In a map with distinct keys, the value at position `i` is what a lookup of that position's key returns. |
| Actions.Overwrite | tracker/model.py:259 | Writing to an existing key keeps the key list and its order, and changes only that key's value. |
| Actions.OverwriteLookup | tracker/model.py:259 | After an overwrite, the key reads the new value and every other key reads what it read before. |
| Actions.Update | tracker/model.py:247-264 | The state machine of `_update_assign_changes`. Assigning an unseen input stores UNMUTE (1), and assigning a MUTE (0) input turns it into KEEP_ON (-1). Unassigning an unseen input stores MUTE, and unassigning an UNMUTE input turns it into KEEP_ON. Any other case leaves the map as it was. A new key goes last, and no other key changes. |
| Actions.AppendLookup | tracker/model.py:257 | Appending a new key makes it read its value and leaves the other keys as they were. |
| Actions.StepScratch | tracker/model.py:226-245 | One action's effect on the scratch map keeps its keys distinct. |
| Actions.ScratchOf | tracker/model.py:226-245 | Feeding a diff's actions through the map in emission order keeps its keys distinct and its values among {1, 0, -1}. |
| Actions.ScratchMeaning | tracker/model.py:247-264 | A closed form for the map, whatever the order of the actions. An input never touched is absent. An input only assigned reads UNMUTE, and one only unassigned reads MUTE. An input both assigned and unassigned reads KEEP_ON. |
| Actions.HasSnoc | tracker/model.py:226-245 | Appending one action to a list adds an assign or unassign of `x` exactly when that action is one. |
| Actions.CalculateMutes | tracker/model.py:211-224 | `_calculate_mutes` emits only mutes and unmutes, each of a key of the map. |
| Actions.CalculateMutesRules | tracker/model.py:211-224 | An unmute is emitted for `x` exactly when the map reads UNMUTE for it, and a mute exactly when it reads MUTE. No action is emitted twice. |
| Actions.WithMutesSplit | tracker/model.py:208 | A diff's final list is its rename/assign/unassign actions, unchanged, followed by mutes and unmutes only. |
| Actions.WithMutes | tracker/model.py:208 | The diff's own actions followed by `_calculate_mutes` of the scratch map. Its meaning is stated by Actions.WithMutesSplit and Actions.MuteTail. |
| Actions.MuteTail | tracker/model.py:208-224 | In the final list, `unmute x` appears exactly when `x` was assigned and never unassigned. `mute x` appears exactly when `x` was unassigned and never assigned. |
| Tracker.AssignsFor | tracker/model.py:198-201 | The `add` loop emits only assigns on DCA `d`. |
| Tracker.AssignsForMembers | tracker/model.py:198-201 | `assign(d, x)` is emitted exactly when `x` is listed to add and is not live on DCA `d`. |
| Tracker.UnassignsFor | tracker/model.py:203-206 | The `rem` loop emits only unassigns on DCA `d`. |
| Tracker.UnassignsForMembers | tracker/model.py:203-206 | `unassign(d, x)` is emitted exactly when `x` is listed to remove and is live on DCA `d`. |
| Tracker.RenameIfChanged | tracker/model.py:195-196 | A rename is emitted exactly when the new name is non-empty and differs from the block's displayed name, and it carries that name. |
| Tracker.DiffDca | tracker/model.py:194-206 | One DCA's part of `calculate_diff`: rename, assigns, unassigns. Its meaning is stated by Tracker.DiffDcaRange, Tracker.DiffDcaInOrder and Tracker.DiffDcaMembers. |
| Tracker.DiffDcaRange | tracker/model.py:194-206 | One DCA's part of `calculate_diff` names only that DCA and never mutes. |
| Tracker.DcaPartsInOrder | tracker/model.py:194-206 | A rename, then assigns, then unassigns of one DCA all name that DCA and rank within its band of the diff order. |
| Tracker.DiffDcaInOrder | tracker/model.py:194-206 | Within one DCA's part, the rename comes first, then the assigns, then the unassigns. |
| Tracker.ConcatInDiffOrder | tracker/model.py:194 | Parts of increasing DCAs, each in diff order, concatenate to a list in diff order. |
| Tracker.ConcatInDcaOrder | tracker/model.py:194 | Parts of increasing DCAs concatenate to a list that goes DCA by DCA. |
| Tracker.PerDcaMembers | tracker/model.py:194 | An action is in the DCA-by-DCA walk exactly when one of the walked parts holds it. |
| Tracker.PerDcaKeyedMember | tracker/model.py:194 | When each part names only its own DCA, an action is in the walk exactly when its DCA is walked and that DCA's part holds it. |
| Tracker.PerDcaRange | tracker/model.py:194 | The walk from DCA `d` names only DCAs `d` to `n - 1`. |
| Tracker.PerDcaInDcaOrder | tracker/model.py:194 | The walk goes DCA by DCA. |
| Tracker.PerDcaInDiffOrder | tracker/model.py:194 | If every part is in diff order, the whole walk is in diff order. |
| Tracker.PerDcaSame | tracker/model.py:194 | Two walks whose parts agree on the walked DCAs are equal. |
| Tracker.PerDcaEmpty | tracker/model.py:194 | A walk over DCAs whose parts are all empty is empty. |
| Tracker.PerDcaSplit | tracker/model.py:194 | A walk splits at any DCA between its ends into the walk before and the walk after. |
| Tracker.DiffPartsKeyed | tracker/model.py:194-206 | Each DCA's part of `calculate_diff` names only that DCA. |
| Tracker.DiffActionsRange | tracker/model.py:194-206 | The actions of `calculate_diff` name only DCAs covered by the cue's `dca_changes`. |
| Tracker.DiffActionsInOrder | tracker/model.py:194-206 | `calculate_diff` goes DCA by DCA; within a DCA the order is rename, assigns, unassigns. |
| Tracker.DiffDcaMembers | tracker/model.py:194-206 | For its own DCA, one part holds exactly: assigns of inputs to add that are not live, unassigns of inputs to remove that are live, and the rename rule. |
| Tracker.DiffActionsAssigns | tracker/model.py:198-201 | `calculate_diff` emits `assign(e, x)` exactly when DCA `e` is covered, `x` is listed to add there, and `x` is not live on `e`. |
| Tracker.DiffActionsUnassigns | tracker/model.py:203-206 | `calculate_diff` emits `unassign(e, x)` exactly when DCA `e` is covered, `x` is listed to remove there, and `x` is live on `e`. |
| Tracker.DiffActionsRenames | tracker/model.py:195-196 | `calculate_diff` emits `rename(e, n)` exactly when `n` is DCA `e`'s non-empty new name and differs from the live name. |
| Tracker.DiffActions | tracker/model.py:194-206 | The per-DCA loop of `calculate_diff`, before the mutes. Its meaning is stated by DiffActionsRange, DiffActionsInOrder, DiffActionsAssigns, DiffActionsUnassigns and DiffActionsRenames. |
| Tracker.CalculateDiff | tracker/model.py:188-209 | `calculate_diff`: the loop's actions, then the mutes. Its meaning is stated by TrackerProofs.CalculateDiffContents and TrackerProofs.DiffReconciles. |
| Tracker.DiffActionsTrim | tracker/model.py:194-206 | Targets past the end of the live row add nothing to the model's loop, so what is proved for targets that fit holds for longer lists (the source returns for those only when they touch no live DCA). |
| Tracker.Stored | cue/change_cue.py:60 | The `dca_changes` a change cue stores: one dict per DCA with the `add` and `rem` lists of `serialise` and no `name` key. |
| Tracker.TargetsOf | tracker/model.py:195-206 | Reads each stored dict as a target with the same lists; its name is the stored one when present, else "". |
| Tracker.CalculateDiffAsWritten | tracker/model.py:188-209 | `calculate_diff` as written raises exactly when some dict has no `name` key or a target past the live row has a name or lists an input; otherwise it is the diff of the targets. |
| Tracker.CalculateDiffOfCue | tracker/model.py:188-209 | `calculate_diff` with the name read as by `dca.get`: it raises exactly when a target past the live row has a name or lists an input; otherwise it is the diff of the targets. |
| TrackerProofs.CalculateDiffContents | tracker/model.py:188-209 | The whole of `calculate_diff`, in both directions: the assigns, unassigns and renames above, in diff order; then only mutes and unmutes, following the mute rule. |
| Tracker.NonUnassigned | tracker/model.py:175 | Lists exactly the values of entries whose state is not UNASSIGN. |
| Tracker.Unassigned | tracker/model.py:177 | Lists exactly the values of entries whose state is UNASSIGN. |
| Tracker.EntryActions | tracker/model.py:173-178 | The entry loop emits only assigns and unassigns on DCA `d`. |
| Tracker.EntryActionsMembers | tracker/model.py:173-178 | The entry loop assigns exactly the non-UNASSIGN entries that are not live. It unassigns exactly the UNASSIGN entries that are live. |
| Tracker.LeftoverUnassigns | tracker/model.py:180-183 | The leftover loop emits only unassigns on DCA `d`. |
| Tracker.LeftoverMembers | tracker/model.py:180-183 | The leftover loop unassigns exactly the live inputs that the cue row's block does not list. |
| Tracker.DiffMapperDca | tracker/model.py:168-183 | One DCA's part of `calculate_diff_from_mapper`: rename, entry loop, leftover loop. Its meaning is stated by Tracker.DiffMapperDcaRange and Tracker.DiffMapperDcaMembers. |
| Tracker.DiffMapperDcaRange | tracker/model.py:168-183 | One DCA's part of the mapper diff names only that DCA. |
| Tracker.MapperPartsInOrder | tracker/model.py:168-183 | The rename, the entry loop and the leftover loop of one DCA together name only that DCA. |
| Tracker.MapperPartsKeyed | tracker/model.py:168-183 | Each DCA's part of the mapper diff names only that DCA. |
| Tracker.MapperActionsRange | tracker/model.py:168-183 | The mapper diff names only DCAs of the cue row. |
| Tracker.MapperActionsInOrder | tracker/model.py:168-183 | The mapper diff goes DCA by DCA. |
| Tracker.DiffMapperDcaMembers | tracker/model.py:168-183 | The assigns and unassigns one DCA's part holds: the entry-loop rules plus the leftover rule. |
| Tracker.MapperActions | tracker/model.py:168-184 | The per-DCA loop of `calculate_diff_from_mapper`, before the mutes. Its meaning is stated by MapperActionsRange, MapperActionsInOrder, MapperActionsAssigns and MapperActionsUnassigns. |
| Tracker.CalculateDiffFromMapper | tracker/model.py:161-186 | `calculate_diff_from_mapper`: the loop's actions, then the mutes. Its meaning is stated by TrackerProofs.MapperDiffReconciles. |
| Tracker.MapperActionsAssigns | tracker/model.py:172-176 | The mapper diff assigns exactly the non-UNASSIGN entries of the cue row that are not live. |
| Tracker.MapperActionsUnassigns | tracker/model.py:172-183 | The mapper diff unassigns exactly the live inputs that the cue row marks UNASSIGN or does not list. |
| Tracker.UnassignEach | tracker/model.py:155-156 | Emits one unassign per live entry of DCA `d`, in entry order. |
| Tracker.CancelFrom | tracker/model.py:153-156 | `cancel_current` from DCA `d` on emits only renames and unassigns of DCAs `d` and above. |
| Tracker.CancelFromRenames | tracker/model.py:154 | `rename(e, n)` is emitted exactly for every DCA `e` from `d` on, with `n` the new name. |
| Tracker.CancelFromUnassigns | tracker/model.py:155-156 | `unassign(e, x)` is emitted exactly for the live entries of the DCAs from `d` on. |
| Tracker.CancelCurrent | tracker/model.py:150-159 | `cancel_current`: a rename and the unassigns per DCA, then the mutes. Its meaning is stated by TrackerProofs.CancelCurrentContents and TrackerProofs.CommitCancelCurrent. |
| TrackerProofs.CancelCurrentContents | tracker/model.py:150-159 | `cancel_current` holds one rename to the new name per DCA and an unassign per live entry. It holds no assign and no unmute, and a mute for exactly the inputs live on some DCA. |
| Tracker.CommitAction | tracker/model.py:61-74 | One step of the commit loop. Mutes and unmutes change nothing. An assign succeeds exactly for a DCA in range, and adds the input to that block, keeping it sorted. An unassign succeeds exactly when the input is live there (otherwise `list.index` raises); it removes the input. A rename sets the given name by the `setData` rule. Other DCAs are untouched. |
| Tracker.Commit | tracker/model.py:59-74 | A successful commit keeps the number of DCAs. |
| TrackerProofs.CommitAppend | tracker/model.py:61 | Committing a concatenation commits its parts in turn. |
| TrackerProofs.CommitMutes | tracker/model.py:61-74 | Mutes and unmutes leave the live state as it is. |
| TrackerProofs.CommitUnassignHead | tracker/model.py:66-70 | Unassigning the first entry's input drops exactly that entry. |
| TrackerProofs.CommitUnassignEach | tracker/model.py:66-70 | Committing unassigns of every entry of a DCA, in entry order, empties the block. |
| TrackerProofs.CancelFromFrame | tracker/model.py:153-156 | What `cancel_current` emits for DCAs from `d` on depends only on those DCAs. |
| TrackerProofs.CommitCancelFrom | tracker/model.py:59-74 | Committing the cancel actions of DCAs `d..` empties and renames exactly those DCAs. |
| TrackerProofs.CommitCancelCurrent | tracker/model.py:150-159 | Committing `cancel_current` always succeeds. It leaves every DCA empty and named with the new name. |
| TrackerProofs.DistinctInsertAt | model_primitives.py:142-143 | Inserting an input that is not present keeps a block duplicate-free. |
| TrackerProofs.DistinctRemoveAt | model_primitives.py:314-321 | Removing an entry keeps a block duplicate-free. |
| TrackerProofs.CommitActionSets | tracker/model.py:61-70 | In a clean step, the block that is touched gains or loses exactly the one input. |
| TrackerProofs.CommitActionDistinct | tracker/model.py:61-70 | A clean step keeps every block duplicate-free. |
| TrackerProofs.CleanStep | tracker/model.py:61-70 | After a clean first step, the rest of the list is still clean. |
| TrackerProofs.CleanStepMembership | tracker/model.py:61-70 | After a clean first step, later assigns are still of inputs that are not live, and later unassigns still of live inputs. |
| TrackerProofs.StepKeeps | tracker/model.py:61-70 | A clean step keeps any other membership action clean. |
| TrackerProofs.SetEffectStep | tracker/model.py:61-70 | The set equation of a commit survives prefixing one clean step. |
| TrackerProofs.SetStep | tracker/model.py:61-70 | The set algebra of one step: each DCA's set is the old set minus the unassigned inputs plus the assigned ones. |
| TrackerProofs.FirstNoClash | tracker/model.py:61-70 | In a clean list, an input assigned first is not unassigned later on the same DCA. |
| TrackerProofs.CommitSetEffect | tracker/model.py:59-74 | Committing a clean list never raises. Each DCA ends up holding its old inputs minus those unassigned there plus those assigned there. Blocks stay duplicate-free, and DCAs no action touches are unchanged. |
| TrackerProofs.SetsOfStep | tracker/model.py:61-70 | The assigned and unassigned sets of a list grow one action at a time. |
| TrackerProofs.NoRepeatsConcat | tracker/model.py:194 | Two lists without repeats and without shared membership actions concatenate to a list without repeats. |
| TrackerProofs.EntryActionsNoRepeats | tracker/model.py:173-178 | With duplicate-free entries, the entry loop never emits the same action twice. |
| TrackerProofs.LeftoverNoRepeats | tracker/model.py:180-183 | With a duplicate-free live block, the leftover loop never unassigns an input twice. |
| TrackerProofs.DiffMapperDcaNoRepeats | tracker/model.py:168-183 | One DCA's part of the mapper diff has no repeated action. |
| TrackerProofs.PerDcaNoRepeats | tracker/model.py:194 | Keyed parts without repeats make a walk without repeats. |
| TrackerProofs.MapperActionsNoRepeats | tracker/model.py:168-183 | The mapper diff has no repeated action. |
| TrackerProofs.DiffMapperClean | tracker/model.py:161-186 | With duplicate-free row blocks and live blocks, every step of the mapper diff can be committed. |
| TrackerProofs.StatesExclusive | model_primitives.py:180-184 | In a duplicate-free block, no input is both UNASSIGN and not. |
| TrackerProofs.ReconcileDca | tracker/model.py:168-183 | After the commit, a covered DCA holds exactly the non-UNASSIGN inputs of its row block. |
| TrackerProofs.MapperDiffReconciles | tracker/model.py:40-74 | For a cue row that fits the live row, with no repeated input in any row block or live block, committing `calculate_diff_from_mapper` never raises. Afterwards every DCA the cue row covers holds exactly the row's non-UNASSIGN inputs, and the other DCAs are unchanged. |
| TrackerProofs.AssignsForNoRepeats | tracker/model.py:198-201 | With a duplicate-free add list, the add loop has no repeats. |
| TrackerProofs.UnassignsForNoRepeats | tracker/model.py:203-206 | With a duplicate-free remove list, the remove loop has no repeats. |
| TrackerProofs.DiffDcaNoRepeats | tracker/model.py:194-206 | One DCA's part of `calculate_diff` has no repeats. |
| TrackerProofs.DiffActionsNoRepeats | tracker/model.py:194-206 | `calculate_diff` has no repeated action. |
| TrackerProofs.DiffClean | tracker/model.py:188-209 | With duplicate-free add and remove lists, every step of `calculate_diff` can be committed. |
| TrackerProofs.DiffReconcilesDca | tracker/model.py:194-206 | After the commit, an input is on a covered DCA exactly when it was live and not removed, or was not live and was added. |
| TrackerProofs.DiffReconciles | tracker/model.py:40-74 | For targets that fit the live row, with no repeated input in any `add` list, `rem` list or live block, committing `calculate_diff` never raises. (A repeated `rem` entry of a live input makes the second unassign raise at tracker/model.py:68.) Each covered DCA then holds an input `y` exactly when (`y` was live and not listed to remove) or (`y` was not live and was listed to add). Uncovered DCAs are unchanged. |
| TrackerProofs.StoredCueRaises | tracker/model.py:195 | As written, `calculate_diff` raises on every stored change cue with at least one DCA. |
| TrackerProofs.StoredCueDiffs | tracker/model.py:194-206 | Read with `dca.get('name')`, a stored cue that fits the live row always diffs: no rename; `assign(e, x)` exactly for an input the cue's row marks ASSIGN that is not live on `e`; `unassign(e, x)` exactly for one it marks UNASSIGN that is live. |
| Tracker.ChangesFor | tracker/model.py:41-49 | The change list `call_cue` chooses. A non-empty cache for the last selected cue is reused. A reset cue uses `cancel_current`. A change cue uses the mapper diff when the predictive row is on; it fails exactly when the cue has no mapper row or that row is longer than the live row. Otherwise it uses `calculate_diff` of the stored `dca_changes` (names read as by `dca.get`), which fails exactly when a target past the live row has a name or lists an input. |
| Tracker.CallCue | tracker/model.py:40-74 | `call_cue` leaves the cache and the selection alone. When it succeeds, the live state is the commit of the chosen changes. |
| LegacyTracker.LegacyDca | dca_plotter_tracking_model.py:57-79 | One DCA's part of the older diff is only assigns and unassigns on that DCA. |
| LegacyTracker.AsBlock | dca_plotter_tracking_model.py:21 | A tracker block holding exactly the same inputs, in the same order, with no name. |
| LegacyTracker.AsLive | dca_plotter_tracking_model.py:21 | The tracker's live state that corresponds to `current_active`, DCA by DCA. |
| LegacyTracker.AsTargets | dca_plotter_tracking_model.py:56 | The nameless change-cue targets that correspond to `new_assigns`. |
| LegacyTracker.LegacyParts | dca_plotter_tracking_model.py:55-79 | What each DCA of `new_assigns` contributes; nothing for one without a live list. Its meaning is stated by LegacyTracker.LegacyDca and LegacyTracker.LegacyActionsReach. |
| LegacyTracker.LegacyActions | dca_plotter_tracking_model.py:55-81 | The per-DCA loop of the older `calculate_diff`, before the mutes. Its meaning is stated by LegacyTracker.LegacyDca and LegacyTracker.LegacyMatchesTracker. |
| LegacyTracker.Reach | dca_plotter_tracking_model.py:55-58 | The elements of `new_assigns` that have a live list: a prefix of it, as long as the shorter of the two lists. |
| LegacyTracker.LegacyActionsReach | dca_plotter_tracking_model.py:55-79 | Elements past the end of `current_active` contribute no action, and the reached prefix never overruns. |
| LegacyTracker.LegacyDiff | dca_plotter_tracking_model.py:45-95 | The older `calculate_diff` raises exactly when an element past the end of `current_active` lists an input to add or remove; otherwise it equals the tracker's `calculate_diff` of the nameless targets on the corresponding live state. |
| LegacyTracker.LegacyCallCue | dca_plotter_tracking_model.py:24-41 | The older `call_cue` fails whenever its diff raises. Its meaning is stated by LegacyTracker.LegacyCallCueReconciles. |
| LegacyTracker.LegacyMatchesTracker | dca_plotter_tracking_model.py:45-95 | The older `calculate_diff` emits the same actions as the tracker's `calculate_diff` with every name unset. |
| LegacyTracker.LegacyDiffContents | dca_plotter_tracking_model.py:45-95 | When it does not raise, the older diff, in both directions: assigns of inputs to add that are not yet active, unassigns of inputs to remove that are active (both only on DCAs with a live list), never a rename, then the mute rule. |
| LegacyTracker.LegacyCommitAction | dca_plotter_tracking_model.py:37-41 | An assign appends the input and succeeds exactly for a DCA in range. An unassign removes one copy and succeeds exactly when the input is present (otherwise `list.remove` raises). Everything else changes nothing. |
| LegacyTracker.LegacyCommit | dca_plotter_tracking_model.py:37-41 | A successful commit keeps the number of DCAs. |
| LegacyTracker.StepAgrees | dca_plotter_tracking_model.py:37-41 | One rename-free step succeeds in the older model exactly when it succeeds in the tracker, and the two live states keep the same inputs per DCA. |
| LegacyTracker.CommitsAgree | dca_plotter_tracking_model.py:37-41 | Two commit loops agree on rename-free lists: one appends and removes the first copy, the other keeps sorted blocks. Both succeed or both fail, and they leave the same inputs per DCA. |
| LegacyTracker.LegacyUntouched | dca_plotter_tracking_model.py:37-41 | A DCA that no action names keeps its list exactly. |
| LegacyTracker.LegacyDiffShape | dca_plotter_tracking_model.py:45-95 | When it does not raise, the older diff never renames, and names only DCAs of `new_assigns` that have a live list. |
| LegacyTracker.LegacyCallCueReconciles | dca_plotter_tracking_model.py:24-41 | The older `call_cue`, with add/remove lists and active lists free of repeats and no element past the live lists that adds or removes, never raises. Each covered DCA then holds an input exactly when it was active and not removed, or added; the other DCAs are unchanged. |
| LegacyTracker.ReconcilesInReach | dca_plotter_tracking_model.py:24-41 | The same, for a `new_assigns` no longer than `current_active`. |
| Ledger.EntryChanges | mapper/model.py:162-163 | One tuple per entry of a block, in entry order, carrying the DCA, value and state. |
| Ledger.DeriveFrom | mapper/model.py:161-163 | Derived tuples name DCAs from `d` up to the row's DCA count, and always carry a state. |
| Ledger.Derive | mapper/model.py:157-164 | A missing row or a reset row derives nothing. An assign row derives tuples of its own DCAs, each with a state. |
| Ledger.DeriveFromContents | mapper/model.py:157-164 | A tuple is derived exactly when its block holds an entry of that value and state (the inherited flag does not matter). |
| Ledger.Strip | mapper/model.py:163 | Drops only the inherited flag of each entry. |
| Ledger.DeriveFromOrdered | mapper/model.py:161-163 | Derived tuples are listed DCA by DCA. |
| Ledger.Invert | mapper/model.py:166-178 | Keeps length, DCA and value in every place. It swaps ASSIGN and UNASSIGN and keeps any other state. |
| Ledger.InvertInvolution | mapper/model.py:166-178 | Inverting twice gives back the original tuples. |
| Ledger.Clear | mapper/model.py:144-155 | Every result tuple is UNASSIGN. A tuple is in the result exactly when some input tuple of the same DCA and value was not UNASSIGN. |
| Ledger.ClearOfUnassigns | mapper/model.py:144-155 | Clearing a list of UNASSIGN tuples gives nothing. |
| Ledger.ClearTwice | mapper/model.py:144-155 | A cleared list clears to nothing. |
| Ledger.ApplyOne | mapper/model.py:119-135 | One tuple keeps the block's names and its sorted order. The pending list can only shrink, and only by removing tuples it held. |
| Ledger.ApplyOneRules | mapper/model.py:124-128 | For a value not in the block: an UNASSIGN tuple changes nothing; any other tuple adds an inherited NONE entry and stays pending. |
| Ledger.ApplyOnePresentRules | mapper/model.py:129-135 | For a value already in the block: an explicit entry absorbs the tuple (it leaves the pending list) and is flagged inherited unless the tuple is UNASSIGN. A NONE entry is dropped by an unset or UNASSIGN tuple, and kept as it is by any other tuple. |
| Ledger.ApplyLoop | mapper/model.py:119-135 | The apply loop walks a snapshot of the pending list. It keeps the block count, the names and sorted order, and only shrinks the pending list. |
| Ledger.Apply | mapper/model.py:113-135 | A reset row empties the change list and is left alone. An assign row keeps its cue, kind, block count and sorted blocks. |
| Ledger.CascadeFrom | mapper/model.py:137-142 | The cascade keeps rows before `k` and every row's cue and kind, and keeps the ledger well formed. |
| Ledger.CascadeStep | mapper/model.py:141 | One cascade step keeps the rows well formed, and keeps the remaining tuples within the DCA count. |
| Ledger.Cascade | mapper/model.py:137-142 | Cascading after the row at `idx` keeps every row up to and including it. |
| Ledger.ExplicitInsertNone | model_primitives.py:276-284 | Inserting a NONE entry leaves the explicit assigns and unassigns as they were. |
| Ledger.ExplicitRemoveNone | model_primitives.py:314-321 | Removing a NONE entry leaves the explicit assigns and unassigns as they were. |
| Ledger.ExplicitSetFlag | model_primitives.py:215-216 | Setting an entry's inherited flag leaves the explicit assigns and unassigns as they were. |
| Ledger.ApplyOneExplicit | mapper/model.py:119-135 | A tuple never adds, removes or alters an explicit entry. |
| Ledger.ApplyLoopExplicit | mapper/model.py:119-135 | The apply loop keeps every block's explicit entries. |
| Ledger.ApplyExplicit | mapper/model.py:113-135 | Applying tuples never changes what a row defines: its kind, its cue, its names and its explicit entries. |
| Ledger.CascadeKeepsDefinitions | mapper/model.py:137-142 | Cascading never changes what any cue defines; only inherited NONE entries and flags move. |
| Ledger.CascadeStopsAtReset | mapper/model.py:115-117 | A reset row stops the cascade: no row after it is touched. |
| LedgerOps.FindCuerow | mapper/model.py:180-185 | Finds the first row of the cue. It finds nothing exactly when no row carries the cue's id. |
| LedgerOps.ExplicitAppend | model_primitives.py:276-284 | The explicit part of a concatenation is the concatenation of the explicit parts. |
| LedgerOps.AddChildExplicit | model_primitives.py:276-284 | Inserting an explicit entry adds exactly its (value, state) pair to the block's explicit part. |
| LedgerOps.AddAll | mapper/model.py:196-202 | Adding a list of inputs keeps a sorted block sorted and grows it by one entry per input. |
| LedgerOps.AddAllExplicit | mapper/model.py:196-202 | The explicit part grows by exactly the added inputs, paired with their state. |
| LedgerOps.DefineBlock | mapper/model.py:189-202 | Defining a block keeps its names and its sorted order. |
| LedgerOps.DefineBlockExplicit | mapper/model.py:189-202 | After a block is defined, its explicit entries are its old ones (or none, with `clear_first`) plus the adds as ASSIGN and the removes as UNASSIGN. |
| LedgerOps.DefineBlocks | mapper/model.py:189-202 | The loop fails exactly when `dca_changes` is longer than the row, where `cuerow.child` raises. Otherwise only the blocks it covers are redefined. |
| LedgerOps.SetInitialAssigns | mapper/model.py:187-208 | Fails exactly when `dca_changes` is longer than the DCA count (the `IndexError` of line 190). Otherwise only row `k` changes; it stays an assign row of the same cue, and the ledger stays well formed. |
| LedgerOps.SetInitialAssignsDefines | mapper/model.py:187-208 | On success, each covered block ends up defining its old entries (or none) plus the adds and removes. Uncovered blocks keep their definition, and names are kept. Inheriting from the previous row adds only NONE entries. |
| LedgerOps.AppendRemoved | mapper/model.py:24-26 | The tuples after the edit come first, unchanged; after them come only unset tuples. |
| LedgerOps.AppendRemovedContents | mapper/model.py:23-26 | A tuple is in the result exactly when it is among the post-edit tuples, or it is the unset form of a pre-edit ASSIGN tuple that the edit removed. |
| LedgerOps.AppendRemovedExtras | mapper/model.py:24-26 | The loop invariant: appended unset tuples stay behind the post-edit tuples. |
| LedgerOps.AmendCuerow | mapper/model.py:12-29 | Only a change to `dca_changes` of a non-reset cue does anything. It fails exactly when the cue has no row, or its row is an assign row and the new value is longer than the DCA count. It keeps the ledger well formed, and keeps the rows before the amended one. |
| LedgerOps.AmendRow | mapper/model.py:16-29 | Fails exactly when the new value is longer than the DCA count. Otherwise the amended ledger keeps its length, its well-formedness and the rows before `k`. |
| LedgerOps.AmendCuerowDefines | mapper/model.py:12-29 | On success, the amended row defines exactly the new adds as ASSIGN and removes as UNASSIGN on each covered DCA. Every later row keeps its definition. |
| LedgerOps.AmendRowDefines | mapper/model.py:16-29 | The same, for the row once it is found. |
| LedgerOps.NewAssignRow | model_primitives.py:131-140 | A fresh assign row for the cue: one empty block per DCA, with no given name, named after its DCA number. |
| LedgerOps.AppendCuerow | mapper/model.py:31-49 | Fails exactly for a change cue whose `dca_changes` is longer than the DCA count. Otherwise the new row goes at the end and all old rows are kept. It is an assign row exactly for a change cue, and the ledger stays well formed. |
| LedgerOps.AppendCuerowDefines | mapper/model.py:39-42 | On success, the appended row of a change cue defines exactly the cue's adds and removes. Uncovered DCAs define nothing, and every block has no given name. |
| LedgerOps.LeaveChanges | mapper/model.py:63-66 | The tuples a departing row sends forward name only DCAs of the ledger. |
| LedgerOps.RemoveCuerow | mapper/model.py:98-111 | Fails exactly when the cue has no row. Otherwise the ledger loses one row, stays well formed, and keeps the rows before the removed one. |
| LedgerOps.RemoveCuerowKeepsOthers | mapper/model.py:98-111 | After a removal, every later row keeps its definition, shifted up by one. |
| LedgerOps.Relocate | mapper/model.py:73-75 | Takes the row at `k` out and puts it back at `m`: a permutation that keeps the rows before both positions. |
| LedgerOps.CleanEntries | mapper/model.py:79-83 | The clean-up leaves only explicit, non-inherited entries, drawn from the old values. |
| LedgerOps.CleanEntriesExplicit | mapper/model.py:79-83 | The clean-up keeps a block's explicit assigns and unassigns, in order. |
| LedgerOps.CleanEntriesSorted | mapper/model.py:79-83 | The clean-up keeps entries sorted. |
| LedgerOps.HeadBelowRest | mapper/model.py:79-83 | In a sorted list, the head is at most every value kept from its tail. |
| LedgerOps.Cleanup | mapper/model.py:79-83 | Cleaning a moved row keeps its definition and its sorted order. |
| LedgerOps.RelocateWellFormed | mapper/model.py:73-75 | Relocating a row keeps the ledger well formed. |
| LedgerOps.Settle | mapper/model.py:77-89 | The moved row, cleaned and re-inherited from its new predecessor, still defines what it did and keeps the ledger well formed. |
| LedgerOps.Passes | mapper/model.py:91-95 | What the moved row passes on fits the DCA count. |
| LedgerOps.Arrive | mapper/model.py:77-96 | The arrival half keeps the ledger's length and well-formedness, the rows before the moved one, and the moved row's cue and kind. |
| LedgerOps.ArriveKeepsDefinitions | mapper/model.py:77-96 | The arrival keeps what every row defines. |
| LedgerOps.MoveCuerow | mapper/model.py:51-96 | Fails exactly when the cue has no row. Otherwise the cue's row ends up at the new index, the ledger keeps its length and well-formedness, and rows before both positions are kept. |
| LedgerOps.RelocateInPlace | mapper/model.py:73-75 | Moving a row to where it already is changes nothing. |
| LedgerOps.RelocateKeepsDefinitions | mapper/model.py:73-75 | Relocating two row lists that define the same row by row gives lists that define the same row by row. |
| LedgerOps.DepartDefines | mapper/model.py:62-75 | The departure cascade and the relocation keep every definition, shifted as the rows shift. |
| LedgerOps.MovedDefines | mapper/model.py:62-96 | Departure, relocation and arrival keep every definition, shifted as the rows shift. |
| LedgerOps.MoveCuerowDefines | mapper/model.py:51-96 | A move changes no cue's definition: the moved row at the new index defines what it did, and every other row defines what the row it replaces in the relocated order did. |
| Primitives.NewEntry | model_primitives.py:180-184 | A fresh entry has the given value and state and is not inherited. |
| Primitives.NewBlock | model_primitives.py:136-140 | A fresh block has no given name (so it is inherited), displays its default name, and has no entries. |
| Primitives.Values | model_primitives.py:69-73 | `getChildValues` lists the entries' values in entry order. |
| Primitives.InsertPoint | model_primitives.py:75-79 | `getInsertPoint` is a position within the list, or its end. |
| Primitives.InsertPointSplits | model_primitives.py:75-79 | In a sorted list, the insert point of `v` splits the values below `v` from those at least `v`. |
| Primitives.InsertPointCounts | model_primitives.py:75-79 | The insert point counts the values below `v`, whatever their order. |
| Primitives.IndicesBelowLast | model_primitives.py:75-79 | Dropping the last value drops its position from the positions below `v`. |
| Primitives.InsertAt | model_primitives.py:142-143 | `list.insert(k, x)`: `x` at `k`, earlier elements kept, later ones shifted, and the multiset grows by `x`. |
| Primitives.RemoveAt | model_primitives.py:320 | `list.pop(k)`: earlier elements kept, later ones shifted down, and the multiset loses the element at `k`. |
| Primitives.IndexOf | tracker/model.py:68 | `list.index(x)` is the first position holding `x`. It is `None` exactly when `x` is absent, which is where Python raises. |
| Primitives.IndexOfFirst | tracker/model.py:68 | A position holding `x` with no `x` before it is the one `IndexOf` finds. |
| Primitives.RemoveFirst | dca_plotter_tracking_model.py:41 | `list.remove(x)` drops one copy of a present `x`. An absent `x` leaves the list as it was. |
| Primitives.AddChild | model_primitives.py:142-143 | `addChild` puts the entry at the insert point, keeps a sorted block sorted, and adds exactly that entry and its value. |
| Primitives.ValuesRemoveAt | model_primitives.py:314-321 | Removing entry `k` removes value `k`. |
| Primitives.InsertKeepsSorted | model_primitives.py:142-143 | Inserting at the insert point keeps a sorted block sorted. |
| Primitives.RemoveAtSorted | model_primitives.py:314-321 | Removing an entry keeps a sorted block sorted. |
| Primitives.GivenFrom | model_primitives.py:170 | A name is given exactly when the value is truthy (non-empty). |
| Primitives.BlockSetData | model_primitives.py:166-171 | Only EditRole is accepted. It changes only the given name, and any other role leaves the block alone. |
| Primitives.SetInheritedName | model_primitives.py:173-174 | Replaces only the inherited name. |
| Primitives.BlockName | model_primitives.py:145-147 | `data(DisplayRole)`: the given name, else the inherited one. Its meaning is stated by Primitives.SetDataShows. |
| Primitives.BlockInherited | model_primitives.py:157-158 | `inherited()`: no name is given. Its meaning is stated by Primitives.SetDataShows. |
| Primitives.SerialiseName | model_primitives.py:163-164 | `serialiseName()`: the given name, or `False` (`None` here). Its meaning is stated by Primitives.SetDataShows and Primitives.NameRoundTrip. |
| Primitives.SetDataShows | model_primitives.py:145-171 | After `setData(v, EditRole)` the block is inherited exactly when `v` is empty, shows `v` or else its inherited name, and serialises `v` or `False`. |
| Primitives.NameRoundTrip | model_primitives.py:160-171 | `deserialiseName(serialiseName())` gives the block back. |
| Primitives.NameRules | model_primitives.py:145-174 | After `setData(v)`, the block displays `v`, or its inherited name when `v` is falsy. It is inherited exactly when `v` is falsy, and it serialises `v` or nothing. A later `setInherited(n)` shows through only when no name was given. |
| Primitives.PrevSibling | model_primitives.py:41-44 | The first row has no previous sibling. Any other row's is the row before it. |
| Primitives.ClearNode | model_primitives.py:286-292 | `_clear_node` empties the block and keeps its names. |
| Primitives.RemoveNode | model_primitives.py:314-321 | An invalid index leaves the entries alone. A valid one removes exactly that entry. |
| CueModel.ValuesIn | cue/model.py:50-54 | Lists the values of a block's entries in one state, in entry order. |
| CueModel.Serialise | cue/model.py:45-59 | `serialise` writes one `{add, rem}` per block: `add` the ASSIGN values and `rem` the UNASSIGN values. |
| CueModel.ValuesInExplicit | cue/model.py:50-54 | What `serialise` writes for a block depends only on its explicit entries. |
| CueModel.ProjectAppend | cue/model.py:50-54 | Projecting one state distributes over concatenation. |
| CueModel.ValuesInCount | cue/model.py:50-54 | Each value is written under a state as often as the block holds it explicitly in that state. |
| CueModel.ValuesInSorted | cue/model.py:50-54 | Written from a value-sorted block, each list comes out ascending. |
| CueModel.KeyState | cue/model.py:28 | The key `'rem'` means UNASSIGN; any other key means ASSIGN. |
| CueModel.AddItems | cue/model.py:27-30 | The item loop keeps a sorted block sorted. |
| CueModel.PairsAppend | cue/model.py:27-30 | The pairs of a concatenation are the pairs of its parts. |
| CueModel.PairsCount | cue/model.py:27-30 | A pair carries the given state, and occurs as often as its value does. |
| CueModel.AddItemsExplicit | cue/model.py:27-30 | After the items are added, a DCA's explicit entries are the old ones, plus the numbers under non-`rem` keys as ASSIGN and those under `rem` as UNASSIGN. |
| CueModel.InheritOne | cue/model.py:36-43 | One mapper entry keeps the block sorted and its explicit entries unchanged. The values grow by the mapper's value exactly when that entry is inherited and the value is absent. |
| CueModel.InheritOneRules | cue/model.py:36-43 | An inherited mapper value ends up flagged, without growth when the value was present and as a new NONE entry when it was not. A non-inherited mapper entry changes nothing. |
| CueModel.InheritOneKeepsFlags | cue/model.py:36-43 | Flags once set are kept by later steps. |
| CueModel.InheritAll | cue/model.py:35-43 | The inheritance loop of one DCA keeps the block sorted and keeps its explicit entries. |
| CueModel.InheritAllFlags | cue/model.py:35-43 | Every value inherited in the mapper's row ends up flagged inherited in the DCA. |
| CueModel.Deserialise | cue/model.py:19-43 | `deserialise` fails exactly when `dca_changes` is longer than the row (the `IndexError` of line 24). Otherwise it keeps the block count, the names and the sorted order of each block. |
| CueModel.SerialiseIgnoresInherits | cue/model.py:32-59 | Inherits add only NONE entries and set flags, so `deserialise` fails in the same cases and what `serialise` writes is the same with inheritance on or off. |
| CueModel.DeserialiseFlagsInherits | cue/model.py:32-43 | With inheritance on, every entry inherited in the mapper's row for the cue is flagged inherited in the cue's model. |
| CueModel.RoundTripCount | cue/model.py:19-59 | Counted one value and one state at a time, writing back a freshly loaded DCA gives the numbers that were loaded. |
| CueModel.RoundTripDca | cue/model.py:19-59 | One DCA of the round trip: from an empty block, `add` and `rem` come back as the same multisets. |
| CueModel.RoundTrip | cue/model.py:19-59 | `serialise` after a successful `deserialise` into a fresh model gives back, per DCA, the same adds and removes as multisets, each list in ascending order. Uncovered DCAs come back empty. |
| CueView.Assigned | cue/view.py:70-73 | Lists exactly the values of the entries that are not UNASSIGN. |
| CueView.AutoName | cue/view.py:67-82 | With no given name and exactly one assigned mic, the block is named after that mic. With no assigned mic, the name is cleared. Otherwise nothing changes. Entries and inherited name are always kept. |
| CueView.AutoNameIdempotent | cue/view.py:67-82 | Auto-naming twice is the same as auto-naming once. |
| CueView.AutoNameDisplays | cue/view.py:75-82 | After auto-naming, a block with one assigned mic and no name of its own displays the mic's name. A block with none displays its inherited name. |
| CueView.Caption | cue/view.py:46-53 | The remove action reads "Remove" exactly when the entry is not inherited. |
| CueView.TableCaption | cue/view.py:39-45 | The table in the comment gives a caption for every entry except a NONE entry that is not inherited. |
| CueView.CaptionMatchesTable | cue/view.py:39-53 | The code agrees with its table wherever the table speaks, and says "Remove" where it is silent. |
| CueView.EntryMenu | cue/view.py:35-54 | An entry's menu offers "Pin" exactly for a NONE entry, and always ends with the remove caption. |
| CueView.BlockMenu | cue/view.py:30-33 | A block's menu starts with "New Assign", and offers "New Unassign" exactly when inheritance is off. |
| Choir.NewChoirModel | choir/choir_tree_model.py:68-69 | A fresh choir model has no groups, counter 0, the `choir#` id prefix, and single-assign mode. |
| Choir.GroupFrom | choir/choir_tree_model.py:77-83 | A loaded group carries the saved id and name and the saved channels, in order. |
| Choir.GroupsFrom | choir/choir_tree_model.py:76-83 | One group per saved entry, in the saved order. |
| Choir.GroupNumber | choir/choir_tree_model.py:79 | `int(group_id.split('#')[1])`, with `None` where Python raises. Its meaning is stated by Choir.GroupNumberOfFormat and Text.SecondFieldOfJoin. |
| Choir.MaxNumber | choir/choir_tree_model.py:79 | The running `max` of the load loop. Its meaning is stated by Choir.MaxNumberIsLeastBound. |
| Choir.MaxNumberIsLeastBound | choir/choir_tree_model.py:79 | The running maximum is the least bound of the old counter and every group number. |
| Choir.LoadFrom | choir/choir_tree_model.py:76-83 | The load loop succeeds exactly when every id carries a group number. It appends the saved groups and sets the counter to the running maximum. |
| Choir.DataTail | choir/choir_tree_model.py:76-83 | Loading splits into the first saved group and the rest. |
| Choir.Deserialise | choir/choir_tree_model.py:71-85 | A model that already has groups is left alone. Otherwise it succeeds exactly when every id is numbered, and the counter ends one above the maximum. |
| Choir.DeserialiseCount | choir/choir_tree_model.py:79-85 | After loading, the counter is above the old counter and above every group number, and is the least such value. |
| Choir.GroupNumberOfFormat | choir/choir_tree_model.py:69 | The number read back from a generated `choir#<n>` id is `n`. |
| Choir.NextIdIsFresh | config/concept_assign_model.py:161-172 | When every group number is below the counter, the id `addGroup` makes next is new. |
| Choir.IdsBelowKept | choir/choir_tree_model.py:71-85 | Loading into a fresh model leaves every number below the counter, and so does `addGroup`. |
| Choir.Put | choir/choir_tree_model.py:99 | `data[key] = value` keeps an existing key's place. A new key goes last. |
| Choir.SerialiseFrom | choir/choir_tree_model.py:89-99 | The loop of `serialise`, writing each group into the dict. Its meaning is stated by Choir.Put and Choir.SerialiseFromDistinct. |
| Choir.Serialise | choir/choir_tree_model.py:87-101 | `serialise` from an empty dict. Its meaning is stated by Choir.RoundTrip. |
| Choir.SerialiseFromDistinct | choir/choir_tree_model.py:87-101 | Writing the groups loaded from saved data, after entries whose ids are all distinct from theirs, appends that saved data unchanged. |
| Choir.RoundTrip | choir/choir_tree_model.py:71-101 | `serialise` after `deserialise` into a fresh model gives back the saved dict, when its ids are numbered and distinct. |
| Concept.FormatId | config/concept_assign_model.py:163 | `group_id_pattern.format(count)` starts with the pattern's prefix and is longer than it. |
| Concept.ChannelsOf | config/concept_assign_model.py:201-208 | The channels of a group's rows, in row order. |
| Concept.AddGroup | config/concept_assign_model.py:161-172 | The new group, with the next generated id, the name and no rows, goes last. The counter goes up by one, and the returned row is the new group's. |
| Concept.AddAssign | config/concept_assign_model.py:151-159 | The channel becomes the last row of group `g`. Every other group and the counter are unchanged. |
| Concept.SubseqRefl | config/concept_assign_model.py:198-212 | A list is a subsequence of itself. |
| Concept.SubseqTrans | config/concept_assign_model.py:198-212 | Being a subsequence is transitive. |
| Concept.RemoveAtSubseq | config/concept_assign_model.py:204 | Removing one element leaves a subsequence. |
| Concept.RemoveFirstSubseq | config/concept_assign_model.py:203-204 | `list.remove` leaves a subsequence. |
| Concept.RemoveEach | config/concept_assign_model.py:201-210 | The removal loop never grows the list. |
| Concept.RemoveEachCount | config/concept_assign_model.py:201-210 | Each use takes away one copy of its channel while copies last: the result is the assignables minus the used channels, as multisets. |
| Concept.DistinctCount | config/concept_assign_model.py:198 | A list without repeats holds each value at most once. |
| Concept.RemoveEachSubseq | config/concept_assign_model.py:201-210 | The choice keeps the order the assignables came in. |
| Concept.AllChannels | config/concept_assign_model.py:206-208 | Every channel of every group is in the list. |
| Concept.SelectionChoice | config/concept_assign_model.py:190-212 | An invalid or non-group index gives nothing. For a group, the result is an order-keeping sublist of the assignables. As a multiset, it is the assignables minus the group's own channels (multi-assign) or every group's channels (single-assign). |
| Concept.SelectionChoiceMembers | config/concept_assign_model.py:190-212 | With each assignable listed once, a channel is offered exactly when it is assignable and not already used. |
| Concept.AddAssignHidesChannel | config/concept_assign_model.py:151-212 | Once a channel is added to a group, a choice for that group no longer offers it. |
| Concept.GroupRemoveChild | config/concept_assign_model.py:124-127 | The row goes. If it was checked and rows remain, the first remaining row becomes checked. Nothing else changes. |
| Concept.RemoveChildKeepsCheck | config/concept_assign_model.py:124-127 | A group in which some row is checked keeps a checked row after any removal that leaves rows. |
| Concept.GroupSetData | config/concept_assign_model.py:129-134 | A group is renamed exactly for column 0 with EditRole. Otherwise it is unchanged and the call reports failure. |
| Roles.RenewOne | roles/roles_switcher_model.py:84-95 | One renewed row: the config's id, name and assigns; the last old row with the id keeps its choice when the config still offers it, else the default. |
| Roles.LastIndexOf | roles/roles_switcher_model.py:81 | The `{id: idx}` dict keeps the last row with the id. It is `None` exactly when no row has it. |
| Roles.Renew | roles/roles_switcher_model.py:76-99 | With no `role` key, nothing changes. Otherwise there is one row per configured role, with its id, name and assigns, in config order. A renewed row keeps the previous choice exactly when a row with that id existed (the last one) and its choice is still on offer; otherwise it takes the default. |
| Roles.RenewChoiceOffered | roles/roles_switcher_model.py:83-97 | If every default is on offer, every renewed choice is on offer. |
| Roles.Current | roles/roles_switcher_model.py:49-53 | `current(role_id)` is `None` exactly when no row carries the id. |
| Roles.CurrentIsFirst | roles/roles_switcher_model.py:49-53 | `current` reads the first row carrying the id. |
| Roles.RenewThenCurrent | roles/roles_switcher_model.py:49-99 | With distinct ids in the config, `current` after `renew` is exactly the renewed row's choice. |
| Roles.SetData | roles/roles_switcher_model.py:140-150 | Only a valid index (a row in range and a column from 0 to the assign count, as `index` hands out), CheckStateRole, the Checked value and an assign column (not column 0) succeed. Success makes that column's assign the row's choice and changes no other row. Failure changes nothing. |
| Roles.IsChecked | roles/roles_switcher_model.py:71-72 | The check state `data` reports for an assign column. Its meaning is stated by Roles.SetDataChecks. |
| Roles.SetDataChecks | roles/roles_switcher_model.py:71-72 | After a successful check, the clicked column reads as checked. Any other column reads as checked exactly when it carries the same assign. |
| Roles.SetDataSurvivesRenew | roles/roles_switcher_model.py:76-99 | A choice made with `setData` survives a `renew` whose config still offers it. |
| BlockModel.CategoryRow | dca_plotter_models.py:126-141 | Each category is one of the three rows of the root. |
| BlockModel.Dest | dca_plotter_models.py:143-172 | Exactly the leaf actions name a destination. `add_new_assign` and `add_new_unassign` do not. |
| BlockModel.ChildActionsLeave | dca_plotter_models.py:126-172 | Every action a category gives its leaves moves the leaf to a different category. |
| BlockModel.LeafValues | dca_plotter_models.py:63-67 | `getChildIndexes` lists the leaves' values in order. |
| BlockModel.AddChild | dca_plotter_models.py:43-52 | A leaf goes in at its insert point; anything else is appended. The multiset grows by exactly the child. |
| BlockModel.AddChildPlacement | dca_plotter_models.py:43-52 | In a sorted category, a new leaf lands after every smaller value and before every value at least its own, keeping the category sorted. |
| BlockModel.UsedValues | dca_plotter_models.py:208-211 | A value is used exactly when some category holds a leaf of that value. |
| BlockModel.GetValuesNotUsed | dca_plotter_models.py:207-217 | The result is ascending. It holds exactly the mic numbers from 1 to the microphone count that no category uses. |
| BlockModel.RemoveEntry | dca_plotter_models.py:261-265 | The leaf's value leaves its category. Other categories are unchanged, and the model stays valid. |
| BlockModel.RelocateEntry | dca_plotter_models.py:267-282 | The leaf moves to the destination category with that category's actions, and the model stays valid. |
| BlockModel.GrowCategory | dca_plotter_models.py:281 | Replacing a category by a sorted one holding one more value keeps the model valid, and adds that value to all the model's values. |
| BlockModel.GrowTotal | dca_plotter_models.py:281 | The counting half of that: all values grow by exactly the one value. |
| BlockModel.ReplaceValid | dca_plotter_models.py:281 | Replacing a category by a sorted list of leaves keeps the model valid. |
| BlockModel.RemoveKeepsOthers | dca_plotter_models.py:261-265 | Removing an entry takes exactly its value out of all the model's values. |
| BlockModel.RelocateKeepsValues | dca_plotter_models.py:267-282 | Relocating an entry keeps all the model's values. |
| BlockModel.RemoveOrRelocate | dca_plotter_models.py:255-259 | An inherited value is relocated to the action's destination and no value is lost. Any other value is removed. |
| Utilities.BuildDefaultMicName | utilities.py:5-7 | "Microphone " followed by the number in decimal. |
| Utilities.PyIndex | utilities.py:14 | Python indexing: a non-negative index counts from the front, a negative one from the end. |
| Utilities.MicName | utilities.py:14 | The input's name when the session has inputs, else the default name. Its meaning is stated by Utilities.GetMicAssignName and Utilities.MicAssignNameReadsBack. |
| Utilities.GetMicAssignName | utilities.py:9-15 | "<numid> : <name>", with the input's name when the session has inputs, else the default name. |
| Utilities.MicAssignNameReadsBack | utilities.py:9-15 | The caption's leading digits parse back to the mic number. After " : " comes input `numid - 1`'s name, or, with no inputs, the default name whose number parses back too. |
| Text.DigitChar | utilities.py:7 | A digit value prints as a decimal digit character. |
| Text.DigitValue | choir/choir_tree_model.py:79 | A digit character reads as a value below ten. |
| Text.DigitRoundTrip | choir/choir_tree_model.py:79 | Reading a printed digit gives it back. |
| Text.NatToString | utilities.py:7 | `str(n)` is a non-empty run of decimal digits. |
| Text.IntToString | utilities.py:7 | `str(i)` is non-empty. |
| Text.ParseNat | choir/choir_tree_model.py:79 | `int(s)` succeeds only on a non-empty run of digits. |
| Text.ParseNatToString | choir/choir_tree_model.py:79 | Parsing undoes printing. |
| Text.FirstIndex | choir/choir_tree_model.py:79 | The first index of a character, or `None` exactly when it is absent. |
| Text.SecondField | choir/choir_tree_model.py:79 | `s.split(c)[1]` exists exactly when `c` occurs, and holds no `c`. |
| Text.SecondFieldOfJoin | choir/choir_tree_model.py:79 | Splitting `p + c + q` (with no `c` in `p` or `q`) gives back `q`. |
| Text.FirstIndexAfterPrefix | choir/choir_tree_model.py:79 | After a prefix free of `c`, the first `c` is where the rest begins. |

## Left out

- MIDI: `determine_midi_messages` and the send in `call_cue` (tracker/model.py:51-57) are I/O. The commit is modelled as if every send succeeds.
- Views and dialogs: Qt painting, header data, flags, `beginInsertRows`/`endMoveRows` notifications, the selection dialog and the input-select dialog.
- `select_cue`, the caching of `_cached_changes`, and the predictive row's refresh are left out. During a rename commit, the source also calls `setInherited` on the predictive row; the predictive row is not modelled. `CallCue` takes the cache as given.
- `on_cue_update` and the signal wiring (`property_changed.connect`/`disconnect`) are framework plumbing.
- Tracker.CommitAction: an assign to a DCA index beyond the live row makes the source raise `IndexError`. The model returns `None` there, as it does for the `list.index` ValueError.
- Tracker.DiffActions, Tracker.CalculateDiff: the source indexes the live row only for a target that has a name or lists an input, so only such a target past the live row raises `IndexError`. `CalculateDiffOfCue`, which `ChangesFor` uses, returns `None` exactly then. `DiffActions` and `CalculateDiff` themselves skip targets past the live row. Their lemmas are stated for targets that fit; DiffActionsTrim carries them to longer lists.
- Tracker.MapperActions, Tracker.CalculateDiffFromMapper, Tracker.ChangesFor: `calculate_diff_from_mapper` indexes the live row for every block of the cue row (tracker/model.py:172), so a cue row longer than the live row raises `IndexError`. The two diff functions require the row to fit; `ChangesFor` returns `None` in that case.
- Tracker.ChangesFor: a missing mapper row (`find_cuerow` returning `None`) makes the source raise on `cuerow.children`. The model gives `None`.
- CueModel.Deserialise: with inheritance on, a missing mapper row for the cue, or one with fewer blocks than the cue's row, makes the source raise. The model takes the mapper's row as an `Option` and requires it to cover the blocks. A `dca_changes` longer than the row is modelled as `None`, but the entries the source added before raising are not kept.
- LedgerOps.SetInitialAssigns, LedgerOps.DefineBlocks, LedgerOps.AmendRow, LedgerOps.AmendCuerow, LedgerOps.AppendCuerow: a `dca_changes` longer than the DCA count makes the source raise `IndexError` part-way, after earlier blocks were rewritten (and, for `append_cuerow`, after the row was added). The model returns `None` and does not keep that partial state.
- Choir.Deserialise: when an id carries no number, the source raises part-way, after appending earlier groups. The model returns `None` and does not keep the partial state.
- Text.ParseNat: Python's `int()` also accepts signs, surrounding whitespace and underscores. Only a plain run of ASCII digits is modelled.
- Utilities.PyIndex: an index outside `-len..len-1` makes Python raise. The model requires it to be in range.
- LedgerOps.MoveCuerow: the move itself (`beginMoveRows`, the index adjustment and the sort of rows by cue index) is modelled abstractly. The row is taken out at its old position and put in at the new index. The sort key and the `+1` adjustment are not modelled.
- LedgerOps.AmendCuerow: if the row found for a non-reset cue is a reset row, the model leaves the ledger unchanged. A row's kind stands for its cue's type, so the two cannot disagree.
- LegacyTracker.LegacyDiff: the older model has no names, so renames never arise. Duplicate entries in a `rem` list are excluded by the reconcile lemma's precondition; the diff itself handles them as the source does.
- Utilities.GetMicAssignName, CueView.AutoName: the session's inputs and `get_mic_name` are plugin lookups. They enter as a parameter (the list of input names, or a function from mic number to name).
- Concept.FormatId: `group_id_pattern.format(count)` is modelled as the pattern's text before `{0}` followed by the count. Every pattern in the source has that shape.
- Concept.GroupRemoveChild, Concept.RemoveChildKeepsCheck: the assign row class is a constructor parameter whose `data`/`setData` are not part of this model. A row's check state is modelled as a plain flag, and `setData(1, Qt.Checked, Qt.CheckStateRole)` on row 0 (config/concept_assign_model.py:127) as setting that flag on row 0 alone.
- Concept.SelectionChoice: the row-class test `group_row.parent() != self._root` becomes a datatype case of the index. `assignables(categories)` is a parameter.
- BlockModel: the debug rows that `DcaBlockModel.__init__` adds (dca_plotter_models.py:186-197) and the fixed `inherited` list are sample data; the model takes any model as input.
- Tracker.TargetsOf, Tracker.CalculateDiffOfCue, Tracker.ChangesFor: a target's name is read as by `dca.get('name')`, so an absent key reads as "" and renames nothing. The source reads `dca['name']`, which raises `KeyError` on the dicts `serialise` stores; see "Findings". A falsy name also reads as "".
- BlockModel.AddChild: a leaf is inserted among leaves only; a category never mixes leaves and branches.
- `ModelsNode.next_sibling` (model_primitives.py:36-39) calls `len` on a node and is never used by the core; it is not modelled.
- The `logger` used by the choir model's guard is not defined in the file; the guard is modelled as leaving the model alone.
- `_relocate_node` (model_primitives.py:294-312) is not called by the core; it is not modelled.
- Primitives.InsertPoint: its own contract only bounds the result. InsertPointSplits and InsertPointCounts state what it means.
- Tracker.Commit, Tracker.CallCue, LegacyTracker.LegacyCommit, LegacyTracker.LegacyCallCue: the source commits one action at a time (tracker/model.py:59-74, dca_plotter_tracking_model.py:37-41), after the MIDI for the whole list was sent (tracker/model.py:55-57). When a step raises (a repeated `rem` entry, a stale cached diff, `list.remove` of an absent value), the steps before it stay committed. The model returns `None` and does not keep that partial live state.
- Tracker.Commit, LegacyTracker.LegacyCommit: their own contracts state only that the DCA count is kept. CommitSetEffect, CommitsAgree and the reconcile lemmas state what a commit does.

## Findings

| source | as written | input that shows it | evidently intended | confidence | as-written member | corrected member |
|---|---|---|---|---|---|---|
| tracker/model.py:195 | `calculate_diff` reads `dca['name']`, but the `dca_changes` a change cue stores come from `serialise` (cue/model.py:45-59, cue/change_cue.py:60), which writes only `add` and `rem` | a change cue saved with at least one DCA, called with the predictive row off: `KeyError: 'name'` | read the name with `dca.get('name')`, so an unnamed target renames nothing and the lists are diffed | not executed | Tracker.CalculateDiffAsWritten, TrackerProofs.StoredCueRaises | Tracker.CalculateDiffOfCue, TrackerProofs.StoredCueDiffs |
