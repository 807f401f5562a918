/**
 * Which range of an entry's edit is replaced when the entry is committed
 * (`get_text_edit_range`). The user preference `completion_insert_mode` and
 * the one-shot "commit with opposite insert mode" flag are parameters.
 */
module EditRange {
  import opened Protocol

  /** The two legal values of the `completion_insert_mode` preference. */
  datatype InsertMode = Insert | Replace

  /** The other insert mode. */
  function Opposite(mode: InsertMode): (r: InsertMode)
    ensures r != mode
  {
    if mode == Insert then Replace else Insert
  }

  /** The mode in force: the preference, flipped when opposite mode is active. */
  function EffectiveMode(preference: InsertMode, oppositeActive: bool): (r: InsertMode)
    ensures r == preference <==> !oppositeActive
  {
    if oppositeActive then Opposite(preference) else preference
  }

  /**
   * The range a committed entry replaces: `range` for a plain edit; for an
   * insert/replace pair, the `insert` range exactly when the mode in force
   * is `Insert`.
   */
  function GetTextEditRange(edit: TextEdit, preference: InsertMode, oppositeActive: bool): (r: Range)
    ensures edit.PlainEdit? ==> r == edit.range
    ensures edit.InsertReplaceEdit? && (preference == Insert) != oppositeActive ==> r == edit.insert
    ensures edit.InsertReplaceEdit? && (preference == Insert) == oppositeActive ==> r == edit.replace
  {
    match edit
    case InsertReplaceEdit(ins, rep, _) =>
      if EffectiveMode(preference, oppositeActive) == Insert then ins else rep
    case PlainEdit(range, _) => range
  }

  /** Flipping twice gives back the original mode. */
  lemma OppositeInvolution(mode: InsertMode)
    ensures Opposite(Opposite(mode)) == mode
  {
  }

  /**
   * Committing in opposite mode picks what the other preference would have
   * picked; for an insert/replace pair with distinct ranges this is the
   * range the normal commit does not pick, and toggling back restores it.
   */
  lemma OppositeModeSwapsRange(edit: TextEdit, preference: InsertMode)
    ensures GetTextEditRange(edit, preference, true) == GetTextEditRange(edit, Opposite(preference), false)
    ensures GetTextEditRange(edit, Opposite(preference), true) == GetTextEditRange(edit, preference, false)
    ensures edit.InsertReplaceEdit? && edit.insert != edit.replace ==>
              GetTextEditRange(edit, preference, true) != GetTextEditRange(edit, preference, false)
  {
  }
}
