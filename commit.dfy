/**
 * Commit-time helpers of `LspSelectCompletionItemCommand.run`: the text an
 * accepted entry inserts, whether it is inserted as a snippet, and the
 * regions erased in every selection before inserting. The buffer edits
 * themselves are the editor's; here they are returned as values.
 */
module Commit {
  import opened Wrappers
  import opened Protocol
  import opened EditRange

  /** A buffer region between offsets `a` and `b`; `b` is the caret end. */
  datatype Region = Region(a: int, b: int)

  /** The region moved by `delta` characters. */
  function Shift(r: Region, delta: int): (s: Region)
    ensures s.b - s.a == r.b - r.a
  {
    Region(r.a + delta, r.b + delta)
  }

  /**
   * `_translated_regions`: the edit region computed for the primary
   * selection, copied onto every selection region (last region first) by
   * the offset between that region's caret and the primary caret.
   */
  method TranslatedRegions(editRegion: Region, selection: seq<Region>) returns (regions: seq<Region>)
    requires |selection| > 0
    ensures |regions| == |selection|
    ensures forall j :: 0 <= j < |regions| ==>
              regions[j] == Shift(editRegion, selection[|selection| - 1 - j].b - selection[0].b)
    ensures regions[|regions| - 1] == editRegion
    ensures forall j :: 0 <= j < |regions| ==> regions[j].b - regions[j].a == editRegion.b - editRegion.a
  {
    var primaryCursorPosition := selection[0].b;
    regions := [];
    var i := |selection|;
    while i > 0
      invariant 0 <= i <= |selection|
      invariant |regions| == |selection| - i
      invariant forall j :: 0 <= j < |regions| ==>
                  regions[j] == Shift(editRegion, selection[|selection| - 1 - j].b - primaryCursorPosition)
    {
      i := i - 1;
      var translation := selection[i].b - primaryCursorPosition;
      regions := regions + [Region(editRegion.a + translation, editRegion.b + translation)];
    }
  }

  /** `s.replace("\r", "")` */
  function StripCarriageReturns(s: string): (r: string)
    ensures '\r' !in r
    ensures |r| <= |s|
  {
    if s == [] then []
    else (if s[0] == '\r' then [] else [s[0]]) + StripCarriageReturns(s[1..])
  }

  /** A carriage return is removed and any other character is kept. */
  lemma StripCarriageReturnsChar(c: char)
    ensures StripCarriageReturns([c]) == if c == '\r' then [] else [c]
  {
  }

  /**
   * Stripping works piece by piece, so with `StripCarriageReturnsChar` the
   * characters that are kept stay in their order.
   */
  lemma {:induction false} StripCarriageReturnsAppend(a: string, b: string)
    ensures StripCarriageReturns(a + b) == StripCarriageReturns(a) + StripCarriageReturns(b)
  {
    if a == [] {
      assert a + b == b;
    } else {
      assert (a + b)[0] == a[0];
      assert (a + b)[1..] == a[1..] + b;
      StripCarriageReturnsAppend(a[1..], b);
    }
  }

  /** Only carriage returns are dropped: every other character keeps its count. */
  lemma {:induction false} StripCarriageReturnsMultiset(s: string)
    ensures multiset(StripCarriageReturns(s)) == multiset(s)['\r' := 0]
  {
    if s != [] {
      StripCarriageReturnsMultiset(s[1..]);
      assert s == [s[0]] + s[1..];
    }
  }

  /** A text without carriage returns is left as it is, so stripping twice is stripping once. */
  lemma {:induction false} StripCarriageReturnsIdentity(s: string)
    requires '\r' !in s
    ensures StripCarriageReturns(s) == s
  {
    if s != [] {
      StripCarriageReturnsIdentity(s[1..]);
      assert s == [s[0]] + s[1..];
    }
  }

  /**
   * The text a committed entry inserts: the edit's `newText`, else a
   * non-empty `insertText`, else the label, with carriage returns removed.
   */
  function NewText(item: CompletionItem): (t: string)
    ensures '\r' !in t
    ensures item.textEdit.Some? ==> t == StripCarriageReturns(item.textEdit.value.newText)
    ensures item.textEdit.None? && item.insertText.Some? && item.insertText.value != [] ==>
              t == StripCarriageReturns(item.insertText.value)
    ensures item.textEdit.None? && (item.insertText.None? || item.insertText.value == []) ==>
              t == StripCarriageReturns(item.labelText)
  {
    match item.textEdit
    case Some(edit) => StripCarriageReturns(edit.newText)
    case None =>
      var text := if item.insertText.Some? && item.insertText.value != [] then item.insertText.value else item.labelText;
      StripCarriageReturns(text)
  }

  /** The editor command that inserts the text: `insert_snippet` or `insert`. */
  datatype Insertion = InsertSnippet(contents: string) | InsertCharacters(characters: string)

  /** An entry is inserted as a snippet exactly when its `insertTextFormat` is 2; it defaults to plain text. */
  function InsertionFor(item: CompletionItem): (ins: Insertion)
    ensures ins.InsertSnippet? <==> item.insertTextFormat == Some(SnippetFormat)
    ensures ins.InsertSnippet? ==> ins.contents == NewText(item)
    ensures ins.InsertCharacters? ==> ins.characters == NewText(item)
  {
    if item.insertTextFormat.GetOr(PlainTextFormat) == SnippetFormat
    then InsertSnippet(NewText(item))
    else InsertCharacters(NewText(item))
  }

  /**
   * What committing `item` does to the buffer, in order: erase these regions
   * (only when the entry carries an edit: its chosen range, converted by the
   * editor's `rangeToRegion`, in every selection), then run this insertion.
   */
  method SelectCompletionItem(item: CompletionItem, selection: seq<Region>, preference: InsertMode,
                              oppositeActive: bool, rangeToRegion: Range -> Region)
    returns (erase: seq<Region>, insertion: Insertion)
    requires item.textEdit.Some? ==> |selection| > 0
    ensures insertion == InsertionFor(item)
    ensures item.textEdit.None? ==> erase == []
    ensures item.textEdit.Some? ==>
              var editRegion := rangeToRegion(GetTextEditRange(item.textEdit.value, preference, oppositeActive));
              && |erase| == |selection|
              && erase[|erase| - 1] == editRegion
              && forall j :: 0 <= j < |erase| ==>
                   erase[j] == Shift(editRegion, selection[|selection| - 1 - j].b - selection[0].b)
  {
    erase := [];
    if item.textEdit.Some? {
      var editRegion := rangeToRegion(GetTextEditRange(item.textEdit.value, preference, oppositeActive));
      erase := TranslatedRegions(editRegion, selection);
    }
    insertion := InsertionFor(item);
  }
}
