/**
 * The wire shapes of an LSP completion response, as far as the completion
 * core reads them (Completion Request, textDocument/completion).
 */
module Protocol {
  import opened Wrappers

  /** A zero-based line/character position in a document. */
  datatype Position = Position(line: nat, character: nat)

  datatype Range = Range(start: Position, end: Position)

  /**
   * The edit an entry carries: a plain `TextEdit` with one `range`, or an
   * LSP 3.16 `InsertReplaceEdit` with an `insert` and a `replace` range.
   */
  datatype TextEdit =
    | PlainEdit(range: Range, newText: string)
    | InsertReplaceEdit(insert: Range, replace: Range, newText: string)

  /** `CompletionItemKind.Snippet` */
  const SnippetKind: int := 15

  /** `InsertTextFormat.PlainText` and `InsertTextFormat.Snippet` */
  const PlainTextFormat: int := 1
  const SnippetFormat: int := 2

  /**
   * One raw completion entry as a server returns it. Only the fields the
   * core reads are kept; `label` (here `labelText`, as `label` is a Dafny
   * keyword) is required by the protocol.
   */
  datatype CompletionItem = CompletionItem(
    labelText: string,
    sortText: Option<string>,
    kind: Option<int>,
    insertText: Option<string>,
    insertTextFormat: Option<int>,
    textEdit: Option<TextEdit>)

  /** An error object returned by a server instead of a result. */
  datatype ResponseError = ResponseError(code: int, message: string)

  /**
   * What a completion request settles with: an error, a bare list of
   * entries, a `CompletionList` object (whose `items` may be `null`), or
   * `null`.
   */
  datatype CompletionResponse =
    | ErrorResponse(error: ResponseError)
    | ListResponse(entries: seq<CompletionItem>)
    | ObjectResponse(items: Option<seq<CompletionItem>>, isIncomplete: bool)
    | NullResponse
}
