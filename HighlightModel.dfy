/** The annotation record of backend/src/models/highlight.model.js. */
module HighlightModel {
  import opened Wrappers
  import opened PdfModel

  /** Record identities (Mongo's `_id`), drawn by the store. */
  type HighlightId = nat

  /** The `type` enum. */
  datatype Kind = Text | Drawing

  /** The schema accepts exactly the two enum strings. */
  function ParseKind(s: string): (r: Option<Kind>)
    ensures r == Some(Text) <==> s == "text"
    ensures r == Some(Drawing) <==> s == "drawing"
    ensures r.None? <==> s != "text" && s != "drawing"
  {
    if s == "text" then Some(Text)
    else if s == "drawing" then Some(Drawing)
    else None
  }

  /** The `position` sub-object: a box on the rendered page. */
  datatype Position = Position(x1: real, y1: real, width: real, height: real)

  /** The `content` sub-object: the selected text. */
  datatype Content = Content(text: string)

  /** The `note` default. */
  const DefaultNote: string := ""

  /** One annotation. `pdfId` holds the PDF's uuid; `position` and `content`
      are used by text highlights, `drawingData` by drawings. */
  datatype Highlight = Highlight(
    id: HighlightId,
    pdfId: string,
    userId: UserId,
    pageNumber: int,
    kind: Kind,
    position: Option<Position>,
    content: Option<Content>,
    drawingData: Option<string>,
    note: string)

  /** The record a text-highlight save builds (note set to '' explicitly). */
  function NewText(id: HighlightId, pdfId: string, userId: UserId, pageNumber: int,
                   content: Content, position: Position): (h: Highlight)
    ensures h.kind == Text && h.note == DefaultNote && h.drawingData.None?
    ensures h.id == id && h.pdfId == pdfId && h.userId == userId && h.pageNumber == pageNumber
    ensures h.content == Some(content) && h.position == Some(position)
  {
    Highlight(id, pdfId, userId, pageNumber, Text, Some(position), Some(content), None, DefaultNote)
  }

  /** The record an upsert inserts when no drawing matches: the filter's
      equality fields and the `$set` fields, `note` at its default. */
  function NewDrawing(id: HighlightId, pdfId: string, userId: UserId, pageNumber: int, drawingData: string): (h: Highlight)
    ensures h.kind == Drawing && h.note == DefaultNote
    ensures h.id == id && h.pdfId == pdfId && h.userId == userId && h.pageNumber == pageNumber
    ensures h.drawingData == Some(drawingData) && h.content.None? && h.position.None?
  {
    Highlight(id, pdfId, userId, pageNumber, Drawing, None, None, Some(drawingData), DefaultNote)
  }
}
