/** The backend's document and annotation store: the PDF table and the
    highlight collection, with the controllers of
    backend/src/controllers/pdf.controller.js, highlight.controller.js and
    nlp.controller.js as methods. Each request runs to completion on its own. */
module Store {
  import opened Wrappers
  import opened Http
  import opened PdfModel
  import opened HighlightModel
  import Annotations
  import Documents
  import Summaries

  /** The multer upload: the client's file name and the path it was stored at. */
  datatype UploadedFile = UploadedFile(originalName: string, path: string)

  /** The upload response `pdf: { uuid, originalFilename }`. */
  datatype Uploaded = Uploaded(uuid: string, originalFilename: string)

  /** The body fields of a create-highlight request. */
  datatype HighlightRequest = HighlightRequest(
    kind: string,
    content: Option<Content>,
    position: Option<Position>,
    pageNumber: int,
    drawingData: Option<string>)

  class Database {
    /** The PDF table, keyed by uuid. */
    var pdfs: map<string, Pdf>
    /** The highlight collection, in insertion order. */
    var highlights: seq<Highlight>

    ghost predicate Valid()
      reads this
    {
      && Documents.WellKeyed(pdfs)
      && Documents.Referenced(pdfs, highlights)
      && Annotations.Unique(highlights)
      && Annotations.AllWellFormed(highlights)
    }

    constructor ()
      ensures Valid() && pdfs == map[] && highlights == []
    {
      pdfs := map[];
      highlights := [];
    }

    // ---- pdf.controller.js ----

    /** `uploadPdf`: no file is a bad request; otherwise one record under the
        fresh uuid, owned by the caller, with the schema defaults. A record the
        schema refuses (an empty file name) fails to save. */
    method UploadPdf(userId: UserId, file: Option<UploadedFile>, freshUuid: string, now: int)
      returns (status: Status, body: Option<Uploaded>)
      requires Valid()
      requires freshUuid != "" && freshUuid !in pdfs
      modifies this
      ensures Valid()
      ensures highlights == old(highlights)
      ensures file.None? ==> status == BadRequest && body.None? && pdfs == old(pdfs)
      ensures file.Some? && (file.value.originalName == "" || file.value.path == "") ==>
        status == ServerError && body.None? && pdfs == old(pdfs)
      ensures status == Created <==> file.Some? && file.value.originalName != "" && file.value.path != ""
      ensures status == Created ==>
        && pdfs == old(pdfs)[freshUuid := NewPdf(freshUuid, file.value.originalName, file.value.path, userId, now)]
        && body == Some(Uploaded(freshUuid, file.value.originalName))
    {
      if file.None? {
        return BadRequest, None;
      }
      var record := NewPdf(freshUuid, file.value.originalName, file.value.path, userId, now);
      if !PdfModel.Valid(record) {
        return ServerError, None;
      }
      Documents.InsertKeepsReferences(pdfs, highlights, record);
      pdfs := pdfs[freshUuid := record];
      status, body := Created, Some(Uploaded(record.uuid, record.originalFilename));
    }

    /** `getUserPdfs`: the caller's records, projected. */
    method GetUserPdfs(userId: UserId) returns (status: Status, list: set<PdfSummary>)
      requires Valid()
      ensures status == Ok
      ensures forall u :: u in pdfs && pdfs[u].userId == userId ==> Summary(pdfs[u]) in list
      ensures forall s :: s in list ==> s.uuid in pdfs && pdfs[s.uuid].userId == userId && s == Summary(pdfs[s.uuid])
    {
      Documents.ListShowsOnlyOwn(pdfs, userId);
      status, list := Ok, Documents.ListFor(pdfs, userId);
    }

    /** `deletePdf`: not found unless the caller owns the record; otherwise the
        caller's highlights of it go first, then the record. Whether removing
        the stored file succeeded is only logged. */
    method DeletePdf(userId: UserId, uuid: string, unlinkSucceeded: bool) returns (status: Status)
      requires Valid()
      modifies this
      ensures Valid()
      ensures !Documents.Owns(old(pdfs), uuid, userId) ==>
        status == NotFound && pdfs == old(pdfs) && highlights == old(highlights)
      ensures Documents.Owns(old(pdfs), uuid, userId) ==>
        && status == Ok
        && pdfs == old(pdfs) - {uuid}
        && highlights == Annotations.RemoveForPdf(old(highlights), uuid, userId)
        && forall h :: h in highlights ==> h.pdfId != uuid
    {
      var found := Documents.Find(pdfs, uuid, userId);
      if found.None? {
        return NotFound;
      }
      // A failed unlink is logged and the deletions go ahead.
      Documents.CascadeKeepsReferences(pdfs, highlights, uuid, userId);
      Annotations.RemoveKeepsInvariants(highlights, uuid, userId);
      highlights := Annotations.RemoveForPdf(highlights, uuid, userId);
      assert Documents.Referenced(pdfs, highlights);
      pdfs := pdfs - {uuid};
      status := Ok;
    }

    /** `renamePdf`: an empty name is refused before any lookup; otherwise only
        the caller's record's `originalFilename` changes, and the updated record
        is returned. */
    method RenamePdf(userId: UserId, uuid: string, newName: Option<string>)
      returns (status: Status, updated: Option<Pdf>)
      requires Valid()
      modifies this
      ensures Valid()
      ensures highlights == old(highlights)
      ensures !Truthy(newName) ==> status == BadRequest && updated.None? && pdfs == old(pdfs)
      ensures Truthy(newName) && !Documents.Owns(old(pdfs), uuid, userId) ==>
        status == NotFound && updated.None? && pdfs == old(pdfs)
      ensures Truthy(newName) && Documents.Owns(old(pdfs), uuid, userId) ==>
        && status == Ok
        && pdfs == old(pdfs)[uuid := old(pdfs)[uuid].(originalFilename := newName.value)]
        && updated == Some(pdfs[uuid])
    {
      if !Truthy(newName) {
        return BadRequest, None;
      }
      var found := Documents.Find(pdfs, uuid, userId);
      if found.None? {
        return NotFound, None;
      }
      var record := found.value.(originalFilename := newName.value);
      Documents.UpdateKeepsReferences(pdfs, highlights, uuid, record);
      pdfs := pdfs[uuid := record];
      status, updated := Ok, Some(record);
    }

    /** `getPdfFile`: the stored path of the caller's record. */
    method GetPdfFile(userId: UserId, uuid: string) returns (status: Status, filePath: Option<string>)
      ensures status == NotFound <==> !Documents.Owns(pdfs, uuid, userId)
      ensures status == NotFound ==> filePath.None?
      ensures status != NotFound ==> status == Ok && filePath == Some(pdfs[uuid].filePath)
    {
      var found := Documents.Find(pdfs, uuid, userId);
      if found.None? {
        return NotFound, None;
      }
      status, filePath := Ok, Some(found.value.filePath);
    }

    // ---- highlight.controller.js ----

    /** `createHighlight`: the caller must own the PDF (checked first); the
        request's `type` is read against the schema's enum; a drawing is upserted on its page slot, a text highlight appended, any
        other type refused. Every refusal leaves the store as it was. */
    method CreateHighlight(userId: UserId, pdfUuid: string, req: HighlightRequest, freshId: HighlightId)
      returns (status: Status, saved: Option<Highlight>)
      requires Valid()
      requires Annotations.FreshId(highlights, freshId)
      modifies this
      ensures Valid()
      ensures pdfs == old(pdfs)
      ensures !Documents.Owns(old(pdfs), pdfUuid, userId) ==>
        status == NotFound && saved.None? && highlights == old(highlights)
      ensures Documents.Owns(old(pdfs), pdfUuid, userId) && req.kind == "drawing" && !Truthy(req.drawingData) ==>
        status == BadRequest && saved.None? && highlights == old(highlights)
      ensures Documents.Owns(old(pdfs), pdfUuid, userId) && req.kind == "drawing" && Truthy(req.drawingData) ==>
        var r := Annotations.UpsertDrawing(old(highlights), pdfUuid, userId, req.pageNumber, req.drawingData.value, freshId);
        && status == Ok && highlights == r.0 && saved == Some(highlights[r.1])
        && forall k :: 0 <= k < |highlights| ==>
             (Annotations.IsDrawingSlot(highlights[k], pdfUuid, userId, req.pageNumber) <==> k == r.1)
      ensures Documents.Owns(old(pdfs), pdfUuid, userId) && req.kind == "text" && (req.content.None? || req.position.None?) ==>
        status == BadRequest && saved.None? && highlights == old(highlights)
      ensures Documents.Owns(old(pdfs), pdfUuid, userId) && req.kind == "text" && req.content.Some? && req.position.Some? ==>
        var h := NewText(freshId, pdfUuid, userId, req.pageNumber, req.content.value, req.position.value);
        status == Created && highlights == old(highlights) + [h] && saved == Some(h)
      ensures Documents.Owns(old(pdfs), pdfUuid, userId) && req.kind != "drawing" && req.kind != "text" ==>
        status == BadRequest && saved.None? && highlights == old(highlights)
    {
      var pdf := Documents.Find(pdfs, pdfUuid, userId);
      if pdf.None? {
        return NotFound, None;
      }
      match ParseKind(req.kind) {
      case Some(Drawing) =>
        if !Truthy(req.drawingData) {
          return BadRequest, None;
        }
        var r := Annotations.UpsertDrawing(highlights, pdfUuid, userId, req.pageNumber, req.drawingData.value, freshId);
        Annotations.UpsertLeavesExactlyOne(highlights, pdfUuid, userId, req.pageNumber, req.drawingData.value, freshId);
        assert forall h :: h in r.0 ==> h in highlights || h == r.0[r.1] by {
          forall h | h in r.0 ensures h in highlights || h == r.0[r.1] {
            var k :| 0 <= k < |r.0| && r.0[k] == h;
            if k != r.1 { assert r.0[k] == highlights[k]; }
          }
        }
        highlights := r.0;
        status, saved := Ok, Some(highlights[r.1]);
      case Some(Text) =>
        if req.content.None? || req.position.None? {
          return BadRequest, None;
        }
        var h := NewText(freshId, pdfUuid, userId, req.pageNumber, req.content.value, req.position.value);
        Annotations.AppendKeepsUnique(highlights, h);
        highlights := highlights + [h];
        status, saved := Created, Some(h);
      case None =>
        status, saved := BadRequest, None;
      }
    }

    /** `getHighlights`: not found unless the caller owns the PDF; otherwise
        exactly the caller's records on it, in collection order. */
    method GetHighlights(userId: UserId, pdfUuid: string) returns (status: Status, list: seq<Highlight>)
      ensures status == NotFound <==> !Documents.Owns(pdfs, pdfUuid, userId)
      ensures status == NotFound ==> list == []
      ensures status != NotFound ==> status == Ok && list == Annotations.ForPdf(highlights, pdfUuid, userId)
      ensures forall h :: h in list <==> status == Ok && h in highlights && h.pdfId == pdfUuid && h.userId == userId
    {
      var pdf := Documents.Find(pdfs, pdfUuid, userId);
      if pdf.None? {
        return NotFound, [];
      }
      status, list := Ok, Annotations.ForPdf(highlights, pdfUuid, userId);
    }

    /** `updateHighlightNote`: not found unless a record with that id belongs to
        the caller; otherwise only that record's note changes. */
    method UpdateHighlightNote(userId: UserId, id: HighlightId, note: string)
      returns (status: Status, updated: Option<Highlight>)
      requires Valid()
      modifies this
      ensures Valid()
      ensures pdfs == old(pdfs)
      ensures status == NotFound <==> forall h :: h in old(highlights) ==> !(h.id == id && h.userId == userId)
      ensures status == NotFound ==> updated.None? && highlights == old(highlights)
      ensures status != NotFound ==>
        && status == Ok
        && exists i :: 0 <= i < |old(highlights)| && old(highlights)[i].id == id && old(highlights)[i].userId == userId &&
             highlights == old(highlights)[i := old(highlights)[i].(note := note)] && updated == Some(highlights[i])
    {
      var found := Annotations.FindOwned(highlights, id, userId);
      if found.None? {
        return NotFound, None;
      }
      var i := found.value;
      var h := highlights[i].(note := note);
      Annotations.UpdateKeepsUnique(highlights, i, h);
      assert highlights[i] in highlights;
      highlights := highlights[i := h];
      status, updated := Ok, Some(h);
    }

    // ---- nlp.controller.js ----

    /** `summarizePdf`: without a configured API key a server error before any
        lookup; otherwise the guards, cache and service reply of
        `Summaries.Respond` on the caller's record, and a successful reply is
        written to that record once. `prompt` is what the service was sent,
        when it was called. */
    method SummarizePdf(userId: UserId, uuid: string, apiKey: Option<string>, reply: Summaries.Reply)
      returns (status: Status, body: Option<Summaries.Body>, prompt: Option<string>)
      requires Valid()
      modifies this
      ensures Valid()
      ensures highlights == old(highlights)
      ensures !Truthy(apiKey) ==> status == ServerError && body.None? && prompt.None? && pdfs == old(pdfs)
      ensures Truthy(apiKey) ==>
        var r := Summaries.Respond(Documents.Find(old(pdfs), uuid, userId), reply);
        && status == r.status && body == r.body && prompt == r.prompt
        && pdfs == (if r.saved.Some? then old(pdfs)[uuid := r.saved.value] else old(pdfs))
    {
      if !Truthy(apiKey) {
        return ServerError, None, None;
      }
      var found := Documents.Find(pdfs, uuid, userId);
      var r := Summaries.Respond(found, reply);
      if r.saved.Some? {
        Documents.UpdateKeepsReferences(pdfs, highlights, uuid, r.saved.value);
        pdfs := pdfs[uuid := r.saved.value];
      }
      status, body, prompt := r.status, r.body, r.prompt;
    }
  }

  /** What a caller can conclude from the contracts alone: two drawing saves
      on one page leave one drawing record, with the first record's id and the
      second payload; a second text save on that page adds a second record. */
  method DrawingThenTextOnOnePage(userId: UserId, data1: string, data2: string, box: Position)
    requires data1 != "" && data2 != ""
  {
    var db := new Database();
    var status, body := db.UploadPdf(userId, Some(UploadedFile("notes.pdf", "uploads/pdf-1.pdf")), "abc", 0);
    assert status == Created;
    var s1, r1 := db.CreateHighlight(userId, "abc", HighlightRequest("drawing", None, None, 1, Some(data1)), 1);
    assert s1 == Ok && r1.Some? && |db.highlights| == 1;
    var s2, r2 := db.CreateHighlight(userId, "abc", HighlightRequest("drawing", None, None, 1, Some(data2)), 2);
    assert s2 == Ok && r2.Some? && r2.value.id == r1.value.id && r2.value.drawingData == Some(data2);
    assert |db.highlights| == 1;
    var s3, r3 := db.CreateHighlight(userId, "abc", HighlightRequest("text", Some(Content("a")), Some(box), 1, None), 3);
    var s4, r4 := db.CreateHighlight(userId, "abc", HighlightRequest("text", Some(Content("a")), Some(box), 1, None), 4);
    assert s3 == Created && s4 == Created && |db.highlights| == 3 && r3.value.id != r4.value.id;
    var s5, list := db.GetHighlights(userId, "abc");
    assert s5 == Ok && db.highlights[0] in list && db.highlights[0].kind == Drawing;
    var s6, _ := db.GetHighlights(userId + 1, "abc");
    assert s6 == NotFound;
  }

  /** Summarising twice: once the first call has stored a non-empty summary,
      the second sends nothing and answers the same body. */
  method SummarizeTwice(db: Database, userId: UserId, uuid: string, key: string, first: Summaries.Reply, later: Summaries.Reply)
    requires db.Valid() && key != ""
    modifies db
  {
    var s1, b1, p1 := db.SummarizePdf(userId, uuid, Some(key), first);
    if p1.Some? && first.Answered? && first.summary != "" {
      var s2, b2, p2 := db.SummarizePdf(userId, uuid, Some(key), later);
      assert p2.None? && s2 == Ok && b2 == b1;
    }
  }
}
