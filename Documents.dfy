/** The table-level logic of backend/src/controllers/pdf.controller.js: the
    owner-scoped lookup every PDF operation starts with, the listing, and the
    cascade that deletes a PDF's highlights before the PDF itself. */
module Documents {
  import opened Wrappers
  import opened PdfModel
  import opened HighlightModel
  import Annotations

  /** The filter `{ uuid, userId }`: a record exists under that uuid and the caller owns it. */
  predicate Owns(pdfs: map<string, Pdf>, uuid: string, userId: UserId) {
    uuid in pdfs && pdfs[uuid].userId == userId
  }

  /** `PDF.findOne({ uuid, userId })`. A record owned by somebody else is not found. */
  function Find(pdfs: map<string, Pdf>, uuid: string, userId: UserId): (r: Option<Pdf>)
    ensures r.Some? <==> Owns(pdfs, uuid, userId)
    ensures r.Some? ==> r.value == pdfs[uuid] && r.value.userId == userId
  {
    if uuid in pdfs && pdfs[uuid].userId == userId then Some(pdfs[uuid]) else None
  }

  /** Every record is stored under its own uuid (the unique index) and satisfies the schema. */
  ghost predicate WellKeyed(pdfs: map<string, Pdf>) {
    forall u :: u in pdfs ==> pdfs[u].uuid == u && PdfModel.Valid(pdfs[u])
  }

  /** Every highlight refers to a PDF owned by the highlight's own user. */
  ghost predicate Referenced(pdfs: map<string, Pdf>, hs: seq<Highlight>) {
    forall h :: h in hs ==> Owns(pdfs, h.pdfId, h.userId)
  }

  /** `PDF.find({ userId }).select('uuid originalFilename createdAt')`. */
  function ListFor(pdfs: map<string, Pdf>, userId: UserId): (r: set<PdfSummary>)
    ensures forall u :: u in pdfs && pdfs[u].userId == userId ==> Summary(pdfs[u]) in r
  {
    set u | u in pdfs && pdfs[u].userId == userId :: Summary(pdfs[u])
  }

  /** The listing shows exactly the caller's records: each entry names a record
      of the caller, by its uuid, with that record's name and creation time. */
  lemma ListShowsOnlyOwn(pdfs: map<string, Pdf>, userId: UserId)
    requires WellKeyed(pdfs)
    ensures forall s :: s in ListFor(pdfs, userId) ==>
      s.uuid in pdfs && pdfs[s.uuid].userId == userId && s == Summary(pdfs[s.uuid])
  {
  }

  /** The cascade in the source's order: after `deleteMany` on the caller's
      highlights of the PDF every remaining highlight still refers to an owned
      PDF, and after `deleteOne` on the PDF as well, with none left pointing at it. */
  lemma CascadeKeepsReferences(pdfs: map<string, Pdf>, hs: seq<Highlight>, uuid: string, userId: UserId)
    requires Referenced(pdfs, hs) && Owns(pdfs, uuid, userId)
    ensures Referenced(pdfs, Annotations.RemoveForPdf(hs, uuid, userId))
    ensures Referenced(pdfs - {uuid}, Annotations.RemoveForPdf(hs, uuid, userId))
    ensures forall h :: h in Annotations.RemoveForPdf(hs, uuid, userId) ==> h.pdfId != uuid
  {
  }

  /** Why `deletePdf` runs `deleteMany` on the highlights before `deleteOne` on
      the record (pdf.controller.js:60-62): in the other order, any highlight
      of the PDF still present between the two steps would refer to no record. */
  lemma RecordFirstWouldOrphan(pdfs: map<string, Pdf>, hs: seq<Highlight>, uuid: string, h: Highlight)
    requires h in hs && h.pdfId == uuid
    ensures !Referenced(pdfs - {uuid}, hs)
  {
  }

  /** Adding a record under a fresh uuid breaks no existing reference. */
  lemma InsertKeepsReferences(pdfs: map<string, Pdf>, hs: seq<Highlight>, p: Pdf)
    requires Referenced(pdfs, hs) && p.uuid !in pdfs
    ensures Referenced(pdfs[p.uuid := p], hs)
  {
  }

  /** Replacing a record by one with the same owner breaks no reference. */
  lemma UpdateKeepsReferences(pdfs: map<string, Pdf>, hs: seq<Highlight>, uuid: string, p: Pdf)
    requires Referenced(pdfs, hs) && uuid in pdfs && p.userId == pdfs[uuid].userId
    ensures Referenced(pdfs[uuid := p], hs)
  {
  }
}
