/** The PDF record of backend/src/models/pdf.model.js. */
module PdfModel {
  /** Users are identified by the id the authentication layer puts on the request. */
  type UserId = nat

  /** One uploaded document. `uuid` is the external key; `createdAt` is the
      creation timestamp Mongoose adds, as a number supplied by the caller. */
  datatype Pdf = Pdf(
    uuid: string,
    originalFilename: string,
    filePath: string,
    userId: UserId,
    fullText: string,
    summary: string,
    keyPhrases: seq<string>,
    createdAt: int)

  /** Mongoose's `required` validator refuses an empty string, so a record
      can only be saved when its three required string fields are non-empty. */
  predicate Valid(p: Pdf) {
    p.uuid != "" && p.originalFilename != "" && p.filePath != ""
  }

  /** The record `new PDF({...})` builds: the given fields, every other field
      at its schema default. */
  function NewPdf(uuid: string, originalFilename: string, filePath: string, userId: UserId, createdAt: int): (p: Pdf)
    ensures p.uuid == uuid && p.originalFilename == originalFilename && p.filePath == filePath
    ensures p.userId == userId && p.createdAt == createdAt
    ensures p.fullText == "" && p.summary == "" && p.keyPhrases == []
    ensures Valid(p) <==> uuid != "" && originalFilename != "" && filePath != ""
  {
    Pdf(uuid, originalFilename, filePath, userId, "", "", [], createdAt)
  }

  /** The listing projection `select('uuid originalFilename createdAt')`. */
  datatype PdfSummary = PdfSummary(uuid: string, originalFilename: string, createdAt: int)

  function Summary(p: Pdf): PdfSummary {
    PdfSummary(p.uuid, p.originalFilename, p.createdAt)
  }
}
