/** The collection-level logic of backend/src/controllers/highlight.controller.js:
    the Mongoose filters it queries with, the drawing upsert, and the invariants
    the annotation collection keeps. */
module Annotations {
  import opened Wrappers
  import opened Http
  import opened PdfModel
  import opened HighlightModel
  import Seqs

  /** The upsert filter `{ pdfId, userId, pageNumber, type: 'drawing' }`. */
  predicate IsDrawingSlot(h: Highlight, pdfId: string, userId: UserId, pageNumber: int) {
    h.pdfId == pdfId && h.userId == userId && h.pageNumber == pageNumber && h.kind == Drawing
  }

  function DrawingSlot(pdfId: string, userId: UserId, pageNumber: int): Highlight -> bool {
    h => IsDrawingSlot(h, pdfId, userId, pageNumber)
  }

  /** The list and cascade filter `{ pdfId, userId }`. */
  predicate OnPdf(h: Highlight, pdfId: string, userId: UserId) {
    h.pdfId == pdfId && h.userId == userId
  }

  function OnPdfOf(pdfId: string, userId: UserId): Highlight -> bool {
    h => OnPdf(h, pdfId, userId)
  }

  function NotOnPdfOf(pdfId: string, userId: UserId): Highlight -> bool {
    h => !OnPdf(h, pdfId, userId)
  }

  /** The note-update filter `{ _id, userId }`. */
  function OwnedRecord(id: HighlightId, userId: UserId): Highlight -> bool {
    (h: Highlight) => h.id == id && h.userId == userId
  }

  /** Two records at different positions have different ids and do not
      both occupy one drawing slot. */
  predicate Distinct(a: Highlight, b: Highlight) {
    a.id != b.id && !(a.kind == Drawing && IsDrawingSlot(b, a.pdfId, a.userId, a.pageNumber))
  }

  /** Ids are unique and there is at most one drawing per (pdfId, userId, pageNumber). */
  ghost predicate Unique(hs: seq<Highlight>) {
    Seqs.Pairwise(hs, Distinct)
  }

  /** The payload each kind of record carries when a controller creates it. */
  predicate WellFormed(h: Highlight) {
    (h.kind == Text ==> h.content.Some? && h.position.Some?) &&
    (h.kind == Drawing ==> Truthy(h.drawingData))
  }

  ghost predicate AllWellFormed(hs: seq<Highlight>) {
    forall h :: h in hs ==> WellFormed(h)
  }

  /** `id` is not used by any record. */
  predicate FreshId(hs: seq<Highlight>, id: HighlightId) {
    forall h :: h in hs ==> h.id != id
  }

  /** The fields that decide `Distinct`; updates that keep them keep `Unique`. */
  predicate SameIdentity(a: Highlight, b: Highlight) {
    a.id == b.id && a.pdfId == b.pdfId && a.userId == b.userId &&
    a.pageNumber == b.pageNumber && a.kind == b.kind
  }

  /** Under `Unique`, no two positions hold a drawing for the same slot. */
  lemma AtMostOneDrawing(hs: seq<Highlight>, pdfId: string, userId: UserId, pageNumber: int, i: nat, j: nat)
    requires Unique(hs)
    requires i < |hs| && j < |hs|
    requires IsDrawingSlot(hs[i], pdfId, userId, pageNumber) && IsDrawingSlot(hs[j], pdfId, userId, pageNumber)
    ensures i == j
  {
  }

  /** Replacing a record by one with the same identity keeps `Unique`. */
  lemma UpdateKeepsUnique(hs: seq<Highlight>, i: nat, x: Highlight)
    requires Unique(hs) && i < |hs| && SameIdentity(hs[i], x)
    ensures Unique(hs[i := x])
  {
  }

  /** Appending a record with a fresh id that occupies no taken drawing slot keeps `Unique`. */
  lemma AppendKeepsUnique(hs: seq<Highlight>, x: Highlight)
    requires Unique(hs) && FreshId(hs, x.id)
    requires x.kind == Drawing ==> forall k :: 0 <= k < |hs| ==> !IsDrawingSlot(hs[k], x.pdfId, x.userId, x.pageNumber)
    ensures Unique(hs + [x])
  {
  }

  /** `findOne` on the drawing filter: its first match. */
  function FindDrawing(hs: seq<Highlight>, pdfId: string, userId: UserId, pageNumber: int): (r: Option<nat>)
    ensures r.Some? ==> r.value < |hs| && IsDrawingSlot(hs[r.value], pdfId, userId, pageNumber)
    ensures r.Some? ==> forall k :: 0 <= k < r.value ==> !IsDrawingSlot(hs[k], pdfId, userId, pageNumber)
    ensures r.None? ==> forall k :: 0 <= k < |hs| ==> !IsDrawingSlot(hs[k], pdfId, userId, pageNumber)
  {
    Seqs.FirstIndex(hs, DrawingSlot(pdfId, userId, pageNumber))
  }

  /** `findOneAndUpdate(filter, { $set: { drawingData, ... } }, { new: true, upsert: true })`:
      the new collection and the position of the record it returns. An existing
      match keeps its position, id and note and gets the new `drawingData`; with
      no match a new drawing with the fresh id is appended. */
  function UpsertDrawing(hs: seq<Highlight>, pdfId: string, userId: UserId, pageNumber: int,
                         drawingData: string, freshId: HighlightId): (r: (seq<Highlight>, nat))
    ensures r.1 < |r.0| && IsDrawingSlot(r.0[r.1], pdfId, userId, pageNumber)
    ensures r.0[r.1].drawingData == Some(drawingData)
    ensures FindDrawing(hs, pdfId, userId, pageNumber).Some? ==>
      && |r.0| == |hs| && r.1 == FindDrawing(hs, pdfId, userId, pageNumber).value
      && r.0[r.1] == hs[r.1].(drawingData := Some(drawingData))
      && (forall k :: 0 <= k < |hs| && k != r.1 ==> r.0[k] == hs[k])
    ensures FindDrawing(hs, pdfId, userId, pageNumber).None? ==>
      r.0 == hs + [NewDrawing(freshId, pdfId, userId, pageNumber, drawingData)] && r.1 == |hs|
  {
    match FindDrawing(hs, pdfId, userId, pageNumber)
    case Some(i) => (hs[i := hs[i].(drawingData := Some(drawingData))], i)
    case None => (hs + [NewDrawing(freshId, pdfId, userId, pageNumber, drawingData)], |hs|)
  }

  /** After an upsert on a collection with unique drawings, drawings stay unique
      and the returned record is the only one in its slot. */
  lemma UpsertLeavesExactlyOne(hs: seq<Highlight>, pdfId: string, userId: UserId, pageNumber: int,
                               drawingData: string, freshId: HighlightId)
    requires Unique(hs) && FreshId(hs, freshId)
    ensures var r := UpsertDrawing(hs, pdfId, userId, pageNumber, drawingData, freshId);
      && Unique(r.0)
      && forall k :: 0 <= k < |r.0| ==> (IsDrawingSlot(r.0[k], pdfId, userId, pageNumber) <==> k == r.1)
  {
  }

  /** Saving a drawing twice on one page: the second save rewrites the record
      the first one returned, which keeps its id and ends with the latest payload. */
  lemma SecondDrawingSaveReplaces(hs: seq<Highlight>, pdfId: string, userId: UserId, pageNumber: int,
                                  first: string, id1: HighlightId, second: string, id2: HighlightId)
    requires Unique(hs) && FreshId(hs, id1)
    ensures var r1 := UpsertDrawing(hs, pdfId, userId, pageNumber, first, id1);
      var r2 := UpsertDrawing(r1.0, pdfId, userId, pageNumber, second, id2);
      && |r2.0| == |r1.0| && r2.1 == r1.1
      && r2.0[r2.1].id == r1.0[r1.1].id && r2.0[r2.1].note == r1.0[r1.1].note
      && r2.0[r2.1].drawingData == Some(second)
  {
  }

  /** `find({ pdfId, userId })`. */
  function ForPdf(hs: seq<Highlight>, pdfId: string, userId: UserId): (r: seq<Highlight>)
    ensures forall h :: h in r <==> h in hs && OnPdf(h, pdfId, userId)
  {
    Seqs.Filter(hs, OnPdfOf(pdfId, userId))
  }

  /** `deleteMany({ pdfId, userId })`. */
  function RemoveForPdf(hs: seq<Highlight>, pdfId: string, userId: UserId): (r: seq<Highlight>)
    ensures forall h :: h in r <==> h in hs && !OnPdf(h, pdfId, userId)
  {
    Seqs.Filter(hs, NotOnPdfOf(pdfId, userId))
  }

  /** Deleting by filter keeps the collection's invariants. */
  lemma RemoveKeepsInvariants(hs: seq<Highlight>, pdfId: string, userId: UserId)
    requires Unique(hs) && AllWellFormed(hs)
    ensures Unique(RemoveForPdf(hs, pdfId, userId)) && AllWellFormed(RemoveForPdf(hs, pdfId, userId))
  {
    Seqs.FilterPairwise(hs, NotOnPdfOf(pdfId, userId), Distinct);
  }

  /** `findOne({ _id, userId })`: the record with that id, when the caller owns it. */
  function FindOwned(hs: seq<Highlight>, id: HighlightId, userId: UserId): (r: Option<nat>)
    ensures r.Some? ==> r.value < |hs| && hs[r.value].id == id && hs[r.value].userId == userId
    ensures r.None? <==> forall h :: h in hs ==> !(h.id == id && h.userId == userId)
  {
    var r := Seqs.FirstIndex(hs, OwnedRecord(id, userId));
    assert r.None? ==> forall h :: h in hs ==> !(h.id == id && h.userId == userId) by {
      if r.None? {
        forall h | h in hs ensures !(h.id == id && h.userId == userId) {
          var k :| 0 <= k < |hs| && hs[k] == h;
          assert !OwnedRecord(id, userId)(hs[k]);
        }
      }
    }
    r
  }
}
