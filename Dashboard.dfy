/** The library state of frontend/src/pages/DashboardPage.jsx: the list of
    PDFs, the selected file, the error message and the loading flag. Results of
    the HTTP calls are supplied as outcomes. */
module Dashboard {
  import opened Wrappers
  import opened PdfModel
  import Seqs

  /** What `getPdfs()` resolves to: the listing, or a rejection. */
  datatype FetchReply = Fetched(list: seq<PdfSummary>) | FetchFailed

  /** A file picked in the file input. */
  datatype LocalFile = LocalFile(name: string)

  const FetchError: string := "Failed to fetch PDFs."
  const NoFileError: string := "Please select a file to upload."
  const UploadError: string := "Failed to upload PDF."
  const DeleteError: string := "Failed to delete PDF."

  function OtherThan(uuid: string): PdfSummary -> bool {
    (p: PdfSummary) => p.uuid != uuid
  }

  /** `pdfs.filter((pdf) => pdf.uuid !== uuid)`. */
  function WithoutUuid(pdfs: seq<PdfSummary>, uuid: string): (r: seq<PdfSummary>)
    ensures forall p :: p in r <==> p in pdfs && p.uuid != uuid
  {
    Seqs.Filter(pdfs, OtherThan(uuid))
  }

  /** Removing entries keeps the rest in order: a split list is filtered piecewise. */
  lemma WithoutUuidKeepsOrder(front: seq<PdfSummary>, back: seq<PdfSummary>, uuid: string)
    ensures WithoutUuid(front + back, uuid) == WithoutUuid(front, uuid) + WithoutUuid(back, uuid)
  {
    Seqs.FilterConcat(front, back, OtherThan(uuid));
  }

  /** A list without that uuid is left exactly as it was. */
  lemma WithoutAbsentUuid(pdfs: seq<PdfSummary>, uuid: string)
    requires forall p :: p in pdfs ==> p.uuid != uuid
    ensures WithoutUuid(pdfs, uuid) == pdfs
  {
    Seqs.FilterKeepsAll(pdfs, OtherThan(uuid));
  }

  class Library {
    var pdfs: seq<PdfSummary>
    var file: Option<LocalFile>
    var error: string
    var loading: bool

    constructor ()
      ensures pdfs == [] && file.None? && error == "" && loading
    {
      pdfs := [];
      file := None;
      error := "";
      loading := true;
    }

    /** `disabled={!file}`. */
    predicate UploadDisabled()
      reads this
    {
      file.None?
    }

    /** `fetchPdfs`: loading while the call runs and not afterwards; the list
        replaced and the error cleared on success, an error otherwise. */
    method FetchPdfs(reply: FetchReply)
      modifies this
      ensures !loading && file == old(file)
      ensures reply.Fetched? ==> pdfs == reply.list && error == ""
      ensures reply.FetchFailed? ==> pdfs == old(pdfs) && error == FetchError
    {
      loading := true;
      match reply {
        case Fetched(list) =>
          pdfs := list;
          error := "";
        case FetchFailed =>
          error := FetchError;
      }
      loading := false;
    }

    /** `handleFileChange`: the first selected file, if any. */
    method HandleFileChange(selected: Option<LocalFile>)
      modifies this
      ensures file == selected && pdfs == old(pdfs) && error == old(error) && loading == old(loading)
    {
      file := selected;
    }

    /** `handleUpload`: without a file only the error is set and nothing is
        sent; a successful upload clears the selection and refetches the list
        (whose outcome is `refetch`); a failed one sets an error. */
    method HandleUpload(uploadSucceeded: bool, refetch: FetchReply) returns (uploadCalled: bool)
      modifies this
      ensures uploadCalled <==> !old(UploadDisabled())
      ensures !uploadCalled ==>
        error == NoFileError && pdfs == old(pdfs) && file == old(file) && loading == old(loading)
      ensures uploadCalled && uploadSucceeded ==>
        && file.None? && !loading
        && (refetch.Fetched? ==> pdfs == refetch.list && error == "")
        && (refetch.FetchFailed? ==> pdfs == old(pdfs) && error == FetchError)
      ensures uploadCalled && !uploadSucceeded ==>
        error == UploadError && pdfs == old(pdfs) && file == old(file) && loading == old(loading)
    {
      if file.None? {
        error := NoFileError;
        return false;
      }
      uploadCalled := true;
      if uploadSucceeded {
        file := None;
        FetchPdfs(refetch);
      } else {
        error := UploadError;
      }
    }

    /** `handleDelete`: nothing happens unless the user confirms; on a
        successful delete exactly the entries with that uuid leave the list;
        on a failed one the list stays and an error is set. */
    method HandleDelete(uuid: string, confirmed: bool, deleteSucceeded: bool) returns (deleteCalled: bool)
      modifies this
      ensures deleteCalled == confirmed
      ensures file == old(file) && loading == old(loading)
      ensures !confirmed ==> pdfs == old(pdfs) && error == old(error)
      ensures confirmed && deleteSucceeded ==> pdfs == WithoutUuid(old(pdfs), uuid) && error == old(error)
      ensures confirmed && !deleteSucceeded ==> pdfs == old(pdfs) && error == DeleteError
    {
      deleteCalled := confirmed;
      if confirmed {
        if deleteSucceeded {
          pdfs := WithoutUuid(pdfs, uuid);
        } else {
          error := DeleteError;
        }
      }
    }
  }
}
