/**
 * The prescription upload page (frontend/src/pages/UploadPrescription.js):
 * the file-input validator and the no-file guard of the upload button.
 */
module UploadForm {
  import opened Common

  const AllowedTypes: seq<string> := ["application/pdf", "image/jpeg", "image/png"]

  /** The client's size cap: 5 MiB. */
  const MaxFileSize: int := 5 * 1024 * 1024

  const TypeError: string := "Please upload a PDF, JPEG, or PNG file"
  const SizeError: string := "File size should be less than 5MB"
  const NoFileError: string := "Please select a file to upload"

  /** The component state the handlers touch. */
  datatype FormState = FormState(file: Option<FileInfo>, error: Option<string>, loading: bool)

  const Initial: FormState := FormState(None, None, false)

  /** A file the validator accepts: an allowed MIME type and at most 5 MiB. */
  predicate Acceptable(f: FileInfo)
  {
    f.mimeType in AllowedTypes && f.size <= MaxFileSize
  }

  /** `handleFileChange`: with no file picked nothing happens; the type is
      checked before the size, and a rejected file only sets the error,
      keeping the previous file; an accepted file replaces it and clears
      the error. */
  function HandleFileChange(st: FormState, picked: Option<FileInfo>): (r: FormState)
    ensures picked.None? ==> r == st
    ensures r.loading == st.loading
    ensures picked.Some? && picked.value.mimeType !in AllowedTypes ==> r == st.(error := Some(TypeError))
    ensures picked.Some? && picked.value.mimeType in AllowedTypes && picked.value.size > MaxFileSize ==>
      r == st.(error := Some(SizeError))
    ensures picked.Some? && Acceptable(picked.value) ==> r.file == picked && r.error.None?
  {
    match picked
    case None => st
    case Some(f) =>
      if f.mimeType !in AllowedTypes then st.(error := Some(TypeError))
      else if f.size > MaxFileSize then st.(error := Some(SizeError))
      else st.(file := picked, error := None)
  }

  /** The synchronous part of `handleUpload`: without a file it sets the
      error and sends nothing; with one it starts loading, clears the error
      and sends that file. */
  function HandleUpload(st: FormState): (r: (FormState, Option<FileInfo>))
    ensures st.file.None? ==> r == (st.(error := Some(NoFileError)), None)
    ensures st.file.Some? ==> r.1 == st.file && r.0.loading && r.0.error.None? && r.0.file == st.file
  {
    if st.file.None? then (st.(error := Some(NoFileError)), None)
    else (st.(loading := true, error := None), st.file)
  }

  /** The selected file, if any, passed the validator. */
  predicate FileChecked(st: FormState)
  {
    st.file.None? || Acceptable(st.file.value)
  }

  /** Both handlers keep the selected file validated, so the page never
      sends a file its own validator rejects. */
  lemma HandlersKeepFileChecked(st: FormState, picked: Option<FileInfo>)
    requires FileChecked(st)
    ensures FileChecked(HandleFileChange(st, picked))
    ensures FileChecked(HandleUpload(st).0)
    ensures HandleUpload(st).1.Some? ==> Acceptable(HandleUpload(st).1.value)
  {
  }

  /** Picking an acceptable file and pressing upload sends exactly that
      file; a rejected pick followed by upload sends the earlier file. */
  lemma PickThenUpload(st: FormState, f: FileInfo)
    ensures Acceptable(f) ==> HandleUpload(HandleFileChange(st, Some(f))).1 == Some(f)
    ensures !Acceptable(f) ==> HandleUpload(HandleFileChange(st, Some(f))).1 == st.file
  {
  }
}
