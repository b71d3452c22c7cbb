/**
 * The prescriptions API (backend/routes/prescriptions.js): multer's file
 * filter and size limit, the stored file name and URL, appending an entry
 * to the user's list on upload, and removing one entry by id.
 */
module PrescriptionRoutes {
  import opened Common
  import opened Text

  const AllowedExtensions: seq<string> := [".pdf", ".jpg", ".jpeg", ".png"]

  /** multer's `limits.fileSize`: 5 MiB. */
  const FileSizeLimit: int := 5 * 1024 * 1024

  const UploadDir: string := "/uploads/prescriptions/"

  /** The Express error handler's body for any error a middleware passes
      on, which is where multer's filter and size errors end up. */
  const UnhandledError: string := "Something went wrong!"

  predicate EndsWith(s: string, suffix: string)
  {
    |suffix| <= |s| && s[|s| - |suffix|..] == suffix
  }

  /** The extension of a name is `e` exactly when the name ends with `e`,
      for any `e` that is a dot followed by dot-free text. */
  lemma ExtIsDottedSuffix(s: string, e: string)
    requires |e| > 0 && e[0] == '.' && '.' !in e[1..]
    ensures Ext(s) == e <==> EndsWith(s, e)
  {
    if EndsWith(s, e) {
      var r := Ext(s);
      assert s[|s| - |e|] == '.';
      assert r != "";
    }
  }

  /** The allowed extensions, as suffixes of the lower-cased name. */
  lemma ExtensionAllowedIff(name: string)
    ensures Lower(Ext(name)) in AllowedExtensions <==> exists e :: e in AllowedExtensions && EndsWith(Lower(name), e)
  {
    ExtOfLower(name);
    forall e | e in AllowedExtensions
      ensures Ext(Lower(name)) == e <==> EndsWith(Lower(name), e)
    {
      assert e == ".pdf" || e == ".jpg" || e == ".jpeg" || e == ".png";
      ExtIsDottedSuffix(Lower(name), e);
    }
  }

  /** The `fileFilter`: the lower-cased extension must be one of the four,
      so exactly the names whose lower-cased form ends in `.pdf`, `.jpg`,
      `.jpeg` or `.png` are accepted. */
  predicate AcceptsFileName(name: string)
    ensures AcceptsFileName(name) <==> exists e :: e in AllowedExtensions && EndsWith(Lower(name), e)
  {
    ExtensionAllowedIff(name);
    Lower(Ext(name)) in AllowedExtensions
  }

  /** The filter ignores case: a name and its lower-cased form are treated
      alike. */
  lemma FileFilterIgnoresCase(name: string)
    ensures AcceptsFileName(Lower(name)) <==> AcceptsFileName(name)
  {
    ExtOfLower(name);
    ExtOfLower(Lower(name));
    LowerIdempotent(Ext(name));
  }

  /** multer's disk-storage name: the upload time in milliseconds, a dash,
      and the client's original file name. */
  function StoredFilename(stamp: nat, originalName: string): string
  {
    DecimalString(stamp) + "-" + originalName
  }

  /** Everything after the first dash. */
  function AfterFirstDash(s: string): string
    decreases |s|
  {
    if s == [] then [] else if s[0] == '-' then s[1..] else AfterFirstDash(s[1..])
  }

  /** The original file name can always be read back from the stored
      name, because the time stamp has no dash. */
  lemma {:induction false} OriginalNameRecoverable(stamp: nat, originalName: string)
    ensures AfterFirstDash(StoredFilename(stamp, originalName)) == originalName
  {
    var digits := DecimalString(stamp);
    AfterDashPrefix(digits, originalName);
  }

  lemma {:induction false} AfterDashPrefix(p: string, rest: string)
    requires forall i :: 0 <= i < |p| ==> IsDigit(p[i])
    ensures AfterFirstDash(p + "-" + rest) == rest
    decreases |p|
  {
    var s := p + "-" + rest;
    if p == [] {
      assert s[0] == '-' && s[1..] == rest;
    } else {
      assert s[0] == p[0] && s[0] != '-';
      assert s[1..] == p[1..] + "-" + rest;
      AfterDashPrefix(p[1..], rest);
    }
  }

  /** The entry the route pushes and returns. */
  datatype Prescription = Prescription(name: string, url: string, uploadDate: int)

  /** An entry of the user's `prescriptions` array, with its sub-document id. */
  datatype StoredPrescription = StoredPrescription(id: Id, doc: Prescription)

  predicate HasId(list: seq<StoredPrescription>, id: Id)
  {
    exists i :: 0 <= i < |list| && list[i].id == id
  }

  predicate UniqueIds(list: seq<StoredPrescription>)
  {
    forall i, j :: 0 <= i < j < |list| ==> list[i].id != list[j].id
  }

  /** `POST /upload` behind `upload.single('prescription')`: no file is a
      400; a rejected extension and then an oversized file are errors
      multer hands to the Express error handler (500); otherwise exactly
      one entry, named after the original file and pointing at the stored
      file, is appended. `stamp` is multer's `Date.now()`, `now` the
      route's `new Date()`, `freshId` the new sub-document id. */
  function Upload(list: seq<StoredPrescription>, file: Option<FileInfo>, stamp: nat, now: int, freshId: Id)
    : (r: (Reply<Prescription>, seq<StoredPrescription>))
    ensures file.None? ==> r == (Err(400, "No file uploaded"), list)
    ensures file.Some? && !AcceptsFileName(file.value.name) ==> r == (Err(500, UnhandledError), list)
    ensures file.Some? && AcceptsFileName(file.value.name) && file.value.size > FileSizeLimit ==>
      r == (Err(500, UnhandledError), list)
    ensures r.0.Ok? <==> file.Some? && AcceptsFileName(file.value.name) && file.value.size <= FileSizeLimit
    ensures r.0.Ok? ==>
      && r.0.code == 201
      && r.0.body.name == file.value.name
      && r.0.body.url == UploadDir + StoredFilename(stamp, file.value.name)
      && r.1 == list + [StoredPrescription(freshId, r.0.body)]
    ensures r.0.Err? ==> r.1 == list
  {
    match file
    case None => (Err(400, "No file uploaded"), list)
    case Some(f) =>
      if !AcceptsFileName(f.name) then (Err(500, UnhandledError), list)
      else if f.size > FileSizeLimit then (Err(500, UnhandledError), list)
      else
        var p := Prescription(f.name, UploadDir + StoredFilename(stamp, f.name), now);
        (Ok(201, p), list + [StoredPrescription(freshId, p)])
  }

  /** An upload under a fresh id keeps the ids unique. */
  lemma UploadKeepsIdsUnique(list: seq<StoredPrescription>, file: Option<FileInfo>, stamp: nat, now: int, freshId: Id)
    requires UniqueIds(list) && !HasId(list, freshId)
    ensures UniqueIds(Upload(list, file, stamp, now, freshId).1)
  {
  }

  /** `subdoc.remove()`, which pulls every entry with that id. */
  function RemoveId(list: seq<StoredPrescription>, id: Id): (r: seq<StoredPrescription>)
    ensures forall x :: x in r <==> x in list && x.id != id
    ensures |r| <= |list|
    decreases |list|
  {
    if list == [] then []
    else if list[0].id == id then RemoveId(list[1..], id)
    else [list[0]] + RemoveId(list[1..], id)
  }

  lemma UniqueTail(list: seq<StoredPrescription>)
    requires UniqueIds(list) && |list| > 0
    ensures UniqueIds(list[1..])
    ensures forall x :: x in list[1..] ==> x.id != list[0].id
  {
    forall a, b | 0 <= a < b < |list[1..]|
      ensures list[1..][a].id != list[1..][b].id
    {
      assert list[1..][a] == list[a + 1] && list[1..][b] == list[b + 1];
    }
  }

  /** Putting the head back in front of a list with one entry cut out. */
  lemma ConsCut(list: seq<StoredPrescription>, i: int)
    requires 0 < i < |list|
    ensures [list[0]] + (list[1..][..i - 1] + list[1..][i..]) == list[..i] + list[i + 1..]
  {
    assert list[1..][..i - 1] == list[1..i];
    assert list[1..][i..] == list[i + 1..];
    assert [list[0]] + list[1..i] == list[..i];
  }

  /** With unique ids, removing a present id takes out that one entry and
      keeps the others in order. */
  lemma {:induction false} RemoveIdIsOneEntry(list: seq<StoredPrescription>, i: int)
    requires UniqueIds(list) && 0 <= i < |list|
    ensures RemoveId(list, list[i].id) == list[..i] + list[i + 1..]
    decreases |list|
  {
    var id := list[i].id;
    UniqueTail(list);
    if i == 0 {
      RemoveAbsent(list[1..], id);
    } else {
      var tail := list[1..];
      assert list[0].id != id;
      assert tail[i - 1] == list[i];
      RemoveIdIsOneEntry(tail, i - 1);
      ConsCut(list, i);
    }
  }

  lemma {:induction false} RemoveAbsent(list: seq<StoredPrescription>, id: Id)
    requires forall x :: x in list ==> x.id != id
    ensures RemoveId(list, id) == list
    decreases |list|
  {
    if list != [] {
      assert list[0] in list;
      assert forall x :: x in list[1..] ==> x in list;
      RemoveAbsent(list[1..], id);
      assert [list[0]] + list[1..] == list;
    }
  }

  /** `DELETE /:id`: a 404 and no change for an unknown id; otherwise the
      entry is removed. */
  function DeletePrescription(list: seq<StoredPrescription>, id: Id): (r: (Reply<string>, seq<StoredPrescription>))
    ensures !HasId(list, id) ==> r == (Err(404, "Prescription not found"), list)
    ensures HasId(list, id) ==> r.0 == Ok(200, "Prescription deleted successfully")
    ensures forall x :: x in r.1 <==> x in list && (x.id != id || !HasId(list, id))
  {
    if !HasId(list, id) then (Err(404, "Prescription not found"), list)
    else (Ok(200, "Prescription deleted successfully"), RemoveId(list, id))
  }

  /** Deleting a listed entry of a list with unique ids removes exactly
      that entry: one fewer, the rest in their order. */
  lemma DeleteRemovesOnlyThatEntry(list: seq<StoredPrescription>, i: int)
    requires UniqueIds(list) && 0 <= i < |list|
    ensures DeletePrescription(list, list[i].id).1 == list[..i] + list[i + 1..]
    ensures |DeletePrescription(list, list[i].id).1| == |list| - 1
  {
    RemoveIdIsOneEntry(list, i);
  }
}
