/** The `OCRConverter` component's state and handlers
    (frontend/src/app/page.tsx:53-167). */
module Converter {
  import opened OcrTypes
  import opened Registry
  import opened Dispatcher
  import opened Reconciler
  import opened ResultStore

  /** The language codes the selector offers. */
  const SupportedLanguages: seq<string> := [
    "deu", "eng", "spa", "fra", "ita", "por", "jpn", "chi_sim", "rus", "pol", "nld", "tur", "hin",
    "kor", "ara", "heb", "ukr", "ces", "ron", "swe", "fin", "dan", "nor", "ell", "hun"]

  const DefaultLanguage: string := "eng"

  /** Every result belongs to a file that is still in the upload list. */
  predicate Covered(rs: seq<OcrResult>, fs: seq<UploadedFile>)
  {
    forall r :: r in rs ==> r.fileId in FileIds(fs)
  }

  /** Removing a file and its result keeps the results covered. */
  lemma RemoveKeepsCovered(rs: seq<OcrResult>, fs: seq<UploadedFile>, id: string)
    requires Covered(rs, fs)
    ensures Covered(RemoveResult(rs, id), Without(fs, id))
  {
    RemoveResultClearsId(rs, id);
    WithoutRemovesExactlyThatId(fs, id);
    var w := Without(fs, id);
    forall r | r in RemoveResult(rs, id) ensures r.fileId in FileIds(w) {
      var k :| 0 <= k < |fs| && FileIds(fs)[k] == r.fileId;
      assert fs[k] in w;
      var j :| 0 <= j < |w| && w[j] == fs[k];
      assert FileIds(w)[j] == r.fileId;
    }
  }

  /** An edit keeps the results covered. */
  lemma UpdateKeepsCovered(rs: seq<OcrResult>, fs: seq<UploadedFile>, id: string, t: string)
    requires Covered(rs, fs)
    ensures Covered(UpdateText(rs, id, t), fs)
  {
    var u := UpdateText(rs, id, t);
    forall r | r in u ensures r.fileId in FileIds(fs) {
      var i :| 0 <= i < |u| && u[i] == r;
      assert rs[i] in rs;
    }
  }

  /** Adding files keeps the results covered. */
  lemma AppendKeepsCovered(rs: seq<OcrResult>, fs: seq<UploadedFile>, added: seq<UploadedFile>)
    requires Covered(rs, fs)
    ensures Covered(rs, fs + added)
  {
    forall r | r in rs ensures r.fileId in FileIds(fs + added) {
      var k :| 0 <= k < |fs| && FileIds(fs)[k] == r.fileId;
      assert FileIds(fs + added)[k] == r.fileId;
    }
  }

  class OcrConverter {
    var uploadedFiles: seq<UploadedFile>
    var selectedLanguage: string
    var ocrResults: seq<OcrResult>
    var isProcessing: bool

    /** The upload ids stay distinct (ids are drawn fresh for every file), and
        the language is one the selector offers. */
    ghost predicate Valid()
      reads this
    {
      UniqueIds(uploadedFiles) && selectedLanguage in SupportedLanguages
    }

    /** Every result on screen belongs to a listed file. */
    ghost predicate Consistent()
      reads this
    {
      Covered(ocrResults, uploadedFiles)
    }

    /** The submit button's `disabled` condition, negated. */
    predicate SubmitEnabled()
      reads this
    {
      |uploadedFiles| != 0 && !isProcessing
    }

    constructor ()
      ensures Valid() && Consistent()
      ensures uploadedFiles == [] && ocrResults == [] && !isProcessing
      ensures selectedLanguage == DefaultLanguage
    {
      assert SupportedLanguages[1] == DefaultLanguage;
      uploadedFiles := [];
      selectedLanguage := DefaultLanguage;
      ocrResults := [];
      isProcessing := false;
    }

    /** `setSelectedLanguage` from the language selector, which offers only
        the supported codes. */
    method SelectLanguage(code: string)
      requires code in SupportedLanguages
      modifies this
      ensures old(Valid()) ==> Valid()
      ensures selectedLanguage == code
      ensures uploadedFiles == old(uploadedFiles) && ocrResults == old(ocrResults)
      ensures isProcessing == old(isProcessing)
    {
      selectedLanguage := code;
    }

    /** `handleFileSelect`: a null list changes nothing; otherwise the image
        candidates, in order, are appended after the existing files, the k-th
        under `freshIds[k]`. */
    method HandleFileSelect(files: Option<seq<File>>, freshIds: seq<string>)
      requires files.Some? ==> |Images(files.value)| <= |freshIds|
      requires Distinct(freshIds)
      requires forall k :: 0 <= k < |freshIds| ==> freshIds[k] !in FileIds(uploadedFiles)
      requires forall k :: 0 <= k < |freshIds| ==> freshIds[k] !in ResultIds(ocrResults)
      modifies this
      ensures old(Valid()) ==> Valid()
      ensures files.None? ==> uploadedFiles == old(uploadedFiles)
      ensures files.Some? ==>
        |uploadedFiles| == |old(uploadedFiles)| + |Images(files.value)| &&
        uploadedFiles[..|old(uploadedFiles)|] == old(uploadedFiles) &&
        forall k :: 0 <= k < |Images(files.value)| ==>
          uploadedFiles[|old(uploadedFiles)| + k] == Upload(Images(files.value)[k], freshIds[k])
      ensures ocrResults == old(ocrResults) && isProcessing == old(isProcessing)
      ensures selectedLanguage == old(selectedLanguage)
      ensures old(Consistent()) ==> Consistent()
    {
      if files.None? {
        return;
      }
      var newFiles := CollectImages(files.value, freshIds);
      if Valid() {
        AppendKeepsIdsUnique(uploadedFiles, newFiles);
      }
      if Consistent() {
        AppendKeepsCovered(ocrResults, uploadedFiles, newFiles);
      }
      uploadedFiles := uploadedFiles + newFiles;
    }

    /** `removeFile`: the file and its result both go; the rest stay in order. */
    method RemoveFile(id: string)
      modifies this
      ensures old(Valid()) ==> Valid()
      ensures uploadedFiles == Without(old(uploadedFiles), id)
      ensures ocrResults == RemoveResult(old(ocrResults), id)
      ensures id !in FileIds(uploadedFiles) && id !in ResultIds(ocrResults)
      ensures isProcessing == old(isProcessing) && selectedLanguage == old(selectedLanguage)
      ensures old(Consistent()) ==> Consistent()
    {
      if Valid() {
        WithoutKeepsIdsUnique(uploadedFiles, id);
      }
      WithoutRemovesExactlyThatId(uploadedFiles, id);
      RemoveResultClearsId(ocrResults, id);
      if Consistent() {
        RemoveKeepsCovered(ocrResults, uploadedFiles, id);
      }
      uploadedFiles := Without(uploadedFiles, id);
      ocrResults := RemoveResult(ocrResults, id);
    }

    /** The first half of `handleSubmit`: with no files nothing happens and
        nothing is sent; otherwise the flag goes up, the request is built from
        the current files and language, and the file list is frozen as the
        batch the reply will be matched against. */
    method BeginSubmit() returns (batch: seq<UploadedFile>, request: Option<seq<FormEntry>>)
      modifies this
      ensures |old(uploadedFiles)| == 0 ==> request.None? && unchanged(this)
      ensures |old(uploadedFiles)| != 0 ==> request.Some? && isProcessing && !SubmitEnabled()
      ensures batch == uploadedFiles == old(uploadedFiles)
      ensures request.Some? ==>
        |request.value| == |batch| + 1 &&
        (forall i :: 0 <= i < |batch| ==> request.value[i] == FormEntry("files", FileValue(batch[i].file))) &&
        request.value[|batch|] == FormEntry("language", TextValue(selectedLanguage))
      ensures ocrResults == old(ocrResults) && selectedLanguage == old(selectedLanguage)
    {
      batch := uploadedFiles;
      if |uploadedFiles| == 0 {
        return batch, None;
      }
      isProcessing := true;
      var form := BuildRequest(uploadedFiles, selectedLanguage);
      request := Some(form);
    }

    /** The second half of `handleSubmit`, once the call settles: the results
        are replaced by one per batch file and the flag comes down, whatever
        the outcome. */
    method Settle(batch: seq<UploadedFile>, outcome: Outcome)
      modifies this
      ensures ocrResults == Settled(batch, outcome)
      ensures !isProcessing
      ensures uploadedFiles == old(uploadedFiles) && selectedLanguage == old(selectedLanguage)
      ensures SubmitEnabled() <==> |uploadedFiles| != 0
      ensures batch == uploadedFiles ==> Consistent()
    {
      SettledBelongsToBatch(batch, outcome);
      ocrResults := Settled(batch, outcome);
      isProcessing := false;
    }

    /** `handleSubmit` when nothing happens while the call is in flight. */
    method HandleSubmit(outcome: Outcome) returns (request: Option<seq<FormEntry>>)
      modifies this
      ensures |old(uploadedFiles)| == 0 ==> request.None? && unchanged(this)
      ensures |old(uploadedFiles)| != 0 ==>
        request.Some? && ocrResults == Settled(old(uploadedFiles), outcome) &&
        !isProcessing && Consistent() && |ocrResults| == |uploadedFiles|
      ensures uploadedFiles == old(uploadedFiles) && selectedLanguage == old(selectedLanguage)
      ensures old(Valid()) ==> Valid()
    {
      var batch;
      batch, request := BeginSubmit();
      if request.Some? {
        Settle(batch, outcome);
      }
    }

    /** `updateOCRText`. */
    method UpdateOcrText(id: string, t: string)
      modifies this
      ensures ocrResults == UpdateText(old(ocrResults), id, t)
      ensures uploadedFiles == old(uploadedFiles) && isProcessing == old(isProcessing)
      ensures selectedLanguage == old(selectedLanguage)
      ensures old(Valid()) ==> Valid()
      ensures old(Consistent()) ==> Consistent()
    {
      if Consistent() {
        UpdateKeepsCovered(ocrResults, uploadedFiles, id, t);
      }
      ocrResults := UpdateText(ocrResults, id, t);
    }
  }

  /** An image, a non-image and an image: the middle one is dropped. */
  lemma ImagesSkipNonImage(x: File, y: File, z: File)
    requires IsImage(x) && !IsImage(y) && IsImage(z)
    ensures Images([x, y, z]) == [x, z]
  {
    assert [x][..0] == [] && [y][..0] == [] && [z][..0] == [];
    ImagesOfTwoSelections([x], [y]);
    ImagesOfTwoSelections([x, y], [z]);
    assert [x] + [y] == [x, y] && [x, y] + [z] == [x, y, z];
  }

  const ImageA: File := File("a.png", "image/png", [])
  const ImageB: File := File("b.png", "image/png", [])
  const Notes: File := File("notes.txt", "text/plain", [])

  /** A fresh page on which two images and a text file were selected. */
  method SelectSample() returns (page: OcrConverter)
    ensures fresh(page) && page.Valid() && page.Consistent()
    ensures page.uploadedFiles == [Upload(ImageA, "id-a"), Upload(ImageB, "id-b")]
    ensures page.ocrResults == [] && !page.isProcessing
  {
    page := new OcrConverter();
    var picked := [ImageA, Notes, ImageB];
    assert Notes.mimeType[0] != "image/"[0];
    ImagesSkipNonImage(ImageA, Notes, ImageB);
    assert FileIds(page.uploadedFiles) == [] && ResultIds(page.ocrResults) == [];
    page.HandleFileSelect(Some(picked), ["id-a", "id-b"]);
    assert Images(picked)[0] == ImageA && Images(picked)[1] == ImageB;
  }

  /** The call succeeds with one empty text, and one result is edited. */
  method SubmitThenEdit()
  {
    var page := SelectSample();
    var sent := page.HandleSubmit(Succeeded([Some("X"), Some("")]));
    assert sent.Some? && !page.isProcessing;
    assert page.ocrResults[0] == OcrResult("id-a", "a.png", "X", false);
    assert page.ocrResults[1] == OcrResult("id-b", "b.png", NoTextDetected, false);

    page.UpdateOcrText("id-a", "edited text");
    assert page.ocrResults[0] == OcrResult("id-a", "a.png", "edited text", true);
    assert page.ocrResults[1] == OcrResult("id-b", "b.png", NoTextDetected, false);
  }

  /** One file is removed, then the call fails for the one that is left. */
  method RemoveThenFail()
  {
    var page := SelectSample();
    assert FileIds(page.uploadedFiles)[0] == "id-a";
    WithoutDropsOne(page.uploadedFiles, "id-a");
    page.RemoveFile("id-a");
    assert |page.uploadedFiles| == 1 && page.uploadedFiles[0] == Upload(ImageB, "id-b");

    var sent := page.HandleSubmit(Failed);
    assert page.ocrResults == [OcrResult("id-b", "b.png", ErrorPlaceholder, false)];
  }
}
