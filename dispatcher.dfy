/** The request `handleSubmit` sends (frontend/src/app/page.tsx:104-109). */
module Dispatcher {
  import opened OcrTypes

  /** The FormData loop: one "files" field per uploaded file, in list order,
      then the "language" field. Field order is what lets the backend's
      result array line up with the upload list. */
  method BuildRequest(files: seq<UploadedFile>, language: string) returns (form: seq<FormEntry>)
    ensures |form| == |files| + 1
    ensures forall i :: 0 <= i < |files| ==> form[i] == FormEntry("files", FileValue(files[i].file))
    ensures form[|files|] == FormEntry("language", TextValue(language))
  {
    form := [];
    var i := 0;
    while i < |files|
      invariant 0 <= i <= |files|
      invariant |form| == i
      invariant forall j :: 0 <= j < i ==> form[j] == FormEntry("files", FileValue(files[j].file))
    {
      form := form + [FormEntry("files", FileValue(files[i].file))];
      i := i + 1;
    }
    form := form + [FormEntry("language", TextValue(language))];
  }
}
