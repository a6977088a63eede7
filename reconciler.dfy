/** Turning the backend's outcome into one result per uploaded file
    (frontend/src/app/page.tsx:117-141). */
module Reconciler {
  import opened OcrTypes
  import opened Registry

  /** Shown when the backend gave no text for a file. */
  const NoTextDetected: string := "No text detected"

  /** Shown for every file when the call failed. */
  const ErrorPlaceholder: string := "Error processing image. Please try again."

  /** Position i of the decoded array has a `text` that is truthy in
      JavaScript: present and not the empty string. */
  predicate Usable(entries: seq<Option<string>>, i: nat)
  {
    i < |entries| && entries[i].Some? && entries[i].value != ""
  }

  /** `results[index]?.text || "No text detected"`. */
  function TextAt(entries: seq<Option<string>>, i: nat): (t: string)
    ensures t != ""
    ensures t == NoTextDetected || (i < |entries| && entries[i] == Some(t))
  {
    if Usable(entries, i) then entries[i].value else NoTextDetected
  }

  /** The success-path `map`: file i becomes a fresh, unedited result that
      carries file i's id and name and the text at position i of the
      response. Extra response entries are ignored; a short response, a
      missing entry or an empty text gives the placeholder. */
  function SuccessResults(batch: seq<UploadedFile>, entries: seq<Option<string>>): (r: seq<OcrResult>)
    ensures |r| == |batch|
    ensures forall i :: 0 <= i < |r| ==>
      r[i].fileId == batch[i].id && r[i].fileName == batch[i].name && !r[i].isEdited
    ensures forall i :: 0 <= i < |r| && Usable(entries, i) ==> r[i].text == entries[i].value
    ensures forall i :: 0 <= i < |r| && !Usable(entries, i) ==> r[i].text == NoTextDetected
    decreases |batch|
  {
    if batch == [] then []
    else
      var n := |batch| - 1;
      SuccessResults(batch[..n], entries) + [OcrResult(batch[n].id, batch[n].name, TextAt(entries, n), false)]
  }

  /** The failure-path `map`: every file gets the same error placeholder. */
  function ErrorResults(batch: seq<UploadedFile>): (r: seq<OcrResult>)
    ensures |r| == |batch|
    ensures forall i :: 0 <= i < |r| ==>
      r[i] == OcrResult(batch[i].id, batch[i].name, ErrorPlaceholder, false)
    decreases |batch|
  {
    if batch == [] then []
    else
      var n := |batch| - 1;
      ErrorResults(batch[..n]) + [OcrResult(batch[n].id, batch[n].name, ErrorPlaceholder, false)]
  }

  /** The result list that replaces the old one once the call settles. */
  function Settled(batch: seq<UploadedFile>, outcome: Outcome): (r: seq<OcrResult>)
    ensures |r| == |batch|
    ensures ResultIds(r) == FileIds(batch)
    ensures forall i :: 0 <= i < |r| ==> r[i].fileName == batch[i].name && !r[i].isEdited && r[i].text != ""
    ensures outcome.Failed? ==> forall i :: 0 <= i < |r| ==> r[i].text == ErrorPlaceholder
    ensures outcome.Succeeded? ==> forall i :: 0 <= i < |r| ==>
      r[i].text == (if Usable(outcome.entries, i) then outcome.entries[i].value else NoTextDetected)
  {
    match outcome
    case Failed => ErrorResults(batch)
    case Succeeded(entries) => SuccessResults(batch, entries)
  }

  /** Every settled result belongs to a file of the batch. */
  lemma SettledBelongsToBatch(batch: seq<UploadedFile>, outcome: Outcome)
    ensures forall r :: r in Settled(batch, outcome) ==> r.fileId in FileIds(batch)
  {
    var rs := Settled(batch, outcome);
    forall r | r in rs ensures r.fileId in FileIds(batch) {
      var i :| 0 <= i < |rs| && rs[i] == r;
      assert FileIds(batch)[i] == ResultIds(rs)[i];
    }
  }

  /** Entries past the end of the batch play no part. */
  lemma ExtraEntriesIgnored(batch: seq<UploadedFile>, entries: seq<Option<string>>)
    requires |entries| >= |batch|
    ensures SuccessResults(batch, entries) == SuccessResults(batch, entries[..|batch|])
  {
    var prefix := entries[..|batch|];
    var a, b := SuccessResults(batch, entries), SuccessResults(batch, prefix);
    forall i | 0 <= i < |batch| ensures a[i] == b[i] {
      assert prefix[i] == entries[i];
      assert Usable(entries, i) == Usable(prefix, i);
    }
  }

  /** An entry whose text is empty is treated like a missing entry. */
  lemma EmptyTextIsMissing(batch: seq<UploadedFile>, entries: seq<Option<string>>, j: nat)
    requires j < |entries| && entries[j] == Some("")
    ensures SuccessResults(batch, entries) == SuccessResults(batch, entries[j := None])
  {
    var a, b := SuccessResults(batch, entries), SuccessResults(batch, entries[j := None]);
    forall i | 0 <= i < |batch| ensures a[i] == b[i] {
      assert Usable(entries, i) == Usable(entries[j := None], i);
    }
  }

  /** An empty response array leaves every file with the placeholder. */
  lemma EmptyResponse(batch: seq<UploadedFile>)
    ensures forall r :: r in Settled(batch, Succeeded([])) ==> r.text == NoTextDetected
  {
    var rs := Settled(batch, Succeeded([]));
    forall r | r in rs ensures r.text == NoTextDetected {
      var i :| 0 <= i < |rs| && rs[i] == r;
      assert !Usable([], i);
    }
  }

  /** The batch is the snapshot taken when the submit began. A file removed
      from the upload list while the call is in flight comes back as a
      result when the call settles, although the list no longer has it. */
  lemma RemovedWhileInFlightComesBack(batch: seq<UploadedFile>, id: string, outcome: Outcome)
    requires id in FileIds(batch)
    ensures id !in FileIds(Without(batch, id))
    ensures id in ResultIds(Settled(batch, outcome))
  {
    WithoutRemovesExactlyThatId(batch, id);
  }
}
