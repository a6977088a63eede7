/** The result list after settlement: `updateOCRText` and the result half of
    `removeFile` (frontend/src/app/page.tsx:95-98, 147-151). */
module ResultStore {
  import opened OcrTypes
  import opened Filtering

  /** The `map` of `updateOCRText`: every result with that file id takes the
      new text and is marked edited; every other result is left as it was. */
  function UpdateText(rs: seq<OcrResult>, id: string, t: string): (u: seq<OcrResult>)
    ensures |u| == |rs|
    ensures forall i :: 0 <= i < |u| && rs[i].fileId == id ==> u[i] == rs[i].(text := t, isEdited := true)
    ensures forall i :: 0 <= i < |u| && rs[i].fileId != id ==> u[i] == rs[i]
    decreases |rs|
  {
    if rs == [] then []
    else
      var n := |rs| - 1;
      UpdateText(rs[..n], id, t) + [if rs[n].fileId == id then rs[n].(text := t, isEdited := true) else rs[n]]
  }

  /** The result half of `removeFile`. */
  function RemoveResult(rs: seq<OcrResult>, id: string): (w: seq<OcrResult>)
    ensures |w| <= |rs|
    ensures forall k :: 0 <= k < |w| ==> w[k].fileId != id
  {
    FilterAccepted(rs, (r: OcrResult) => r.fileId != id);
    Filter(rs, (r: OcrResult) => r.fileId != id)
  }

  /** An edit keeps the ids, and so the length and the order, of the list. */
  lemma UpdateKeepsIds(rs: seq<OcrResult>, id: string, t: string)
    ensures ResultIds(UpdateText(rs, id, t)) == ResultIds(rs)
  {
    var u := UpdateText(rs, id, t);
    forall i | 0 <= i < |rs| ensures ResultIds(u)[i] == ResultIds(rs)[i] {
      assert u[i].fileId == rs[i].fileId;
    }
  }

  /** An edit of an id that has no result (a stale reference) is a no-op. */
  lemma UpdateUnknownId(rs: seq<OcrResult>, id: string, t: string)
    requires id !in ResultIds(rs)
    ensures UpdateText(rs, id, t) == rs
  {
    var u := UpdateText(rs, id, t);
    forall i | 0 <= i < |rs| ensures u[i] == rs[i] {
      assert ResultIds(rs)[i] == rs[i].fileId;
    }
  }

  /** Applying the same edit twice is the same as applying it once. */
  lemma UpdateIdempotent(rs: seq<OcrResult>, id: string, t: string)
    ensures UpdateText(UpdateText(rs, id, t), id, t) == UpdateText(rs, id, t)
  {
    var once := UpdateText(rs, id, t);
    var twice := UpdateText(once, id, t);
    forall i | 0 <= i < |rs| ensures twice[i] == once[i] {
      assert once[i].fileId == rs[i].fileId;
    }
  }

  /** Of two edits of the same result the later one wins. */
  lemma UpdateLastWins(rs: seq<OcrResult>, id: string, t1: string, t2: string)
    ensures UpdateText(UpdateText(rs, id, t1), id, t2) == UpdateText(rs, id, t2)
  {
    var first := UpdateText(rs, id, t1);
    var both := UpdateText(first, id, t2);
    var direct := UpdateText(rs, id, t2);
    forall i | 0 <= i < |rs| ensures both[i] == direct[i] {
      assert first[i].fileId == rs[i].fileId;
    }
  }

  /** Edits of two different results do not interfere. */
  lemma UpdatesCommute(rs: seq<OcrResult>, a: string, ta: string, b: string, tb: string)
    requires a != b
    ensures UpdateText(UpdateText(rs, a, ta), b, tb) == UpdateText(UpdateText(rs, b, tb), a, ta)
  {
    var ra, rb := UpdateText(rs, a, ta), UpdateText(rs, b, tb);
    var ab, ba := UpdateText(ra, b, tb), UpdateText(rb, a, ta);
    forall i | 0 <= i < |rs| ensures ab[i] == ba[i] {
      var x := rs[i];
      if x.fileId == a {
        assert ra[i] == x.(text := ta, isEdited := true) && rb[i] == x;
      } else if x.fileId == b {
        assert rb[i] == x.(text := tb, isEdited := true) && ra[i] == x;
      } else {
        assert ra[i] == x && rb[i] == x;
      }
    }
  }

  /** After removal no result has the id, and every other result is kept
      (in order: `KeptIndices`' contract). */
  lemma RemoveResultClearsId(rs: seq<OcrResult>, id: string)
    ensures id !in ResultIds(RemoveResult(rs, id))
    ensures forall r :: r in RemoveResult(rs, id) <==> r in rs && r.fileId != id
  {
    var w := RemoveResult(rs, id);
    forall r {
      FilterMembership(rs, (r: OcrResult) => r.fileId != id, r);
    }
    forall k | 0 <= k < |w| ensures ResultIds(w)[k] != id {
      assert w[k] in w;
    }
  }

  /** An edit that arrives after its file was removed changes nothing. */
  lemma EditAfterRemoveIsNoop(rs: seq<OcrResult>, id: string, t: string)
    ensures UpdateText(RemoveResult(rs, id), id, t) == RemoveResult(rs, id)
  {
    RemoveResultClearsId(rs, id);
    UpdateUnknownId(RemoveResult(rs, id), id, t);
  }

  /** Removing a result discards any edit made to it. */
  lemma {:induction false} RemoveAfterEdit(rs: seq<OcrResult>, id: string, t: string)
    ensures RemoveResult(UpdateText(rs, id, t), id) == RemoveResult(rs, id)
    decreases |rs|
  {
    if rs != [] {
      var n := |rs| - 1;
      var u := UpdateText(rs, id, t);
      assert u[..n] == UpdateText(rs[..n], id, t);
      RemoveAfterEdit(rs[..n], id, t);
    }
  }
}
