/** The upload list: `handleFileSelect` and the file half of `removeFile`
    (frontend/src/app/page.tsx:61-77, 95-98). */
module Registry {
  import opened OcrTypes
  import opened Filtering

  /** `file.type.startsWith("image/")`: the declared media type, compared
      case-sensitively. */
  predicate IsImage(f: File)
  {
    "image/" <= f.mimeType
  }

  /** The candidates `handleFileSelect` accepts, in arrival order. */
  function Images(cs: seq<File>): seq<File>
  {
    Filter(cs, IsImage)
  }

  /** The entry pushed for an accepted file under the id drawn for it. */
  function Upload(f: File, id: string): UploadedFile
  {
    UploadedFile(f, id, f.name)
  }

  /** No two entries of the list share an id. */
  predicate Distinct(ids: seq<string>)
  {
    forall i, j :: 0 <= i < j < |ids| ==> ids[i] != ids[j]
  }

  predicate UniqueIds(fs: seq<UploadedFile>)
  {
    Distinct(FileIds(fs))
  }

  /** The loop of `handleFileSelect`: walk the candidates in order and push an
      entry for each image, the k-th image taking the k-th fresh id (the ids
      `Math.random` would have produced, supplied by the caller). */
  method CollectImages(cs: seq<File>, freshIds: seq<string>) returns (newFiles: seq<UploadedFile>)
    requires |Images(cs)| <= |freshIds|
    ensures |newFiles| == |Images(cs)|
    ensures forall k :: 0 <= k < |newFiles| ==> newFiles[k] == Upload(Images(cs)[k], freshIds[k])
  {
    newFiles := [];
    var i := 0;
    while i < |cs|
      invariant 0 <= i <= |cs|
      invariant |newFiles| == |Images(cs[..i])| <= |Images(cs)|
      invariant forall k :: 0 <= k < |newFiles| ==> newFiles[k] == Upload(Images(cs[..i])[k], freshIds[k])
    {
      var file := cs[i];
      assert cs[..i + 1][..i] == cs[..i];
      FilterAppend(cs[..i + 1], cs[i + 1..], IsImage);
      assert cs[..i + 1] + cs[i + 1..] == cs;
      if IsImage(file) {
        newFiles := newFiles + [Upload(file, freshIds[|newFiles|])];
      }
      i := i + 1;
    }
    assert cs[..|cs|] == cs;
  }

  /** Adding keeps exactly the image candidates, in their input order: the
      k-th accepted file is the candidate at the k-th image position. */
  lemma ImagesInOrder(cs: seq<File>)
    ensures forall f :: f in Images(cs) <==> f in cs && IsImage(f)
    ensures forall i :: 0 <= i < |cs| && IsImage(cs[i]) ==> i in KeptIndices(cs, IsImage)
    ensures forall k :: 0 <= k < |Images(cs)| ==> Images(cs)[k] == cs[KeptIndices(cs, IsImage)[k]]
    ensures forall k, l :: 0 <= k < l < |Images(cs)| ==> KeptIndices(cs, IsImage)[k] < KeptIndices(cs, IsImage)[l]
  {
    forall f {
      FilterMembership(cs, IsImage, f);
    }
    var idx := KeptIndices(cs, IsImage);
  }

  /** A selection holding no image adds nothing. */
  lemma NoImagesAddNothing(cs: seq<File>)
    requires forall i :: 0 <= i < |cs| ==> !IsImage(cs[i])
    ensures Images(cs) == []
  {
    FilterDropsAll(cs, IsImage);
  }

  /** Two selections in a row accept the same files as one selection of both. */
  lemma ImagesOfTwoSelections(a: seq<File>, b: seq<File>)
    ensures Images(a + b) == Images(a) + Images(b)
  {
    FilterAppend(a, b, IsImage);
  }

  /** Appending entries whose ids are distinct and new keeps ids unique. */
  lemma AppendKeepsIdsUnique(fs: seq<UploadedFile>, added: seq<UploadedFile>)
    requires UniqueIds(fs) && UniqueIds(added)
    requires forall k :: 0 <= k < |added| ==> added[k].id !in FileIds(fs)
    ensures UniqueIds(fs + added)
  {
    var all := fs + added;
    forall i, j | 0 <= i < j < |all|
      ensures FileIds(all)[i] != FileIds(all)[j]
    {
      var n := |fs|;
      if j < n {
        assert FileIds(all)[i] == FileIds(fs)[i] && FileIds(all)[j] == FileIds(fs)[j];
      } else if i < n {
        assert FileIds(all)[i] == FileIds(fs)[i] && FileIds(all)[j] == added[j - n].id;
      } else {
        assert FileIds(all)[i] == FileIds(added)[i - n] && FileIds(all)[j] == FileIds(added)[j - n];
      }
    }
  }

  /** The file half of `removeFile`: every entry except those with that id. */
  function Without(fs: seq<UploadedFile>, id: string): (r: seq<UploadedFile>)
    ensures |r| <= |fs|
    ensures forall k :: 0 <= k < |r| ==> r[k].id != id
  {
    FilterAccepted(fs, (f: UploadedFile) => f.id != id);
    Filter(fs, (f: UploadedFile) => f.id != id)
  }

  /** After removal no entry has the id and every other entry is still there
      (their relative order is `KeptIndices`' contract). */
  lemma WithoutRemovesExactlyThatId(fs: seq<UploadedFile>, id: string)
    ensures id !in FileIds(Without(fs, id))
    ensures forall f :: f in Without(fs, id) <==> f in fs && f.id != id
  {
    var w := Without(fs, id);
    forall f {
      FilterMembership(fs, (f: UploadedFile) => f.id != id, f);
    }
    forall k | 0 <= k < |w| ensures FileIds(w)[k] != id {
      assert w[k] in w;
    }
  }

  /** Removing an id nobody has changes nothing. */
  lemma WithoutUnknownId(fs: seq<UploadedFile>, id: string)
    requires id !in FileIds(fs)
    ensures Without(fs, id) == fs
  {
    forall i | 0 <= i < |fs| ensures fs[i].id != id {
      assert FileIds(fs)[i] == fs[i].id;
    }
    FilterKeepsAll(fs, (f: UploadedFile) => f.id != id);
  }

  /** Removal keeps ids unique: the survivors sit at increasing positions of
      the old list. */
  lemma WithoutKeepsIdsUnique(fs: seq<UploadedFile>, id: string)
    requires UniqueIds(fs)
    ensures UniqueIds(Without(fs, id))
  {
    var idx := KeptIndices(fs, (f: UploadedFile) => f.id != id);
    var w := Without(fs, id);
    forall k, l | 0 <= k < l < |w| ensures FileIds(w)[k] != FileIds(w)[l] {
      assert idx[k] < idx[l];
      assert FileIds(w)[k] == FileIds(fs)[idx[k]] && FileIds(w)[l] == FileIds(fs)[idx[l]];
    }
  }

  /** With unique ids, removing an id that is present drops exactly one entry. */
  lemma {:induction false} WithoutDropsOne(fs: seq<UploadedFile>, id: string)
    requires UniqueIds(fs) && id in FileIds(fs)
    ensures |Without(fs, id)| == |fs| - 1
    decreases |fs|
  {
    var init := fs[..|fs| - 1];
    var last := fs[|fs| - 1];
    if last.id == id {
      forall i | 0 <= i < |init| ensures init[i].id != id {
        assert FileIds(fs)[i] != FileIds(fs)[|fs| - 1];
      }
      FilterKeepsAll(init, (f: UploadedFile) => f.id != id);
    } else {
      var k :| 0 <= k < |fs| && FileIds(fs)[k] == id;
      assert k < |init| && FileIds(init)[k] == id;
      forall i, j | 0 <= i < j < |init| ensures FileIds(init)[i] != FileIds(init)[j] {
        assert FileIds(init)[i] == FileIds(fs)[i] && FileIds(init)[j] == FileIds(fs)[j];
      }
      WithoutDropsOne(init, id);
    }
  }
}
