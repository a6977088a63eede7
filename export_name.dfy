/** The download name of `downloadAsText`:
    `fileName.replace(/\.[^/.]+$/, ".md")` (frontend/src/app/page.tsx:159-161). */
module ExportName {
  import opened OcrTypes

  /** Position i starts what the pattern matches: a '.' followed, up to the
      end of the name, by one or more characters none of which is '/' or '.'. */
  predicate ExtensionAt(s: string, i: int)
  {
    0 <= i < |s| - 1 && s[i] == '.' && forall j :: i < j < |s| ==> s[j] != '/' && s[j] != '.'
  }

  /** Scans `s[..n]` from its end for the '.' of a final extension, knowing
      that `s[n..]` holds neither '/' nor '.'. */
  function FinalDot(s: string, n: nat): (r: Option<nat>)
    requires n <= |s|
    requires forall j :: n <= j < |s| ==> s[j] != '/' && s[j] != '.'
    ensures r.Some? ==> ExtensionAt(s, r.value)
    ensures r.None? ==> forall i :: !ExtensionAt(s, i)
    decreases n
  {
    if n == 0 then None
    else if s[n - 1] == '.' then (if n < |s| then Some(n - 1) else None)
    else if s[n - 1] == '/' then None
    else FinalDot(s, n - 1)
  }

  /** The name offered for download: a final extension becomes ".md"; a name
      without one is returned as it is. */
  function MarkdownName(s: string): (r: string)
    ensures forall i :: ExtensionAt(s, i) ==> r == s[..i] + ".md"
    ensures (forall i :: !ExtensionAt(s, i)) ==> r == s
  {
    match FinalDot(s, |s|)
    case Some(i) => s[..i] + ".md"
    case None => s
  }

  /** The pattern matches in at most one place, so the replacement is well
      defined. */
  lemma ExtensionUnique(s: string, i: int, j: int)
    requires ExtensionAt(s, i) && ExtensionAt(s, j)
    ensures i == j
  {
  }

  /** A '.' before the last '/' does not start an extension: a name whose last
      path segment has no '.' keeps its name. */
  lemma DotInDirectoryIsNoExtension(s: string, k: nat)
    requires k < |s| && s[k] == '/'
    requires forall j :: k < j < |s| ==> s[j] != '.'
    ensures MarkdownName(s) == s
  {
    forall i | 0 <= i < |s| ensures !ExtensionAt(s, i) {
      if i < k {
        assert s[k] == '/';
      }
    }
  }

  /** Renaming an already renamed name changes nothing. */
  lemma MarkdownNameIdempotent(s: string)
    ensures MarkdownName(MarkdownName(s)) == MarkdownName(s)
  {
    var r := MarkdownName(s);
    match FinalDot(s, |s|)
    case Some(i) =>
      assert r == s[..i] + ".md";
      assert r[i] == '.' && r[i + 1] == 'm' && r[i + 2] == 'd' && |r| == i + 3;
      assert ExtensionAt(r, i);
      assert r[..i] == s[..i];
    case None =>
  }

  /** The names the pattern handles at its edges. */
  lemma MarkdownNameExamples()
    ensures MarkdownName("scan.png") == "scan.md"
    ensures MarkdownName("archive.tar.gz") == "archive.tar.md"
    ensures MarkdownName(".png") == ".md"
    ensures MarkdownName("notes") == "notes"
    ensures MarkdownName("photo.") == "photo."
    ensures MarkdownName("v1.2/scan") == "v1.2/scan"
  {
    assert ExtensionAt("scan.png", 4);
    assert ExtensionAt("archive.tar.gz", 11);
    assert ExtensionAt(".png", 0);
    assert forall i :: !ExtensionAt("notes", i);
    assert forall i :: !ExtensionAt("photo.", i);
    DotInDirectoryIsNoExtension("v1.2/scan", 4);
  }
}
