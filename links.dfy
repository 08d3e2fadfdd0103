/**
 * The link helpers of drive_module/drive_ops.py: the file id of a share
 * link and the folder id of a folder URL.
 */
module Links {
  import opened Wrappers
  import opened Text

  /** `i` is the first occurrence of `pat` at or after `from`. */
  predicate FirstFrom(s: string, pat: string, from: nat, i: nat)
  {
    from <= i && OccursAt(s, pat, i) && forall j :: from <= j < i ==> !OccursAt(s, pat, j)
  }

  /**
   * `get_file_id_from_link`: the text between the first `/d/` and the first
   * `/view` after it; `None` when either `str.index` raises `ValueError`.
   */
  function FileIdFromLink(url: string): (r: Option<string>)
    ensures r.Some? ==> exists i: nat ::
      FirstFrom(url, "/d/", 0, i) && FirstFrom(url, "/view", i + 3, i + 3 + |r.value|)
      && url[i + 3..i + 3 + |r.value|] == r.value
    ensures r.None? ==>
      (forall i :: !OccursAt(url, "/d/", i))
      || (exists i: nat :: FirstFrom(url, "/d/", 0, i) && forall e :: i + 3 <= e ==> !OccursAt(url, "/view", e))
  {
    match IndexFrom(url, "/d/", 0)
    case None => None
    case Some(i) =>
      assert FirstFrom(url, "/d/", 0, i);
      match IndexFrom(url, "/view", i + 3)
      case None => None
      case Some(e) =>
        assert FirstFrom(url, "/view", i + 3, e);
        Some(url[i + 3..e])
  }

  /** The result read off the two `str.index` positions. */
  lemma FileIdAt(url: string, i: nat, e: nat)
    requires IndexFrom(url, "/d/", 0) == Some(i) && IndexFrom(url, "/view", i + 3) == Some(e)
    ensures i + 3 <= e <= |url| && FileIdFromLink(url) == Some(url[i + 3..e])
  {
  }

  /** In a share link the first `/d/` is the one after the prefix. */
  lemma ShareLinkStart(url: string, pre: string)
    requires |pre| + 3 <= |url| && url[..|pre| + 3] == pre + "/d/"
    requires forall j :: 0 <= j < |pre| ==> !OccursAt(pre + "/d/", "/d/", j)
    ensures IndexFrom(url, "/d/", 0) == Some(|pre|)
  {
    var head := pre + "/d/";
    forall j | 0 <= j < |pre| ensures !OccursAt(url, "/d/", j) {
      assert !OccursAt(head, "/d/", j);
      assert url[..|pre| + 3][j..j + 3] == url[j..j + 3];
    }
    assert url[|pre|..|pre| + 3] == head[|pre|..];
    IndexFromFirst(url, "/d/", 0, |pre|);
  }

  /** After the `/d/`, the first `/view` is the one right after the id. */
  lemma ShareLinkEnd(url: string, start: nat, id: string)
    requires '/' !in id
    requires start + |id| + 5 <= |url| && url[start..start + |id|] == id
    requires url[start + |id|..start + |id| + 5] == "/view"
    ensures IndexFrom(url, "/view", start) == Some(start + |id|)
  {
    forall j | start <= j < start + |id| ensures !OccursAt(url, "/view", j) {
      assert url[j] == id[j - start];
    }
    IndexFromFirst(url, "/view", start, start + |id|);
  }

  /** The three pieces of a share link, stated on the link's characters. */
  lemma ShareLinkPieces(url: string, pre: string, id: string)
    requires forall j :: 0 <= j < |pre| ==> !OccursAt(pre + "/d/", "/d/", j)
    requires '/' !in id
    requires |pre| + |id| + 8 <= |url| && url[..|pre| + 3] == pre + "/d/"
    requires url[|pre| + 3..|pre| + 3 + |id|] == id
    requires url[|pre| + 3 + |id|..|pre| + |id| + 8] == "/view"
    ensures FileIdFromLink(url) == Some(id)
  {
    ShareLinkStart(url, pre);
    ShareLinkEnd(url, |pre| + 3, id);
    FileIdAt(url, |pre|, |pre| + 3 + |id|);
  }

  /**
   * A link made of a prefix, `/d/`, an id without `/`, `/view` and any tail
   * gives back that id, provided `/d/` does not already occur in the prefix.
   */
  lemma FileIdFromShareLink(pre: string, id: string, rest: string)
    requires forall j :: 0 <= j < |pre| ==> !OccursAt(pre + "/d/", "/d/", j)
    requires '/' !in id
    ensures FileIdFromLink(pre + "/d/" + id + "/view" + rest) == Some(id)
  {
    var url := pre + "/d/" + id + "/view" + rest;
    var i := |pre|;
    assert url[..i + 3] == pre + "/d/";
    assert url[i + 3..i + 3 + |id|] == id;
    assert url[i + 3 + |id|..i + |id| + 8] == "/view";
    ShareLinkPieces(url, pre, id);
  }

  /** `extract_folder_id_from_url`: the capture of `re.search(r"/folders/([a-zA-Z0-9_-]+)", url)`. */
  function FolderIdFromUrl(url: string): (r: Option<string>)
    ensures r.Some? ==> |r.value| > 0 && AllIdChars(r.value)
    ensures r.Some? ==> exists i: nat :: LeftmostCapture(url, "/folders/", i) && MaximalIdRunAt(url, i + 9, r.value)
    ensures r.None? <==> forall i :: !CaptureAt(url, "/folders/", i)
  {
    SearchId(url, "/folders/")
  }

  /**
   * A folder URL whose only `/folders/` is followed by an id and then by a
   * character outside the id alphabet (or the end) gives back that id.
   */
  lemma {:induction false} FolderIdFromFolderUrl(pre: string, id: string, rest: string)
    requires forall j :: 0 <= j < |pre| ==> !OccursAt(pre + "/folders/", "/folders/", j)
    requires |id| > 0 && AllIdChars(id)
    requires rest == [] || !IsIdChar(rest[0])
    ensures FolderIdFromUrl(pre + "/folders/" + id + rest) == Some(id)
  {
    var url := pre + "/folders/" + id + rest;
    var i := |pre|;
    assert url[..i + 9] == pre + "/folders/";
    forall j | 0 <= j < i ensures !CaptureAt(url, "/folders/", j) {
      var p := pre + "/folders/";
      assert !OccursAt(p, "/folders/", j);
    }
    assert url[i..i + 9] == "/folders/";
    assert url[i + 9] == id[0];
    assert LeftmostCapture(url, "/folders/", i);
    var r := FolderIdFromUrl(url);
    var k: nat :| LeftmostCapture(url, "/folders/", k) && MaximalIdRunAt(url, k + 9, r.value);
    assert k == i;
    assert url[i + 9..i + 9 + |id|] == id;
    assert i + 9 + |id| < |url| ==> url[i + 9 + |id|] == rest[0];
    assert MaximalIdRunAt(url, i + 9, id);
    MaximalIdRunUnique(url, i + 9, id, r.value);
  }
}
