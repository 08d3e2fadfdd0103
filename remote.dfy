/**
 * The remote Drive store as the core sees it: listed entries, and a file
 * download whose text is given by an oracle `content`. Every download is
 * logged, so that cache hits can be told from remote reads.
 */
module Remote {
  import opened Text

  const FolderMime := "application/vnd.google-apps.folder"
  const MarkdownMime := "text/markdown"

  /** One listed entry: `{id, name, mimeType, parents, modifiedTime}`; absent `parents` is `[]`. */
  datatype Entry = Entry(id: string, name: string, mimeType: string, parents: seq<string>, modifiedTime: string)

  predicate IsFolder(e: Entry)
  {
    e.mimeType == FolderMime
  }

  /** The Drive client: `get_file_content` returns `content(fileId)` and is logged. */
  class Drive {
    const content: string -> string
    var downloads: seq<string>

    constructor (content: string -> string)
      ensures this.content == content && downloads == []
    {
      this.content := content;
      downloads := [];
    }

    method GetFileContent(fileId: string) returns (text: string)
      modifies this
      ensures text == content(fileId)
      ensures downloads == old(downloads) + [fileId]
    {
      text := content(fileId);
      downloads := downloads + [fileId];
    }
  }

  /** `[(f["name"], f["id"]) for f in entries if f["mimeType"].startswith(prefix)]` */
  function WithMimePrefix(entries: seq<Entry>, prefix: string): (r: seq<(string, string)>)
    ensures |r| <= |entries|
    ensures forall e :: e in entries && StartsWith(e.mimeType, prefix) ==> (e.name, e.id) in r
    ensures forall x :: x in r ==> exists e :: e in entries && StartsWith(e.mimeType, prefix) && x == (e.name, e.id)
  {
    if entries == [] then []
    else
      var rest := WithMimePrefix(entries[1..], prefix);
      var e := entries[0];
      assert forall f :: f in entries[1..] ==> f in entries;
      if StartsWith(e.mimeType, prefix) then [(e.name, e.id)] + rest else rest
  }

  /** The two comprehensions of `get_images_in_folder` over an already listed folder. */
  function ImagesAndVideos(entries: seq<Entry>): (seq<(string, string)>, seq<(string, string)>)
  {
    (WithMimePrefix(entries, "image/"), WithMimePrefix(entries, "video/"))
  }

  /** The filter keeps the listing order: filtering a concatenation concatenates the results. */
  lemma {:induction false} WithMimePrefixAppend(a: seq<Entry>, b: seq<Entry>, prefix: string)
    ensures WithMimePrefix(a + b, prefix) == WithMimePrefix(a, prefix) + WithMimePrefix(b, prefix)
    decreases |a|
  {
    if a == [] {
      assert a + b == b;
    } else {
      assert (a + b)[1..] == a[1..] + b;
      WithMimePrefixAppend(a[1..], b, prefix);
    }
  }

  /** No entry is both an image and a video, so the two lists together are no longer than the listing. */
  lemma {:induction false} ImagesAndVideosDisjoint(entries: seq<Entry>)
    ensures |ImagesAndVideos(entries).0| + |ImagesAndVideos(entries).1| <= |entries|
    decreases |entries|
  {
    if entries != [] {
      ImagesAndVideosDisjoint(entries[1..]);
    }
  }
}
