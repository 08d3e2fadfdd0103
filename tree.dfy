/**
 * `build_tree`: the flat listing of a Drive folder becomes a map from folder
 * id to node. Files are attached to the folder named by their first parent;
 * parents that are not listed folders become root candidates, one of which
 * receives a synthetic `ROOT` node listing every folder.
 */
module Tree {
  import opened Wrappers
  import opened Values
  import opened Text
  import opened Remote

  /** `{"name": ..., "files": [...], "subfolders": [...]}` */
  datatype Node = Node(name: string, files: seq<string>, subfolders: seq<string>)

  /** The tree and the root candidate that received the `ROOT` node. */
  datatype Built = Built(tree: map<string, Node>, rootId: string)

  /** `item["id"] + "|" + item["modifiedTime"] + "|" + item["name"]` */
  function Descriptor(e: Entry): string
  {
    e.id + "|" + e.modifiedTime + "|" + e.name
  }

  /** The first loop over the items: one empty node per folder entry; a repeated id is reset. */
  function Folders(items: seq<Entry>): (t: map<string, Node>)
    decreases |items|
  {
    if items == [] then map[]
    else
      var t := Folders(items[..|items| - 1]);
      var e := items[|items| - 1];
      if IsFolder(e) then t[e.id := Node(e.name, [], [])] else t
  }

  /** The keys of the folder map in insertion order, as `list(tree.keys())` lists them. */
  function FolderOrder(items: seq<Entry>): (order: seq<string>)
    decreases |items|
  {
    if items == [] then []
    else
      var order := FolderOrder(items[..|items| - 1]);
      var e := items[|items| - 1];
      if IsFolder(e) && e.id !in order then order + [e.id] else order
  }

  /** One step of the second loop: attach `e` to its first parent when that parent is a folder node. */
  function AttachOne(t: map<string, Node>, e: Entry): (r: map<string, Node>)
    ensures r.Keys == t.Keys
    ensures forall p :: p in t ==> r[p].name == t[p].name
  {
    if e.parents == [] || e.parents[0] !in t then t
    else
      var p := e.parents[0];
      if IsFolder(e) then t[p := t[p].(subfolders := t[p].subfolders + [e.id])]
      else if e.mimeType == MarkdownMime then t[p := t[p].(files := t[p].files + [Descriptor(e)])]
      else t
  }

  /** The second loop's effect on the tree. */
  function Attach(t: map<string, Node>, items: seq<Entry>): (r: map<string, Node>)
    decreases |items|
    ensures r.Keys == t.Keys
    ensures forall p :: p in t ==> r[p].name == t[p].name
  {
    if items == [] then t
    else AttachOne(Attach(t, items[..|items| - 1]), items[|items| - 1])
  }

  /** The second loop's `root` set: first parents that are not folder nodes. */
  function RootsOf(keys: set<string>, items: seq<Entry>): set<string>
    decreases |items|
  {
    if items == [] then {}
    else
      var roots := RootsOf(keys, items[..|items| - 1]);
      var e := items[|items| - 1];
      if e.parents != [] && e.parents[0] !in keys then roots + {e.parents[0]} else roots
  }

  function Candidates(items: seq<Entry>): set<string>
  {
    RootsOf(Folders(items).Keys, items)
  }

  /** The synthetic node: no files, every folder id as a subfolder. */
  function RootNode(items: seq<Entry>): Node
  {
    Node("ROOT", [], FolderOrder(items))
  }

  /**
   * `build_tree(items)`. `None` is the `IndexError` of `list(root)[0]` when
   * there is no root candidate; which candidate is taken is left open, as
   * Python's set order is.
   */
  method BuildTree(items: seq<Entry>) returns (r: Option<Built>)
    ensures r.None? <==> Candidates(items) == {}
    ensures r.Some? ==> r.value.rootId in Candidates(items)
    ensures r.Some? ==> r.value.tree == Attach(Folders(items), items)[r.value.rootId := RootNode(items)]
  {
    var folders, order := FolderPass(items);
    var tree, roots := AttachPass(folders, items);
    if roots == {} {
      return None;
    }
    var rootId :| rootId in roots;
    tree := tree[rootId := Node("ROOT", [], order)];
    r := Some(Built(tree, rootId));
  }

  /** The first loop of `build_tree`: one empty node per folder entry, keys in insertion order. */
  method FolderPass(items: seq<Entry>) returns (tree: map<string, Node>, order: seq<string>)
    ensures tree == Folders(items) && order == FolderOrder(items)
    ensures forall k :: k in tree <==> k in order
  {
    tree, order := map[], [];
    var i := 0;
    while i < |items|
      invariant 0 <= i <= |items|
      invariant tree == Folders(items[..i]) && order == FolderOrder(items[..i])
      invariant forall k :: k in tree <==> k in order
    {
      FolderOrderKeys(items[..i + 1]);
      assert items[..i + 1][..i] == items[..i];
      var item := items[i];
      if item.mimeType == FolderMime {
        if item.id !in tree {
          order := order + [item.id];
        }
        tree := tree[item.id := Node(item.name, [], [])];
      }
      i := i + 1;
    }
    assert items[..i] == items;
  }

  /** The second loop of `build_tree`: attach each item to its first parent, or record that parent as a root candidate. */
  method AttachPass(folders: map<string, Node>, items: seq<Entry>) returns (tree: map<string, Node>, roots: set<string>)
    ensures tree == Attach(folders, items) && roots == RootsOf(folders.Keys, items)
  {
    tree, roots := folders, {};
    var i := 0;
    while i < |items|
      invariant 0 <= i <= |items|
      invariant tree == Attach(folders, items[..i])
      invariant roots == RootsOf(folders.Keys, items[..i])
    {
      AttachStep(folders, items, i);
      var item := items[i];
      if item.parents != [] {
        var p := item.parents[0];
        if p !in tree {
          roots := roots + {p};
        } else if item.mimeType == FolderMime {
          tree := tree[p := tree[p].(subfolders := tree[p].subfolders + [item.id])];
        } else if item.mimeType == MarkdownMime {
          tree := tree[p := tree[p].(files := tree[p].files + [Descriptor(item)])];
        }
      }
      i := i + 1;
    }
    assert items[..i] == items;
  }

  /** One more item is one more `AttachOne` and perhaps one more root candidate. */
  lemma AttachStep(t: map<string, Node>, items: seq<Entry>, i: nat)
    requires i < |items|
    ensures Attach(t, items[..i + 1]) == AttachOne(Attach(t, items[..i]), items[i])
    ensures RootsOf(t.Keys, items[..i + 1])
      == if items[i].parents != [] && items[i].parents[0] !in t.Keys
         then RootsOf(t.Keys, items[..i]) + {items[i].parents[0]} else RootsOf(t.Keys, items[..i])
  {
    assert items[..i + 1][..i] == items[..i];
  }

  /** The folder nodes are the folder entries' ids, and `list(tree.keys())` lists each once. */
  lemma {:induction false} FolderOrderKeys(items: seq<Entry>)
    ensures forall k :: k in Folders(items) <==> k in FolderOrder(items)
    ensures forall k :: k in Folders(items) <==> exists e :: e in items && IsFolder(e) && e.id == k
    ensures NoDup(FolderOrder(items))
    decreases |items|
  {
    if items != [] {
      var init := items[..|items| - 1];
      FolderOrderKeys(init);
      assert forall e :: e in items <==> e in init || e == items[|items| - 1];
    }
  }

  /** A folder node's name is that of the last folder entry with its id, and it starts empty. */
  lemma {:induction false} FolderNode(items: seq<Entry>, k: nat)
    requires k < |items| && IsFolder(items[k])
    requires forall j :: k < j < |items| ==> !(IsFolder(items[j]) && items[j].id == items[k].id)
    ensures items[k].id in Folders(items) && Folders(items)[items[k].id] == Node(items[k].name, [], [])
    decreases |items|
  {
    if k < |items| - 1 {
      var init := items[..|items| - 1];
      FolderNode(init, k);
    }
  }

  /** The ids of the folder entries whose first parent is `p`, in listing order. */
  function ChildFolders(items: seq<Entry>, p: string): seq<string>
    decreases |items|
  {
    if items == [] then []
    else
      var e := items[|items| - 1];
      ChildFolders(items[..|items| - 1], p)
        + (if e.parents != [] && e.parents[0] == p && IsFolder(e) then [e.id] else [])
  }

  /** The descriptors of the markdown entries whose first parent is `p`, in listing order. */
  function ChildFiles(items: seq<Entry>, p: string): seq<string>
    decreases |items|
  {
    if items == [] then []
    else
      var e := items[|items| - 1];
      ChildFiles(items[..|items| - 1], p)
        + (if e.parents != [] && e.parents[0] == p && e.mimeType == MarkdownMime then [Descriptor(e)] else [])
  }

  /** One attachment step appends `e` to its parent's lists when it is a child of `p`. */
  lemma AttachOneChildren(t: map<string, Node>, e: Entry, p: string)
    requires p in t
    ensures AttachOne(t, e)[p].subfolders
      == t[p].subfolders + (if e.parents != [] && e.parents[0] == p && IsFolder(e) then [e.id] else [])
    ensures AttachOne(t, e)[p].files
      == t[p].files + (if e.parents != [] && e.parents[0] == p && e.mimeType == MarkdownMime then [Descriptor(e)] else [])
  {
    assert MarkdownMime != FolderMime;
  }

  /** Attachment appends exactly the children of each folder node, in listing order. */
  lemma {:induction false} AttachChildren(t: map<string, Node>, items: seq<Entry>, p: string)
    requires p in t
    ensures Attach(t, items)[p].subfolders == t[p].subfolders + ChildFolders(items, p)
    ensures Attach(t, items)[p].files == t[p].files + ChildFiles(items, p)
    decreases |items|
  {
    if items != [] {
      var init := items[..|items| - 1];
      var e := items[|items| - 1];
      AttachChildren(t, init, p);
      AttachOneChildren(Attach(t, init), e, p);
    }
  }

  /** Every child id is the id of a folder entry. */
  lemma {:induction false} ChildFoldersAreFolders(items: seq<Entry>, p: string)
    ensures forall s :: s in ChildFolders(items, p) ==> s in Folders(items)
    decreases |items|
  {
    if items != [] {
      var init := items[..|items| - 1];
      ChildFoldersAreFolders(init, p);
      FolderOrderKeys(init);
      FolderOrderKeys(items);
      assert forall e :: e in init ==> e in items;
    }
  }

  /** The candidates are exactly the first parents that are not folder nodes. */
  lemma {:induction false} RootsOfMembers(keys: set<string>, items: seq<Entry>)
    ensures forall p :: p in RootsOf(keys, items) <==>
      p !in keys && exists e :: e in items && e.parents != [] && e.parents[0] == p
    decreases |items|
  {
    if items != [] {
      var init := items[..|items| - 1];
      RootsOfMembers(keys, init);
      assert forall e :: e in items <==> e in init || e == items[|items| - 1];
    }
  }

  /** A built tree is closed: every subfolder id, the root's included, is a node of the tree. */
  lemma BuiltTreeClosed(items: seq<Entry>, rootId: string)
    requires rootId in Candidates(items)
    ensures var tree := Attach(Folders(items), items)[rootId := RootNode(items)];
      forall p, s :: p in tree && s in tree[p].subfolders ==> s in tree
  {
    var folders := Folders(items);
    var tree := Attach(folders, items)[rootId := RootNode(items)];
    FolderOrderKeys(items);
    ChildFoldersAreFolders(items, rootId);
    forall p, s | p in tree && s in tree[p].subfolders ensures s in tree {
      if p != rootId {
        AttachChildren(folders, items, p);
        FolderNodeEmpty(items, p);
        ChildFoldersAreFolders(items, p);
      }
    }
  }

  /** Every file of a node is a descriptor, and a descriptor holds a `|`. */
  lemma {:induction false} ChildFilesHaveBar(items: seq<Entry>, p: string)
    ensures forall d :: d in ChildFiles(items, p) ==> '|' in d
    decreases |items|
  {
    if items != [] {
      var e := items[|items| - 1];
      ChildFilesHaveBar(items[..|items| - 1], p);
      assert Descriptor(e)[|e.id|] == '|';
    }
  }

  /** In a built tree every file descriptor holds the `|` that `collect` splits on. */
  lemma BuiltTreeHasBars(items: seq<Entry>, rootId: string, tree: map<string, Node>)
    requires tree == Attach(Folders(items), items)[rootId := RootNode(items)]
    ensures forall p, d :: p in tree && d in tree[p].files ==> '|' in d
  {
    var folders := Folders(items);
    forall p, d | p in tree && d in tree[p].files ensures '|' in d {
      if p != rootId {
        AttachChildren(folders, items, p);
        FolderNodeEmpty(items, p);
        ChildFilesHaveBar(items, p);
      }
    }
  }

  /** Every node of the first loop starts without files and subfolders. */
  lemma {:induction false} FolderNodeEmpty(items: seq<Entry>, p: string)
    requires p in Folders(items)
    ensures Folders(items)[p].files == [] && Folders(items)[p].subfolders == []
    decreases |items|
  {
    var init := items[..|items| - 1];
    if p in Folders(init) && !(IsFolder(items[|items| - 1]) && items[|items| - 1].id == p) {
      FolderNodeEmpty(init, p);
    }
  }

  /** A root candidate is never a folder node, so `ROOT` replaces no folder. */
  lemma CandidateIsNotFolder(items: seq<Entry>, rootId: string)
    requires rootId in Candidates(items)
    ensures rootId !in Folders(items)
  {
    RootsOfMembers(Folders(items).Keys, items);
  }

  /** `collect`'s split of a descriptor gives back the id and the modification time. */
  lemma DescriptorFields(e: Entry)
    requires '|' !in e.id && '|' !in e.modifiedTime
    ensures |Split(Descriptor(e), '|')| >= 2
    ensures Split(Descriptor(e), '|')[0] == e.id && Split(Descriptor(e), '|')[1] == e.modifiedTime
  {
    assert Descriptor(e) == e.id + ['|'] + (e.modifiedTime + ['|'] + e.name);
    SplitFirst(e.id, '|', e.modifiedTime + ['|'] + e.name);
    SplitFirst(e.modifiedTime, '|', e.name);
  }

  /** A descriptor ends in `.md` exactly when the file name does. */
  lemma DescriptorIsMarkdown(e: Entry)
    ensures EndsWith(Descriptor(e), ".md") <==> EndsWith(e.name, ".md")
  {
    var d := Descriptor(e);
    var pre := e.id + "|" + e.modifiedTime + "|";
    assert d == pre + e.name;
    if |e.name| >= 3 {
      assert d[|d| - 3..] == e.name[|e.name| - 3..];
    } else if |d| >= 3 {
      assert d[|d| - 1 - |e.name|] == '|';
    }
  }

  /** The entries A (a folder without parents), B (a folder in A) and f1 (markdown in B). */
  function ExampleItems(ts: string, name: string): seq<Entry>
  {
    [Entry("A", "A", FolderMime, [], ts),
     Entry("B", "B", FolderMime, ["A"], ts),
     Entry("f1", name, MarkdownMime, ["B"], ts)]
  }

  lemma ExampleFolders(ts: string, name: string)
    ensures Folders(ExampleItems(ts, name)) == map["A" := Node("A", [], []), "B" := Node("B", [], [])]
  {
    var items := ExampleItems(ts, name);
    assert MarkdownMime != FolderMime;
    assert !IsFolder(items[2]) && IsFolder(items[0]) && IsFolder(items[1]);
    assert items[..2][..1] == items[..1] && items[..1][..0] == [];
    assert Folders(items[..1]) == map["A" := Node("A", [], [])];
    assert Folders(items[..2]) == map["A" := Node("A", [], []), "B" := Node("B", [], [])];
  }

  lemma ExampleChildren(ts: string, name: string)
    ensures ChildFolders(ExampleItems(ts, name), "A") == ["B"]
    ensures ChildFiles(ExampleItems(ts, name), "B") == ["f1|" + ts + "|" + name]
  {
    var items := ExampleItems(ts, name);
    assert MarkdownMime != FolderMime;
    assert items[..2][..1] == items[..1] && items[..1][..0] == [];
    assert ChildFolders(items[..1], "A") == [] && ChildFiles(items[..1], "B") == [];
    assert ChildFolders(items[..2], "A") == ["B"] && ChildFiles(items[..2], "B") == [];
    assert Descriptor(items[2]) == "f1|" + ts + "|" + name;
    assert ChildFiles(items, "B") == ChildFiles(items[..2], "B") + [Descriptor(items[2])];
  }

  lemma ExampleRoots(ts: string, name: string)
    ensures Candidates(ExampleItems(ts, name)) == {}
  {
    var items := ExampleItems(ts, name);
    ExampleFolders(ts, name);
    var keys := Folders(items).Keys;
    assert items[..2][..1] == items[..1] && items[..1][..0] == [];
    assert RootsOf(keys, items[..1]) == {};
    assert RootsOf(keys, items[..2]) == {};
  }

  /**
   * On the example entries the attachment is as expected, but every first
   * parent is a folder node, so `list(root)[0]` raises `IndexError`.
   */
  lemma ExampleWithoutRoot(ts: string, name: string)
    ensures var tree := Attach(Folders(ExampleItems(ts, name)), ExampleItems(ts, name));
      && "A" in tree && tree["A"].subfolders == ["B"]
      && "B" in tree && tree["B"].files == ["f1|" + ts + "|" + name]
      && Candidates(ExampleItems(ts, name)) == {}
  {
    var items := ExampleItems(ts, name);
    ExampleFolders(ts, name);
    ExampleChildren(ts, name);
    ExampleRoots(ts, name);
    AttachChildren(Folders(items), items, "A");
    AttachChildren(Folders(items), items, "B");
  }
}
