/**
 * `collect(folder, tree, ...)`: a pre-order walk of the folder tree that
 * reads every `.md` file through the session cache. Each folder's own files
 * come first, in listing order, followed by the walks of its subfolders in
 * order; the contents and the descriptors are gathered in the same order.
 * `memo` and `folder_all_files` receive one entry per visited folder (the
 * memo is written but never consulted).
 */
module Collect {
  import opened Values
  import opened Text
  import opened Remote
  import opened Cache
  import opened Tree

  /**
   * An acyclicity witness: every subfolder of a node is itself a node of a
   * smaller rank. Without it the recursion of `collect` does not end.
   */
  ghost predicate Ranked(tree: map<string, Node>, rank: map<string, nat>)
  {
    forall f :: f in tree ==> f in rank && forall s :: s in tree[f].subfolders ==> s in tree && s in rank && rank[s] < rank[f]
  }

  /** A file is read only when its descriptor ends in `.md`; it must then have a `|` for `split("|")[1]`. */
  predicate Readable(d: string)
  {
    EndsWith(d, ".md") && '|' in d
  }

  /** Every `.md` descriptor in the tree can be split into id and modification time. */
  predicate WellFormed(tree: map<string, Node>)
  {
    forall f, d :: f in tree && d in tree[f].files && EndsWith(d, ".md") ==> '|' in d
  }

  /** A tree from `build_tree` meets `collect`'s demand on descriptors. */
  lemma BuiltTreeWellFormed(items: seq<Entry>, rootId: string)
    ensures WellFormed(Attach(Folders(items), items)[rootId := RootNode(items)])
  {
    BuiltTreeHasBars(items, rootId, Attach(Folders(items), items)[rootId := RootNode(items)]);
  }

  /** The files of one folder that are read: those ending in `.md`, in listing order. */
  function MdFiles(files: seq<string>): (r: seq<string>)
    decreases |files|
    ensures |r| <= |files|
    ensures forall d :: d in r <==> d in files && EndsWith(d, ".md")
  {
    if files == [] then []
    else
      MdFiles(files[..|files| - 1]) + (if EndsWith(files[|files| - 1], ".md") then [files[|files| - 1]] else [])
  }

  /** `all_files` of `collect(f, ...)`: the folder's `.md` files, then each subfolder's walk. */
  function Preorder(tree: map<string, Node>, rank: map<string, nat>, f: string): seq<string>
    requires Ranked(tree, rank) && f in tree
    decreases rank[f], 1
  {
    MdFiles(tree[f].files) + PreorderAll(tree, rank, tree[f].subfolders, rank[f])
  }

  /** The walks of `subs`, one after the other. */
  function PreorderAll(tree: map<string, Node>, rank: map<string, nat>, subs: seq<string>, bound: nat): seq<string>
    requires Ranked(tree, rank)
    requires forall s :: s in subs ==> s in tree && rank[s] < bound
    decreases bound, 0, |subs|
  {
    if subs == [] then []
    else PreorderAll(tree, rank, subs[..|subs| - 1], bound) + Preorder(tree, rank, subs[|subs| - 1])
  }

  /** The folders a walk from `f` visits (each receives a `memo` entry). */
  function Reached(tree: map<string, Node>, rank: map<string, nat>, f: string): (r: set<string>)
    requires Ranked(tree, rank) && f in tree
    decreases rank[f], 1
    ensures f in r && r <= tree.Keys
    ensures forall g :: g in r ==> rank[g] <= rank[f]
  {
    {f} + ReachedAll(tree, rank, tree[f].subfolders, rank[f])
  }

  function ReachedAll(tree: map<string, Node>, rank: map<string, nat>, subs: seq<string>, bound: nat): (r: set<string>)
    requires Ranked(tree, rank)
    requires forall s :: s in subs ==> s in tree && rank[s] < bound
    decreases bound, 0, |subs|
    ensures r <= tree.Keys && forall s :: s in subs ==> s in r
    ensures forall g :: g in r ==> rank[g] < bound
  {
    if subs == [] then {}
    else ReachedAll(tree, rank, subs[..|subs| - 1], bound) + Reached(tree, rank, subs[|subs| - 1])
  }

  /** `f"folder_contents_{file}"` */
  function CacheKey(d: string): string
  {
    "folder_contents_" + d
  }

  /** `{"sorted_compo_id": fikle_attribute[1]}`: the modification time, as the dependency fingerprint. */
  function Deps(d: string): Value
    requires '|' in d
  {
    Dict(map["sorted_compo_id" := Str(Split(d, '|')[1])])
  }

  /** `fikle_attribute[0]`: the file id downloaded on a miss. */
  function FileIdOf(d: string): string
  {
    Split(d, '|')[0]
  }

  /** What serving a sequence of descriptors yields: their values, the new store and the downloads. */
  datatype Served = Served(values: seq<Value>, store: map<string, Value>, misses: seq<string>)

  /** One `get_or_cache_data` call of `collect`, on values. */
  function ServeOne(store: map<string, Value>, content: string -> string, d: string): Served
    requires Readable(d)
  {
    if Hit(store, CacheKey(d), Deps(d)) then Served([store[CacheKey(d)]], store, [])
    else
      var v := Str(content(FileIdOf(d)));
      Served([v], Record(store, CacheKey(d), v, Deps(d)), [FileIdOf(d)])
  }

  /** The calls for `descs`, in order, each seeing the store the previous ones left. */
  function ServeAll(store: map<string, Value>, content: string -> string, descs: seq<string>): (r: Served)
    requires forall d :: d in descs ==> Readable(d)
    decreases |descs|
    ensures |r.values| == |descs| && |r.misses| <= |descs|
  {
    if descs == [] then Served([], store, [])
    else
      var s := ServeAll(store, content, descs[..|descs| - 1]);
      var t := ServeOne(s.store, content, descs[|descs| - 1]);
      Served(s.values + t.values, t.store, s.misses + t.misses)
  }

  /** Serving `a + b` is serving `a`, then serving `b` from the store `a` left. */
  lemma {:induction false} ServeAllAppend(store: map<string, Value>, content: string -> string, a: seq<string>, b: seq<string>)
    requires forall d :: d in a ==> Readable(d)
    requires forall d :: d in b ==> Readable(d)
    decreases |b|
    ensures forall d :: d in a + b ==> Readable(d)
    ensures var sa := ServeAll(store, content, a);
      var sb := ServeAll(sa.store, content, b);
      ServeAll(store, content, a + b) == Served(sa.values + sb.values, sb.store, sa.misses + sb.misses)
  {
    if b == [] {
      assert a + b == a;
    } else {
      var b', d := b[..|b| - 1], b[|b| - 1];
      assert forall x :: x in b' ==> x in b;
      assert b == b' + [d] && a + b == (a + b') + [d];
      ServeAllAppend(store, content, a, b');
      var sa := ServeAll(store, content, a);
      ServeAllSnoc(sa.store, content, b', d);
      ServeAllSnoc(store, content, a + b', d);
      var sb' := ServeAll(sa.store, content, b');
      var t := ServeOne(sb'.store, content, d);
      ConcatAssoc(sa.values, sb'.values, t.values);
      ConcatAssoc(sa.misses, sb'.misses, t.misses);
    }
  }

  /** `.md` keys never end in `__deps`, so no file's data can land on another file's fingerprint. */
  lemma MdKeyIsNotDepKey(d: string)
    requires EndsWith(d, ".md")
    ensures !EndsWith(CacheKey(d), "__deps")
  {
    var k := CacheKey(d);
    assert k[|k| - 1] == d[|d| - 1] == 'd';
  }

  lemma CacheKeyInjective(x: string, y: string)
    requires CacheKey(x) == CacheKey(y)
    ensures x == y
  {
    assert x == CacheKey(x)[16..];
  }

  /** `d` is cached with fingerprint `Deps(d)` and value `v`. */
  ghost predicate CachedAs(store: map<string, Value>, d: string, v: Value)
  {
    Readable(d) && Hit(store, CacheKey(d), Deps(d)) && store[CacheKey(d)] == v
  }

  /** After `store` served `descs` into `values`, every descriptor hits and yields its value. */
  ghost predicate Holds(store: map<string, Value>, descs: seq<string>, values: seq<Value>)
  {
    |values| == |descs| && forall i :: 0 <= i < |descs| ==> CachedAs(store, descs[i], values[i])
  }

  /** A miss records one key; every descriptor that hit before still hits with its value. */
  lemma RecordKeepsHolds(store: map<string, Value>, pre: seq<string>, values: seq<Value>, d: string, v: Value)
    requires Readable(d) && Holds(store, pre, values) && !Hit(store, CacheKey(d), Deps(d))
    ensures Holds(Record(store, CacheKey(d), v, Deps(d)), pre, values)
  {
    MdKeyIsNotDepKey(d);
    forall i | 0 <= i < |pre|
      ensures CachedAs(Record(store, CacheKey(d), v, Deps(d)), pre[i], values[i])
    {
      assert CachedAs(store, pre[i], values[i]);
      MdKeyIsNotDepKey(pre[i]);
      if CacheKey(pre[i]) == CacheKey(d) {
        CacheKeyInjective(pre[i], d);
      }
      RecordKeepsOtherHits(store, CacheKey(d), v, Deps(d), CacheKey(pre[i]), Deps(pre[i]));
    }
  }

  lemma HoldsSnoc(store: map<string, Value>, pre: seq<string>, values: seq<Value>, d: string, v: Value)
    requires Holds(store, pre, values) && CachedAs(store, d, v)
    ensures Holds(store, pre + [d], values + [v])
  {
    var descs := pre + [d];
    forall i | 0 <= i < |descs|
      ensures CachedAs(store, descs[i], (values + [v])[i])
    {
      if i < |pre| {
        assert descs[i] == pre[i] && (values + [v])[i] == values[i];
      }
    }
  }

  /** Serving leaves every served descriptor cached, with the value it was served as. */
  lemma {:induction false} ServeAllCaches(store: map<string, Value>, content: string -> string, descs: seq<string>)
    requires forall d :: d in descs ==> Readable(d)
    decreases |descs|
    ensures Holds(ServeAll(store, content, descs).store, descs, ServeAll(store, content, descs).values)
  {
    if descs != [] {
      var pre := descs[..|descs| - 1];
      var d := descs[|descs| - 1];
      assert descs == pre + [d];
      assert forall x :: x in pre ==> x in descs;
      ServeAllCaches(store, content, pre);
      var s := ServeAll(store, content, pre);
      var t := ServeOne(s.store, content, d);
      if !Hit(s.store, CacheKey(d), Deps(d)) {
        RecordKeepsHolds(s.store, pre, s.values, d, t.values[0]);
      }
      HoldsSnoc(t.store, pre, s.values, d, t.values[0]);
    }
  }

  /**
   * The session agrees with the Drive: every `.md` descriptor that hits is
   * cached with the text of its file. An empty session agrees trivially.
   */
  ghost predicate Consistent(store: map<string, Value>, content: string -> string)
  {
    forall d :: Readable(d) && Hit(store, CacheKey(d), Deps(d)) ==> store[CacheKey(d)] == Str(content(FileIdOf(d)))
  }

  lemma EmptyConsistent(content: string -> string)
    ensures Consistent(map[], content)
  {
  }

  /** One cache call on an agreeing session yields the file's text and keeps the session agreeing. */
  lemma ServeOneConsistent(store: map<string, Value>, content: string -> string, d: string)
    requires Readable(d) && Consistent(store, content)
    ensures ServeOne(store, content, d).values == [Str(content(FileIdOf(d)))]
    ensures Consistent(ServeOne(store, content, d).store, content)
  {
    if !Hit(store, CacheKey(d), Deps(d)) {
      var v := Str(content(FileIdOf(d)));
      var store' := Record(store, CacheKey(d), v, Deps(d));
      MdKeyIsNotDepKey(d);
      forall e | Readable(e) && Hit(store', CacheKey(e), Deps(e))
        ensures store'[CacheKey(e)] == Str(content(FileIdOf(e)))
      {
        if CacheKey(e) == CacheKey(d) {
          CacheKeyInjective(e, d);
        } else {
          MdKeyIsNotDepKey(e);
          RecordKeepsOtherHits(store, CacheKey(d), v, Deps(d), CacheKey(e), Deps(e));
        }
      }
    }
  }

  /** Serving from an agreeing session leaves it agreeing. */
  lemma {:induction false} ServeAllConsistent(store: map<string, Value>, content: string -> string, descs: seq<string>)
    requires forall d :: d in descs ==> Readable(d)
    requires Consistent(store, content)
    decreases |descs|
    ensures Consistent(ServeAll(store, content, descs).store, content)
  {
    if descs != [] {
      var pre := descs[..|descs| - 1];
      assert forall x :: x in pre ==> x in descs;
      ServeAllConsistent(store, content, pre);
      ServeOneConsistent(ServeAll(store, content, pre).store, content, descs[|descs| - 1]);
    }
  }

  /** `values[i]` is the text of the file of `descs[i]`, for every `i`. */
  ghost predicate AreTexts(values: seq<Value>, descs: seq<string>, content: string -> string)
  {
    |values| == |descs| && forall i :: 0 <= i < |descs| ==> values[i] == Str(content(FileIdOf(descs[i])))
  }

  /** Serving from an agreeing session: the `i`-th value is the text of the `i`-th descriptor's file. */
  lemma {:induction false} ServeAllContents(store: map<string, Value>, content: string -> string, descs: seq<string>)
    requires forall d :: d in descs ==> Readable(d)
    requires Consistent(store, content)
    decreases |descs|
    ensures AreTexts(ServeAll(store, content, descs).values, descs, content)
  {
    if descs != [] {
      var pre := descs[..|descs| - 1];
      var d := descs[|descs| - 1];
      assert forall x :: x in pre ==> x in descs;
      assert descs == pre + [d];
      ServeAllContents(store, content, pre);
      ServeAllConsistent(store, content, pre);
      ServeAllSnoc(store, content, pre, d);
      var s := ServeAll(store, content, pre);
      ServeOneConsistent(s.store, content, d);
      TextsSnoc(s.values, pre, content, d);
    }
  }

  /** The texts extend by one descriptor. */
  lemma TextsSnoc(values: seq<Value>, pre: seq<string>, content: string -> string, d: string)
    requires AreTexts(values, pre, content)
    ensures AreTexts(values + [Str(content(FileIdOf(d)))], pre + [d], content)
  {
    var vs, ds := values + [Str(content(FileIdOf(d)))], pre + [d];
    forall i | 0 <= i < |ds|
      ensures vs[i] == Str(content(FileIdOf(ds[i])))
    {
      if i < |pre| {
        assert vs[i] == values[i] && ds[i] == pre[i];
      }
    }
  }

  /** From an empty session, every value served is the text of its file. */
  lemma FreshServeIsTexts(content: string -> string, descs: seq<string>)
    requires forall d :: d in descs ==> Readable(d)
    ensures AreTexts(ServeAll(map[], content, descs).values, descs, content)
  {
    EmptyConsistent(content);
    ServeAllContents(map[], content, descs);
  }

  /** From a store where every descriptor hits, serving them again downloads nothing and changes nothing. */
  lemma {:induction false} ServeAllCached(store: map<string, Value>, content: string -> string, descs: seq<string>, values: seq<Value>)
    requires forall d :: d in descs ==> Readable(d)
    requires Holds(store, descs, values)
    decreases |descs|
    ensures ServeAll(store, content, descs) == Served(values, store, [])
  {
    if descs != [] {
      var pre := descs[..|descs| - 1];
      assert forall x :: x in pre ==> x in descs;
      assert Holds(store, pre, values[..|descs| - 1]);
      ServeAllCached(store, content, pre, values[..|descs| - 1]);
      assert CachedAs(store, descs[|descs| - 1], values[|descs| - 1]);
      SplitLast(values);
    }
  }

  /**
   * A rerun of a walk in the same session (Streamlit reruns the script on
   * every interaction) downloads nothing and yields the same contents.
   */
  lemma CollectAgain(tree: map<string, Node>, rank: map<string, nat>, f: string,
                     store: map<string, Value>, content: string -> string)
    requires Ranked(tree, rank) && WellFormed(tree) && f in tree
    ensures forall d :: d in Preorder(tree, rank, f) ==> Readable(d)
    ensures var first := ServeAll(store, content, Preorder(tree, rank, f));
      ServeAll(first.store, content, Preorder(tree, rank, f)) == Served(first.values, first.store, [])
  {
    PreorderReadable(tree, rank, f);
    var walk := Preorder(tree, rank, f);
    ServeAllCaches(store, content, walk);
    ServeAllCached(ServeAll(store, content, walk).store, content, walk, ServeAll(store, content, walk).values);
  }

  /**
   * The walk from `ROOT` goes over every folder once at the top and again
   * inside its parent's walk; the repeated part is served from the cache.
   */
  lemma RepeatedWalkIsCached(store: map<string, Value>, content: string -> string, walk: seq<string>)
    requires forall d :: d in walk ==> Readable(d)
    ensures ServeAll(store, content, walk + walk).misses == ServeAll(store, content, walk).misses
    ensures ServeAll(store, content, walk + walk).values == ServeAll(store, content, walk).values + ServeAll(store, content, walk).values
  {
    ServeAllAppend(store, content, walk, walk);
    ServeAllCaches(store, content, walk);
    ServeAllCached(ServeAll(store, content, walk).store, content, walk, ServeAll(store, content, walk).values);
  }

  /** Every descriptor of a walk is a `.md` file of a visited folder, and so can be split. */
  lemma {:induction false} PreorderReadable(tree: map<string, Node>, rank: map<string, nat>, f: string)
    requires Ranked(tree, rank) && WellFormed(tree) && f in tree
    decreases rank[f], 1
    ensures forall d :: d in Preorder(tree, rank, f) ==> Readable(d)
  {
    PreorderAllReadable(tree, rank, tree[f].subfolders, rank[f]);
  }

  lemma {:induction false} PreorderAllReadable(tree: map<string, Node>, rank: map<string, nat>, subs: seq<string>, bound: nat)
    requires Ranked(tree, rank) && WellFormed(tree)
    requires forall s :: s in subs ==> s in tree && rank[s] < bound
    decreases bound, 0, |subs|
    ensures forall d :: d in PreorderAll(tree, rank, subs, bound) ==> Readable(d)
  {
    if subs != [] {
      var pre := subs[..|subs| - 1];
      assert forall s :: s in pre ==> s in subs;
      PreorderAllReadable(tree, rank, pre, bound);
      PreorderReadable(tree, rank, subs[|subs| - 1]);
    }
  }

  lemma ConcatAssoc<T>(x: seq<T>, y: seq<T>, z: seq<T>)
    ensures (x + y) + z == x + (y + z)
  {
  }

  lemma SplitLast<T>(x: seq<T>)
    requires x != []
    ensures x == x[..|x| - 1] + [x[|x| - 1]]
  {
  }

  /** The step of the file loop: one more listed file. */
  lemma MdFilesSnoc(files: seq<string>, i: nat)
    requires i < |files|
    ensures MdFiles(files[..i + 1]) == MdFiles(files[..i]) + (if EndsWith(files[i], ".md") then [files[i]] else [])
  {
    assert files[..i + 1][..i] == files[..i];
  }

  /** Serving one more descriptor. */
  lemma ServeAllSnoc(store: map<string, Value>, content: string -> string, ds: seq<string>, d: string)
    requires forall x :: x in ds ==> Readable(x)
    requires Readable(d)
    ensures forall x :: x in ds + [d] ==> Readable(x)
    ensures var s := ServeAll(store, content, ds);
      var t := ServeOne(s.store, content, d);
      ServeAll(store, content, ds + [d]) == Served(s.values + t.values, t.store, s.misses + t.misses)
  {
    assert (ds + [d])[..|ds|] == ds;
  }

  /** The step of the subfolder loop: one more subfolder walk. */
  lemma PreorderAllSnoc(tree: map<string, Node>, rank: map<string, nat>, subs: seq<string>, j: nat, bound: nat)
    requires Ranked(tree, rank) && j < |subs|
    requires forall s :: s in subs ==> s in tree && rank[s] < bound
    ensures forall s :: s in subs[..j + 1] ==> s in tree && rank[s] < bound
    ensures subs[j] in tree
    ensures PreorderAll(tree, rank, subs[..j + 1], bound) == PreorderAll(tree, rank, subs[..j], bound) + Preorder(tree, rank, subs[j])
    ensures ReachedAll(tree, rank, subs[..j + 1], bound) == ReachedAll(tree, rank, subs[..j], bound) + Reached(tree, rank, subs[j])
  {
    assert forall s :: s in subs[..j + 1] ==> s in subs;
    assert subs[..j + 1][..j] == subs[..j];
  }

  /**
   * Reading `descs` from `store0` with the download log at `log0` has given
   * `contents`, left the session at `store` and the log at `log`.
   */
  ghost predicate ServedAs(store0: map<string, Value>, log0: seq<string>, content: string -> string, descs: seq<string>,
                           contents: seq<Value>, store: map<string, Value>, log: seq<string>)
  {
    && (forall d :: d in descs ==> Readable(d))
    && contents == ServeAll(store0, content, descs).values
    && store == ServeAll(store0, content, descs).store
    && log == log0 + ServeAll(store0, content, descs).misses
  }

  /** Reading `a` and then `b` is reading `a + b`. */
  lemma ServedAsAppend(store0: map<string, Value>, log0: seq<string>, content: string -> string,
                       a: seq<string>, ca: seq<Value>, store1: map<string, Value>, log1: seq<string>,
                       b: seq<string>, cb: seq<Value>, store2: map<string, Value>, log2: seq<string>)
    requires ServedAs(store0, log0, content, a, ca, store1, log1)
    requires ServedAs(store1, log1, content, b, cb, store2, log2)
    ensures ServedAs(store0, log0, content, a + b, ca + cb, store2, log2)
  {
    ServeAllAppend(store0, content, a, b);
    ConcatAssoc(log0, ServeAll(store0, content, a).misses, ServeAll(store1, content, b).misses);
  }

  /** The walk from every folder of the tree. */
  ghost function Walks(tree: map<string, Node>, rank: map<string, nat>): (w: map<string, seq<string>>)
    requires Ranked(tree, rank)
    ensures w.Keys == tree.Keys
    ensures forall g :: g in tree ==> w[g] == Preorder(tree, rank, g)
  {
    map g | g in tree :: Preorder(tree, rank, g)
  }

  /** One `get_or_cache_data` call, as the cache promises it, is one step of `ServeAll`. */
  lemma ServedAsStep(store0: map<string, Value>, log0: seq<string>, content: string -> string, descs: seq<string>,
                     contents: seq<Value>, store: map<string, Value>, log: seq<string>,
                     d: string, data: Value, store': map<string, Value>, log': seq<string>)
    requires ServedAs(store0, log0, content, descs, contents, store, log) && Readable(d)
    requires Hit(store, CacheKey(d), Deps(d)) ==> data == store[CacheKey(d)] && store' == store && log' == log
    requires !Hit(store, CacheKey(d), Deps(d)) ==>
      data == Str(content(FileIdOf(d))) && store' == Record(store, CacheKey(d), data, Deps(d)) && log' == log + [FileIdOf(d)]
    ensures ServedAs(store0, log0, content, descs + [d], contents + [data], store', log')
  {
    ServeAllSnoc(store0, content, descs, d);
    var t := ServeOne(store, content, d);
    ConcatAssoc(log0, ServeAll(store0, content, descs).misses, t.misses);
  }

  /**
   * The file loop of `collect`: every listed file ending in `.md` is read
   * through the cache, in listing order, and its descriptor recorded.
   */
  method ReadFiles(files: seq<string>, session: Session, drive: Drive) returns (contents: seq<Value>, allFiles: seq<string>)
    requires forall d :: d in files && EndsWith(d, ".md") ==> '|' in d
    modifies session, drive
    ensures allFiles == MdFiles(files)
    ensures ServedAs(old(session.store), old(drive.downloads), drive.content, allFiles, contents, session.store, drive.downloads)
  {
    ghost var store0, log0 := session.store, drive.downloads;
    contents, allFiles := [], [];
    var i := 0;
    while i < |files|
      invariant 0 <= i <= |files|
      invariant allFiles == MdFiles(files[..i])
      invariant ServedAs(store0, log0, drive.content, allFiles, contents, session.store, drive.downloads)
    {
      var file := files[i];
      MdFilesSnoc(files, i);
      if EndsWith(file, ".md") {
        assert file in files;
        var attribute := Split(file, '|');
        ghost var store, log := session.store, drive.downloads;
        var content := session.GetOrCache(CacheKey(file), attribute[0],
                                          Dict(map["sorted_compo_id" := Str(attribute[1])]), drive);
        ServedAsStep(store0, log0, drive.content, allFiles, contents, store, log,
                     file, content, session.store, drive.downloads);
        allFiles := allFiles + [file];
        contents := contents + [content];
      }
      i := i + 1;
    }
    assert files[..|files|] == files;
  }

  /**
   * `memo` and `files` are `memo0` and `files0` with an entry for each
   * folder in `visited`: the folder's walk, and contents of the same length.
   */
  ghost predicate RecordedAs(walks: map<string, seq<string>>, visited: set<string>,
                             memo0: map<string, seq<Value>>, files0: map<string, seq<string>>,
                             memo: map<string, seq<Value>>, files: map<string, seq<string>>)
  {
    && memo.Keys == memo0.Keys + visited
    && files.Keys == files0.Keys + visited
    && (forall g :: g in visited ==> g in walks && files[g] == walks[g] && |memo[g]| == |walks[g]|)
    && (forall g :: g in memo0 && g !in visited ==> memo[g] == memo0[g])
    && (forall g :: g in files0 && g !in visited ==> files[g] == files0[g])
  }

  lemma RecordedAsTrans(walks: map<string, seq<string>>, v1: set<string>, v2: set<string>,
                        memo0: map<string, seq<Value>>, files0: map<string, seq<string>>,
                        memo1: map<string, seq<Value>>, files1: map<string, seq<string>>,
                        memo2: map<string, seq<Value>>, files2: map<string, seq<string>>)
    requires RecordedAs(walks, v1, memo0, files0, memo1, files1)
    requires RecordedAs(walks, v2, memo1, files1, memo2, files2)
    ensures RecordedAs(walks, v1 + v2, memo0, files0, memo2, files2)
  {
    forall g | g in v1 + v2
      ensures g in walks && files2[g] == walks[g] && |memo2[g]| == |walks[g]|
    {
      if g !in v2 {
        assert g in v1 && g in memo1 && g in files1;
      }
    }
  }

  /** The last two writes of `collect`: `memo[folder] = contents; folder_all_files[folder] = all_files`. */
  lemma RecordedAsOwn(walks: map<string, seq<string>>, visited: set<string>, f: string,
                      memo0: map<string, seq<Value>>, files0: map<string, seq<string>>,
                      memo: map<string, seq<Value>>, files: map<string, seq<string>>, contents: seq<Value>)
    requires f in walks && |contents| == |walks[f]|
    requires RecordedAs(walks, visited, memo0, files0, memo, files)
    ensures RecordedAs(walks, visited + {f}, memo0, files0, memo[f := contents], files[f := walks[f]])
  {
  }

  /**
   * `collect(folder, tree, checkbox, memo, folder_all_files)`: the contents
   * and descriptors of the walk from `folder`, the session after reading
   * them in order, and `memo`/`folder_all_files` extended with every folder
   * the walk visits.
   */
  method Collect(folder: string, tree: map<string, Node>, ghost rank: map<string, nat>,
                 session: Session, drive: Drive,
                 memo: map<string, seq<Value>>, folderAllFiles: map<string, seq<string>>)
    returns (contents: seq<Value>, memo': map<string, seq<Value>>, allFiles: seq<string>,
             folderAllFiles': map<string, seq<string>>)
    requires Ranked(tree, rank) && WellFormed(tree) && folder in tree
    modifies session, drive
    decreases rank[folder]
    ensures allFiles == Preorder(tree, rank, folder)
    ensures ServedAs(old(session.store), old(drive.downloads), drive.content, allFiles, contents, session.store, drive.downloads)
    ensures RecordedAs(Walks(tree, rank), Reached(tree, rank, folder), memo, folderAllFiles, memo', folderAllFiles')
    ensures memo'[folder] == contents
    ensures old(Consistent(session.store, drive.content)) ==>
      Consistent(session.store, drive.content) &&
      forall i :: 0 <= i < |contents| ==> contents[i] == Str(drive.content(FileIdOf(allFiles[i])))
  {
    ghost var store0 := session.store;
    ghost var log0 := drive.downloads;
    contents, allFiles := ReadFiles(tree[folder].files, session, drive);
    var subs := tree[folder].subfolders;
    ghost var own := allFiles;
    ghost var walks := Walks(tree, rank);
    memo', folderAllFiles' := memo, folderAllFiles;
    var j := 0;
    while j < |subs|
      invariant 0 <= j <= |subs|
      invariant forall s :: s in subs[..j] ==> s in tree && rank[s] < rank[folder]
      invariant allFiles == own + PreorderAll(tree, rank, subs[..j], rank[folder])
      invariant ServedAs(store0, log0, drive.content, allFiles, contents, session.store, drive.downloads)
      invariant RecordedAs(walks, ReachedAll(tree, rank, subs[..j], rank[folder]), memo, folderAllFiles, memo', folderAllFiles')
    {
      PreorderAllSnoc(tree, rank, subs, j, rank[folder]);
      ghost var store1, log1, memo1, files1 := session.store, drive.downloads, memo', folderAllFiles';
      var subContents, fol;
      subContents, memo', fol, folderAllFiles' := Collect(subs[j], tree, rank, session, drive, memo', folderAllFiles');
      ServedAsAppend(store0, log0, drive.content, allFiles, contents, store1, log1, fol, subContents, session.store, drive.downloads);
      RecordedAsTrans(walks, ReachedAll(tree, rank, subs[..j], rank[folder]), Reached(tree, rank, subs[j]),
                      memo, folderAllFiles, memo1, files1, memo', folderAllFiles');
      ConcatAssoc(own, PreorderAll(tree, rank, subs[..j], rank[folder]), fol);
      contents := contents + subContents;
      allFiles := allFiles + fol;
      j := j + 1;
    }
    assert subs[..|subs|] == subs;
    assert Reached(tree, rank, folder) == ReachedAll(tree, rank, subs, rank[folder]) + {folder};
    assert walks[folder] == allFiles;
    RecordedAsOwn(walks, ReachedAll(tree, rank, subs, rank[folder]), folder, memo, folderAllFiles,
                  memo', folderAllFiles', contents);
    memo' := memo'[folder := contents];
    folderAllFiles' := folderAllFiles'[folder := allFiles];
    if Consistent(store0, drive.content) {
      ServeAllConsistent(store0, drive.content, allFiles);
      ServeAllContents(store0, drive.content, allFiles);
    }
  }

  /** `collect(folder, tree, checkbox)` without `memo`: both dictionaries start empty. */
  method CollectFresh(folder: string, tree: map<string, Node>, ghost rank: map<string, nat>,
                      session: Session, drive: Drive)
    returns (contents: seq<Value>, memo: map<string, seq<Value>>, allFiles: seq<string>,
             folderAllFiles: map<string, seq<string>>)
    requires Ranked(tree, rank) && WellFormed(tree) && folder in tree
    modifies session, drive
    ensures allFiles == Preorder(tree, rank, folder)
    ensures ServedAs(old(session.store), old(drive.downloads), drive.content, allFiles, contents, session.store, drive.downloads)
    ensures memo.Keys == Reached(tree, rank, folder) && folderAllFiles.Keys == Reached(tree, rank, folder)
    ensures forall g :: g in Reached(tree, rank, folder) ==>
      folderAllFiles[g] == Preorder(tree, rank, g) && |memo[g]| == |Preorder(tree, rank, g)|
    ensures memo[folder] == contents
    ensures old(Consistent(session.store, drive.content)) ==>
      forall i :: 0 <= i < |contents| ==> contents[i] == Str(drive.content(FileIdOf(allFiles[i])))
  {
    contents, memo, allFiles, folderAllFiles := Collect(folder, tree, rank, session, drive, map[], map[]);
  }

  /** The files a walk reads are exactly the `.md` files of the folders it visits. */
  lemma {:induction false} PreorderCovers(tree: map<string, Node>, rank: map<string, nat>, f: string)
    requires Ranked(tree, rank) && f in tree
    decreases rank[f], 1
    ensures forall d :: d in Preorder(tree, rank, f) <==>
      exists g :: g in Reached(tree, rank, f) && d in tree[g].files && EndsWith(d, ".md")
  {
    var subs := tree[f].subfolders;
    PreorderAllCovers(tree, rank, subs, rank[f]);
    forall d | d in Preorder(tree, rank, f)
      ensures exists g :: g in Reached(tree, rank, f) && d in tree[g].files && EndsWith(d, ".md")
    {
      if d in MdFiles(tree[f].files) {
        assert f in Reached(tree, rank, f) && d in tree[f].files && EndsWith(d, ".md");
      }
    }
    forall d, g | g in Reached(tree, rank, f) && d in tree[g].files && EndsWith(d, ".md")
      ensures d in Preorder(tree, rank, f)
    {
      if g == f {
        assert d in MdFiles(tree[f].files);
      } else {
        assert g in ReachedAll(tree, rank, subs, rank[f]);
      }
    }
  }

  lemma {:induction false} PreorderAllCovers(tree: map<string, Node>, rank: map<string, nat>, subs: seq<string>, bound: nat)
    requires Ranked(tree, rank)
    requires forall s :: s in subs ==> s in tree && rank[s] < bound
    decreases bound, 0, |subs|
    ensures forall d :: d in PreorderAll(tree, rank, subs, bound) <==>
      exists g :: g in ReachedAll(tree, rank, subs, bound) && d in tree[g].files && EndsWith(d, ".md")
  {
    if subs != [] {
      var pre, last := subs[..|subs| - 1], subs[|subs| - 1];
      assert forall s :: s in pre ==> s in subs;
      PreorderAllCovers(tree, rank, pre, bound);
      PreorderCovers(tree, rank, last);
    }
  }
}
