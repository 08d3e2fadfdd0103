/**
 * `deep_update` and `extract_yamls`: parsed front-matter mappings are folded
 * one after the other into a single merged mapping. Nested mappings merge
 * recursively, lists are extended with the elements not yet present, and
 * every other combination is overwritten by the newer value.
 *
 * Python mutates the destination dictionary in place; here every operation
 * returns the updated mapping instead (see README, "Left out").
 */
module DeepMerge {
  import opened Wrappers
  import opened Values

  /**
   * `xs.extend(x for x in v if x not in xs)`: the generator is evaluated
   * lazily, so an element appended earlier in the same call also counts as
   * present.
   */
  function ExtendUnique<T(==)>(xs: seq<T>, v: seq<T>): (r: seq<T>)
    decreases |v|
    ensures |xs| <= |r| && r[..|xs|] == xs
  {
    if v == [] then xs
    else ExtendUnique(if v[0] in xs then xs else xs + [v[0]], v[1..])
  }

  /** Every element of `v` ends up in the list, and nothing else is added. */
  lemma {:induction false} ExtendUniqueElements<T>(xs: seq<T>, v: seq<T>)
    ensures forall x :: x in ExtendUnique(xs, v) <==> x in xs || x in v
    decreases |v|
  {
    if v != [] {
      var next := if v[0] in xs then xs else xs + [v[0]];
      ExtendUniqueElements(next, v[1..]);
      assert forall x :: x in v <==> x == v[0] || x in v[1..];
    }
  }

  /** The merged list has no duplicates when the original has none. */
  lemma {:induction false} ExtendUniqueNoDup<T>(xs: seq<T>, v: seq<T>)
    requires NoDup(xs)
    ensures NoDup(ExtendUnique(xs, v))
    decreases |v|
  {
    if v != [] {
      var next := if v[0] in xs then xs else xs + [v[0]];
      assert NoDup(next);
      ExtendUniqueNoDup(next, v[1..]);
    }
  }

  /** The appended elements come from `v`, in `v`'s order. */
  lemma {:induction false} ExtendUniqueOrder<T>(xs: seq<T>, v: seq<T>)
    ensures IsSubsequence(ExtendUnique(xs, v)[|xs|..], v)
    decreases |v|
  {
    var r := ExtendUnique(xs, v);
    if v == [] {
      assert r[|xs|..] == [];
    } else if v[0] in xs {
      ExtendUniqueOrder(xs, v[1..]);
      SubsequenceOfTail(r[|xs|..], v);
    } else {
      var next := xs + [v[0]];
      ExtendUniqueOrder(next, v[1..]);
      var tail := r[|next|..];
      assert r[..|next|] == next;
      assert r[|xs|..] == [v[0]] + tail;
      assert IsSubsequence(tail, v[1..]);
      SubsequenceCons(v[0], tail, v);
    }
  }

  lemma SubsequenceCons<T>(x: T, a: seq<T>, b: seq<T>)
    requires b != [] && b[0] == x && IsSubsequence(a, b[1..])
    ensures IsSubsequence([x] + a, b)
  {
    assert ([x] + a)[1..] == a;
  }

  /** No appended element was already in the list. */
  lemma {:induction false} ExtendUniqueFresh<T>(xs: seq<T>, v: seq<T>)
    ensures forall k :: |xs| <= k < |ExtendUnique(xs, v)| ==> ExtendUnique(xs, v)[k] !in xs
    decreases |v|
  {
    if v != [] && v[0] !in xs {
      var next := xs + [v[0]];
      var r := ExtendUnique(xs, v);
      ExtendUniqueFresh(next, v[1..]);
      assert r[..|next|] == next;
      forall k | |xs| <= k < |r| ensures r[k] !in xs {
        if k == |xs| {
          assert r[k] == next[|xs|];
        } else {
          assert r[k] !in next;
        }
      }
    } else if v != [] {
      ExtendUniqueFresh(xs, v[1..]);
    }
  }

  lemma SubsequenceOfTail<T>(a: seq<T>, b: seq<T>)
    requires b != [] && IsSubsequence(a, b[1..])
    ensures IsSubsequence(a, b)
  {
  }

  /** Extending a list by elements it already holds changes nothing. */
  lemma {:induction false} ExtendUniqueKnown<T>(xs: seq<T>, v: seq<T>)
    requires forall x :: x in v ==> x in xs
    ensures ExtendUnique(xs, v) == xs
    decreases |v|
  {
    if v != [] {
      ExtendUniqueKnown(xs, v[1..]);
    }
  }

  /** The list branch of `deep_update`, element by element as `extend` consumes the generator. */
  method ExtendList<T(==)>(xs: seq<T>, v: seq<T>) returns (r: seq<T>)
    ensures r == ExtendUnique(xs, v)
  {
    r := xs;
    var i := 0;
    while i < |v|
      invariant 0 <= i <= |v|
      invariant ExtendUnique(xs, v) == ExtendUnique(r, v[i..])
    {
      assert v[i..][1..] == v[i + 1..];
      if v[i] !in r {
        r := r + [v[i]];
      }
      i := i + 1;
    }
    assert v[i..] == [];
  }

  /** What `deep_update` leaves at a key that both mappings hold. */
  function MergeValue(dv: Value, uv: Value): Value
    decreases uv, 1
  {
    if dv.Dict? && uv.Dict? then Dict(Merge(dv.entries, uv.entries))
    else if dv.List? && uv.List? then List(ExtendUnique(dv.items, uv.items))
    else uv
  }

  /** The mapping `deep_update(d, u)` leaves behind. */
  function Merge(d: map<string, Value>, u: map<string, Value>): map<string, Value>
    decreases Dict(u), 0
  {
    map k | k in d.Keys + u.Keys ::
      if k !in u then d[k]
      else if k in d then MergeValue(d[k], u[k])
      else u[k]
  }

  /**
   * `deep_update(d, u)`: the keys of `u` are visited one at a time; the
   * order does not matter, as each key is written once.
   */
  method DeepUpdate(d: map<string, Value>, u: map<string, Value>) returns (r: map<string, Value>)
    ensures r == Merge(d, u)
    decreases Dict(u), 1
  {
    r := d;
    var todo := u.Keys;
    while todo != {}
      invariant MergedExcept(d, u, todo, r)
      decreases todo
    {
      var k :| k in todo;
      MergedStep(d, u, todo, r, k);
      r := UpdateKey(r, k, u[k]);
      todo := todo - {k};
    }
    MergedDone(d, u, r);
  }

  /** The loop's state: every key of `u` outside `todo` is merged, the others are as in `d`. */
  ghost predicate MergedExcept(d: map<string, Value>, u: map<string, Value>, todo: set<string>, r: map<string, Value>)
  {
    todo <= u.Keys
    && r.Keys == d.Keys + (u.Keys - todo)
    && (forall k :: k in r && k !in todo ==> r[k] == Merge(d, u)[k])
    && (forall k :: k in todo && k in d ==> r[k] == d[k])
  }

  lemma MergedStep(d: map<string, Value>, u: map<string, Value>, todo: set<string>, r: map<string, Value>, k: string)
    requires MergedExcept(d, u, todo, r) && k in todo
    ensures MergedExcept(d, u, todo - {k}, r[k := if k in r then MergeValue(r[k], u[k]) else u[k]])
  {
    MergeAt(d, u, k);
  }

  lemma MergedDone(d: map<string, Value>, u: map<string, Value>, r: map<string, Value>)
    requires MergedExcept(d, u, {}, r)
    ensures r == Merge(d, u)
  {
  }

  /** The body of the loop of `deep_update` for one key `k` with new value `v`. */
  method UpdateKey(r: map<string, Value>, k: string, v: Value) returns (r': map<string, Value>)
    ensures r' == r[k := if k in r then MergeValue(r[k], v) else v]
    decreases v, 2
  {
    if k in r {
      var dv := r[k];
      if dv.Dict? && v.Dict? {
        assert Dict(v.entries) == v;
        var m := DeepUpdate(dv.entries, v.entries);
        r' := r[k := Dict(m)];
      } else if dv.List? && v.List? {
        var l := ExtendList(dv.items, v.items);
        r' := r[k := List(l)];
      } else {
        r' := r[k := v];
      }
    } else {
      r' := r[k := v];
    }
  }

  /** What `deep_update` leaves at a key of `u`. */
  lemma MergeAt(d: map<string, Value>, u: map<string, Value>, k: string)
    requires k in u
    ensures k in Merge(d, u)
    ensures Merge(d, u)[k] == if k in d then MergeValue(d[k], u[k]) else u[k]
  {
  }

  /**
   * The merged mapping holds the keys of both; a key only in `d` keeps its
   * value, a key only in `u` takes `u`'s; at a shared key two mappings merge
   * recursively, two lists are extended, and anything else is overwritten.
   */
  lemma MergeCases(d: map<string, Value>, u: map<string, Value>)
    ensures Merge(d, u).Keys == d.Keys + u.Keys
    ensures forall k :: k in d && k !in u ==> Merge(d, u)[k] == d[k]
    ensures forall k :: k in u && k !in d ==> Merge(d, u)[k] == u[k]
    ensures forall k :: k in d && k in u && d[k].Dict? && u[k].Dict? ==>
      Merge(d, u)[k] == Dict(Merge(d[k].entries, u[k].entries))
    ensures forall k :: k in d && k in u && d[k].List? && u[k].List? ==>
      Merge(d, u)[k] == List(ExtendUnique(d[k].items, u[k].items))
    ensures forall k :: k in d && k in u && !(d[k].Dict? && u[k].Dict?) && !(d[k].List? && u[k].List?) ==>
      Merge(d, u)[k] == u[k]
  {
  }

  /** Merging the empty mapping changes nothing, and merging into the empty mapping copies. */
  lemma MergeEmpty(d: map<string, Value>)
    ensures Merge(d, map[]) == d
    ensures Merge(map[], d) == d
  {
  }

  /** A value merged with itself is itself. */
  lemma {:induction false} MergeValueSelf(v: Value)
    ensures MergeValue(v, v) == v
    decreases v, 1
  {
    match v
    case Dict(m) => MergeSelf(m);
    case List(xs) => ExtendUniqueKnown(xs, xs);
    case _ =>
  }

  /** A mapping merged with itself is itself. */
  lemma {:induction false} MergeSelf(d: map<string, Value>)
    ensures Merge(d, d) == d
    decreases Dict(d), 0
  {
    forall k | k in d ensures Merge(d, d)[k] == d[k] {
      MergeValueSelf(d[k]);
    }
  }

  /** Merging the same value twice is the same as merging it once. */
  lemma {:induction false} MergeValueTwice(dv: Value, uv: Value)
    ensures MergeValue(MergeValue(dv, uv), uv) == MergeValue(dv, uv)
    decreases uv, 1
  {
    if dv.Dict? && uv.Dict? {
      MergeTwice(dv.entries, uv.entries);
    } else if dv.List? && uv.List? {
      ExtendUniqueElements(dv.items, uv.items);
      ExtendUniqueKnown(ExtendUnique(dv.items, uv.items), uv.items);
    } else {
      MergeValueSelf(uv);
    }
  }

  /** `deep_update` is idempotent: re-applying the same source changes nothing more. */
  lemma {:induction false} MergeTwice(d: map<string, Value>, u: map<string, Value>)
    ensures Merge(Merge(d, u), u) == Merge(d, u)
    decreases Dict(u), 0
  {
    var m := Merge(d, u);
    forall k | k in m ensures Merge(m, u)[k] == m[k] {
      if k in u {
        if k in d {
          MergeValueTwice(d[k], u[k]);
        } else {
          MergeValueSelf(u[k]);
        }
      }
    }
  }

  /** `deepMerge({a:1, b:[1,2]}, {a:2, b:[2,3], c:5}) == {a:2, b:[1,2,3], c:5}`. */
  lemma MergeExample()
    ensures Merge(map["a" := Int(1), "b" := List([Int(1), Int(2)])],
                  map["a" := Int(2), "b" := List([Int(2), Int(3)]), "c" := Int(5)])
         == map["a" := Int(2), "b" := List([Int(1), Int(2), Int(3)]), "c" := Int(5)]
  {
    var xs := [Int(1), Int(2)];
    var v := [Int(2), Int(3)];
    assert ExtendUnique(xs, v) == [Int(1), Int(2), Int(3)] by {
      assert v[0] in xs;
      assert v[1..] == [Int(3)];
      assert ExtendUnique(xs, [Int(3)]) == xs + [Int(3)];
    }
  }

  /**
   * `extract_yaml` with the YAML reading left abstract: `frontMatter(text)`
   * is the parsed front matter, or `None` when there is no `---` block or
   * the block does not parse. `data or {}` turns a falsy document into `{}`.
   */
  function ExtractYaml(frontMatter: string -> Option<Value>, text: string): (v: Value)
    ensures frontMatter(text).Some? && Truthy(frontMatter(text).value) ==> v == frontMatter(text).value
    ensures frontMatter(text).None? || !Truthy(frontMatter(text).value) ==> v == Dict(map[])
  {
    match frontMatter(text)
    case None => Dict(map[])
    case Some(data) => if Truthy(data) then data else Dict(map[])
  }

  /**
   * One step of `extract_yamls`: a falsy document is skipped; a truthy
   * mapping is merged; any other truthy document makes `deep_update` fail
   * on `.items()`; the error carries that document.
   */
  function Absorb(merged: map<string, Value>, doc: Value): Result<map<string, Value>, Value>
  {
    if !Truthy(doc) then Ok(merged)
    else if doc.Dict? then Ok(Merge(merged, doc.entries))
    else Err(doc)
  }

  /** `extract_yamls(datas)`: the left fold of `Absorb` over the documents, from `{}`. */
  function Aggregate(frontMatter: string -> Option<Value>, datas: seq<string>): Result<map<string, Value>, Value>
    decreases |datas|
  {
    if datas == [] then Ok(map[])
    else
      match Aggregate(frontMatter, datas[..|datas| - 1])
      case Err(doc) => Err(doc)
      case Ok(merged) => Absorb(merged, ExtractYaml(frontMatter, datas[|datas| - 1]))
  }

  /** Once a document has failed, the later ones do not matter. */
  lemma {:induction false} AggregateErrSticks(frontMatter: string -> Option<Value>, datas: seq<string>, n: nat)
    requires n <= |datas| && Aggregate(frontMatter, datas[..n]).Err?
    ensures Aggregate(frontMatter, datas) == Aggregate(frontMatter, datas[..n])
    decreases |datas| - n
  {
    if n < |datas| {
      var init := datas[..|datas| - 1];
      assert init[..n] == datas[..n];
      AggregateErrSticks(frontMatter, init, n);
    } else {
      assert datas[..n] == datas;
    }
  }

  /** `extract_yamls`, one document after the other. */
  method ExtractYamls(frontMatter: string -> Option<Value>, datas: seq<string>)
    returns (r: Result<map<string, Value>, Value>)
    ensures r == Aggregate(frontMatter, datas)
  {
    var merged: map<string, Value> := map[];
    var i := 0;
    while i < |datas|
      invariant 0 <= i <= |datas|
      invariant Aggregate(frontMatter, datas[..i]) == Ok(merged)
    {
      assert datas[..i + 1][..i] == datas[..i];
      var data := ExtractYaml(frontMatter, datas[i]);
      if Truthy(data) {
        if !data.Dict? {
          assert datas[..i + 1][i] == datas[i];
          AggregateErrSticks(frontMatter, datas, i + 1);
          return Err(data);
        }
        merged := DeepUpdate(merged, data.entries);
      }
      i := i + 1;
    }
    assert datas[..i] == datas;
    r := Ok(merged);
  }

  /** A document that makes `deep_update` fail: truthy but not a mapping. */
  predicate Breaks(frontMatter: string -> Option<Value>, text: string)
  {
    !ExtractYaml(frontMatter, text).Dict?
  }

  /** The fold fails exactly when some document is truthy but not a mapping, and reports the first one. */
  lemma {:induction false} AggregateFails(frontMatter: string -> Option<Value>, datas: seq<string>)
    ensures Aggregate(frontMatter, datas).Ok? <==> forall i :: 0 <= i < |datas| ==> !Breaks(frontMatter, datas[i])
    ensures Aggregate(frontMatter, datas).Err? ==>
      exists at :: 0 <= at < |datas| && Breaks(frontMatter, datas[at])
        && Aggregate(frontMatter, datas).error == ExtractYaml(frontMatter, datas[at])
        && forall i :: 0 <= i < at ==> !Breaks(frontMatter, datas[i])
    decreases |datas|
  {
    if datas != [] {
      var init := datas[..|datas| - 1];
      AggregateFails(frontMatter, init);
      assert forall i :: 0 <= i < |init| ==> init[i] == datas[i];
    }
  }

  /** The keys of the merged mapping are the keys of all the documents' mappings. */
  lemma {:induction false} AggregateKeys(frontMatter: string -> Option<Value>, datas: seq<string>)
    requires Aggregate(frontMatter, datas).Ok?
    ensures forall k :: k in Aggregate(frontMatter, datas).value <==>
      exists i :: 0 <= i < |datas| && ExtractYaml(frontMatter, datas[i]).Dict?
                  && k in ExtractYaml(frontMatter, datas[i]).entries
    decreases |datas|
  {
    if datas != [] {
      var init := datas[..|datas| - 1];
      AggregateKeys(frontMatter, init);
      var last := ExtractYaml(frontMatter, datas[|datas| - 1]);
      forall k ensures k in Aggregate(frontMatter, datas).value <==>
        exists i :: 0 <= i < |datas| && ExtractYaml(frontMatter, datas[i]).Dict?
                    && k in ExtractYaml(frontMatter, datas[i]).entries
      {
        if k in Aggregate(frontMatter, datas).value {
          if k in Aggregate(frontMatter, init).value {
            var i :| 0 <= i < |init| && ExtractYaml(frontMatter, init[i]).Dict?
                     && k in ExtractYaml(frontMatter, init[i]).entries;
            assert init[i] == datas[i];
          } else {
            assert ExtractYaml(frontMatter, datas[|datas| - 1]).Dict?;
          }
        } else {
          forall i | 0 <= i < |datas| && ExtractYaml(frontMatter, datas[i]).Dict?
            ensures k !in ExtractYaml(frontMatter, datas[i]).entries
          {
            if i < |init| {
              assert init[i] == datas[i];
            }
          }
        }
      }
    }
  }

  /** A document whose extraction is empty (no block, a parse error, a falsy value) can be dropped. */
  lemma {:induction false} EmptyDocumentIgnored(frontMatter: string -> Option<Value>, a: seq<string>, x: string, b: seq<string>)
    requires !Truthy(ExtractYaml(frontMatter, x))
    ensures Aggregate(frontMatter, a + [x] + b) == Aggregate(frontMatter, a + b)
    decreases |b|
  {
    if b == [] {
      assert (a + [x] + b)[..|a|] == a;
      assert a + b == a;
    } else {
      var b' := b[..|b| - 1];
      EmptyDocumentIgnored(frontMatter, a, x, b');
      assert (a + [x] + b)[..|a + [x] + b| - 1] == a + [x] + b';
      assert (a + b)[..|a + b| - 1] == a + b';
      assert (a + [x] + b)[|a + [x] + b| - 1] == (a + b)[|a + b| - 1];
    }
  }

  /** Aggregating the same document a second time in a row changes nothing. */
  lemma RepeatedDocumentIgnored(frontMatter: string -> Option<Value>, a: seq<string>, x: string)
    ensures Aggregate(frontMatter, a + [x, x]) == Aggregate(frontMatter, a + [x])
  {
    assert (a + [x, x])[..|a| + 1] == a + [x];
    assert (a + [x])[..|a|] == a;
    var doc := ExtractYaml(frontMatter, x);
    if Aggregate(frontMatter, a).Ok? && doc.Dict? {
      MergeTwice(Aggregate(frontMatter, a).value, doc.entries);
    }
  }
}
