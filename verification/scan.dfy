/** What `scanRepo` and `getActiveWebhooks` compute from the upstream replies:
    the blob count, the YAML file to fetch, and the active webhooks. */
module Scan {

  import opened Wrappers
  import opened Text
  import opened Api
  import opened Model

  predicate IsBlob(e: TreeEntry) {
    e.kind == "blob"
  }

  /** A path ending in `.yml` or `.yaml`. */
  predicate IsYaml(path: string) {
    EndsWith(path, ".yml") || EndsWith(path, ".yaml")
  }

  /** The blob entries of a tree, in tree order. */
  function Blobs(tree: seq<TreeEntry>): (r: seq<TreeEntry>)
    ensures |r| <= |tree|
    decreases |tree|
  {
    if |tree| == 0 then []
    else BlobPart(tree[0]) + Blobs(tree[1..])
  }

  function BlobPart(e: TreeEntry): seq<TreeEntry> {
    if IsBlob(e) then [e] else []
  }

  /** The blobs are exactly the tree's entries of type `blob`. */
  lemma {:induction false} BlobsMembers(tree: seq<TreeEntry>)
    ensures forall e :: e in Blobs(tree) <==> e in tree && IsBlob(e)
    decreases |tree|
  {
    if |tree| > 0 {
      BlobsMembers(tree[1..]);
      assert forall e :: e in tree <==> e == tree[0] || e in tree[1..];
    }
  }

  /** The blob indices of a tree. */
  function BlobIndices(tree: seq<TreeEntry>): set<int> {
    set i | 0 <= i < |tree| && IsBlob(tree[i])
  }

  /** The file count is the number of tree positions holding a blob. */
  lemma {:induction false} BlobCount(tree: seq<TreeEntry>)
    ensures |Blobs(tree)| == |BlobIndices(tree)|
    decreases |tree|
  {
    if |tree| > 0 {
      var n := |tree| - 1;
      var prefix := tree[..n];
      BlobCount(prefix);
      assert tree == prefix + [tree[n]];
      BlobsConcat(prefix, [tree[n]]);
      assert Blobs([tree[n]]) == BlobPart(tree[n]);
      BlobIndicesLast(tree);
      var before := BlobIndices(prefix);
      var last: set<int> := if IsBlob(tree[n]) then {n} else {};
      assert |before + last| == |before| + |last|;
    }
  }

  /** The blob positions of a tree are those before its last entry, plus the
      last one if it is a blob. */
  lemma BlobIndicesLast(tree: seq<TreeEntry>)
    requires |tree| > 0
    ensures var n := |tree| - 1;
      && n !in BlobIndices(tree[..n])
      && BlobIndices(tree) == BlobIndices(tree[..n]) + (if IsBlob(tree[n]) then {n} else {})
  {
    var n := |tree| - 1;
    var prefix := tree[..n];
    forall i ensures i in BlobIndices(tree) <==> i in BlobIndices(prefix) || (i == n && IsBlob(tree[n])) {
      if 0 <= i < n {
        assert prefix[i] == tree[i];
      }
    }
  }

  /** Filtering a concatenation filters each half. */
  lemma {:induction false} BlobsConcat(a: seq<TreeEntry>, b: seq<TreeEntry>)
    ensures Blobs(a + b) == Blobs(a) + Blobs(b)
    decreases |a|
  {
    if |a| == 0 {
      assert a + b == b;
    } else {
      assert (a + b)[1..] == a[1..] + b;
      assert (a + b)[0] == a[0];
      BlobsConcat(a[1..], b);
      assert Blobs(a + b) == BlobPart(a[0]) + (Blobs(a[1..]) + Blobs(b));
      assert Blobs(a) == BlobPart(a[0]) + Blobs(a[1..]);
    }
  }

  /** `blobs.find(...)` for a YAML path: the first entry, in order, whose path
      is a YAML file name. */
  function FirstYaml(entries: seq<TreeEntry>): (r: Option<TreeEntry>)
    ensures r.None? <==> forall i :: 0 <= i < |entries| ==> !IsYaml(entries[i].path)
    ensures r.Some? ==> exists i :: 0 <= i < |entries| && entries[i] == r.value
                                   && IsYaml(r.value.path)
                                   && forall k :: 0 <= k < i ==> !IsYaml(entries[k].path)
    decreases |entries|
  {
    if |entries| == 0 then None
    else if IsYaml(entries[0].path) then Some(entries[0])
    else
      var r := FirstYaml(entries[1..]);
      assert forall i :: 1 <= i < |entries| ==> entries[i] == entries[1..][i - 1];
      r
  }

  predicate IsYamlBlob(e: TreeEntry) {
    IsBlob(e) && IsYaml(e.path)
  }

  /** The first tree entry, in tree order, that is a blob with a YAML path. */
  function FirstYamlBlob(tree: seq<TreeEntry>): (r: Option<TreeEntry>)
    ensures r.None? <==> forall i :: 0 <= i < |tree| ==> !IsYamlBlob(tree[i])
    ensures r.Some? ==> exists i :: 0 <= i < |tree| && tree[i] == r.value && IsYamlBlob(r.value)
                                   && forall k :: 0 <= k < i ==> !IsYamlBlob(tree[k])
    decreases |tree|
  {
    if |tree| == 0 then None
    else if IsYamlBlob(tree[0]) then Some(tree[0])
    else
      var r := FirstYamlBlob(tree[1..]);
      assert forall i :: 1 <= i < |tree| ==> tree[i] == tree[1..][i - 1];
      r
  }

  /** Looking for a YAML path among the blobs finds the first YAML blob of the tree. */
  lemma {:induction false} FirstYamlAmongBlobs(tree: seq<TreeEntry>)
    ensures FirstYaml(Blobs(tree)) == FirstYamlBlob(tree)
    decreases |tree|
  {
    if |tree| > 0 {
      FirstYamlAmongBlobs(tree[1..]);
      var rest := Blobs(tree[1..]);
      if IsBlob(tree[0]) {
        assert Blobs(tree) == [tree[0]] + rest;
        assert Blobs(tree)[1..] == rest;
      } else {
        assert Blobs(tree) == rest;
      }
    }
  }

  /** The fields `getActiveWebhooks` copies from a hook. */
  function Project(hook: RawHook): Webhook {
    Webhook(hook.id, hook.name, hook.active)
  }

  /** `hooks.filter(h => h.active).map(...)`. */
  function ActiveWebhooks(hooks: seq<RawHook>): (r: seq<Webhook>)
    ensures |r| <= |hooks|
    ensures forall w :: w in r ==> w.active
    ensures forall w :: w in r <==> exists h :: h in hooks && h.active && w == Project(h)
    decreases |hooks|
  {
    if |hooks| == 0 then []
    else
      var rest := ActiveWebhooks(hooks[1..]);
      assert forall h :: h in hooks <==> h == hooks[0] || h in hooks[1..];
      (if hooks[0].active then [Project(hooks[0])] else []) + rest
  }

  /** The filter keeps order: the active hooks of a concatenation are those of
      its first half followed by those of its second. */
  lemma {:induction false} ActiveWebhooksConcat(a: seq<RawHook>, b: seq<RawHook>)
    ensures ActiveWebhooks(a + b) == ActiveWebhooks(a) + ActiveWebhooks(b)
    decreases |a|
  {
    if |a| == 0 {
      assert a + b == b;
    } else {
      assert (a + b)[1..] == a[1..] + b;
      assert (a + b)[0] == a[0];
      ActiveWebhooksConcat(a[1..], b);
    }
  }

  /** A single hook is kept, projected, exactly when it is active. */
  lemma ActiveWebhooksSingle(h: RawHook)
    ensures ActiveWebhooks([h]) == if h.active then [Project(h)] else []
  {
  }

  /** An inactive hook between two lists is dropped and nothing else moves. */
  lemma InactiveHookDropped(a: seq<RawHook>, h: RawHook, b: seq<RawHook>)
    requires !h.active
    ensures ActiveWebhooks(a + [h] + b) == ActiveWebhooks(a) + ActiveWebhooks(b)
  {
    ActiveWebhooksConcat(a + [h], b);
    ActiveWebhooksConcat(a, [h]);
    ActiveWebhooksSingle(h);
  }

  /** The example of an active hook followed by an inactive one. */
  lemma ActiveWebhooksExample()
    ensures ActiveWebhooks([RawHook("1", "web", true), RawHook("2", "web", false)])
            == [Webhook("1", "web", true)]
  {
    var hooks := [RawHook("1", "web", true), RawHook("2", "web", false)];
    assert hooks == [hooks[0]] + [hooks[1]];
    ActiveWebhooksConcat([hooks[0]], [hooks[1]]);
  }
}
