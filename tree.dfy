/** The title tree: template names split at `/` into path segments, gathered in a trie
    and listed in pre-order with their depth (src/parser.rs, build_tree_items and
    TreeNode). */
module Tree {
  import opened Models
  import opened Str

  /** The path segments of pieces of a name: each trimmed, the blank ones dropped. */
  function NonBlank(parts: seq<string>): (r: seq<string>)
    requires forall k :: 0 <= k < |parts| ==> '/' !in parts[k]
    ensures forall k :: 0 <= k < |r| ==> IsSegment(r[k])
    decreases |parts|
  {
    if parts == [] then []
    else
      var s := Trim(parts[0]);
      var tail := NonBlank(parts[1..]);
      if s == [] then tail else [s] + tail
  }

  /** What a path segment is: not empty, trimmed, free of `/`. */
  predicate IsSegment(s: string)
  {
    s != [] && IsTrimmed(s) && '/' !in s
  }

  /** The path of a template name: `name.split('/')`, each piece trimmed, blanks dropped. */
  function Segments(name: string): (r: seq<string>)
    ensures forall k :: 0 <= k < |r| ==> IsSegment(r[k])
  {
    NonBlank(Split(name, '/'))
  }

  /** The segments of pieces that are all segments already are those pieces. */
  lemma {:induction false} NonBlankKeepsSegments(parts: seq<string>)
    requires forall k :: 0 <= k < |parts| ==> '/' !in parts[k] && IsSegment(parts[k])
    ensures NonBlank(parts) == parts
    decreases |parts|
  {
    if parts != [] {
      NonBlankKeepsSegments(parts[1..]);
      assert [parts[0]] + parts[1..] == parts;
    }
  }

  /** No piece holds a `/`. */
  predicate SlashFree(pieces: seq<string>)
  {
    forall k :: 0 <= k < |pieces| ==> '/' !in pieces[k]
  }

  lemma SlashFreeAppend(a: seq<string>, b: seq<string>)
    requires SlashFree(a) && SlashFree(b)
    ensures SlashFree(a + b)
  {
    forall k | 0 <= k < |a + b| ensures '/' !in (a + b)[k] {
      if k >= |a| {
        assert (a + b)[k] == b[k - |a|];
      }
    }
  }

  /** Blank pieces are dropped wherever they are. */
  lemma {:induction false} NonBlankAppend(a: seq<string>, b: seq<string>)
    requires SlashFree(a) && SlashFree(b)
    ensures SlashFree(a + b)
    ensures NonBlank(a + b) == NonBlank(a) + NonBlank(b)
    decreases |a|
  {
    SlashFreeAppend(a, b);
    if a == [] {
      assert a + b == b;
    } else {
      assert (a + b)[0] == a[0] && (a + b)[1..] == a[1..] + b;
      assert SlashFree(a[1..]);
      NonBlankAppend(a[1..], b);
    }
  }

  /** The path of a name built from segments joined by `/` is those segments. */
  lemma SegmentsJoin(parts: seq<string>)
    requires forall k :: 0 <= k < |parts| ==> IsSegment(parts[k])
    ensures Segments(JoinWith(parts, '/')) == parts
  {
    if parts == [] {
      assert Split([], '/') == [[]];
    } else {
      assert SlashFree(parts);
      SegmentsOfPieces(parts);
      NonBlankKeepsSegments(parts);
    }
  }

  /** The path of a name is the non-blank pieces between its slashes, each trimmed. */
  lemma SegmentsOfPieces(pieces: seq<string>)
    requires pieces != [] && SlashFree(pieces)
    ensures Segments(JoinWith(pieces, '/')) == NonBlank(pieces)
  {
    JoinSplit(pieces, '/');
  }

  /** A blank piece between slashes (`A//B`, `A/ /B`) does not change the path. */
  lemma BlankPieceIgnored(a: seq<string>, blank: string, b: seq<string>)
    requires SlashFree(a) && SlashFree(b)
    requires AllWhitespace(blank)
    ensures Segments(JoinWith(a + [blank] + b, '/')) == Segments(JoinWith(a + b, '/'))
  {
    SegmentsWithBlank(a, blank, b);
    SegmentsOfBoth(a, b);
  }

  lemma SegmentsWithBlank(a: seq<string>, blank: string, b: seq<string>)
    requires SlashFree(a) && SlashFree(b)
    requires AllWhitespace(blank)
    ensures SlashFree(a + [blank] + b)
    ensures Segments(JoinWith(a + [blank] + b, '/')) == NonBlank(a) + NonBlank(b)
  {
    NonBlankDropsBlank(a, blank, b);
    SegmentsOfPieces(a + [blank] + b);
    NonBlankAppend(a, b);
  }

  lemma SegmentsOfBoth(a: seq<string>, b: seq<string>)
    requires SlashFree(a) && SlashFree(b)
    ensures Segments(JoinWith(a + b, '/')) == NonBlank(a) + NonBlank(b)
  {
    NonBlankAppend(a, b);
    if a + b == [] {
      assert a == [] && b == [];
      assert Split([], '/') == [[]];
    } else {
      SegmentsOfPieces(a + b);
    }
  }


  lemma NonBlankDropsBlank(a: seq<string>, blank: string, b: seq<string>)
    requires SlashFree(a) && SlashFree(b)
    requires AllWhitespace(blank)
    ensures SlashFree(a + [blank] + b)
    ensures NonBlank(a + [blank] + b) == NonBlank(a + b)
  {
    BlankFirst(blank, b);
    NonBlankAppend(a, [blank] + b);
    NonBlankAppend(a, b);
    Regroup(a, blank, b);
  }

  lemma Regroup(a: seq<string>, x: string, b: seq<string>)
    ensures a + [x] + b == a + ([x] + b)
  {
  }

  /** A blank first piece is dropped. */
  lemma BlankFirst(blank: string, b: seq<string>)
    requires SlashFree(b) && AllWhitespace(blank)
    ensures SlashFree([blank] + b)
    ensures NonBlank([blank] + b) == NonBlank(b)
  {
    var tail := [blank] + b;
    assert '/' !in blank;
    assert Trim(blank) == [];
    assert tail[1..] == b && tail[0] == blank;
    assert SlashFree(tail) by {
      forall k | 0 <= k < |tail| ensures '/' !in tail[k] {
        if k > 0 {
          assert tail[k] == b[k - 1];
        }
      }
    }
  }

  /** A trie node: its segment, the template addressed by its path (the last one
      inserted there), and its children in the order they were first created. */
  datatype TreeNode = TreeNode(name: string, templateIndex: Option<nat>, children: seq<TreeNode>)

  /** `TreeNode::new`: a node with no template and no children. */
  function NewNode(name: string): TreeNode
  {
    TreeNode(name, None, [])
  }

  /** Where the first child named `name` sits; `|children|` when there is none. */
  function ChildIndex(children: seq<TreeNode>, name: string): (r: nat)
    ensures r <= |children|
    ensures r < |children| ==> children[r].name == name
    decreases |children|
  {
    if children == [] then 0
    else if children[0].name == name then 0
    else 1 + ChildIndex(children[1..], name)
  }

  /** `TreeNode::insert`: records `index` at the node the path `parts` leads to,
      creating the missing nodes on the way as new last children. */
  function Insert(node: TreeNode, parts: seq<string>, index: nat): TreeNode
    decreases |parts|
  {
    if parts == [] then node.(templateIndex := Some(index))
    else
      var k := ChildIndex(node.children, parts[0]);
      if k < |node.children| then
        node.(children := node.children[k := Insert(node.children[k], parts[1..], index)])
      else
        node.(children := node.children + [Insert(NewNode(parts[0]), parts[1..], index)])
  }

  /** The template recorded at the end of `path`, following the first child with each
      segment's name; None when the path leads nowhere or to a bare folder. */
  function Lookup(node: TreeNode, path: seq<string>): Option<nat>
    decreases |path|
  {
    if path == [] then node.templateIndex
    else
      var k := ChildIndex(node.children, path[0]);
      if k < |node.children| then Lookup(node.children[k], path[1..]) else None
  }

  /** The node at the end of `path`, following the first child with each segment's name;
      None when the path leads nowhere. */
  function Subtree(node: TreeNode, path: seq<string>): Option<TreeNode>
    decreases |path|
  {
    if path == [] then Some(node)
    else
      var k := ChildIndex(node.children, path[0]);
      if k < |node.children| then Subtree(node.children[k], path[1..]) else None
  }

  /** A lookup reads the template recorded at the node the path leads to. */
  lemma {:induction false} SubtreeLookup(node: TreeNode, path: seq<string>)
    ensures Lookup(node, path) == if Subtree(node, path).Some? then Subtree(node, path).value.templateIndex else None
    decreases |path|
  {
    if path != [] {
      var k := ChildIndex(node.children, path[0]);
      if k < |node.children| {
        SubtreeLookup(node.children[k], path[1..]);
      }
    }
  }

  /** `q` is where `p` starts. */
  predicate IsPrefix(q: seq<string>, p: seq<string>)
  {
    |q| <= |p| && p[..|q|] == q
  }

  lemma PrefixStep(q: seq<string>, p: seq<string>)
    requires q != [] && p != []
    ensures IsPrefix(q, p) <==> q[0] == p[0] && IsPrefix(q[1..], p[1..])
  {
    if |q| <= |p| {
      assert p[..|q|] == [p[0]] + p[1..][..|q| - 1];
      assert q == [q[0]] + q[1..];
    }
  }

  /** The names of a list of children, in order. */
  function Names(children: seq<TreeNode>): seq<string>
  {
    seq(|children|, k requires 0 <= k < |children| => children[k].name)
  }

  /** Only the names decide which child is found. */
  lemma {:induction false} ChildIndexByNames(a: seq<TreeNode>, b: seq<TreeNode>, name: string)
    requires Names(a) == Names(b)
    ensures ChildIndex(a, name) == ChildIndex(b, name)
    decreases |a|
  {
    assert |a| == |Names(a)| == |Names(b)| == |b|;
    if a != [] {
      assert a[0].name == Names(a)[0] == Names(b)[0] == b[0].name;
      assert Names(a[1..]) == Names(a)[1..];
      assert Names(b[1..]) == Names(b)[1..];
      ChildIndexByNames(a[1..], b[1..], name);
    }
  }

  /** A child appended at the end is found only when no earlier child has its name. */
  lemma {:induction false} ChildIndexSnoc(a: seq<TreeNode>, x: TreeNode, name: string)
    ensures ChildIndex(a + [x], name)
         == if ChildIndex(a, name) < |a| then ChildIndex(a, name)
            else if x.name == name then |a| else |a| + 1
    decreases |a|
  {
    if a == [] {
      assert [] + [x] == [x];
    } else {
      assert (a + [x])[1..] == a[1..] + [x];
      ChildIndexSnoc(a[1..], x, name);
    }
  }

  /** Inserting never renames a node. */
  lemma InsertKeepsName(node: TreeNode, parts: seq<string>, index: nat)
    ensures Insert(node, parts, index).name == node.name
  {
  }

  /** Siblings keep their first-insertion order: an insertion leaves the children's
      names as they were, or adds the new segment after all of them. */
  lemma InsertKeepsSiblingOrder(node: TreeNode, parts: seq<string>, index: nat)
    ensures var after := Names(Insert(node, parts, index).children);
      if parts == [] || ChildIndex(node.children, parts[0]) < |node.children|
      then after == Names(node.children)
      else after == Names(node.children) + [parts[0]]
  {
    if parts != [] {
      var cs := node.children;
      var k := ChildIndex(cs, parts[0]);
      var cs' := Insert(node, parts, index).children;
      if k < |cs| {
        InsertKeepsName(cs[k], parts[1..], index);
        assert Names(cs') == Names(cs);
      } else {
        InsertKeepsName(NewNode(parts[0]), parts[1..], index);
        assert Names(cs') == Names(cs) + [parts[0]];
      }
    }
  }

  /** A fresh node records nothing below it. */
  lemma NewNodeLooksUpNothing(name: string, path: seq<string>)
    ensures Lookup(NewNode(name), path) == None
  {
  }

  /** The trie is a map from paths to template indices: after inserting `index` at
      `parts`, the path `parts` leads to `index` (overwriting what was there) and every
      other path leads where it did before. */
  lemma {:induction false} InsertLookup(node: TreeNode, parts: seq<string>, index: nat, path: seq<string>)
    ensures Lookup(Insert(node, parts, index), path) == if path == parts then Some(index) else Lookup(node, path)
    decreases |parts|
  {
    var after := Insert(node, parts, index);
    if parts == [] {
      if path != [] {
        assert after.children == node.children;
      }
    } else if path != [] {
      var cs := node.children;
      var k := ChildIndex(cs, parts[0]);
      var j := ChildIndex(cs, path[0]);
      InsertKeepsSiblingOrder(node, parts, index);
      if k < |cs| {
        ChildIndexByNames(after.children, cs, path[0]);
        if j == k {
          InsertLookup(cs[k], parts[1..], index, path[1..]);
          assert path == parts <==> path[1..] == parts[1..];
        } else {
          assert path != parts;
        }
      } else {
        var added := Insert(NewNode(parts[0]), parts[1..], index);
        assert after.children == cs + [added];
        ChildIndexSnoc(cs, added, path[0]);
        InsertKeepsName(NewNode(parts[0]), parts[1..], index);
        if path[0] == parts[0] {
          assert j == |cs|;
          InsertLookup(NewNode(parts[0]), parts[1..], index, path[1..]);
          NewNodeLooksUpNothing(parts[0], path[1..]);
          assert path == parts <==> path[1..] == parts[1..];
        } else {
          assert path != parts;
          if j < |cs| {
            assert after.children[j] == cs[j];
          }
        }
      }
    }
  }

  /** After inserting at `parts`, a path leads to a node exactly when it did before or it
      is a start of `parts`: insertion creates the missing nodes of its path and no other. */
  lemma {:induction false} InsertSubtree(node: TreeNode, parts: seq<string>, index: nat, path: seq<string>)
    ensures Subtree(Insert(node, parts, index), path).Some? <==> Subtree(node, path).Some? || IsPrefix(path, parts)
    decreases |parts|
  {
    var after := Insert(node, parts, index);
    if parts == [] {
      if path != [] {
        assert after.children == node.children;
      }
    } else if path != [] {
      PrefixStep(path, parts);
      var cs := node.children;
      var k := ChildIndex(cs, parts[0]);
      var j := ChildIndex(cs, path[0]);
      InsertKeepsSiblingOrder(node, parts, index);
      if k < |cs| {
        ChildIndexByNames(after.children, cs, path[0]);
        if j == k {
          InsertSubtree(cs[k], parts[1..], index, path[1..]);
        }
      } else {
        var added := Insert(NewNode(parts[0]), parts[1..], index);
        assert after.children == cs + [added];
        ChildIndexSnoc(cs, added, path[0]);
        InsertKeepsName(NewNode(parts[0]), parts[1..], index);
        if path[0] == parts[0] {
          assert j == |cs|;
          InsertSubtree(NewNode(parts[0]), parts[1..], index, path[1..]);
          assert path[1..] != [] ==> Subtree(NewNode(parts[0]), path[1..]) == None;
        } else if j < |cs| {
          assert after.children[j] == cs[j];
        }
      }
    }
  }

  /** The items for the children of `node` from the `i`-th on, each child followed by its
      own subtree one level deeper. */
  function FlattenFrom(node: TreeNode, i: nat, depth: nat): seq<TreeItem>
    requires i <= |node.children|
    decreases node, |node.children| - i
  {
    if i == |node.children| then []
    else
      var child := node.children[i];
      [TreeItem(child.name, depth, child.templateIndex)] + FlattenFrom(child, 0, depth + 1) + FlattenFrom(node, i + 1, depth)
  }

  /** `TreeNode::flatten`: the pre-order listing of the nodes below `node`. */
  function Flatten(node: TreeNode, depth: nat): seq<TreeItem>
  {
    FlattenFrom(node, 0, depth)
  }

  /** `TreeNode::flatten` with its accumulator: appends the listing of the nodes below
      `node` to `items`. */
  method FlattenInto(node: TreeNode, depth: nat, items: seq<TreeItem>) returns (out: seq<TreeItem>)
    ensures out == items + Flatten(node, depth)
    decreases node
  {
    out := items;
    for i := 0 to |node.children|
      invariant out + FlattenFrom(node, i, depth) == items + Flatten(node, depth)
    {
      var child := node.children[i];
      out := out + [TreeItem(child.name, depth, child.templateIndex)];
      out := FlattenInto(child, depth + 1, out);
    }
  }

  /** The path a template is filed under: the non-blank segments of its name. */
  function PathOf(t: Template): seq<string>
  {
    Segments(t.name)
  }

  /** The path of each template, in order. */
  function PathsOf(templates: seq<Template>): (paths: seq<seq<string>>)
    ensures |paths| == |templates|
  {
    PathsBy(templates, PathOf)
  }

  /** `pathOf` applied to each template, in order. */
  function PathsBy(templates: seq<Template>, pathOf: Template -> seq<string>): (paths: seq<seq<string>>)
    ensures |paths| == |templates|
    decreases |templates|
  {
    if templates == [] then []
    else PathsBy(templates[..|templates| - 1], pathOf) + [pathOf(templates[|templates| - 1])]
  }

  /** The `i`-th path is the `i`-th template's. */
  lemma {:induction false} PathsByAt(templates: seq<Template>, pathOf: Template -> seq<string>, i: nat)
    requires i < |templates|
    ensures PathsBy(templates, pathOf)[i] == pathOf(templates[i])
    decreases |templates|
  {
    var n := |templates| - 1;
    if i < n {
      PathsByAt(templates[..n], pathOf, i);
    }
  }

  /** Appending a template appends its path. */
  lemma PathsBySnoc(templates: seq<Template>, pathOf: Template -> seq<string>, t: Template)
    ensures PathsBy(templates + [t], pathOf) == PathsBy(templates, pathOf) + [pathOf(t)]
  {
    assert (templates + [t])[..|templates|] == templates;
  }

  /** The trie after inserting the `i`-th path with index `i`, in order, into a root
      named by the empty string. */
  function BuildTrie(paths: seq<seq<string>>): TreeNode
    decreases |paths|
  {
    if paths == [] then NewNode([])
    else
      var n := |paths| - 1;
      Insert(BuildTrie(paths[..n]), paths[n], n)
  }

  /** What `build_tree_items` yields. */
  function TreeItems(templates: seq<Template>): seq<TreeItem>
  {
    Flatten(BuildTrie(PathsOf(templates)), 0)
  }

  /** `build_tree_items`: inserts each template at its path, then flattens the root. */
  method BuildTreeItems(templates: seq<Template>) returns (items: seq<TreeItem>)
    ensures items == TreeItems(templates)
  {
    var root := NewNode([]);
    for index := 0 to |templates|
      invariant root == BuildTrie(PathsOf(templates[..index]))
    {
      assert templates[..index + 1] == templates[..index] + [templates[index]];
      PathsBySnoc(templates[..index], PathOf, templates[index]);
      BuildSnoc(PathsOf(templates[..index]), PathOf(templates[index]));
      root := Insert(root, PathOf(templates[index]), index);
    }
    assert templates[..|templates|] == templates;
    items := FlattenInto(root, 0, []);
  }

  /** Inserting one more path. */
  lemma BuildSnoc(paths: seq<seq<string>>, path: seq<string>)
    ensures BuildTrie(paths + [path]) == Insert(BuildTrie(paths), path, |paths|)
  {
    assert (paths + [path])[..|paths|] == paths;
  }

  /** The index of the last path equal to `path`, None when there is none. */
  function LastWithPath(paths: seq<seq<string>>, path: seq<string>): Option<nat>
    decreases |paths|
  {
    if paths == [] then None
    else if paths[|paths| - 1] == path then Some(|paths| - 1)
    else LastWithPath(paths[..|paths| - 1], path)
  }

  /** `LastWithPath` is the last index with that path. */
  lemma {:induction false} LastWithPathIsLast(paths: seq<seq<string>>, path: seq<string>)
    ensures var r := LastWithPath(paths, path);
      (r.Some? ==> r.value < |paths| && paths[r.value] == path
                   && forall j :: r.value < j < |paths| ==> paths[j] != path)
      && (r.None? ==> forall j :: 0 <= j < |paths| ==> paths[j] != path)
    decreases |paths|
  {
    if paths != [] {
      var init := paths[..|paths| - 1];
      LastWithPathIsLast(init, path);
      assert forall j :: 0 <= j < |init| ==> init[j] == paths[j];
    }
  }

  /** Each path of the built trie leads to the last template with that path: a later
      template with the same path overwrites an earlier one, and a name with no segment
      marks the root. */
  lemma {:induction false} BuildLookup(paths: seq<seq<string>>, path: seq<string>)
    ensures Lookup(BuildTrie(paths), path) == LastWithPath(paths, path)
    decreases |paths|
  {
    if paths == [] {
      NewNodeLooksUpNothing([], path);
    } else {
      var n := |paths| - 1;
      BuildLookup(paths[..n], path);
      InsertLookup(BuildTrie(paths[..n]), paths[n], n, path);
    }
  }

  /** Every template index in the trie is below `n`. */
  predicate IndicesBelow(node: TreeNode, n: nat)
    decreases node
  {
    (node.templateIndex.Some? ==> node.templateIndex.value < n)
    && forall c :: c in node.children ==> IndicesBelow(c, n)
  }

  lemma {:induction false} InsertBelow(node: TreeNode, parts: seq<string>, index: nat, n: nat)
    requires IndicesBelow(node, n) && index < n
    ensures IndicesBelow(Insert(node, parts, index), n)
    decreases |parts|
  {
    if parts != [] {
      var cs := node.children;
      var k := ChildIndex(cs, parts[0]);
      if k < |cs| {
        InsertBelow(cs[k], parts[1..], index, n);
        var cs' := cs[k := Insert(cs[k], parts[1..], index)];
        forall c | c in cs' ensures IndicesBelow(c, n) {
          var j :| 0 <= j < |cs'| && cs'[j] == c;
          if j != k {
            assert cs[j] in cs;
          }
        }
      } else {
        InsertBelow(NewNode(parts[0]), parts[1..], index, n);
      }
    }
  }

  lemma {:induction false} BuildBelow(paths: seq<seq<string>>)
    ensures IndicesBelow(BuildTrie(paths), |paths|)
    decreases |paths|
  {
    if paths != [] {
      var n := |paths| - 1;
      BuildBelow(paths[..n]);
      BelowMonotone(BuildTrie(paths[..n]), n, n + 1);
      InsertBelow(BuildTrie(paths[..n]), paths[n], n, n + 1);
    }
  }

  lemma {:induction false} BelowMonotone(node: TreeNode, n: nat, m: nat)
    requires IndicesBelow(node, n) && n <= m
    ensures IndicesBelow(node, m)
    decreases node
  {
    forall c | c in node.children ensures IndicesBelow(c, m) {
      BelowMonotone(c, n, m);
    }
  }

  /** Every item's template index is below `n`. */
  predicate ItemsBelow(items: seq<TreeItem>, n: nat)
  {
    forall k :: 0 <= k < |items| && items[k].templateIndex.Some? ==> items[k].templateIndex.value < n
  }

  lemma {:induction false} FlattenBelow(node: TreeNode, i: nat, depth: nat, n: nat)
    requires i <= |node.children|
    requires IndicesBelow(node, n)
    ensures ItemsBelow(FlattenFrom(node, i, depth), n)
    decreases node, |node.children| - i
  {
    if i < |node.children| {
      var child := node.children[i];
      assert child in node.children;
      FlattenBelow(child, 0, depth + 1, n);
      FlattenBelow(node, i + 1, depth, n);
      var head := [TreeItem(child.name, depth, child.templateIndex)];
      ItemsBelowAppend(head, FlattenFrom(child, 0, depth + 1), n);
      ItemsBelowAppend(head + FlattenFrom(child, 0, depth + 1), FlattenFrom(node, i + 1, depth), n);
    }
  }

  lemma ItemsBelowAppend(a: seq<TreeItem>, b: seq<TreeItem>, n: nat)
    requires ItemsBelow(a, n) && ItemsBelow(b, n)
    ensures ItemsBelow(a + b, n)
  {
    forall k | 0 <= k < |a + b| && (a + b)[k].templateIndex.Some?
      ensures (a + b)[k].templateIndex.value < n
    {
      if k >= |a| {
        assert (a + b)[k] == b[k - |a|];
      }
    }
  }

  /** Every template index among the items names a template. */
  lemma TreeItemsIndexTemplates(templates: seq<Template>)
    ensures ItemsBelow(TreeItems(templates), |templates|)
  {
    BuildBelow(PathsOf(templates));
    FlattenBelow(BuildTrie(PathsOf(templates)), 0, 0, |templates|);
  }

  /** The depth structure of a pre-order listing that starts at depth `d`: the first
      item is at depth `d`, none is shallower, and each item is at most one level deeper
      than the one before it. */
  predicate Shaped(items: seq<TreeItem>, d: nat)
  {
    (|items| > 0 ==> items[0].depth == d)
    && (forall k :: 0 <= k < |items| ==> d <= items[k].depth)
    && (forall k :: 0 < k < |items| ==> StepsDown(items, k))
  }

  /** The `k`-th item is at most one level deeper than the one before it. */
  predicate StepsDown(items: seq<TreeItem>, k: nat)
    requires 0 < k < |items|
  {
    items[k].depth <= items[k - 1].depth + 1
  }

  lemma ShapedAppend(a: seq<TreeItem>, b: seq<TreeItem>, d: nat)
    requires Shaped(a, d) && Shaped(b, d)
    ensures Shaped(a + b, d)
  {
    var ab := a + b;
    forall k | 0 <= k < |ab| ensures d <= ab[k].depth {
      if k >= |a| {
        assert ab[k] == b[k - |a|];
      }
    }
    forall k | 0 < k < |ab| ensures StepsDown(ab, k) {
      if k > |a| {
        assert StepsDown(b, k - |a|);
        assert ab[k] == b[k - |a|] && ab[k - 1] == b[k - 1 - |a|];
      } else if k == |a| {
        assert ab[k] == b[0] && ab[k - 1] == a[k - 1];
      } else {
        assert StepsDown(a, k);
        assert ab[k] == a[k] && ab[k - 1] == a[k - 1];
      }
    }
  }

  lemma ShapedCons(head: TreeItem, sub: seq<TreeItem>, d: nat)
    requires head.depth == d && Shaped(sub, d + 1)
    ensures Shaped([head] + sub, d)
  {
    var s := [head] + sub;
    forall k | 0 < k < |s| ensures StepsDown(s, k) {
      assert s[k] == sub[k - 1];
      if k > 1 {
        assert StepsDown(sub, k - 1);
        assert s[k - 1] == sub[k - 2];
      }
    }
  }

  lemma {:induction false} FlattenShaped(node: TreeNode, i: nat, d: nat)
    requires i <= |node.children|
    ensures Shaped(FlattenFrom(node, i, d), d)
    decreases node, |node.children| - i
  {
    if i < |node.children| {
      var child := node.children[i];
      FlattenShaped(child, 0, d + 1);
      FlattenShaped(node, i + 1, d);
      var head := TreeItem(child.name, d, child.templateIndex);
      ShapedCons(head, FlattenFrom(child, 0, d + 1), d);
      ShapedAppend([head] + FlattenFrom(child, 0, d + 1), FlattenFrom(node, i + 1, d), d);
    }
  }

  /** The tree items start at depth 0 and go at most one level deeper per item. */
  lemma TreeItemsShaped(templates: seq<Template>)
    ensures Shaped(TreeItems(templates), 0)
  {
    FlattenShaped(BuildTrie(PathsOf(templates)), 0, 0);
  }

  /** The listing never shows the node it starts from. */
  lemma {:induction false} FlattenIgnoresOwnIndex(a: TreeNode, b: TreeNode, i: nat, depth: nat)
    requires a.children == b.children && i <= |a.children|
    ensures FlattenFrom(a, i, depth) == FlattenFrom(b, i, depth)
    decreases |a.children| - i
  {
    if i < |a.children| {
      FlattenIgnoresOwnIndex(a, b, i + 1, depth);
    }
  }

  /** A template whose name has no segment marks only the root, which is never listed:
      it adds no item. */
  lemma NoSegmentsNoItem(templates: seq<Template>, t: Template)
    requires Segments(t.name) == []
    ensures TreeItems(templates + [t]) == TreeItems(templates)
  {
    PathsBySnoc(templates, PathOf, t);
    EmptyPathNoItem(PathsOf(templates));
  }

  /** Inserting at the empty path only marks the root, which is never listed. */
  lemma EmptyPathNoItem(paths: seq<seq<string>>)
    ensures Flatten(BuildTrie(paths + [[]]), 0) == Flatten(BuildTrie(paths), 0)
  {
    var all := paths + [[]];
    assert all[..|paths|] == paths;
    var root := BuildTrie(paths);
    assert BuildTrie(all) == Insert(root, [], |paths|);
    FlattenIgnoresOwnIndex(Insert(root, [], |paths|), root, 0, 0);
  }

  /** No child before `ChildIndex` has the name sought. */
  lemma {:induction false} ChildIndexIsFirst(children: seq<TreeNode>, name: string, j: nat)
    requires j < ChildIndex(children, name)
    ensures children[j].name != name
    decreases |children|
  {
    if j > 0 {
      ChildIndexIsFirst(children[1..], name, j - 1);
    }
  }

  /** No two children of a node share a name, at any level. */
  predicate DistinctSiblings(node: TreeNode)
    decreases node
  {
    (forall a, b :: 0 <= a < b < |node.children| ==> node.children[a].name != node.children[b].name)
    && forall c :: c in node.children ==> DistinctSiblings(c)
  }

  /** Among children with distinct names, each is the one its name finds. */
  lemma FoundByName(children: seq<TreeNode>, i: nat)
    requires i < |children|
    requires forall a, b :: 0 <= a < b < |children| ==> children[a].name != children[b].name
    ensures ChildIndex(children, children[i].name) == i
  {
    if i < ChildIndex(children, children[i].name) {
      ChildIndexIsFirst(children, children[i].name, i);
    }
  }

  /** `insert` reuses the child with the segment's name and creates one only when there
      is none, so it never makes two siblings with the same name. */
  lemma {:induction false} InsertKeepsDistinct(node: TreeNode, parts: seq<string>, index: nat)
    requires DistinctSiblings(node)
    ensures DistinctSiblings(Insert(node, parts, index))
    decreases |parts|
  {
    if parts != [] {
      var cs := node.children;
      var k := ChildIndex(cs, parts[0]);
      var cs' := Insert(node, parts, index).children;
      if k < |cs| {
        assert cs[k] in cs;
        InsertKeepsDistinct(cs[k], parts[1..], index);
        InsertKeepsName(cs[k], parts[1..], index);
        forall c | c in cs' ensures DistinctSiblings(c) {
          var j :| 0 <= j < |cs'| && cs'[j] == c;
          if j != k {
            assert cs[j] in cs;
          }
        }
      } else {
        var added := Insert(NewNode(parts[0]), parts[1..], index);
        InsertKeepsDistinct(NewNode(parts[0]), parts[1..], index);
        InsertKeepsName(NewNode(parts[0]), parts[1..], index);
        forall j | 0 <= j < |cs| ensures cs[j].name != parts[0] {
          ChildIndexIsFirst(cs, parts[0], j);
        }
        assert cs' == cs + [added];
      }
    }
  }

  lemma {:induction false} BuildDistinct(paths: seq<seq<string>>)
    ensures DistinctSiblings(BuildTrie(paths))
    decreases |paths|
  {
    if paths != [] {
      var n := |paths| - 1;
      BuildDistinct(paths[..n]);
      InsertKeepsDistinct(BuildTrie(paths[..n]), paths[n], n);
    }
  }

  /** Every node below `node` is named by a segment. */
  predicate SegmentNamed(node: TreeNode)
    decreases node
  {
    forall c :: c in node.children ==> IsSegment(c.name) && SegmentNamed(c)
  }

  /** Every path is made of segments. */
  predicate SegmentPaths(paths: seq<seq<string>>)
  {
    forall i, k :: 0 <= i < |paths| && 0 <= k < |paths[i]| ==> IsSegment(paths[i][k])
  }

  lemma {:induction false} InsertKeepsSegmentNamed(node: TreeNode, parts: seq<string>, index: nat)
    requires SegmentNamed(node)
    requires forall k :: 0 <= k < |parts| ==> IsSegment(parts[k])
    ensures SegmentNamed(Insert(node, parts, index))
    decreases |parts|
  {
    if parts != [] {
      var cs := node.children;
      var k := ChildIndex(cs, parts[0]);
      var cs' := Insert(node, parts, index).children;
      assert forall j :: 0 <= j < |parts[1..]| ==> parts[1..][j] == parts[j + 1];
      if k < |cs| {
        assert cs[k] in cs;
        InsertKeepsSegmentNamed(cs[k], parts[1..], index);
        InsertKeepsName(cs[k], parts[1..], index);
        forall c | c in cs' ensures IsSegment(c.name) && SegmentNamed(c) {
          var j :| 0 <= j < |cs'| && cs'[j] == c;
          if j != k {
            assert cs[j] in cs;
          }
        }
      } else {
        InsertKeepsSegmentNamed(NewNode(parts[0]), parts[1..], index);
        InsertKeepsName(NewNode(parts[0]), parts[1..], index);
      }
    }
  }

  lemma {:induction false} BuildSegmentNamed(paths: seq<seq<string>>)
    requires SegmentPaths(paths)
    ensures SegmentNamed(BuildTrie(paths))
    decreases |paths|
  {
    if paths != [] {
      var n := |paths| - 1;
      assert SegmentPaths(paths[..n]) by {
        forall i, k | 0 <= i < n && 0 <= k < |paths[..n][i]| ensures IsSegment(paths[..n][i][k]) {
          assert paths[..n][i] == paths[i];
        }
      }
      BuildSegmentNamed(paths[..n]);
      assert forall k :: 0 <= k < |paths[n]| ==> IsSegment(paths[n][k]);
      InsertKeepsSegmentNamed(BuildTrie(paths[..n]), paths[n], n);
    }
  }

  lemma PathsOfSegments(templates: seq<Template>)
    ensures SegmentPaths(PathsOf(templates))
  {
    var paths := PathsOf(templates);
    forall i, k | 0 <= i < |paths| && 0 <= k < |paths[i]| ensures IsSegment(paths[i][k]) {
      PathsByAt(templates, PathOf, i);
    }
  }

  /** Every item's caption is a segment. */
  predicate SegmentCaptions(items: seq<TreeItem>)
  {
    forall k :: 0 <= k < |items| ==> IsSegment(items[k].caption)
  }

  lemma SegmentCaptionsAppend(a: seq<TreeItem>, b: seq<TreeItem>)
    requires SegmentCaptions(a) && SegmentCaptions(b)
    ensures SegmentCaptions(a + b)
  {
    forall k | 0 <= k < |a + b| ensures IsSegment((a + b)[k].caption) {
      if k >= |a| {
        assert (a + b)[k] == b[k - |a|];
      }
    }
  }

  lemma {:induction false} FlattenCaptions(node: TreeNode, i: nat, depth: nat)
    requires i <= |node.children|
    requires SegmentNamed(node)
    ensures SegmentCaptions(FlattenFrom(node, i, depth))
    decreases node, |node.children| - i
  {
    if i < |node.children| {
      var child := node.children[i];
      assert child in node.children;
      FlattenCaptions(child, 0, depth + 1);
      FlattenCaptions(node, i + 1, depth);
      var head := [TreeItem(child.name, depth, child.templateIndex)];
      SegmentCaptionsAppend(head, FlattenFrom(child, 0, depth + 1));
      SegmentCaptionsAppend(head + FlattenFrom(child, 0, depth + 1), FlattenFrom(node, i + 1, depth));
    }
  }

  /** Every item's caption is a segment: non-empty, trimmed, free of `/`. */
  lemma TreeItemsCaptions(templates: seq<Template>)
    ensures SegmentCaptions(TreeItems(templates))
  {
    PathsOfSegments(templates);
    BuildSegmentNamed(PathsOf(templates));
    FlattenCaptions(BuildTrie(PathsOf(templates)), 0, 0);
  }

  /** `item`, listed by `Flatten(node, depth)`, is a node some path leads to: the path
      ends with the item's caption, is as long as the item is deep, and leads to a node
      that records the item's template (None for a folder). */
  ghost predicate Reaches(node: TreeNode, depth: nat, item: TreeItem)
  {
    exists path: seq<string> :: path != [] && depth + |path| == item.depth + 1
      && path[|path| - 1] == item.caption && Subtree(node, path).Some?
      && Subtree(node, path).value.templateIndex == item.templateIndex
  }

  /** Following a child that its name finds. */
  lemma SubtreeThroughChild(node: TreeNode, i: nat, path: seq<string>)
    requires i < |node.children| && ChildIndex(node.children, node.children[i].name) == i
    ensures Subtree(node, [node.children[i].name] + path) == Subtree(node.children[i], path)
  {
    assert ([node.children[i].name] + path)[1..] == path;
  }

  /** Every item of `items` is reached from `node`. */
  ghost predicate AllReach(node: TreeNode, depth: nat, items: seq<TreeItem>)
  {
    forall item :: item in items ==> Reaches(node, depth, item)
  }

  lemma AllReachAppend(node: TreeNode, depth: nat, a: seq<TreeItem>, b: seq<TreeItem>)
    requires AllReach(node, depth, a) && AllReach(node, depth, b)
    ensures AllReach(node, depth, a + b)
  {
  }

  /** With distinct siblings every listed node is reached by its own path. */
  lemma {:induction false} FlattenReaches(node: TreeNode, i: nat, depth: nat)
    requires i <= |node.children|
    requires DistinctSiblings(node)
    ensures AllReach(node, depth, FlattenFrom(node, i, depth))
    decreases node, |node.children| - i
  {
    if i < |node.children| {
      var child := node.children[i];
      assert child in node.children;
      FoundByName(node.children, i);
      FlattenReaches(child, 0, depth + 1);
      FlattenReaches(node, i + 1, depth);
      ReachesChild(node, i, depth);
      var head := [TreeItem(child.name, depth, child.templateIndex)];
      var below := FlattenFrom(child, 0, depth + 1);
      forall item | item in below ensures Reaches(node, depth, item) {
        ReachesThroughChild(node, i, depth, item);
      }
      AllReachAppend(node, depth, head, below);
      AllReachAppend(node, depth, head + below, FlattenFrom(node, i + 1, depth));
    }
  }

  /** A child that its name finds is reached by the one-segment path of that name. */
  lemma ReachesChild(node: TreeNode, i: nat, depth: nat)
    requires i < |node.children| && ChildIndex(node.children, node.children[i].name) == i
    ensures Reaches(node, depth, TreeItem(node.children[i].name, depth, node.children[i].templateIndex))
  {
    var child := node.children[i];
    SubtreeThroughChild(node, i, []);
    assert [child.name] + [] == [child.name];
  }

  /** What a child reaches one level down, its parent reaches through the child's name. */
  lemma ReachesThroughChild(node: TreeNode, i: nat, depth: nat, item: TreeItem)
    requires i < |node.children| && ChildIndex(node.children, node.children[i].name) == i
    requires Reaches(node.children[i], depth + 1, item)
    ensures Reaches(node, depth, item)
  {
    var child := node.children[i];
    var path :| path != [] && depth + 1 + |path| == item.depth + 1
      && path[|path| - 1] == item.caption && Subtree(child, path).Some?
      && Subtree(child, path).value.templateIndex == item.templateIndex;
    SubtreeThroughChild(node, i, path);
    var longer := [child.name] + path;
    assert longer[|longer| - 1] == path[|path| - 1];
  }

  /** An item listed for `paths` that names template `i` sits where `paths[i]` ends, and
      no later path equals `paths[i]`. */
  lemma ListedIsLast(paths: seq<seq<string>>, item: TreeItem)
    requires item in Flatten(BuildTrie(paths), 0) && item.templateIndex.Some?
    ensures var i := item.templateIndex.value;
      i < |paths| && LastWithPath(paths, paths[i]) == Some(i)
      && paths[i] != [] && item.caption == paths[i][|paths[i]| - 1] && item.depth + 1 == |paths[i]|
  {
    BuildDistinct(paths);
    FlattenReaches(BuildTrie(paths), 0, 0);
    var path :| path != [] && |path| == item.depth + 1
      && path[|path| - 1] == item.caption && Subtree(BuildTrie(paths), path).Some?
      && Subtree(BuildTrie(paths), path).value.templateIndex == item.templateIndex;
    SubtreeLookup(BuildTrie(paths), path);
    BuildLookup(paths, path);
    LastWithPathIsLast(paths, path);
  }

  /** Each item naming a template `i` is the last template with `i`'s path, and sits
      where that path ends: under its last segment, at its depth. */
  predicate OnlyLastListed(items: seq<TreeItem>, paths: seq<seq<string>>)
  {
    forall k :: 0 <= k < |items| && items[k].templateIndex.Some? ==>
      var i := items[k].templateIndex.value;
      i < |paths| && LastWithPath(paths, paths[i]) == Some(i)
      && paths[i] != [] && items[k].caption == paths[i][|paths[i]| - 1] && items[k].depth + 1 == |paths[i]|
  }

  lemma OnlyLastListedFor(paths: seq<seq<string>>)
    ensures OnlyLastListed(Flatten(BuildTrie(paths), 0), paths)
  {
    var items := Flatten(BuildTrie(paths), 0);
    forall k | 0 <= k < |items| && items[k].templateIndex.Some?
      ensures var i := items[k].templateIndex.value;
        i < |paths| && LastWithPath(paths, paths[i]) == Some(i)
        && paths[i] != [] && items[k].caption == paths[i][|paths[i]| - 1] && items[k].depth + 1 == |paths[i]|
    {
      assert items[k] in items;
      ListedIsLast(paths, items[k]);
    }
  }

  /** Only the last template with a path is listed, at the depth and under the caption of
      that path: a template overwritten by a later one with the same path has no item. */
  lemma ListedAreLast(templates: seq<Template>)
    ensures OnlyLastListed(TreeItems(templates), PathsOf(templates))
  {
    OnlyLastListedFor(PathsOf(templates));
  }

  /** `FlattenFrom(node, j, ..)` lists everything `FlattenFrom(node, k, ..)` lists, for
      `j <= k`. */
  lemma {:induction false} FlattenFromGrows(node: TreeNode, j: nat, k: nat, depth: nat, item: TreeItem)
    requires j <= k <= |node.children|
    requires item in FlattenFrom(node, k, depth)
    ensures item in FlattenFrom(node, j, depth)
    decreases k - j
  {
    if j < k {
      FlattenFromGrows(node, j + 1, k, depth, item);
    }
  }

  /** Every path that leads to a node is listed: an item with its last segment, its depth
      and the node's template. */
  lemma {:induction false} FlattenFindsNode(node: TreeNode, path: seq<string>, depth: nat)
    requires path != [] && Subtree(node, path).Some?
    ensures TreeItem(path[|path| - 1], depth + |path| - 1, Subtree(node, path).value.templateIndex) in Flatten(node, depth)
    decreases |path|
  {
    var cs := node.children;
    var k := ChildIndex(cs, path[0]);
    var child := cs[k];
    var item := TreeItem(path[|path| - 1], depth + |path| - 1, Subtree(node, path).value.templateIndex);
    if |path| == 1 {
      assert item == TreeItem(child.name, depth, child.templateIndex);
    } else {
      FlattenFindsNode(child, path[1..], depth + 1);
      assert item == TreeItem(path[1..][|path[1..]| - 1], depth + 1 + |path[1..]| - 1, Subtree(child, path[1..]).value.templateIndex);
    }
    assert item in FlattenFrom(node, k, depth);
    FlattenFromGrows(node, 0, k, depth, item);
  }

  /** Every path that leads to a template is listed: an item with its last segment, its
      depth and that template. */
  lemma FlattenFinds(node: TreeNode, path: seq<string>, depth: nat)
    requires path != [] && Lookup(node, path).Some?
    ensures TreeItem(path[|path| - 1], depth + |path| - 1, Lookup(node, path)) in Flatten(node, depth)
  {
    SubtreeLookup(node, path);
    FlattenFindsNode(node, path, depth);
  }

  /** Path `p` is listed with template `t` (None for a folder): under `p`'s last
      segment, at `p`'s depth. */
  predicate Listed(items: seq<TreeItem>, p: seq<string>, t: Option<nat>)
  {
    p != [] && TreeItem(p[|p| - 1], |p| - 1, t) in items
  }

  /** A non-empty path that no later path repeats is listed, under its last segment, at
      its depth. */
  lemma LastPathListed(paths: seq<seq<string>>, i: nat)
    requires i < |paths| && paths[i] != []
    requires forall j :: i < j < |paths| ==> paths[j] != paths[i]
    ensures Listed(Flatten(BuildTrie(paths), 0), paths[i], Some(i))
  {
    LastWithPathIsLast(paths, paths[i]);
    BuildLookup(paths, paths[i]);
    FlattenFinds(BuildTrie(paths), paths[i], 0);
  }

  /** The path of template `i`, in the paths of all templates, is repeated by no later one. */
  lemma PathsOfAfter(templates: seq<Template>, i: nat)
    requires i < |templates|
    requires forall j :: i < j < |templates| ==> PathOf(templates[j]) != PathOf(templates[i])
    ensures PathsOf(templates)[i] == PathOf(templates[i])
    ensures forall j :: i < j < |templates| ==> PathsOf(templates)[j] != PathsOf(templates)[i]
  {
    PathsByAt(templates, PathOf, i);
    forall j | i < j < |templates| ensures PathsOf(templates)[j] != PathsOf(templates)[i] {
      PathsByAt(templates, PathOf, j);
    }
  }

  /** Every template with a non-empty path that no later template overwrites is listed,
      under its last segment, at its path's depth. */
  lemma LastTemplatesListed(templates: seq<Template>, i: nat)
    requires i < |templates| && PathOf(templates[i]) != []
    requires forall j :: i < j < |templates| ==> PathOf(templates[j]) != PathOf(templates[i])
    ensures Listed(TreeItems(templates), PathOf(templates[i]), Some(i))
  {
    PathsOfAfter(templates, i);
    LastPathListed(PathsOf(templates), i);
  }

  /** Some path starts with `q`. */
  ghost predicate OnSomePath(paths: seq<seq<string>>, q: seq<string>)
  {
    exists j :: 0 <= j < |paths| && IsPrefix(q, paths[j])
  }

  /** The built trie holds exactly the root and the starts of the inserted paths. */
  lemma {:induction false} BuildSubtree(paths: seq<seq<string>>, q: seq<string>)
    ensures Subtree(BuildTrie(paths), q).Some? <==> q == [] || OnSomePath(paths, q)
    decreases |paths|
  {
    if paths == [] {
      if q != [] {
        assert Subtree(NewNode([]), q) == None;
      }
    } else {
      var n := |paths| - 1;
      BuildSubtree(paths[..n], q);
      InsertSubtree(BuildTrie(paths[..n]), paths[n], n, q);
      if OnSomePath(paths, q) {
        var j :| 0 <= j < |paths| && IsPrefix(q, paths[j]);
        if j < n {
          assert paths[..n][j] == paths[j];
        }
      }
      if OnSomePath(paths[..n], q) {
        var j :| 0 <= j < n && IsPrefix(q, paths[..n][j]);
        assert paths[..n][j] == paths[j];
      }
    }
  }

  /** `item` sits at a non-empty start `p` of some path: under `p`'s last segment, at
      `p`'s depth, showing the last template whose path is exactly `p` (None for a folder
      row, whose `p` only starts longer paths). */
  ghost predicate SitsOnPath(paths: seq<seq<string>>, item: TreeItem)
  {
    exists p: seq<string> :: p != [] && OnSomePath(paths, p) && |p| == item.depth + 1
      && p[|p| - 1] == item.caption && item.templateIndex == LastWithPath(paths, p)
  }

  /** Every listed item, folder or template, sits at a start of some path. */
  lemma ListedSits(paths: seq<seq<string>>, item: TreeItem)
    requires item in Flatten(BuildTrie(paths), 0)
    ensures SitsOnPath(paths, item)
  {
    var root := BuildTrie(paths);
    BuildDistinct(paths);
    FlattenReaches(root, 0, 0);
    var p :| p != [] && |p| == item.depth + 1 && p[|p| - 1] == item.caption
      && Subtree(root, p).Some? && Subtree(root, p).value.templateIndex == item.templateIndex;
    BuildSubtree(paths, p);
    SubtreeLookup(root, p);
    BuildLookup(paths, p);
  }

  /** A folder row (no template) sits strictly inside some path: a longer path has the
      row's caption at the row's depth. */
  lemma FolderRowInsidePath(paths: seq<seq<string>>, item: TreeItem)
    requires item in Flatten(BuildTrie(paths), 0) && item.templateIndex.None?
    ensures exists j :: 0 <= j < |paths| && item.depth + 1 < |paths[j]| && paths[j][item.depth] == item.caption
  {
    ListedSits(paths, item);
    var p :| p != [] && OnSomePath(paths, p) && |p| == item.depth + 1
      && p[|p| - 1] == item.caption && item.templateIndex == LastWithPath(paths, p);
    var j :| 0 <= j < |paths| && IsPrefix(p, paths[j]);
    LastWithPathIsLast(paths, p);
    assert paths[j] != p;
    assert paths[j][item.depth] == paths[j][..|p|][item.depth];
  }

  /** Every item of `items` sits at a start of some path. */
  ghost predicate AllSitOnPaths(items: seq<TreeItem>, paths: seq<seq<string>>)
  {
    forall item :: item in items ==> SitsOnPath(paths, item)
  }

  lemma AllSitFor(paths: seq<seq<string>>)
    ensures AllSitOnPaths(Flatten(BuildTrie(paths), 0), paths)
  {
    forall item | item in Flatten(BuildTrie(paths), 0) ensures SitsOnPath(paths, item) {
      ListedSits(paths, item);
    }
  }

  /** No row is spurious: every row, folders included, sits at a non-empty start of some
      template's path, under its last segment, at its depth, showing the last template
      with exactly that path. */
  lemma TreeItemsSitOnPaths(templates: seq<Template>)
    ensures AllSitOnPaths(TreeItems(templates), PathsOf(templates))
  {
    AllSitFor(PathsOf(templates));
  }

  /** Every non-empty start of a path is listed, with the last template whose path it is. */
  lemma PrefixListed(paths: seq<seq<string>>, j: nat, n: nat)
    requires j < |paths| && 0 < n <= |paths[j]|
    ensures Listed(Flatten(BuildTrie(paths), 0), paths[j][..n], LastWithPath(paths, paths[j][..n]))
  {
    var p := paths[j][..n];
    assert IsPrefix(p, paths[j]);
    BuildSubtree(paths, p);
    SubtreeLookup(BuildTrie(paths), p);
    BuildLookup(paths, p);
    FlattenFindsNode(BuildTrie(paths), p, 0);
  }

  /** No row is missing: every non-empty start of a template's path (each folder on the
      way, and the template itself) is listed, showing the last template with exactly
      that path. */
  lemma TemplatePrefixesListed(templates: seq<Template>, j: nat, n: nat)
    requires j < |templates| && 0 < n <= |PathOf(templates[j])|
    ensures var p := PathOf(templates[j])[..n];
      Listed(TreeItems(templates), p, LastWithPath(PathsOf(templates), p))
  {
    PathsByAt(templates, PathOf, j);
    PrefixListed(PathsOf(templates), j, n);
  }
}
