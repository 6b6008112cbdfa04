/** The directory tree component: the pre-order list of node keys used to
    expand the whole tree, the node shape handed to the tree widget, and the
    selection after a deletion. A missing children list and an empty one are
    handled alike by the component, so both are the empty sequence here. */
module FrontTree {
  import opened Common
  import opened Text

  /** A directory as the tree endpoint returns it. */
  datatype DirNode = DirNode(id: nat, name: string, children: seq<DirNode>)

  /** The keys of one directory and its subtree, the directory first. */
  function NodeKeys(d: DirNode): (r: seq<string>)
    ensures |r| >= 1 && r[0] == NatToString(d.id)
    decreases d
  {
    [NatToString(d.id)] + Keys(d.children)
  }

  /** The keys of a forest, tree after tree: the pre-order of the forest. */
  function Keys(dirs: seq<DirNode>): (r: seq<string>)
    ensures |r| >= |dirs|
    decreases dirs
  {
    if dirs == [] then [] else NodeKeys(dirs[0]) + Keys(dirs[1..])
  }

  /** The number of directories in a forest. */
  function Count(dirs: seq<DirNode>): nat
    decreases dirs
  {
    if dirs == [] then 0 else 1 + Count(dirs[0].children) + Count(dirs[1..])
  }

  /** One key per directory. */
  lemma {:induction false} KeysCount(dirs: seq<DirNode>)
    ensures |Keys(dirs)| == Count(dirs)
    decreases dirs
  {
    if dirs != [] {
      KeysCount(dirs[0].children);
      KeysCount(dirs[1..]);
    }
  }

  /** The keys of two forests side by side are the keys of each, in order. */
  lemma {:induction false} KeysAppend(a: seq<DirNode>, b: seq<DirNode>)
    ensures Keys(a + b) == Keys(a) + Keys(b)
    decreases a
  {
    if a == [] {
      assert a + b == b;
    } else {
      assert (a + b)[1..] == a[1..] + b;
      KeysAppend(a[1..], b);
    }
  }

  /** A directory's key comes before every key of its subtree, and each
      root's keys come before those of the next root. */
  lemma PreOrder(a: seq<DirNode>, d: DirNode, b: seq<DirNode>)
    ensures Keys(a + [d] + b) == Keys(a) + [NatToString(d.id)] + Keys(d.children) + Keys(b)
  {
    KeysAppend(a + [d], b);
    KeysAppend(a, [d]);
    assert [d][1..] == [];
  }

  /** getAllKeys: walks the roots in order, taking each key and then, when
      the directory has children, the keys of its children. */
  method GetAllKeys(dirs: seq<DirNode>) returns (keys: seq<string>)
    ensures keys == Keys(dirs)
    decreases dirs
  {
    keys := [];
    var i := 0;
    while i < |dirs|
      invariant 0 <= i <= |dirs|
      invariant keys == Keys(dirs[..i])
    {
      var dir := dirs[i];
      keys := keys + [NatToString(dir.id)];
      if |dir.children| > 0 {
        var sub := GetAllKeys(dir.children);
        keys := keys + sub;
      }
      KeysAppend(dirs[..i], [dir]);
      assert dirs[..i + 1] == dirs[..i] + [dir];
      assert [dir][1..] == [];
      i := i + 1;
    }
    assert dirs[..i] == dirs;
  }

  /** A node of the tree widget: the key, the children (absent for a leaf)
      and the directory itself. The rendered title is not modelled. */
  datatype TreeNode = TreeNode(key: string, children: Branch, data: DirNode)

  /** The widget's children field: undefined, or a list of nodes. */
  datatype Branch = Undefined | Nodes(nodes: seq<TreeNode>)

  /** formatTreeData: one node per directory, keyed by the decimal id, with
      children only where the directory has some. */
  function Format(dirs: seq<DirNode>): (r: seq<TreeNode>)
    ensures |r| == |dirs|
    ensures forall i :: 0 <= i < |r| ==> r[i].key == NatToString(dirs[i].id) && r[i].data == dirs[i]
    ensures forall i :: 0 <= i < |r| ==> (r[i].children.Undefined? <==> dirs[i].children == [])
    decreases dirs
  {
    if dirs == [] then []
    else
      var d := dirs[0];
      var node := TreeNode(NatToString(d.id), if d.children == [] then Undefined else Nodes(Format(d.children)), d);
      var rest := Format(dirs[1..]);
      assert forall i :: 1 <= i <= |rest| ==> ([node] + rest)[i] == rest[i - 1] && dirs[i] == dirs[1..][i - 1];
      [node] + rest
  }

  /** The keys of one widget node and its subtree, the node first. */
  function WidgetNodeKeys(n: TreeNode): seq<string>
    decreases n
  {
    match n.children
    case Undefined => [n.key]
    case Nodes(nodes) => [n.key] + WidgetKeys(nodes)
  }

  /** The keys of a widget forest in pre-order. */
  function WidgetKeys(nodes: seq<TreeNode>): seq<string>
    decreases nodes
  {
    if nodes == [] then [] else WidgetNodeKeys(nodes[0]) + WidgetKeys(nodes[1..])
  }

  /** The widget's keys are exactly the keys getAllKeys collects, so
      expanding all of them opens every node that is shown. */
  lemma {:induction false} FormatKeys(dirs: seq<DirNode>)
    ensures WidgetKeys(Format(dirs)) == Keys(dirs)
    decreases dirs
  {
    if dirs != [] {
      var d := dirs[0];
      var f := Format(dirs);
      assert f[1..] == Format(dirs[1..]);
      FormatKeys(dirs[1..]);
      if d.children != [] {
        FormatKeys(d.children);
      }
    }
  }

  /** The component's selection, owned by its parent. */
  class Selection {
    var selected: Option<nat>

    constructor(selected: Option<nat>)
      ensures this.selected == selected
    {
      this.selected := selected;
    }

    /** handleDelete after the server answered: on success the selection is
        cleared when it was the deleted directory; on failure only a message
        is shown. */
    method HandleDelete(id: nat, succeeded: bool)
      modifies this
      ensures succeeded && old(selected) == Some(id) ==> selected.None?
      ensures !(succeeded && old(selected) == Some(id)) ==> selected == old(selected)
    {
      if succeeded && selected == Some(id) {
        selected := None;
      }
    }
  }
}
