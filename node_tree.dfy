/**
  The nested dictionary that `IOServer._get_nodes` builds from a node:
  one entry per display name among the node's direct children, holding
  either the child handle itself (a leaf) or the dictionary built from the
  child (a branch). `Walk` is the reference definition: a left fold over
  the children, in enumeration order, of dictionary assignments.
*/
module NodeTree {
  import opened OpcUa

  /** A value stored in the nested dictionary. */
  datatype Entry = Leaf(handle: Node) | Branch(tree: map<string, Entry>)

  /** A dictionary keyed by display name. */
  type Tree = map<string, Entry>

  /**
    What one child contributes: a Node of class Variable and anything that
    is not a Node are stored as they are; every other Node is walked.
  */
  function EntryOf(child: Node): (e: Entry)
    decreases child, |child.children| + 2
  {
    if child.isNode then
      if child.nodeClass == Variable then Leaf(child) else Branch(Walk(child))
    else
      Leaf(child)
  }

  /** The dictionary after the loop has visited the first `k` children. */
  function WalkUpTo(node: Node, k: nat): (t: Tree)
    requires k <= |node.children|
    decreases node, k
  {
    if k == 0 then map[]
    else
      var child := node.children[k - 1];
      WalkUpTo(node, k - 1)[child.displayName := EntryOf(child)]
  }

  /** The dictionary built from all children of `node`. */
  function Walk(node: Node): (t: Tree)
    decreases node, |node.children| + 1
  {
    WalkUpTo(node, |node.children|)
  }

  /** The display names of the first `k` children. */
  ghost function NamesUpTo(node: Node, k: nat): set<string>
    requires k <= |node.children|
  {
    set i | 0 <= i < k :: node.children[i].displayName
  }

  /** The display names of all children. */
  ghost function Names(node: Node): set<string>
  {
    set c | c in node.children :: c.displayName
  }

  /** Child `i` is the last one enumerated under its display name. */
  ghost predicate LastWithName(node: Node, i: nat)
  {
    && i < |node.children|
    && forall j :: i < j < |node.children| ==>
         node.children[j].displayName != node.children[i].displayName
  }

  /** No two children share a display name. */
  ghost predicate DistinctNames(node: Node)
  {
    forall i, j :: 0 <= i < j < |node.children| ==>
      node.children[i].displayName != node.children[j].displayName
  }

  lemma {:induction false} KeysUpTo(node: Node, k: nat)
    requires k <= |node.children|
    ensures WalkUpTo(node, k).Keys == NamesUpTo(node, k)
  {
    if k > 0 {
      KeysUpTo(node, k - 1);
      var name := node.children[k - 1].displayName;
      assert NamesUpTo(node, k) == NamesUpTo(node, k - 1) + {name} by {
        forall x | x in NamesUpTo(node, k)
          ensures x in NamesUpTo(node, k - 1) + {name}
        {
          var i :| 0 <= i < k && node.children[i].displayName == x;
          if i < k - 1 {
            assert x in NamesUpTo(node, k - 1);
          }
        }
      }
    }
  }

  /** The keys are exactly the children's display names; equal names make one key. */
  lemma WalkKeys(node: Node)
    ensures Walk(node).Keys == Names(node)
  {
    KeysUpTo(node, |node.children|);
    forall x | x in Names(node)
      ensures x in NamesUpTo(node, |node.children|)
    {
      var c :| c in node.children && c.displayName == x;
      var i :| 0 <= i < |node.children| && node.children[i] == c;
    }
  }

  lemma {:induction false} LastWinsUpTo(node: Node, k: nat, i: nat)
    requires i < k <= |node.children|
    requires forall j :: i < j < k ==>
               node.children[j].displayName != node.children[i].displayName
    ensures node.children[i].displayName in WalkUpTo(node, k)
    ensures WalkUpTo(node, k)[node.children[i].displayName] == EntryOf(node.children[i])
  {
    if i < k - 1 {
      LastWinsUpTo(node, k - 1, i);
    }
  }

  /**
    The entry under a display name is the one the last child with that
    name contributes: later siblings overwrite earlier ones.
  */
  lemma LastWins(node: Node, i: nat)
    requires LastWithName(node, i)
    ensures node.children[i].displayName in Walk(node)
    ensures Walk(node)[node.children[i].displayName] == EntryOf(node.children[i])
  {
    LastWinsUpTo(node, |node.children|, i);
  }

  lemma {:induction false} OriginUpTo(node: Node, k: nat, key: string)
    requires k <= |node.children|
    requires key in WalkUpTo(node, k)
    ensures exists i :: 0 <= i < k && node.children[i].displayName == key
              && WalkUpTo(node, k)[key] == EntryOf(node.children[i])
              && forall j :: i < j < k ==> node.children[j].displayName != key
  {
    var child := node.children[k - 1];
    if child.displayName != key {
      OriginUpTo(node, k - 1, key);
      var i :| 0 <= i < k - 1 && node.children[i].displayName == key
                 && WalkUpTo(node, k - 1)[key] == EntryOf(node.children[i])
                 && forall j :: i < j < k - 1 ==> node.children[j].displayName != key;
      assert forall j :: i < j < k ==> node.children[j].displayName != key;
    } else {
      assert WalkUpTo(node, k)[key] == EntryOf(node.children[k - 1]);
    }
  }

  /** Every entry comes from the last child enumerated under its key. */
  lemma EntryOrigin(node: Node, key: string)
    requires key in Walk(node)
    ensures exists i: nat :: LastWithName(node, i) && node.children[i].displayName == key
              && Walk(node)[key] == EntryOf(node.children[i])
  {
    OriginUpTo(node, |node.children|, key);
  }

  /** A Node child of class Variable is stored as the handle itself. */
  lemma VariableChildIsLeaf(node: Node, i: nat)
    requires LastWithName(node, i)
    requires node.children[i].isNode && node.children[i].nodeClass == Variable
    ensures node.children[i].displayName in Walk(node)
    ensures Walk(node)[node.children[i].displayName] == Leaf(node.children[i])
  {
    LastWins(node, i);
  }

  /** A Node child of any other class is stored as the dictionary walked from it. */
  lemma ContainerChildIsBranch(node: Node, i: nat)
    requires LastWithName(node, i)
    requires node.children[i].isNode && node.children[i].nodeClass != Variable
    ensures node.children[i].displayName in Walk(node)
    ensures Walk(node)[node.children[i].displayName] == Branch(Walk(node.children[i]))
  {
    LastWins(node, i);
  }

  /** A child that is not a Node is stored as a leaf, whatever its class, and never walked. */
  lemma ForeignChildIsLeaf(node: Node, i: nat)
    requires LastWithName(node, i)
    requires !node.children[i].isNode
    ensures node.children[i].displayName in Walk(node)
    ensures Walk(node)[node.children[i].displayName] == Leaf(node.children[i])
  {
    LastWins(node, i);
  }

  /**
    Soundness of the classification: a leaf holds a child of that name that
    is a Variable or not a Node; a branch holds the walk of a child of that
    name that is a Node of another class.
  */
  lemma EntryShape(node: Node, key: string)
    requires key in Walk(node)
    ensures Walk(node)[key].Leaf? ==>
              var h := Walk(node)[key].handle;
              h in node.children && h.displayName == key
              && (!h.isNode || h.nodeClass == Variable)
    ensures Walk(node)[key].Branch? ==>
              exists c :: c in node.children && c.displayName == key
                && c.isNode && c.nodeClass != Variable
                && Walk(node)[key].tree == Walk(c)
  {
    EntryOrigin(node, key);
    var i: nat :| LastWithName(node, i) && node.children[i].displayName == key
                  && Walk(node)[key] == EntryOf(node.children[i]);
    var c := node.children[i];
    assert c in node.children;
  }

  /** A node without children gives an empty dictionary, and only such a node. */
  lemma EmptyIffNoChildren(node: Node)
    ensures Walk(node) == map[] <==> node.children == []
  {
    if node.children != [] {
      LastWins(node, |node.children| - 1);
    }
  }

  lemma {:induction false} SizeUpTo(node: Node, k: nat)
    requires k <= |node.children|
    ensures |WalkUpTo(node, k)| <= k
    ensures DistinctNames(node) ==> |WalkUpTo(node, k)| == k
  {
    if k > 0 {
      SizeUpTo(node, k - 1);
      KeysUpTo(node, k - 1);
      var prev := WalkUpTo(node, k - 1);
      var name := node.children[k - 1].displayName;
      assert WalkUpTo(node, k).Keys == prev.Keys + {name};
      if DistinctNames(node) {
        assert name !in prev.Keys;
      }
    }
  }

  /**
    The dictionary has at most one key per child, and exactly one per child
    when no two children share a display name.
  */
  lemma WalkSize(node: Node)
    ensures |Walk(node)| <= |node.children|
    ensures DistinctNames(node) ==> |Walk(node)| == |node.children|
  {
    SizeUpTo(node, |node.children|);
  }

}
