/** The unbalanced binary search tree `BinaryTree` of DSAFinal.java: insertion
    that drops duplicates, and the three depth-first traversals. */
module Trees {
  import opened Ordering

  /** A subtree. `Leaf` stands for a null `TreeNode` reference; `Node` for a
      node with its value and its two exclusively owned children. */
  datatype Tree = Leaf | Node(left: Tree, value: Int32, right: Tree)

  /** The values held in a tree. */
  function Values(t: Tree): set<Int32>
  {
    match t
    case Leaf => {}
    case Node(l, v, r) => Values(l) + {v} + Values(r)
  }

  /** The number of nodes of a tree. */
  function Size(t: Tree): nat
  {
    match t
    case Leaf => 0
    case Node(l, _, r) => Size(l) + 1 + Size(r)
  }

  /** The search-tree invariant: at every node, every value of the left
      subtree is strictly smaller and every value of the right subtree
      strictly greater than the node's value. */
  ghost predicate IsBst(t: Tree)
  {
    match t
    case Leaf => true
    case Node(l, v, r) =>
      IsBst(l) && IsBst(r) &&
      (forall x :: x in Values(l) ==> x < v) &&
      (forall x :: x in Values(r) ==> v < x)
  }

  /** `addRecursive`: descend left on a smaller value, right on a greater one,
      hang a new node where the search falls off the tree, and return the
      subtree unchanged when the value equals a node's value. */
  function AddRecursive(t: Tree, value: Int32): (r: Tree)
    ensures Values(r) == Values(t) + {value}
    ensures value !in Values(t) ==> Size(r) == Size(t) + 1
  {
    match t
    case Leaf => Node(Leaf, value, Leaf)
    case Node(l, v, rt) =>
      if value < v then Node(AddRecursive(l, value), v, rt)
      else if value > v then Node(l, v, AddRecursive(rt, value))
      else t
  }

  /** In-order: left subtree, node, right subtree. */
  function InOrder(t: Tree): seq<Int32>
  {
    match t
    case Leaf => []
    case Node(l, v, r) => InOrder(l) + [v] + InOrder(r)
  }

  /** Pre-order: node, left subtree, right subtree. */
  function PreOrder(t: Tree): seq<Int32>
  {
    match t
    case Leaf => []
    case Node(l, v, r) => [v] + PreOrder(l) + PreOrder(r)
  }

  /** Post-order: left subtree, right subtree, node. */
  function PostOrder(t: Tree): seq<Int32>
  {
    match t
    case Leaf => []
    case Node(l, v, r) => PostOrder(l) + PostOrder(r) + [v]
  }

  /** The tree that a fresh `BinaryTree` holds after `add` of each value of
      `xs`, in order. */
  function Build(xs: seq<Int32>): Tree
  {
    if xs == [] then Leaf else AddRecursive(Build(xs[..|xs| - 1]), xs[|xs| - 1])
  }

  /** Insertion keeps the search-tree invariant. */
  lemma {:induction false} AddRecursivePreservesBst(t: Tree, value: Int32)
    requires IsBst(t)
    ensures IsBst(AddRecursive(t, value))
  {
    match t
    case Leaf =>
    case Node(l, v, r) =>
      if value < v {
        AddRecursivePreservesBst(l, value);
      } else if value > v {
        AddRecursivePreservesBst(r, value);
      }
  }

  /** Adding a value the search tree already holds returns the very same
      tree, so no traversal changes. */
  lemma {:induction false} AddRecursiveExisting(t: Tree, value: Int32)
    requires IsBst(t) && value in Values(t)
    ensures AddRecursive(t, value) == t
  {
    match t
    case Node(l, v, r) =>
      if value < v {
        assert value !in Values(r);
        AddRecursiveExisting(l, value);
      } else if value > v {
        assert value !in Values(l);
        AddRecursiveExisting(r, value);
      }
  }

  /** Each traversal visits every node exactly once, so the three orders are
      permutations of one another, of the tree's size. */
  lemma {:induction false} TraversalsArePermutations(t: Tree)
    ensures multiset(PreOrder(t)) == multiset(InOrder(t))
    ensures multiset(PostOrder(t)) == multiset(InOrder(t))
    ensures |PreOrder(t)| == |InOrder(t)| == |PostOrder(t)| == Size(t)
  {
    match t
    case Leaf =>
    case Node(l, v, r) =>
      TraversalsArePermutations(l);
      TraversalsArePermutations(r);
  }

  /** The in-order traversal lists exactly the values of the tree. */
  lemma {:induction false} InOrderValues(t: Tree)
    ensures forall x :: x in InOrder(t) <==> x in Values(t)
  {
    match t
    case Leaf =>
    case Node(l, v, r) =>
      InOrderValues(l);
      InOrderValues(r);
  }

  /** A tree is a search tree exactly when its in-order traversal is strictly
      increasing. */
  lemma {:induction false} InOrderIncreasingIffBst(t: Tree)
    ensures IsBst(t) <==> IsStrictlyIncreasing(InOrder(t))
  {
    match t
    case Leaf =>
    case Node(l, v, r) =>
      InOrderIncreasingIffBst(l);
      InOrderIncreasingIffBst(r);
      InOrderValues(l);
      InOrderValues(r);
      JoinIncreasing(InOrder(l), v, InOrder(r));
  }

  /** `a + [v] + b` is strictly increasing exactly when `a` and `b` are and
      `v` lies strictly between the elements of `a` and those of `b`. */
  lemma JoinIncreasing(a: seq<int>, v: int, b: seq<int>)
    ensures IsStrictlyIncreasing(a + [v] + b) <==>
      IsStrictlyIncreasing(a) && IsStrictlyIncreasing(b) &&
      (forall x :: x in a ==> x < v) && (forall y :: y in b ==> v < y)
  {
    var s := a + [v] + b;
    if IsStrictlyIncreasing(a) && IsStrictlyIncreasing(b) &&
       (forall x :: x in a ==> x < v) && (forall y :: y in b ==> v < y)
    {
      forall i, j | 0 <= i < j < |s|
        ensures s[i] < s[j]
      {
        if j < |a| {
          assert s[i] == a[i] && s[j] == a[j];
        } else if i > |a| {
          assert s[i] == b[i - |a| - 1] && s[j] == b[j - |a| - 1];
        } else {
          assert i < |a| ==> s[i] == a[i] && a[i] in a;
          assert j > |a| ==> s[j] == b[j - |a| - 1] && b[j - |a| - 1] in b;
        }
      }
    }
    if IsStrictlyIncreasing(s) {
      forall i, j | 0 <= i < j < |a|
        ensures a[i] < a[j]
      {
        assert a[i] == s[i] && a[j] == s[j];
      }
      forall i, j | 0 <= i < j < |b|
        ensures b[i] < b[j]
      {
        assert b[i] == s[i + |a| + 1] && b[j] == s[j + |a| + 1];
      }
      forall x | x in a
        ensures x < v
      {
        var i :| 0 <= i < |a| && a[i] == x;
        assert s[i] == x && s[|a|] == v;
      }
      forall y | y in b
        ensures v < y
      {
        var i :| 0 <= i < |b| && b[i] == y;
        assert s[i + |a| + 1] == y && s[|a|] == v;
      }
    }
  }

  /** The tree built by a run of insertions holds exactly the inserted values
      and is a search tree. */
  lemma {:induction false} BuildIsBst(xs: seq<Int32>)
    ensures IsBst(Build(xs))
    ensures forall x :: x in Values(Build(xs)) <==> x in xs
  {
    if xs != [] {
      var init := xs[..|xs| - 1];
      BuildIsBst(init);
      AddRecursivePreservesBst(Build(init), xs[|xs| - 1]);
      assert xs == init + [xs[|xs| - 1]];
    }
  }

  /** After any run of insertions, the in-order traversal is the ascending
      sort of the distinct inserted values: it is the one strictly increasing
      sequence that holds exactly those values. */
  lemma {:induction false} BuildInOrderSorted(xs: seq<Int32>, sorted: seq<Int32>)
    requires IsStrictlyIncreasing(sorted)
    requires forall x :: x in sorted <==> x in xs
    ensures InOrder(Build(xs)) == sorted
  {
    BuildIsBst(xs);
    InOrderIncreasingIffBst(Build(xs));
    InOrderValues(Build(xs));
    StrictlyIncreasingUnique(InOrder(Build(xs)), sorted);
  }

  /** The shape after inserting 5, 3, 8, 1, 4 into an empty tree: 5 at the
      root, 3 (with children 1 and 4) on its left, 8 on its right. */
  lemma ScenarioFiveValuesShape()
    ensures AddRecursive(AddRecursive(AddRecursive(AddRecursive(AddRecursive(Leaf, 5), 3), 8), 1), 4)
         == Node(Node(Node(Leaf, 1, Leaf), 3, Node(Leaf, 4, Leaf)), 5, Node(Leaf, 8, Leaf))
  {
    var n1, n3, n4, n8 := Node(Leaf, 1, Leaf), Node(Leaf, 3, Leaf), Node(Leaf, 4, Leaf), Node(Leaf, 8, Leaf);
    assert AddRecursive(Leaf, 5) == Node(Leaf, 5, Leaf);
    assert AddRecursive(Node(Leaf, 5, Leaf), 3) == Node(n3, 5, Leaf);
    assert AddRecursive(Node(n3, 5, Leaf), 8) == Node(n3, 5, n8);
    assert AddRecursive(n3, 1) == Node(n1, 3, Leaf);
    assert AddRecursive(Node(n3, 5, n8), 1) == Node(Node(n1, 3, Leaf), 5, n8);
    assert AddRecursive(Node(n1, 3, Leaf), 4) == Node(n1, 3, n4);
  }

  /** The three orders of the tree that inserting 5, 3, 8, 1, 4 builds. */
  lemma ScenarioFiveValues()
    ensures var t := Node(Node(Node(Leaf, 1, Leaf), 3, Node(Leaf, 4, Leaf)), 5, Node(Leaf, 8, Leaf));
      InOrder(t) == [1, 3, 4, 5, 8] &&
      PreOrder(t) == [5, 3, 1, 4, 8] &&
      PostOrder(t) == [1, 4, 3, 8, 5]
  {
    var left := Node(Node(Leaf, 1, Leaf), 3, Node(Leaf, 4, Leaf));
    assert InOrder(left) == [1, 3, 4] && PreOrder(left) == [3, 1, 4] && PostOrder(left) == [1, 4, 3];
  }

  /** A second 5 is ignored: inserting 5, 5, 3 leaves two values. On the
      empty tree every traversal is empty. */
  lemma ScenarioDuplicate()
    ensures InOrder(AddRecursive(AddRecursive(AddRecursive(Leaf, 5), 5), 3)) == [3, 5]
    ensures InOrder(Leaf) == PreOrder(Leaf) == PostOrder(Leaf) == []
  {
    var t1 := AddRecursive(Leaf, 5);
    assert t1 == Node(Leaf, 5, Leaf);
    var t2 := AddRecursive(t1, 5);
    assert t2 == t1;
    assert AddRecursive(t2, 3) == Node(Node(Leaf, 3, Leaf), 5, Leaf);
  }

  /** The `ArrayList<Integer>` that a traversal fills. */
  class IntList {
    var items: seq<Int32>

    constructor ()
      ensures items == []
    {
      items := [];
    }

    method Add(x: Int32)
      modifies this
      ensures items == old(items) + [x]
    {
      items := items + [x];
    }
  }

  /** `BinaryTree`: the root of the tree, and the values added so far. */
  class BinaryTree {
    var root: Tree
    /** Every argument of `add`, in call order. */
    ghost var Added: seq<Int32>

    ghost predicate Valid()
      reads this
    {
      root == Build(Added)
    }

    constructor ()
      ensures Valid() && Added == [] && root == Leaf
    {
      root := Leaf;
      Added := [];
    }

    /** `add`: replace the root by the result of the recursive insertion. */
    method Add(value: Int32)
      requires Valid()
      modifies this
      ensures Valid() && Added == old(Added) + [value]
      ensures root == AddRecursive(old(root), value)
      ensures IsBst(root) && Values(root) == old(Values(root)) + {value}
      ensures value in old(Values(root)) ==> root == old(root)
    {
      BuildIsBst(Added);
      if value in Values(root) {
        AddRecursiveExisting(root, value);
      }
      root := AddRecursive(root, value);
      Added := Added + [value];
      assert Added[..|Added| - 1] == old(Added);
      BuildIsBst(Added);
    }

    /** `inOrderRecursive`: append the in-order traversal of `node` to `result`. */
    method InOrderRecursive(node: Tree, result: IntList)
      modifies result
      ensures result.items == old(result.items) + InOrder(node)
      decreases node
    {
      match node
      case Leaf =>
      case Node(l, v, r) =>
        InOrderRecursive(l, result);
        result.Add(v);
        InOrderRecursive(r, result);
    }

    /** `preOrderRecursive`: append the pre-order traversal of `node` to `result`. */
    method PreOrderRecursive(node: Tree, result: IntList)
      modifies result
      ensures result.items == old(result.items) + PreOrder(node)
      decreases node
    {
      match node
      case Leaf =>
      case Node(l, v, r) =>
        result.Add(v);
        PreOrderRecursive(l, result);
        PreOrderRecursive(r, result);
    }

    /** `postOrderRecursive`: append the post-order traversal of `node` to `result`. */
    method PostOrderRecursive(node: Tree, result: IntList)
      modifies result
      ensures result.items == old(result.items) + PostOrder(node)
      decreases node
    {
      match node
      case Leaf =>
      case Node(l, v, r) =>
        PostOrderRecursive(l, result);
        PostOrderRecursive(r, result);
        result.Add(v);
    }

    /** `inOrderTraversal`: the distinct added values in ascending order. */
    method InOrderTraversal() returns (r: seq<Int32>)
      requires Valid()
      ensures r == InOrder(root)
      ensures IsStrictlyIncreasing(r)
      ensures forall x :: x in r <==> x in Added
    {
      var result := new IntList();
      InOrderRecursive(root, result);
      r := result.items;
      BuildIsBst(Added);
      InOrderIncreasingIffBst(root);
      InOrderValues(root);
    }

    /** `preOrderTraversal`: a permutation of the in-order traversal. */
    method PreOrderTraversal() returns (r: seq<Int32>)
      ensures r == PreOrder(root)
      ensures multiset(r) == multiset(InOrder(root))
    {
      var result := new IntList();
      PreOrderRecursive(root, result);
      r := result.items;
      TraversalsArePermutations(root);
    }

    /** `postOrderTraversal`: a permutation of the in-order traversal. */
    method PostOrderTraversal() returns (r: seq<Int32>)
      ensures r == PostOrder(root)
      ensures multiset(r) == multiset(InOrder(root))
    {
      var result := new IntList();
      PostOrderRecursive(root, result);
      r := result.items;
      TraversalsArePermutations(root);
    }
  }

  /** Adding 5, 3, 8, 1, 4 to a new `BinaryTree` and asking for the three
      orders, as the "Show Orders" button does. */
  method ScenarioTraversals() returns (inOrder: seq<Int32>, preOrder: seq<Int32>, postOrder: seq<Int32>)
    ensures inOrder == [1, 3, 4, 5, 8]
    ensures preOrder == [5, 3, 1, 4, 8]
    ensures postOrder == [1, 4, 3, 8, 5]
  {
    var tree := new BinaryTree();
    tree.Add(5);
    tree.Add(3);
    tree.Add(8);
    tree.Add(1);
    tree.Add(4);
    ScenarioFiveValuesShape();
    ScenarioFiveValues();
    inOrder := tree.InOrderTraversal();
    preOrder := tree.PreOrderTraversal();
    postOrder := tree.PostOrderTraversal();
  }

  /** Adding 5, 5, 3 to a new `BinaryTree`: the second 5 is dropped, so the
      in-order traversal is [3, 5]. */
  method ScenarioDuplicateTraversal() returns (inOrder: seq<Int32>)
    ensures inOrder == [3, 5]
  {
    var tree := new BinaryTree();
    tree.Add(5);
    tree.Add(5);
    tree.Add(3);
    inOrder := tree.InOrderTraversal();
    StrictlyIncreasingUnique(inOrder, [3, 5]);
  }
}
