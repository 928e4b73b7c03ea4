/** HidHide/src/Config.c: the unbalanced search tree of heap nodes that maps a process id
    to its image name and memoised whitelist verdict.

    A C `PPROCESSIDTREE*` argument is a slot that the callee may overwrite; here the callee takes
    the slot's value and returns the new one, which the caller stores back.  The ghost Shape
    argument names the nodes a slot leads to. */
module ProcessTree {
  import opened Names
  import opened Seqs
  import opened VerdictCache

  class Node {
    const pid: nat
    const fullImageName: string
    var evaluationCache: EvaluationCache
    var left: Node?
    var right: Node?

    constructor (pid: nat, fullImageName: string)
      ensures this.pid == pid && this.fullImageName == fullImageName
      ensures evaluationCache == Empty && left == null && right == null
    {
      this.pid, this.fullImageName := pid, fullImageName;
      evaluationCache, left, right := Empty, null, null;
    }
  }

  datatype Shape = Leaf | Bin(l: Shape, n: Node, r: Shape)

  ghost function Nodes(s: Shape): set<Node>
  {
    match s
    case Leaf => {}
    case Bin(l, n, r) => Nodes(l) + {n} + Nodes(r)
  }

  ghost function InOrder(s: Shape): seq<Node>
  {
    match s
    case Leaf => []
    case Bin(l, n, r) => InOrder(l) + [n] + InOrder(r)
  }

  /** Following the pointers from `t` visits exactly `s`. */
  ghost predicate Tree(t: Node?, s: Shape)
    reads Nodes(s)
  {
    match s
    case Leaf => t == null
    case Bin(l, n, r) => t == n && Tree(n.left, l) && Tree(n.right, r)
  }

  /** Strictly ordered by pid, so no node occurs twice. */
  ghost predicate SearchTree(s: Shape)
  {
    match s
    case Leaf => true
    case Bin(l, n, r) =>
      && SearchTree(l) && SearchTree(r)
      && (forall m | m in Nodes(l) :: m.pid < n.pid)
      && (forall m | m in Nodes(r) :: n.pid < m.pid)
  }

  lemma Separated(s: Shape)
    requires s.Bin? && SearchTree(s)
    ensures s.n !in Nodes(s.l) && s.n !in Nodes(s.r) && Nodes(s.l) !! Nodes(s.r)
  {
  }

  lemma {:induction false} DistinctPids(s: Shape)
    requires SearchTree(s)
    ensures forall a, b | a in Nodes(s) && b in Nodes(s) && a.pid == b.pid :: a == b
  {
    if s.Bin? {
      DistinctPids(s.l);
      DistinctPids(s.r);
    }
  }

  ghost predicate HasPid(s: Shape, pid: nat)
  {
    exists n | n in Nodes(s) :: n.pid == pid
  }

  /** The nodes of `q` except those of `pid`, in order. */
  ghost function Without(q: seq<Node>, pid: nat): seq<Node>
  {
    if q == [] then []
    else (if q[0].pid == pid then [] else [q[0]]) + Without(q[1..], pid)
  }

  lemma {:induction false} WithoutConcat(a: seq<Node>, b: seq<Node>, pid: nat)
    ensures Without(a + b, pid) == Without(a, pid) + Without(b, pid)
  {
    if a == [] {
      assert a + b == b;
    } else {
      WithoutConcat(a[1..], b, pid);
      TailOfConcat(a, b);
      Assoc(if a[0].pid == pid then [] else [a[0]], Without(a[1..], pid), Without(b, pid));
    }
  }

  lemma {:induction false} WithoutAbsent(s: Shape, pid: nat)
    requires !HasPid(s, pid)
    ensures Without(InOrder(s), pid) == InOrder(s)
  {
    match s
    case Leaf =>
    case Bin(l, n, r) =>
      assert n in Nodes(s);
      WithoutAbsent(l, pid);
      WithoutAbsent(r, pid);
      WithoutConcat(InOrder(l) + [n], InOrder(r), pid);
      WithoutConcat(InOrder(l), [n], pid);
  }

  /** Deleting distributes over a node whose own pid decides on which side the key can be. */
  lemma WithoutBin(l: Shape, n: Node, r: Shape, pid: nat)
    requires SearchTree(Bin(l, n, r))
    ensures pid < n.pid ==> Without(InOrder(Bin(l, n, r)), pid) == Without(InOrder(l), pid) + [n] + InOrder(r)
    ensures n.pid < pid ==> Without(InOrder(Bin(l, n, r)), pid) == InOrder(l) + [n] + Without(InOrder(r), pid)
    ensures pid == n.pid ==> Without(InOrder(Bin(l, n, r)), pid) == InOrder(l) + InOrder(r)
  {
    var a, b := InOrder(l), InOrder(r);
    assert InOrder(Bin(l, n, r)) == a + [n] + b;
    WithoutConcat(a + [n], b, pid);
    WithoutConcat(a, [n], pid);
    assert Without([n], pid) == if n.pid == pid then [] else [n];
    if pid <= n.pid { WithoutAbsent(r, pid); assert Without(b, pid) == b; }
    if n.pid <= pid { WithoutAbsent(l, pid); assert Without(a, pid) == a; }
    assert pid == n.pid ==> a + [] == a;
  }

  lemma {:induction false} InOrderNodes(s: Shape)
    ensures Nodes(s) == set n | n in InOrder(s)
  {
    match s
    case Leaf =>
    case Bin(l, n, r) => InOrderNodes(l); InOrderNodes(r);
  }

  ghost function PostOrder(s: Shape): seq<Node>
  {
    match s
    case Leaf => []
    case Bin(l, n, r) => PostOrder(l) + PostOrder(r) + [n]
  }

  /** A post-order walk meets every node exactly once. */
  lemma {:induction false} PostOrderOnce(s: Shape)
    requires SearchTree(s)
    ensures multiset(PostOrder(s)) == multiset(Nodes(s))
  {
    if s.Bin? {
      Separated(s);
      PostOrderOnce(s.l);
      PostOrderOnce(s.r);
    }
  }

  ghost predicate Strict(q: seq<Node>)
  {
    forall i, j | 0 <= i < j < |q| :: q[i].pid < q[j].pid
  }

  lemma StrictConcat(a: seq<Node>, b: seq<Node>)
    requires Strict(a) && Strict(b)
    requires forall x, y | x in a && y in b :: x.pid < y.pid
    ensures Strict(a + b)
  {
  }

  /** The in-order sequence of a search tree is strictly increasing: no pid and no node repeats. */
  lemma {:induction false} InOrderStrict(s: Shape)
    requires SearchTree(s)
    ensures Strict(InOrder(s))
  {
    match s
    case Leaf =>
    case Bin(l, n, r) =>
      InOrderStrict(l); InOrderStrict(r);
      InOrderNodes(l); InOrderNodes(r);
      assert forall x | x in InOrder(l) :: x in Nodes(l);
      StrictConcat(InOrder(l), [n]);
      assert forall y | y in InOrder(r) :: y in Nodes(r);
      StrictConcat(InOrder(l) + [n], InOrder(r));
  }

  // ----- Grafting a tree under the lowest node of another -----

  ghost function Lowest(s: Shape): (n: Node)
    requires s.Bin?
    ensures n in Nodes(s)
  {
    if s.l.Leaf? then s.n else Lowest(s.l)
  }

  /** `r` with `l` hung at its leftmost empty slot. */
  ghost function Graft(r: Shape, l: Shape): Shape
  {
    match r
    case Leaf => l
    case Bin(rl, n, rr) => Bin(Graft(rl, l), n, rr)
  }

  lemma {:induction false} GraftInOrder(r: Shape, l: Shape)
    ensures InOrder(Graft(r, l)) == InOrder(l) + InOrder(r)
    ensures Nodes(Graft(r, l)) == Nodes(l) + Nodes(r)
  {
    match r
    case Leaf =>
    case Bin(rl, n, rr) =>
      GraftInOrder(rl, l);
      assert InOrder(l) + InOrder(rl) + [n] + InOrder(rr) == InOrder(l) + (InOrder(rl) + [n] + InOrder(rr));
  }

  lemma {:induction false} GraftLeaf(r: Shape)
    ensures Graft(r, Leaf) == r
  {
    if r.Bin? { GraftLeaf(r.l); }
  }

  lemma {:induction false} GraftSearchTree(r: Shape, l: Shape)
    requires SearchTree(r) && SearchTree(l)
    requires forall a, b | a in Nodes(l) && b in Nodes(r) :: a.pid < b.pid
    ensures SearchTree(Graft(r, l))
  {
    match r
    case Leaf =>
    case Bin(rl, n, rr) =>
      GraftSearchTree(rl, l);
      GraftInOrder(rl, l);
  }

  // ----- The two updates, on shapes -----

  ghost function Inserted(s: Shape, node: Node): Shape
  {
    match s
    case Leaf => Bin(Leaf, node, Leaf)
    case Bin(l, n, r) =>
      if node.pid < n.pid then Bin(Inserted(l, node), n, r)
      else if node.pid > n.pid then Bin(l, n, Inserted(r, node))
      else s
  }

  lemma {:induction false} InsertedNodeSet(s: Shape, node: Node)
    requires SearchTree(s)
    ensures Nodes(Inserted(s, node)) == if HasPid(s, node.pid) then Nodes(s) else Nodes(s) + {node}
  {
    if s.Bin? {
      assert s.n in Nodes(s);
      if node.pid < s.n.pid { InsertedNodeSet(s.l, node); }
      if node.pid > s.n.pid { InsertedNodeSet(s.r, node); }
    }
  }

  lemma {:induction false} InsertedNodes(s: Shape, node: Node)
    requires SearchTree(s)
    ensures SearchTree(Inserted(s, node))
    ensures Nodes(Inserted(s, node)) == if HasPid(s, node.pid) then Nodes(s) else Nodes(s) + {node}
  {
    InsertedNodeSet(s, node);
    if s.Bin? {
      if node.pid < s.n.pid { InsertedNodes(s.l, node); }
      if node.pid > s.n.pid { InsertedNodes(s.r, node); }
    }
  }

  ghost function Deleted(s: Shape, pid: nat): Shape
  {
    match s
    case Leaf => Leaf
    case Bin(l, n, r) =>
      if pid < n.pid then Bin(Deleted(l, pid), n, r)
      else if pid > n.pid then Bin(l, n, Deleted(r, pid))
      else if r.Leaf? then l
      else Graft(r, l)
  }

  ghost function WithPid(s: Shape, pid: nat): set<Node>
  {
    set n | n in Nodes(s) && n.pid == pid
  }

  lemma WithPidBin(l: Shape, n: Node, r: Shape, pid: nat)
    requires SearchTree(Bin(l, n, r))
    ensures WithPid(Bin(l, n, r), pid) ==
            if pid < n.pid then WithPid(l, pid) else if pid > n.pid then WithPid(r, pid) else {n}
    ensures HasPid(Bin(l, n, r), pid) <==>
            if pid < n.pid then HasPid(l, pid) else if pid > n.pid then HasPid(r, pid) else true
  {
    assert n in Nodes(Bin(l, n, r));
  }

  /** The nodes a delete of `pid` releases: none, or the one its search ends at. */
  ghost function Hit(s: Shape, pid: nat): seq<Node>
  {
    match s
    case Leaf => []
    case Bin(l, n, r) => if pid < n.pid then Hit(l, pid) else if pid > n.pid then Hit(r, pid) else [n]
  }

  lemma {:induction false} HitOnce(s: Shape, pid: nat)
    requires SearchTree(s)
    ensures multiset(Hit(s, pid)) == multiset(WithPid(s, pid))
    ensures Hit(s, pid) == [] <==> !HasPid(s, pid)
  {
    if s.Bin? {
      WithPidBin(s.l, s.n, s.r, pid);
      if pid < s.n.pid { HitOnce(s.l, pid); }
      if pid > s.n.pid { HitOnce(s.r, pid); }
    }
  }

  lemma {:induction false} DeletedNodeSet(s: Shape, pid: nat)
    requires SearchTree(s)
    ensures Nodes(Deleted(s, pid)) == Nodes(s) - WithPid(s, pid)
  {
    if s.Bin? {
      WithPidBin(s.l, s.n, s.r, pid);
      Separated(s);
      if pid < s.n.pid {
        DeletedNodeSet(s.l, pid);
      } else if pid > s.n.pid {
        DeletedNodeSet(s.r, pid);
      } else {
        GraftInOrder(s.r, s.l);
      }
    }
  }

  lemma {:induction false} DeletedNodes(s: Shape, pid: nat)
    requires SearchTree(s)
    ensures Nodes(Deleted(s, pid)) == Nodes(s) - WithPid(s, pid)
    ensures SearchTree(Deleted(s, pid))
  {
    DeletedNodeSet(s, pid);
    if s.Bin? {
      if pid < s.n.pid {
        DeletedNodes(s.l, pid);
      } else if pid > s.n.pid {
        DeletedNodes(s.r, pid);
      } else {
        GraftSearchTree(s.r, s.l);
      }
    }
  }

  /** A delete removes exactly the node of `pid` from the in-order sequence. */
  lemma {:induction false} DeletedInOrder(s: Shape, pid: nat)
    requires SearchTree(s)
    ensures InOrder(Deleted(s, pid)) == Without(InOrder(s), pid)
  {
    if s.Bin? {
      WithoutBin(s.l, s.n, s.r, pid);
      if pid < s.n.pid {
        DeletedInOrder(s.l, pid);
      } else if pid > s.n.pid {
        DeletedInOrder(s.r, pid);
      } else {
        GraftInOrder(s.r, s.l);
      }
    }
  }

  // ----- Links as a value, so that a tree before an update can be compared with the tree after it -----

  type Links = map<Node, (Node?, Node?)>

  ghost function LinksOf(nodes: set<Node>): Links
    reads nodes
  {
    map n | n in nodes :: (n.left, n.right)
  }

  ghost predicate TreeIn(links: Links, t: Node?, s: Shape)
  {
    match s
    case Leaf => t == null
    case Bin(l, n, r) =>
      t == n && n in links && TreeIn(links, links[n].0, l) && TreeIn(links, links[n].1, r)
  }

  lemma {:induction false} TreeOfLinks(nodes: set<Node>, t: Node?, s: Shape)
    requires Nodes(s) <= nodes
    ensures Tree(t, s) <==> TreeIn(LinksOf(nodes), t, s)
    decreases s
  {
    if s.Bin? {
      TreeOfLinks(nodes, s.n.left, s.l);
      TreeOfLinks(nodes, s.n.right, s.r);
    }
  }

  lemma {:induction false} TreeInFrame(before: Links, after: Links, t: Node?, s: Shape)
    requires TreeIn(before, t, s)
    requires forall n | n in Nodes(s) :: n in before && n in after && after[n] == before[n]
    ensures TreeIn(after, t, s)
  {
    if s.Bin? {
      TreeInFrame(before, after, before[s.n].0, s.l);
      TreeInFrame(before, after, before[s.n].1, s.r);
    }
  }

  /** Overwriting the left link of the lowest node, and no other, is a graft. */
  lemma {:induction false} GraftTree(before: Links, after: Links, t: Node?, r: Shape, l: Shape)
    requires r.Bin? && SearchTree(r) && TreeIn(before, t, r)
    requires forall n | n in Nodes(r) :: n in before && n in after && after[n].1 == before[n].1
    requires forall n | n in Nodes(r) && n != Lowest(r) :: after[n].0 == before[n].0
    requires TreeIn(after, after[Lowest(r)].0, l)
    ensures TreeIn(after, t, Graft(r, l))
  {
    var Bin(rl, n, rr) := r;
    assert Lowest(r) !in Nodes(rr);
    TreeInFrame(before, after, before[n].1, rr);
    if rl.Bin? {
      assert n !in Nodes(rl);
      GraftTree(before, after, before[n].0, rl, l);
    }
  }

  class ProcessTable {
    // s_ProcessIdToFullLoadImageNameMappingTree
    var root: Node?
    ghost var shape: Shape
    // The CONFIG_TAG allocations not yet released
    ghost var pool: set<Node>
    // What the tree stands for
    ghost var contents: Table

    ghost predicate Valid()
      reads this, pool
    {
      pool == Nodes(shape) && Tree(root, shape) && SearchTree(shape)
      && Covers(contents, Nodes(shape)) && Stores(contents, Nodes(shape))
    }

    /** Lets the verifier see that writing this object's fields leaves the nodes alone. */
    ghost predicate NotANode(s: Shape)
    {
      var nodes: set<object> := Nodes(s);
      this !in nodes
    }

    constructor ()
      ensures Valid() && contents == map[] && pool == {}
    {
      root, pool, shape, contents := null, {}, Leaf, map[];
    }

    static function BstLookup(tree: Node?, pid: nat, ghost s: Shape): (r: Node?)
      requires Tree(tree, s) && SearchTree(s)
      reads Nodes(s)
      ensures r != null ==> r in Nodes(s) && r.pid == pid
      ensures r == null ==> !HasPid(s, pid)
      decreases s
    {
      if tree != null && tree.pid < pid then BstLookup(tree.right, pid, s.r)
      else if tree != null && tree.pid > pid then BstLookup(tree.left, pid, s.l)
      else tree
    }

    static method BstInsert(tree: Node?, node: Node, ghost s: Shape) returns (slot: Node?, status: Status)
      requires Tree(tree, s) && SearchTree(s)
      requires node !in Nodes(s) && node.left == null && node.right == null
      modifies Nodes(s)`left, Nodes(s)`right
      ensures Tree(slot, Inserted(s, node))
      ensures status == if HasPid(s, node.pid) then AlreadyInitialized else Success
      decreases s
    {
      if tree == null {
        return node, Success;
      }
      Separated(s);
      assert allocated(Nodes(s.l)) && allocated(Nodes(s.r));
      slot := tree;
      if node.pid < tree.pid {
        var left;
        left, status := BstInsert(tree.left, node, s.l);
        tree.left := left;
      } else if node.pid > tree.pid {
        var right;
        right, status := BstInsert(tree.right, node, s.r);
        tree.right := right;
      } else {
        status := AlreadyInitialized;
      }
    }

    /** `freed` lists the ExFreePoolWithTag calls in order. */
    static method BstDelete(tree: Node?, pid: nat, ghost s: Shape)
      returns (slot: Node?, status: Status, ghost freed: seq<Node>)
      requires Tree(tree, s) && SearchTree(s)
      modifies Nodes(s)`left, Nodes(s)`right
      ensures Tree(slot, Deleted(s, pid))
      ensures status == if Hit(s, pid) == [] then NotInJob else InJob
      ensures freed == Hit(s, pid)
      decreases s
    {
      freed := [];
      if tree == null {
        return null, NotInJob, [];
      }
      Separated(s);
      assert allocated(Nodes(s.l)) && allocated(Nodes(s.r));
      if pid < tree.pid {
        var left;
        left, status, freed := BstDelete(tree.left, pid, s.l);
        DeletedNodes(s.l, pid);
        assert Deleted(s, pid) == Bin(Deleted(s.l, pid), s.n, s.r);
        tree.left := left;
        slot := tree;
      } else if pid > tree.pid {
        var right;
        right, status, freed := BstDelete(tree.right, pid, s.r);
        DeletedNodes(s.r, pid);
        assert Deleted(s, pid) == Bin(s.l, s.n, Deleted(s.r, pid));
        tree.right := right;
        slot := tree;
      } else {
        slot, freed := BstDetachRoot(tree, s);
        status := InJob;
      }
    }

    /** The match case of BstDelete, Config.c lines 137-165. */
    static method BstDetachRoot(tree: Node, ghost s: Shape) returns (slot: Node?, ghost freed: seq<Node>)
      requires Tree(tree, s) && SearchTree(s)
      modifies Nodes(s)`left, Nodes(s)`right
      ensures Tree(slot, Deleted(s, tree.pid))
      ensures freed == [tree]
    {
      freed := [tree];
      if tree.left == null {
        GraftLeaf(s.r);
        return tree.right, freed;
      }
      if tree.right == null {
        return tree.left, freed;
      }
      var node: Node := tree.right;
      ghost var walk := s.r;
      while node.left != null
        invariant walk.Bin? && Tree(node, walk)
        invariant Lowest(walk) == Lowest(s.r)
        decreases walk
      {
        node := node.left;
        walk := walk.l;
      }
      Separated(s);
      ghost var before := LinksOf(Nodes(s));
      TreeOfLinks(Nodes(s), tree.right, s.r);
      node.left := tree.left;
      ghost var after := LinksOf(Nodes(s));
      TreeOfLinks(Nodes(s), tree.left, s.l);
      GraftTree(before, after, tree.right, s.r, s.l);
      GraftInOrder(s.r, s.l);
      TreeOfLinks(Nodes(s), tree.right, Graft(s.r, s.l));
      slot := tree.right;
    }

    static method BstFlushEvaluationCache(tree: Node?, ghost s: Shape)
      requires Tree(tree, s) && SearchTree(s)
      modifies Nodes(s)`evaluationCache
      ensures Tree(tree, s)
      ensures forall n | n in Nodes(s) :: n.evaluationCache == Empty
      decreases s
    {
      if tree != null {
        Separated(s);
        assert allocated(Nodes(s.l)) && allocated(Nodes(s.r));
        BstFlushEvaluationCache(tree.left, s.l);
        BstFlushEvaluationCache(tree.right, s.r);
        tree.evaluationCache := Empty;
      }
    }

    /** Releases every node, children before parents, none of them twice. */
    static method BstCleanup(tree: Node?, ghost s: Shape) returns (slot: Node?, ghost freed: seq<Node>)
      requires Tree(tree, s) && SearchTree(s)
      modifies Nodes(s)`left, Nodes(s)`right
      ensures slot == null && freed == PostOrder(s)
      decreases s
    {
      slot, freed := tree, [];
      if tree != null {
        Separated(s);
        assert allocated(Nodes(s.l)) && allocated(Nodes(s.r));
        var left, right;
        ghost var freedLeft, freedRight;
        left, freedLeft := BstCleanup(tree.left, s.l);
        tree.left := left;
        right, freedRight := BstCleanup(tree.right, s.r);
        tree.right := right;
        slot, freed := null, freedLeft + freedRight + [s.n];
      }
    }

    /** BstNewNode: zeroed memory, a bounded copy of the name, and its reading as a terminated string. */
    static method BstNewNode(pid: nat, fullImageName: string, memory: bool) returns (node: Node?, status: Status)
      ensures status == if !memory then NoMemory else if !Storable(fullImageName) then BufferOverflow else Success
      ensures status == BufferOverflow <==> memory && |fullImageName| > 32766
      ensures node == null <==> status != Success
      ensures node != null ==> fresh(node) && node.pid == pid && node.fullImageName == CString(fullImageName)
      ensures node != null ==> node.left == null && node.right == null && node.evaluationCache == Empty
    {
      if !memory {
        return null, NoMemory;
      }
      if MAX_NAME_CCH <= |fullImageName| {
        return null, BufferOverflow;
      }
      node := new Node(pid, CString(fullImageName));
      status := Success;
    }

    /** Stores a slot's new value in the static root. */
    method Install(slot: Node?, ghost s: Shape, ghost pool: set<Node>, ghost contents: Table)
      requires Tree(slot, s) && SearchTree(s) && pool == Nodes(s)
      requires Covers(contents, Nodes(s)) && Stores(contents, Nodes(s))
      modifies this
      ensures Valid() && shape == s && this.contents == contents
    {
      assert NotANode(s);
      root, shape, this.pool, this.contents := slot, s, pool, contents;
    }

    /** HidHideProcessIdRegister.  The insert follows a failed lookup, so it never meets a duplicate. */
    method Register(handle: nat, fullImageName: string, memory: bool) returns (status: Status)
      requires Valid()
      modifies this, pool`left, pool`right
      ensures Valid() && fresh(pool - old(pool))
      ensures contents == Registered(old(contents), ProcessId(handle), fullImageName, memory)
      ensures status == RegisterStatus(old(contents), ProcessId(handle), fullImageName, memory)
    {
      var pid := ProcessId(handle);
      var found := BstLookup(root, pid, shape);
      if found != null {
        return InJob;
      }
      var node;
      node, status := BstNewNode(pid, fullImageName, memory);
      if node == null {
        return;
      }
      ghost var s, s' := shape, Inserted(shape, node);
      assert allocated(Nodes(s));
      var slot;
      slot, status := BstInsert(root, node, s);
      assert status == Success;
      InsertedNodes(s, node);
      CoversInserted(contents, s, node, Entry(node.fullImageName, Empty));
      Install(slot, s', pool + {node}, contents[pid := Entry(node.fullImageName, Empty)]);
    }

    /** HidHideProcessIdUnregister. */
    method Unregister(handle: nat) returns (status: Status)
      requires Valid()
      modifies this, pool`left, pool`right
      ensures Valid() && pool <= old(pool)
      ensures shape == Deleted(old(shape), ProcessId(handle))
      ensures contents == Unregistered(old(contents), ProcessId(handle))
      ensures status == Success
    {
      var pid := ProcessId(handle);
      ghost var s, s' := shape, Deleted(shape, pid);
      assert allocated(Nodes(s));
      var slot;
      ghost var freed;
      slot, status, freed := BstDelete(root, pid, s);
      DeletedNodes(s, pid);
      HitOnce(s, pid);
      ElementsOf(freed, WithPid(s, pid));
      CoversDeleted(contents, s, pid);
      Install(slot, s', pool - (set n | n in freed), contents - {pid});
      status := Success;
    }

    /** HidHideProcessIdCheckFullImageNameAgainstWhitelist. */
    method Check(fold: char -> char, handle: nat, whitelist: seq<string>) returns (status: Status, cacheHit: bool)
      requires Valid()
      modifies this`contents, pool`evaluationCache
      ensures Valid()
      ensures contents == Checked(fold, old(contents), ProcessId(handle), whitelist)
      ensures status == CheckStatus(fold, old(contents), ProcessId(handle), whitelist)
      ensures cacheHit <==> ProcessId(handle) in old(contents) && old(contents)[ProcessId(handle)].cache != Empty
    {
      var pid := ProcessId(handle);
      var node := BstLookup(root, pid, shape);
      cacheHit := node != null && node.evaluationCache != Empty;
      if node == null {
        return Success, cacheHit;
      }
      if node.evaluationCache == Found {
        return InJob, cacheHit;
      }
      if node.evaluationCache == NotFound {
        return NotInJob, cacheHit;
      }
      var found := Scan(fold, whitelist, node.fullImageName);
      Memoise(node, if found then Found else NotFound);
      status := if found then InJob else NotInJob;
    }

    method Memoise(node: Node, verdict: EvaluationCache)
      requires Valid() && node in Nodes(shape)
      modifies this`contents, node`evaluationCache
      ensures Valid()
      ensures node.pid in old(contents)
      ensures contents == old(contents)[node.pid := old(contents)[node.pid].(cache := verdict)]
    {
      DistinctPids(shape);
      assert NotANode(shape);
      ghost var links := LinksOf(Nodes(shape));
      TreeOfLinks(Nodes(shape), root, shape);
      node.evaluationCache := verdict;
      contents := contents[node.pid := contents[node.pid].(cache := verdict)];
      assert links == LinksOf(Nodes(shape));
      TreeOfLinks(Nodes(shape), root, shape);
    }

    /** The scan of lines 352-362. */
    static method Scan(fold: char -> char, whitelist: seq<string>, fullImageName: string) returns (found: bool)
      ensures found == Listed(fold, whitelist, fullImageName)
    {
      var index := 0;
      while index < |whitelist|
        invariant index <= |whitelist|
        invariant forall i | 0 <= i < index :: !SameName(fold, whitelist[i], fullImageName)
      {
        if SameName(fold, whitelist[index], fullImageName) {
          return true;
        }
        index := index + 1;
      }
      return false;
    }

    /** HidHideProcessIdsFlushWhitelistEvaluationCache. */
    method Flush()
      requires Valid()
      modifies this`contents, pool`evaluationCache
      ensures Valid() && contents == Flushed(old(contents))
    {
      BstFlushEvaluationCache(root, shape);
      contents := Flushed(contents);
    }

    /** HidHideProcessIdsCleanup. */
    method Cleanup()
      requires Valid()
      modifies this, pool`left, pool`right
      ensures Valid() && contents == map[] && pool == {}
    {
      ghost var freed;
      var slot;
      slot, freed := BstCleanup(root, shape);
      PostOrderOnce(shape);
      ElementsOf(freed, Nodes(shape));
      Install(slot, Leaf, pool - (set n | n in freed), map[]);
    }
  }

  lemma CoversInserted(t: Table, s: Shape, node: Node, entry: Entry)
    requires Covers(t, Nodes(s)) && !HasPid(s, node.pid)
    ensures node.pid !in t && Covers(t[node.pid := entry], Nodes(s) + {node})
  {
    var t' := t[node.pid := entry];
    forall pid | pid in t'
      ensures exists n | n in Nodes(s) + {node} :: n.pid == pid
    {
      if pid == node.pid {
        assert node in Nodes(s) + {node};
      } else {
        var n :| n in Nodes(s) && n.pid == pid;
        assert n in Nodes(s) + {node};
      }
    }
  }

  lemma CoversDeleted(t: Table, s: Shape, pid: nat)
    requires Covers(t, Nodes(s))
    ensures Covers(t - {pid}, Nodes(s) - WithPid(s, pid))
  {
    forall p | p in t - {pid}
      ensures exists n | n in Nodes(s) - WithPid(s, pid) :: n.pid == p
    {
      var n :| n in Nodes(s) && n.pid == p;
      assert n in Nodes(s) - WithPid(s, pid);
    }
  }

  lemma ElementsOf(q: seq<Node>, nodes: set<Node>)
    requires multiset(q) == multiset(nodes)
    ensures (set n | n in q) == nodes
  {
    assert forall n | n in q :: n in multiset(q);
    assert forall n | n in nodes :: n in multiset(q);
  }

  /** `t` knows exactly the pids of `nodes`... */
  ghost predicate Covers(t: Table, nodes: set<Node>)
  {
    && (forall n | n in nodes :: n.pid in t)
    && (forall pid | pid in t :: exists n | n in nodes :: n.pid == pid)
  }

  /** ... and holds their names and verdicts. */
  ghost predicate Stores(t: Table, nodes: set<Node>)
    reads nodes
  {
    forall n | n in nodes :: n.pid in t && t[n.pid] == Entry(n.fullImageName, n.evaluationCache)
  }
}
