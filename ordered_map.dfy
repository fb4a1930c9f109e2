/** An ordered map from int keys to int values on an unbalanced binary search
    tree (homework/hw4). The tree is a value here: each recursive operation
    returns the subtree that the source links back into its parent. The map
    object keeps the root and a separately maintained size. */
module OrderedMaps {

  datatype Tree = Nil | Node(left: Tree, key: int, value: int, right: Tree)

  /** The entries stored in a tree (a later key on the right wins, which only
      matters for trees that are not search trees). */
  function Entries(t: Tree): map<int, int>
  {
    match t
    case Nil => map[]
    case Node(l, k, v, r) => Entries(l) + Entries(r) + map[k := v]
  }

  /** The number of nodes in a tree. */
  function NodeCount(t: Tree): nat
  {
    match t
    case Nil => 0
    case Node(l, _, _, r) => NodeCount(l) + 1 + NodeCount(r)
  }

  /** Search-tree ordering: every key on the left of a node is smaller than the
      node's key and every key on the right is larger. */
  predicate IsBst(t: Tree)
  {
    match t
    case Nil => true
    case Node(l, k, _, r) =>
      IsBst(l) && IsBst(r) &&
      (forall j :: j in Entries(l) ==> j < k) &&
      (forall j :: j in Entries(r) ==> k < j)
  }

  /** The map after inserting `key` with `value` when absent; a present key
      keeps its value. */
  function Put(m: map<int, int>, key: int, value: int): map<int, int>
  {
    if key in m then m else m[key := value]
  }

  /** Keys strictly increase along the sequence. */
  predicate Ascending(s: seq<(int, int)>)
  {
    forall i, j :: 0 <= i < j < |s| ==> s[i].0 < s[j].0
  }

  /** The keys that occur in a sequence of (key, value) pairs. */
  function KeySet(s: seq<(int, int)>): set<int>
  {
    set p | p in s :: p.0
  }

  /** Every pair of the sequence is an entry of `m`. */
  predicate EntriesOf(s: seq<(int, int)>, m: map<int, int>)
  {
    forall p :: p in s ==> p.0 in m && m[p.0] == p.1
  }

  /* Map algebra for one node: `l + r + map[k := v]` is the entries of a node
     with subtrees holding `l` and `r`. */

  lemma PutLeft(l: map<int, int>, k: int, v: int, r: map<int, int>, key: int, value: int)
    requires key < k
    ensures Put(l, key, value) + r + map[k := v] == Put(l + r + map[k := v], key, value)
  {
  }

  lemma PutRight(l: map<int, int>, k: int, v: int, r: map<int, int>, key: int, value: int)
    requires k < key && forall j :: j in l ==> j < k
    ensures l + Put(r, key, value) + map[k := v] == Put(l + r + map[k := v], key, value)
  {
  }

  lemma RemoveLeft(l: map<int, int>, k: int, v: int, r: map<int, int>, key: int)
    requires key < k && forall j :: j in r ==> k < j
    ensures (l - {key}) + r + map[k := v] == (l + r + map[k := v]) - {key}
  {
  }

  lemma RemoveRight(l: map<int, int>, k: int, v: int, r: map<int, int>, key: int)
    requires k < key && forall j :: j in l ==> j < k
    ensures l + (r - {key}) + map[k := v] == (l + r + map[k := v]) - {key}
  {
  }

  lemma RemoveRoot(l: map<int, int>, k: int, v: int, r: map<int, int>)
    requires k !in l && k !in r
    ensures l + r == (l + r + map[k := v]) - {k}
  {
  }

  lemma ReplaceRoot(l: map<int, int>, k: int, v: int, r: map<int, int>, mk: int)
    requires k !in l && k !in r && mk in r && mk !in l
    ensures l + (r - {mk}) + map[mk := r[mk]] == (l + r + map[k := v]) - {k}
  {
  }

  /** insert: adds the entry when the key is new; an existing key keeps its
      old value. It always returns a node, and the old root when there was
      one. */
  function TreeInsert(t: Tree, key: int, value: int): (r: Tree)
    ensures r.Node? && (t.Node? ==> r.key == t.key && r.value == t.value)
  {
    match t
    case Nil => Node(Nil, key, value, Nil)
    case Node(l, k, v, rt) =>
      if key < k then Node(TreeInsert(l, key, value), k, v, rt)
      else if key > k then Node(l, k, v, TreeInsert(rt, key, value))
      else t
  }

  /** On a search tree, insert keeps the ordering and adds exactly the new
      entry; a key already present keeps its old value. */
  lemma {:induction false} InsertCorrect(t: Tree, key: int, value: int)
    requires IsBst(t)
    ensures IsBst(TreeInsert(t, key, value))
    ensures Entries(TreeInsert(t, key, value)) == Put(Entries(t), key, value)
  {
    match t
    case Nil =>
    case Node(l, k, v, rt) =>
      if key < k {
        InsertCorrect(l, key, value);
        PutLeft(Entries(l), k, v, Entries(rt), key, value);
      } else if key > k {
        InsertCorrect(rt, key, value);
        PutRight(Entries(l), k, v, Entries(rt), key, value);
      }
  }

  /** Inserting a key that is already present returns the very same tree. */
  lemma {:induction false} InsertExisting(t: Tree, key: int, value: int)
    requires IsBst(t) && key in Entries(t)
    ensures TreeInsert(t, key, value) == t
  {
    match t
    case Node(l, k, v, rt) =>
      if key < k {
        InsertExisting(l, key, value);
      } else if key > k {
        InsertExisting(rt, key, value);
      }
  }

  /** The leftmost entry of a non-empty tree. */
  function MinEntry(t: Tree): (e: (int, int))
    requires t.Node?
    ensures e.0 in Entries(t)
  {
    if t.left == Nil then (t.key, t.value) else MinEntry(t.left)
  }

  /** In a search tree the leftmost entry is the smallest key with its value. */
  lemma {:induction false} MinEntryIsLeast(t: Tree)
    requires t.Node? && IsBst(t)
    ensures Entries(t)[MinEntry(t).0] == MinEntry(t).1
    ensures forall j :: j in Entries(t) ==> MinEntry(t).0 <= j
  {
    if t.left != Nil {
      MinEntryIsLeast(t.left);
    }
  }

  /** findMin: walks left until there is no left child. */
  method FindMin(node: Tree) returns (k: int, v: int)
    requires node.Node?
    ensures (k, v) == MinEntry(node)
  {
    var n := node;
    while n.left != Nil
      invariant n.Node? && MinEntry(n) == MinEntry(node)
      decreases n
    {
      n := n.left;
    }
    return n.key, n.value;
  }

  /** deleteMin: unlinks the leftmost node of a non-empty tree. */
  function DeleteMin(t: Tree): (r: Tree)
    requires t.Node?
    ensures t.left.Node? ==> r.Node? && r.key == t.key && r.value == t.value
  {
    if t.left == Nil then t.right else Node(DeleteMin(t.left), t.key, t.value, t.right)
  }

  /** On a search tree, deleteMin removes exactly the smallest key. */
  lemma {:induction false} DeleteMinCorrect(t: Tree)
    requires t.Node? && IsBst(t)
    ensures IsBst(DeleteMin(t))
    ensures Entries(DeleteMin(t)) == Entries(t) - {MinEntry(t).0}
  {
    var Node(l, k, v, rt) := t;
    if l == Nil {
      RemoveRoot(Entries(l), k, v, Entries(rt));
    } else {
      DeleteMinCorrect(l);
      RemoveLeft(Entries(l), k, v, Entries(rt), MinEntry(l).0);
    }
  }

  /** erase: removes the key's entry if there is one. A node with two children
      takes over the smallest entry of its right subtree. A root whose key is
      not the erased one stays the root. */
  function TreeErase(t: Tree, key: int): (r: Tree)
    ensures t.Node? && key != t.key ==> r.Node? && r.key == t.key && r.value == t.value
  {
    match t
    case Nil => Nil
    case Node(l, k, v, rt) =>
      if key < k then Node(TreeErase(l, key), k, v, rt)
      else if key > k then Node(l, k, v, TreeErase(rt, key))
      else if l == Nil then rt
      else if rt == Nil then l
      else
        var (mk, mv) := MinEntry(rt);
        Node(l, mk, mv, DeleteMin(rt))
  }

  /** On a search tree, erase keeps the ordering and removes exactly `key`. */
  lemma {:induction false} EraseCorrect(t: Tree, key: int)
    requires IsBst(t)
    ensures IsBst(TreeErase(t, key))
    ensures Entries(TreeErase(t, key)) == Entries(t) - {key}
  {
    match t
    case Nil =>
    case Node(l, k, v, rt) =>
      if key < k {
        EraseCorrect(l, key);
        RemoveLeft(Entries(l), k, v, Entries(rt), key);
      } else if key > k {
        EraseCorrect(rt, key);
        RemoveRight(Entries(l), k, v, Entries(rt), key);
      } else if l == Nil || rt == Nil {
        RemoveRoot(Entries(l), k, v, Entries(rt));
      } else {
        MinEntryIsLeast(rt);
        DeleteMinCorrect(rt);
        ReplaceRoot(Entries(l), k, v, Entries(rt), MinEntry(rt).0);
      }
  }

  /** contains: the search follows the ordering; in a search tree it finds
      exactly the stored keys. */
  function TreeContains(t: Tree, key: int): (b: bool)
    ensures b ==> key in Entries(t)
    ensures IsBst(t) ==> (b <==> key in Entries(t))
  {
    match t
    case Nil => false
    case Node(l, k, _, r) =>
      if key < k then TreeContains(l, key)
      else if key > k then TreeContains(r, key)
      else true
  }

  /** forEach: the (key, value) pairs in the order the in-order walk hands them
      to the action. */
  function TreeForEach(t: Tree): seq<(int, int)>
  {
    match t
    case Nil => []
    case Node(l, k, v, r) => TreeForEach(l) + [(k, v)] + TreeForEach(r)
  }

  /* Node counts: insert adds a node and erase removes one exactly when the
     search for the key (the same path both take) fails or succeeds, on any
     tree; the walk visits every node once. */

  lemma {:induction false} InsertCount(t: Tree, key: int, value: int)
    ensures NodeCount(TreeInsert(t, key, value)) == NodeCount(t) + if TreeContains(t, key) then 0 else 1
  {
    match t
    case Nil =>
    case Node(l, k, _, r) =>
      if key < k {
        InsertCount(l, key, value);
      } else if key > k {
        InsertCount(r, key, value);
      }
  }

  lemma {:induction false} DeleteMinCount(t: Tree)
    requires t.Node?
    ensures NodeCount(DeleteMin(t)) == NodeCount(t) - 1
  {
    if t.left.Node? {
      DeleteMinCount(t.left);
    }
  }

  lemma {:induction false} EraseCount(t: Tree, key: int)
    ensures NodeCount(TreeErase(t, key)) == NodeCount(t) - if TreeContains(t, key) then 1 else 0
  {
    match t
    case Nil =>
    case Node(l, k, _, r) =>
      if key < k {
        EraseCount(l, key);
      } else if key > k {
        EraseCount(r, key);
      } else if l.Node? && r.Node? {
        DeleteMinCount(r);
      }
  }

  lemma {:induction false} ForEachLength(t: Tree)
    ensures |TreeForEach(t)| == NodeCount(t)
  {
    match t
    case Nil =>
    case Node(l, _, _, r) =>
      ForEachLength(l);
      ForEachLength(r);
  }

  lemma KeySetJoin(a: seq<(int, int)>, p: (int, int), b: seq<(int, int)>)
    ensures KeySet(a + [p] + b) == KeySet(a) + {p.0} + KeySet(b)
  {
    assert forall q :: q in a + [p] + b <==> q in a || q == p || q in b;
  }

  lemma AscendingJoin(a: seq<(int, int)>, p: (int, int), b: seq<(int, int)>)
    requires Ascending(a) && Ascending(b)
    requires forall j :: j in KeySet(a) ==> j < p.0
    requires forall j :: j in KeySet(b) ==> p.0 < j
    ensures Ascending(a + [p] + b)
  {
    var s := a + [p] + b;
    forall i, j | 0 <= i < j < |s|
      ensures s[i].0 < s[j].0
    {
      if j < |a| {
        assert s[i] == a[i] && s[j] == a[j];
      } else if i < |a| {
        assert s[i] == a[i] && a[i] in a && a[i].0 in KeySet(a);
        if j > |a| {
          assert s[j] == b[j - |a| - 1] && b[j - |a| - 1] in b && s[j].0 in KeySet(b);
        }
      } else if i == |a| {
        assert s[j] == b[j - |a| - 1] && b[j - |a| - 1] in b && s[j].0 in KeySet(b);
      } else {
        assert s[i] == b[i - |a| - 1] && s[j] == b[j - |a| - 1];
      }
    }
  }

  lemma EntriesOfJoin(a: seq<(int, int)>, p: (int, int), b: seq<(int, int)>,
                      ma: map<int, int>, mb: map<int, int>, m: map<int, int>)
    requires EntriesOf(a, ma) && EntriesOf(b, mb)
    requires forall j :: j in ma ==> j in m && m[j] == ma[j]
    requires forall j :: j in mb ==> j in m && m[j] == mb[j]
    requires p.0 in m && m[p.0] == p.1
    ensures EntriesOf(a + [p] + b, m)
  {
    forall q | q in a + [p] + b
      ensures q.0 in m && m[q.0] == q.1
    {
      var key := q.0;
      if q in a {
        assert key in ma;
      } else if q in b {
        assert key in mb;
      } else {
        assert q == p;
      }
    }
  }

  /** The walk yields exactly the keys of the tree. */
  lemma {:induction false} ForEachKeys(t: Tree)
    ensures KeySet(TreeForEach(t)) == Entries(t).Keys
  {
    match t
    case Nil =>
    case Node(l, k, v, r) =>
      ForEachKeys(l);
      ForEachKeys(r);
      KeySetJoin(TreeForEach(l), (k, v), TreeForEach(r));
  }

  /** In a search tree the walk yields the keys in strictly ascending order,
      each with its stored value. */
  lemma {:induction false} ForEachOrdered(t: Tree)
    ensures IsBst(t) ==> Ascending(TreeForEach(t)) && EntriesOf(TreeForEach(t), Entries(t))
  {
    match t
    case Nil =>
    case Node(l, k, v, r) =>
      if !IsBst(t) {
        return;
      }
      ForEachOrdered(l);
      ForEachOrdered(r);
      ForEachKeys(l);
      ForEachKeys(r);
      AscendingJoin(TreeForEach(l), (k, v), TreeForEach(r));
      EntriesOfJoin(TreeForEach(l), (k, v), TreeForEach(r), Entries(l), Entries(r), Entries(t));
  }

  /** When erase hits a node with two children, the node takes over the entry
      of the next larger key: the smallest key of the tree above the erased one. */
  lemma EraseTakesSuccessor(t: Tree)
    requires IsBst(t) && t.Node? && t.left.Node? && t.right.Node?
    ensures TreeErase(t, t.key).Node?
    ensures var s := TreeErase(t, t.key).key;
            t.key < s && s in Entries(t) && Entries(t)[s] == TreeErase(t, t.key).value &&
            forall j :: j in Entries(t) && t.key < j ==> s <= j
  {
    MinEntryIsLeast(t.right);
  }

  /** The map object: the root of the tree and a size counter that Insert and
      Erase adjust on their own, apart from what the tree holds. */
  class OrderedMap {
    var root: Tree
    var size: int

    ghost predicate Valid()
      reads this
    {
      IsBst(root)
    }

    /** The entries the map holds. */
    ghost function Contents(): map<int, int>
      reads this
    {
      Entries(root)
    }

    /** NewOrderedMap: an empty tree and a size of 0. */
    constructor ()
      ensures Valid() && Contents() == map[] && root == Nil && size == 0
    {
      root := Nil;
      size := 0;
    }

    /** Insert: the entry goes in when the key is new (an existing key keeps its
        value), and the size counts one more either way. */
    method Insert(key: int, value: int)
      requires Valid()
      modifies this
      ensures Valid() && root == TreeInsert(old(root), key, value)
      ensures Contents() == Put(old(Contents()), key, value)
      ensures size == old(size) + 1
    {
      InsertCorrect(root, key, value);
      root := TreeInsert(root, key, value);
      size := size + 1;
    }

    /** Erase: the key's entry goes out; the size drops by one whenever the key
        is absent afterwards, which after an erase is always. */
    method Erase(key: int)
      requires Valid()
      modifies this
      ensures Valid() && root == TreeErase(old(root), key)
      ensures Contents() == old(Contents()) - {key}
      ensures size == old(size) - 1
    {
      EraseCorrect(root, key);
      root := TreeErase(root, key);
      if !Contains(key) {
        size := size - 1;
      }
    }

    /** Contains: the search finds only stored keys, and on a search tree
        (which every operation here keeps) it finds every one of them. */
    function Contains(key: int): (b: bool)
      reads this
      ensures b ==> key in Contents()
      ensures Valid() ==> (b <==> key in Contents())
    {
      TreeContains(root, key)
    }

    /** Size: the counter as Insert and Erase left it. */
    function Size(): (n: int)
      reads this
      ensures n == size
    {
      size
    }

    /** ForEach: the pairs handed to the action, which visits every entry once
        in ascending key order. */
    function ForEach(): (s: seq<(int, int)>)
      reads this
      ensures KeySet(s) == Contents().Keys
      ensures Valid() ==> Ascending(s) && EntriesOf(s, Contents())
    {
      ForEachKeys(root);
      ForEachOrdered(root);
      TreeForEach(root)
    }

    /** The size counter agrees with the number of entries. */
    ghost predicate Counted()
      reads this
    {
      size == |Entries(root)|
    }

    /** Insert with the size counting only a key that was new. */
    method InsertCounted(key: int, value: int)
      requires Valid() && Counted()
      modifies this
      ensures Valid() && Counted() && root == TreeInsert(old(root), key, value)
      ensures Contents() == Put(old(Contents()), key, value)
    {
      InsertCorrect(root, key, value);
      if !Contains(key) {
        size := size + 1;
      }
      root := TreeInsert(root, key, value);
    }

    /** Erase with the size dropping only when an entry was removed. */
    method EraseCounted(key: int)
      requires Valid() && Counted()
      modifies this
      ensures Valid() && Counted() && root == TreeErase(old(root), key)
      ensures Contents() == old(Contents()) - {key}
    {
      EraseCorrect(root, key);
      if Contains(key) {
        size := size - 1;
      }
      root := TreeErase(root, key);
    }
  }

  /** The in-order walks of the two trees the test builds: the seven keys
      inserted, and what is left after erasing 15, 14 and 2. */
  lemma SampleWalks()
    ensures TreeForEach(Node(Node(Node(Nil, 2, 2, Node(Nil, 4, 4, Nil)), 5, 5, Nil), 10, 10,
                             Node(Node(Nil, 12, 12, Node(Nil, 14, 14, Nil)), 15, 15, Nil)))
            == [(2, 2), (4, 4), (5, 5), (10, 10), (12, 12), (14, 14), (15, 15)]
    ensures TreeForEach(Node(Node(Node(Nil, 4, 4, Nil), 5, 5, Nil), 10, 10, Node(Nil, 12, 12, Nil)))
            == [(4, 4), (5, 5), (10, 10), (12, 12)]
  {
    var n4, n14 := Node(Nil, 4, 4, Nil), Node(Nil, 14, 14, Nil);
    var n2, n12 := Node(Nil, 2, 2, n4), Node(Nil, 12, 12, n14);
    assert TreeForEach(n2) == [(2, 2), (4, 4)];
    assert TreeForEach(Node(n2, 5, 5, Nil)) == [(2, 2), (4, 4), (5, 5)];
    assert TreeForEach(n12) == [(12, 12), (14, 14)];
    assert TreeForEach(Node(n12, 15, 15, Nil)) == [(12, 12), (14, 14), (15, 15)];
    assert TreeForEach(Node(n4, 5, 5, Nil)) == [(4, 4), (5, 5)];
  }

  /** The three erasures of the test on the tree it builds (15 has only a
      left child, 14 is a leaf, 2 has only a right child), and the searches
      for present and absent keys before and after. */
  lemma SampleErasures()
    ensures TreeErase(Node(Node(Node(Nil, 2, 2, Node(Nil, 4, 4, Nil)), 5, 5, Nil), 10, 10,
                           Node(Node(Nil, 12, 12, Node(Nil, 14, 14, Nil)), 15, 15, Nil)), 15)
            == Node(Node(Node(Nil, 2, 2, Node(Nil, 4, 4, Nil)), 5, 5, Nil), 10, 10,
                    Node(Nil, 12, 12, Node(Nil, 14, 14, Nil)))
    ensures TreeErase(Node(Node(Node(Nil, 2, 2, Node(Nil, 4, 4, Nil)), 5, 5, Nil), 10, 10,
                           Node(Nil, 12, 12, Node(Nil, 14, 14, Nil))), 14)
            == Node(Node(Node(Nil, 2, 2, Node(Nil, 4, 4, Nil)), 5, 5, Nil), 10, 10,
                    Node(Nil, 12, 12, Nil))
    ensures TreeErase(Node(Node(Node(Nil, 2, 2, Node(Nil, 4, 4, Nil)), 5, 5, Nil), 10, 10,
                           Node(Nil, 12, 12, Nil)), 2)
            == Node(Node(Node(Nil, 4, 4, Nil), 5, 5, Nil), 10, 10, Node(Nil, 12, 12, Nil))
    ensures var full := Node(Node(Node(Nil, 2, 2, Node(Nil, 4, 4, Nil)), 5, 5, Nil), 10, 10,
                             Node(Node(Nil, 12, 12, Node(Nil, 14, 14, Nil)), 15, 15, Nil));
            TreeContains(full, 4) && TreeContains(full, 12) &&
            !TreeContains(full, 3) && !TreeContains(full, 13)
    ensures var rest := Node(Node(Node(Nil, 4, 4, Nil), 5, 5, Nil), 10, 10, Node(Nil, 12, 12, Nil));
            TreeContains(rest, 4) && TreeContains(rest, 12) &&
            !TreeContains(rest, 2) && !TreeContains(rest, 14)
  {
  }

  /** The seven inserts of the test, one tree at a time. */
  lemma SampleInserts()
    ensures TreeInsert(Nil, 10, 10) == Node(Nil, 10, 10, Nil)
    ensures TreeInsert(Node(Nil, 10, 10, Nil), 5, 5) == Node(Node(Nil, 5, 5, Nil), 10, 10, Nil)
    ensures TreeInsert(Node(Node(Nil, 5, 5, Nil), 10, 10, Nil), 15, 15)
            == Node(Node(Nil, 5, 5, Nil), 10, 10, Node(Nil, 15, 15, Nil))
    ensures TreeInsert(Node(Node(Nil, 5, 5, Nil), 10, 10, Node(Nil, 15, 15, Nil)), 2, 2)
            == Node(Node(Node(Nil, 2, 2, Nil), 5, 5, Nil), 10, 10, Node(Nil, 15, 15, Nil))
    ensures TreeInsert(Node(Node(Node(Nil, 2, 2, Nil), 5, 5, Nil), 10, 10, Node(Nil, 15, 15, Nil)), 4, 4)
            == Node(Node(Node(Nil, 2, 2, Node(Nil, 4, 4, Nil)), 5, 5, Nil), 10, 10, Node(Nil, 15, 15, Nil))
    ensures TreeInsert(Node(Node(Node(Nil, 2, 2, Node(Nil, 4, 4, Nil)), 5, 5, Nil), 10, 10,
                            Node(Nil, 15, 15, Nil)), 12, 12)
            == Node(Node(Node(Nil, 2, 2, Node(Nil, 4, 4, Nil)), 5, 5, Nil), 10, 10,
                    Node(Node(Nil, 12, 12, Nil), 15, 15, Nil))
    ensures TreeInsert(Node(Node(Node(Nil, 2, 2, Node(Nil, 4, 4, Nil)), 5, 5, Nil), 10, 10,
                            Node(Node(Nil, 12, 12, Nil), 15, 15, Nil)), 14, 14)
            == Node(Node(Node(Nil, 2, 2, Node(Nil, 4, 4, Nil)), 5, 5, Nil), 10, 10,
                    Node(Node(Nil, 12, 12, Node(Nil, 14, 14, Nil)), 15, 15, Nil))
  {
  }

  /** The first half of the test: seven distinct inserts into a new map. */
  method BuildSample() returns (m: OrderedMap, sizeAtStart: int)
    ensures fresh(m) && m.Valid() && sizeAtStart == 0 && m.size == 7
    ensures m.root == Node(Node(Node(Nil, 2, 2, Node(Nil, 4, 4, Nil)), 5, 5, Nil), 10, 10,
                           Node(Node(Nil, 12, 12, Node(Nil, 14, 14, Nil)), 15, 15, Nil))
  {
    SampleInserts();
    m := new OrderedMap();
    sizeAtStart := m.Size();
    m.Insert(10, 10);
    assert m.root == Node(Nil, 10, 10, Nil) && m.size == 1;
    m.Insert(5, 5);
    assert m.root == Node(Node(Nil, 5, 5, Nil), 10, 10, Nil) && m.size == 2;
    m.Insert(15, 15);
    assert m.root == Node(Node(Nil, 5, 5, Nil), 10, 10, Node(Nil, 15, 15, Nil)) && m.size == 3;
    m.Insert(2, 2);
    assert m.root == Node(Node(Node(Nil, 2, 2, Nil), 5, 5, Nil), 10, 10,
                          Node(Nil, 15, 15, Nil)) && m.size == 4;
    m.Insert(4, 4);
    assert m.root == Node(Node(Node(Nil, 2, 2, Node(Nil, 4, 4, Nil)), 5, 5, Nil), 10, 10,
                          Node(Nil, 15, 15, Nil)) && m.size == 5;
    m.Insert(12, 12);
    assert m.root == Node(Node(Node(Nil, 2, 2, Node(Nil, 4, 4, Nil)), 5, 5, Nil), 10, 10,
                          Node(Node(Nil, 12, 12, Nil), 15, 15, Nil)) && m.size == 6;
    m.Insert(14, 14);
  }

  /** The calls of the test and the results its assertions expect: seven
      distinct inserts, the membership probes, the walk, then three erases of
      present keys and the probes and walk again. */
  method TestOrderedMap()
    returns (sizeAtStart: int, size1: int, found: seq<bool>, walk1: seq<(int, int)>,
             size2: int, found2: seq<bool>, walk2: seq<(int, int)>)
    ensures sizeAtStart == 0 && size1 == 7 && size2 == 4
    ensures found == [true, true, false, false]
    ensures walk1 == [(2, 2), (4, 4), (5, 5), (10, 10), (12, 12), (14, 14), (15, 15)]
    ensures found2 == [true, true, false, false]
    ensures walk2 == [(4, 4), (5, 5), (10, 10), (12, 12)]
  {
    var m;
    m, sizeAtStart := BuildSample();
    SampleErasures();
    SampleWalks();
    size1 := m.Size();
    found := [m.Contains(4), m.Contains(12), m.Contains(3), m.Contains(13)];
    walk1 := m.ForEach();
    m.Erase(15);
    m.Erase(14);
    assert m.root == Node(Node(Node(Nil, 2, 2, Node(Nil, 4, 4, Nil)), 5, 5, Nil), 10, 10,
                          Node(Nil, 12, 12, Nil)) && m.size == 5;
    m.Erase(2);
    size2 := m.Size();
    found2 := [m.Contains(4), m.Contains(12), m.Contains(2), m.Contains(14)];
    walk2 := m.ForEach();
  }

  /** The size counter as written: inserting a key twice counts two with one
      entry stored, and erasing from an empty map takes the size to -1. */
  method SizeDrift() returns (duplicateSize: int, duplicateEntries: int, emptyEraseSize: int)
    ensures duplicateSize == 2 && duplicateEntries == 1 && emptyEraseSize == -1
  {
    var m := new OrderedMap();
    m.Insert(1, 1);
    m.Insert(1, 2);
    duplicateSize := m.Size();
    duplicateEntries := |m.ForEach()|;
    var e := new OrderedMap();
    e.Erase(7);
    emptyEraseSize := e.Size();
  }

  /** The counted operations on the same calls keep the size equal to the
      number of entries: 1 after the duplicate insert, 0 after the empty erase. */
  method SizeCounted() returns (duplicateSize: int, emptyEraseSize: int)
    ensures duplicateSize == 1 && emptyEraseSize == 0
  {
    var m := new OrderedMap();
    m.InsertCounted(1, 1);
    m.InsertCounted(1, 2);
    duplicateSize := m.Size();
    var e := new OrderedMap();
    e.EraseCounted(7);
    emptyEraseSize := e.Size();
  }
}
