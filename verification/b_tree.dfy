/**
 * The ordered-index skeleton. Nodes hold entries; every entry owns the node
 * that follows it. Only construction, emptiness, lookup and a `put` that
 * does nothing exist, so the only tree a program can build is the empty
 * one. Lookup keeps two peculiarities of the code: it chooses between the
 * leaf scan and the descent from the TREE's height (the same at every
 * level), and it descends into entry `i` when `i + 1` equals the node's
 * `size` field or when entry `i + 1`'s key is below the target.
 */
module BTreeIndex {
  import opened Wrappers

  /** Rust's `i16`. */
  type I16 = x: int | -0x8000 <= x < 0x8000

  datatype Entry<V> = Entry(value: V, key: int, next: Node<V>)

  /**
   * `size` is a plain number stored beside the entries: `NewNode` sets it
   * to a capacity, while `Search` reads it as the number of entries.
   */
  datatype Node<V> = Node(children: seq<Entry<V>>, size: nat)

  datatype BTree<V> = BTree(root: Node<V>, degree: I16, height: I16, size: I16)

  /** What a lookup does: return an optional value, or panic on an out-of-range index. */
  datatype Outcome<V> = Returned(result: Option<V>) | Panicked

  /** `Node::new(size)`: no entries, `size` recorded as given. */
  function NewNode<V>(size: nat): (n: Node<V>)
    ensures n.children == [] && n.size == size
  {
    Node([], size)
  }

  /** `BTree::new(degree)`: an empty root node of size 0, height 0, no keys; any degree is accepted. */
  function NewTree<V>(degree: I16): (t: BTree<V>)
    ensures t.root.children == [] && t.root.size == 0
    ensures t.degree == degree && t.height == 0 && t.size == 0
  {
    BTree(NewNode(0), degree, 0, 0)
  }

  /** `is_empty`: whether the key count is zero. */
  function IsEmpty<V>(t: BTree<V>): (b: bool)
    ensures b <==> t.size == 0
  {
    t.size == 0
  }

  /** Entry `j` is the first one in `es` whose key is `key`. */
  predicate IsFirstWithKey<V>(es: seq<Entry<V>>, key: int, j: int) {
    0 <= j < |es| && es[j].key == key && forall k :: 0 <= k < j ==> es[k].key != key
  }

  /** The leaf scan of `search`: the value of the first entry whose key equals `key`. */
  function LeafLookup<V>(es: seq<Entry<V>>, key: int): (r: Option<V>)
    ensures r.Some? <==> exists j :: 0 <= j < |es| && es[j].key == key
    ensures r.Some? ==> exists j :: IsFirstWithKey(es, key, j) && r.value == es[j].value
  {
    if es == [] then None
    else if es[0].key == key then
      assert IsFirstWithKey(es, key, 0);
      Some(es[0].value)
    else
      var r := LeafLookup(es[1..], key);
      assert forall j :: 0 < j < |es| ==> es[j] == es[1..][j - 1];
      assert forall j :: IsFirstWithKey(es[1..], key, j) ==> IsFirstWithKey(es, key, j + 1);
      r
  }

  /** Where the descent loop of `search` goes. */
  datatype Route = Descend(index: nat) | Exhausted | OutOfRange

  /** Entry `j` is passed over: `j + 1` is not `size`, and entry `j + 1`'s key is not below `key`. */
  predicate PassesOver<V>(cs: seq<Entry<V>>, size: nat, key: int, j: int) {
    0 <= j && j + 1 != size && j + 1 < |cs| && key <= cs[j + 1].key
  }

  /**
   * The loop of `search` from position `i` on. At entry `j` it descends if
   * `j + 1 == size`; otherwise it reads entry `j + 1`, which is out of
   * range at the last entry, and descends if that key is below `key`.
   */
  function RouteFrom<V>(cs: seq<Entry<V>>, size: nat, key: int, i: nat): (r: Route)
    requires i <= |cs|
    ensures r.Exhausted? <==> i == |cs|
    ensures r.Descend? ==> i <= r.index < |cs|
    ensures r.Descend? ==> r.index + 1 == size || (r.index + 1 < |cs| && cs[r.index + 1].key < key)
    ensures r.Descend? ==> forall j :: i <= j < r.index ==> PassesOver(cs, size, key, j)
    ensures r.OutOfRange? ==> |cs| != size && forall j :: i <= j < |cs| - 1 ==> PassesOver(cs, size, key, j)
    decreases |cs| - i
  {
    if i == |cs| then Exhausted
    else if i + 1 == size then Descend(i)
    else if i + 1 == |cs| then OutOfRange
    else if cs[i + 1].key < key then Descend(i)
    else RouteFrom(cs, size, key, i + 1)
  }

  /**
   * `search(x, key, h)`. With height 0 it scans `x`'s entries; otherwise it
   * routes and recurses into the chosen entry's node, with the same tree
   * and `h - 1`. A descent never reads a value, so at a nonzero height
   * nothing is ever found.
   */
  function Search<V>(t: BTree<V>, x: Node<V>, key: int, h: int): (r: Outcome<V>)
    ensures t.height == 0 ==> r.Returned?
    ensures t.height == 0 ==> (r.result.Some? <==> exists j :: 0 <= j < |x.children| && x.children[j].key == key)
    ensures t.height == 0 && r.result.Some? ==>
              exists j :: IsFirstWithKey(x.children, key, j) && r.result.value == x.children[j].value
    ensures t.height != 0 ==> r == Panicked || r == Returned(None)
    decreases x
  {
    if t.height == 0 then Returned(LeafLookup(x.children, key))
    else
      match RouteFrom(x.children, x.size, key, 0)
      case Descend(i) => Search(t, x.children[i].next, key, h - 1)
      case Exhausted => Returned(None)
      case OutOfRange => Panicked
  }

  /** `get(key)`: search from the root with the tree's height. */
  function Get<V>(t: BTree<V>, key: int): (r: Outcome<V>)
    ensures t.height == 0 ==> r.Returned?
    ensures t.height == 0 ==>
              (r.result.Some? <==> exists j :: 0 <= j < |t.root.children| && t.root.children[j].key == key)
    ensures t.height == 0 && r.result.Some? ==>
              exists j :: IsFirstWithKey(t.root.children, key, j) && r.result.value == t.root.children[j].value
    ensures t.height != 0 ==> r == Panicked || r == Returned(None)
  {
    Search(t, t.root, key, t.height)
  }

  /** `put(key, value)`: its body is empty, so the tree is left as it was. */
  function Put<V>(t: BTree<V>, key: int, value: V): (r: BTree<V>)
    ensures r.root == t.root && r.degree == t.degree && r.height == t.height && r.size == t.size
  {
    t
  }

  /** A sequence of puts applied in order. */
  function PutAll<V>(t: BTree<V>, ops: seq<(int, V)>): BTree<V>
    decreases |ops|
  {
    if ops == [] then t else PutAll(Put(t, ops[0].0, ops[0].1), ops[1..])
  }

  /** A fresh tree is empty. */
  lemma NewTreeIsEmpty<V>(degree: I16)
    ensures IsEmpty(NewTree<V>(degree))
  {
  }

  /** The parameter `h` is only passed down, never consulted. */
  lemma {:induction false} SearchIgnoresDepth<V>(t: BTree<V>, x: Node<V>, key: int, h1: int, h2: int)
    ensures Search(t, x, key, h1) == Search(t, x, key, h2)
    decreases x
  {
    if t.height != 0 {
      match RouteFrom(x.children, x.size, key, 0)
      case Descend(i) => SearchIgnoresDepth(t, x.children[i].next, key, h1 - 1, h2 - 1);
      case Exhausted =>
      case OutOfRange =>
    }
  }

  /** A node with no entries yields nothing, at any height. */
  lemma SearchChildless<V>(t: BTree<V>, x: Node<V>, key: int, h: int)
    requires x.children == []
    ensures Search(t, x, key, h) == Returned(None)
  {
  }

  /** Puts leave the tree exactly as it was, however many there are. */
  lemma {:induction false} PutAllUnchanged<V>(t: BTree<V>, ops: seq<(int, V)>)
    ensures PutAll(t, ops) == t
    decreases |ops|
  {
    if ops != [] {
      PutAllUnchanged(Put(t, ops[0].0, ops[0].1), ops[1..]);
    }
  }

  /**
   * A tree built by `new` followed by any puts stays empty and finds no key.
   */
  lemma GetAfterPuts<V>(degree: I16, ops: seq<(int, V)>, key: int)
    ensures IsEmpty(PutAll(NewTree<V>(degree), ops))
    ensures PutAll(NewTree<V>(degree), ops).height == 0
    ensures Get(PutAll(NewTree<V>(degree), ops), key) == Returned(None)
  {
    PutAllUnchanged(NewTree<V>(degree), ops);
  }

  /** Every node's `size` field counts its entries. */
  ghost predicate SizesCountEntries<V>(x: Node<V>)
    decreases x
  {
    && x.size == |x.children|
    && forall i :: 0 <= i < |x.children| ==> SizesCountEntries(x.children[i].next)
  }

  /** When every `size` counts entries, the index `i + 1` is never out of range. */
  lemma {:induction false} SearchNoPanicWhenSizesCount<V>(t: BTree<V>, x: Node<V>, key: int, h: int)
    requires SizesCountEntries(x)
    ensures Search(t, x, key, h).Returned?
    decreases x
  {
    if t.height != 0 {
      match RouteFrom(x.children, x.size, key, 0)
      case Descend(i) => SearchNoPanicWhenSizesCount(t, x.children[i].next, key, h - 1);
      case Exhausted =>
      case OutOfRange =>
    }
  }

  /** `Node::new` satisfies the entry-count reading of `size` only for capacity 0. */
  lemma NewNodeSizeIsCapacity<V>(capacity: nat)
    ensures SizesCountEntries(NewNode<V>(capacity)) <==> capacity == 0
  {
  }

  /**
   * At a nonzero height the search continues in the node of the first entry
   * `i` that is not passed over: `i + 1` equals `size`, or entry `i + 1`'s
   * key is below the target.
   */
  lemma SearchDescendsAtFirstTaken<V>(t: BTree<V>, x: Node<V>, key: int, h: int, i: nat)
    requires t.height != 0 && i < |x.children|
    requires i + 1 == x.size || (i + 1 < |x.children| && x.children[i + 1].key < key)
    requires forall j :: 0 <= j < i ==> PassesOver(x.children, x.size, key, j)
    ensures Search(t, x, key, h) == Search(t, x.children[i].next, key, h - 1)
  {
    var r := RouteFrom(x.children, x.size, key, 0);
    assert r.Descend? && r.index < i ==> PassesOver(x.children, x.size, key, r.index);
    assert (r.Descend? && r.index > i) || (r.OutOfRange? && i < |x.children| - 1) ==>
             PassesOver(x.children, x.size, key, i);
  }

  /**
   * At a nonzero height, when every entry but the last is passed over and
   * `size` is not the entry count, the last iteration reads one entry past
   * the end and panics.
   */
  lemma SearchPanicsPastLastEntry<V>(t: BTree<V>, x: Node<V>, key: int, h: int)
    requires t.height != 0 && x.children != [] && |x.children| != x.size
    requires forall j :: 0 <= j < |x.children| - 1 ==> PassesOver(x.children, x.size, key, j)
    ensures Search(t, x, key, h) == Panicked
  {
    var r := RouteFrom(x.children, x.size, key, 0);
    assert r.Descend? && r.index < |x.children| - 1 ==> PassesOver(x.children, x.size, key, r.index);
  }

  /**
   * The capacity/count mismatch is observable: at a nonzero height, a node
   * with entries whose `size` exceeds its entry count panics whenever no
   * later key is below the target.
   */
  lemma CapacityAsCountPanics<V>(t: BTree<V>, x: Node<V>, key: int, h: int)
    requires t.height != 0
    requires x.children != [] && |x.children| < x.size
    requires forall j :: 1 <= j < |x.children| ==> key <= x.children[j].key
    ensures Search(t, x, key, h) == Panicked
  {
    SearchPanicsPastLastEntry(t, x, key, h);
  }
}
