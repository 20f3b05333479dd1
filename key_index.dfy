/** The key index of the timed queue.

    The source's `std::unordered_map` maps each key to a `std::list`
    iterator: a handle on the list node that holds the key's element, which
    stays valid while other nodes are inserted and erased. Here each node
    is named by a handle, a number never given to another node, kept in a
    sequence parallel to the element list; the index maps a key to the
    handle of its node. */
module KeyIndex {
  import opened Entries

  /** The node handles are pairwise distinct and all below `next`, the
      handle the next inserted node receives. */
  ghost predicate Handles(nodes: seq<int>, next: int)
  {
    && 0 <= next
    && (forall i :: 0 <= i < |nodes| ==> 0 <= nodes[i] < next)
    && (forall i, j :: 0 <= i < |nodes| && 0 <= j < |nodes| && nodes[i] == nodes[j] ==> i == j)
  }

  /** The index of a list whose elements sit in the nodes `nodes`: each
      element's key to its node, built the way the queue builds it, one
      `insert` per element from the back to the front. */
  function IndexOf<K, I>(l: seq<Element<K, I>>, nodes: seq<int>): map<K, int>
    requires |nodes| == |l|
  {
    if l == [] then map[] else IndexOf(l[1..], nodes[1..])[l[0].key := nodes[0]]
  }

  /** The position of node `h` in the list: following an iterator. */
  function Find(nodes: seq<int>, h: int): (r: nat)
    requires h in nodes
    ensures r < |nodes| && nodes[r] == h
  {
    if nodes[0] == h then 0 else 1 + Find(nodes[1..], h)
  }

  /** The index holds exactly the keys of the list. */
  lemma {:induction false} IndexOfKeys<K, I>(l: seq<Element<K, I>>, nodes: seq<int>)
    requires |nodes| == |l|
    ensures IndexOf(l, nodes).Keys == Keys(l)
  {
    if l != [] {
      IndexOfKeys(l[1..], nodes[1..]);
      KeysCons(l);
    }
  }

  /** With unique keys, each element's key maps to the element's own
      node. */
  lemma {:induction false} IndexOfAt<K, I>(l: seq<Element<K, I>>, nodes: seq<int>, i: nat)
    requires |nodes| == |l| && UniqueKeys(l) && i < |l|
    ensures l[i].key in IndexOf(l, nodes) && IndexOf(l, nodes)[l[i].key] == nodes[i]
  {
    if i > 0 {
      UniqueTail(l);
      assert l[i] == l[1..][i - 1];
      IndexOfAt(l[1..], nodes[1..], i - 1);
    }
  }

  /** With unique keys and distinct handles, following the handle a key
      maps to reaches the element with that key. */
  lemma IndexPoints<K, I>(l: seq<Element<K, I>>, nodes: seq<int>, next: int, k: K)
    requires |nodes| == |l| && UniqueKeys(l) && Handles(nodes, next)
    requires k in IndexOf(l, nodes)
    ensures IndexOf(l, nodes)[k] in nodes
    ensures l[Find(nodes, IndexOf(l, nodes)[k])].key == k
  {
    IndexOfKeys(l, nodes);
    var i :| 0 <= i < |l| && l[i].key == k;
    IndexOfAt(l, nodes, i);
    var p := Find(nodes, nodes[i]);
    assert nodes[p] == nodes[i];
  }

  /** Erasing the element at position `i`, together with its node, takes
      exactly its key out of the index; every other key keeps its node. */
  lemma {:induction false} IndexOfErase<K, I>(l: seq<Element<K, I>>, nodes: seq<int>, i: nat)
    requires |nodes| == |l| && UniqueKeys(l) && i < |l|
    ensures IndexOf(Erase(l, i), Erase(nodes, i)) == IndexOf(l, nodes) - {l[i].key}
  {
    UniqueTail(l);
    var t, u := l[1..], nodes[1..];
    if i == 0 {
      assert Erase(l, 0) == t && Erase(nodes, 0) == u;
      IndexOfKeys(t, u);
      assert IndexOf(t, u)[l[0].key := nodes[0]] - {l[0].key} == IndexOf(t, u);
    } else {
      assert l[i] == t[i - 1];
      IndexOfErase(t, u, i - 1);
      var r, s := Erase(l, i), Erase(nodes, i);
      assert r[1..] == Erase(t, i - 1) && s[1..] == Erase(u, i - 1);
      assert r[0] == l[0] && s[0] == nodes[0];
      assert l[0].key != l[i].key;
    }
  }

  /** Taking the back off the list and its node takes exactly the back's
      key out of the index. */
  lemma IndexOfPop<K, I>(l: seq<Element<K, I>>, nodes: seq<int>)
    requires |nodes| == |l| && UniqueKeys(l) && |l| > 0
    ensures IndexOf(l[..|l| - 1], nodes[..|l| - 1]) == IndexOf(l, nodes) - {Last(l).key}
  {
    assert Erase(l, |l| - 1) == l[..|l| - 1];
    assert Erase(nodes, |l| - 1) == nodes[..|l| - 1];
    IndexOfErase(l, nodes, |l| - 1);
  }

  /** Erasing a node keeps the handles distinct and in range. */
  lemma HandlesErase(nodes: seq<int>, next: int, i: nat)
    requires Handles(nodes, next) && i < |nodes|
    ensures Handles(Erase(nodes, i), next)
  {
    var r := Erase(nodes, i);
    forall a, b | 0 <= a < |r| && 0 <= b < |r| && r[a] == r[b]
      ensures a == b
    {
      var a' := if a < i then a else a + 1;
      var b' := if b < i then b else b + 1;
      assert nodes[a'] == nodes[b'];
    }
  }

  /** A node inserted with the fresh handle `next` keeps the handles
      distinct, with `next + 1` the next fresh one. */
  lemma HandlesPush(nodes: seq<int>, next: int)
    requires Handles(nodes, next)
    ensures Handles([next] + nodes, next + 1)
  {
    var r := [next] + nodes;
    forall a, b | 0 <= a < |r| && 0 <= b < |r| && r[a] == r[b]
      ensures a == b
    {
      if a > 0 && b > 0 {
        assert r[a] == nodes[a - 1] && r[b] == nodes[b - 1];
      }
    }
  }

  /** Taking the back node off keeps the handles distinct and in range. */
  lemma HandlesPop(nodes: seq<int>, next: int)
    requires Handles(nodes, next) && |nodes| > 0
    ensures Handles(nodes[..|nodes| - 1], next)
  {
    assert Erase(nodes, |nodes| - 1) == nodes[..|nodes| - 1];
    HandlesErase(nodes, next, |nodes| - 1);
  }
}
