/**
  `LRUCache` as the source builds it: a map from key to node, and a
  doubly-linked list of nodes between two sentinels, `head` and `tail`.
  Nodes nearer `head` were used more recently; the node just before `tail`
  is the one to evict. The ghost field `nodes` lists the real nodes from
  `head` to `tail`, `Repr` holds this object, the sentinels and every node
  the cache has ever linked in (unlinked ones stay, as the collector would
  reclaim them unseen), and each operation is proved against `LruSpec`.
*/
module LruCache {
  import opened Seqs
  import LruSpec

  /** A list node; `key` and `val` are fixed when it is made, `prev` and `next` are relinked. */
  class Node {
    const key: int
    const val: int
    var prev: Node?
    var next: Node?

    constructor (key: int, val: int)
      ensures this.key == key && this.val == val
      ensures prev == null && next == null
    {
      this.key := key;
      this.val := val;
      prev := null;
      next := null;
    }
  }

  /** The keys of `s`, node by node. */
  ghost function KeysOf(s: seq<Node>): (ks: seq<int>)
    ensures |ks| == |s|
    ensures forall i :: 0 <= i < |s| ==> ks[i] == s[i].key
  {
    seq(|s|, i requires 0 <= i < |s| => s[i].key)
  }

  /** Keys of a list with one node in front. */
  lemma KeysOfCons(n: Node, s: seq<Node>)
    ensures KeysOf([n] + s) == [n.key] + KeysOf(s)
  {
    assert forall i :: 0 <= i < |s| + 1 ==> KeysOf([n] + s)[i] == ([n.key] + KeysOf(s))[i];
  }

  /** Keys of a list with one position cut out. */
  lemma KeysOfCut(s: seq<Node>, i: nat, j: nat)
    requires i <= j <= |s|
    ensures KeysOf(s[..i] + s[j..]) == KeysOf(s)[..i] + KeysOf(s)[j..]
  {
    var l, r := KeysOf(s[..i] + s[j..]), KeysOf(s)[..i] + KeysOf(s)[j..];
    assert |l| == |r|;
    forall k | 0 <= k < |l| ensures l[k] == r[k] {
      if k < i { assert l[k] == s[k].key; } else { assert l[k] == s[k - i + j].key; }
    }
  }

  /** `index` maps each key of `nodes`, and nothing else, to its node. */
  ghost predicate IndexMatches(index: map<int, Node>, nodes: seq<Node>) {
    && (forall k :: k in index ==> index[k] in nodes && index[k].key == k)
    && (forall i :: 0 <= i < |nodes| ==> nodes[i].key in index && index[nodes[i].key] == nodes[i])
  }

  /** The value stored in each key's node. */
  ghost function ContentsOf(index: map<int, Node>): (m: map<int, int>)
    ensures m.Keys == index.Keys
    ensures forall k :: k in index ==> m[k] == index[k].val
  {
    map k | k in index :: index[k].val
  }

  /** The update branch of `put`: the node found for its key is replaced by a new one at the front. */
  lemma IndexAfterReplace(index: map<int, Node>, nodes: seq<Node>, i: nat, n: Node)
    requires IndexMatches(index, nodes) && Distinct(nodes) && i < |nodes|
    requires n !in nodes && n.key == nodes[i].key
    ensures IndexMatches(index[n.key := n], [n] + (nodes[..i] + nodes[i + 1..]))
  {
    DistinctApart(nodes);
    var rest := nodes[..i] + nodes[i + 1..];
    var index' := index[n.key := n];
    forall k | k in index' ensures index'[k] in [n] + rest && index'[k].key == k {
      if k != n.key {
        var j := IndexOf(nodes, index[k]);
        assert j != i;
        if j < i { assert rest[j] == index[k]; } else { assert rest[j - 1] == index[k]; }
      }
    }
    forall j | 0 <= j < |rest| ensures rest[j].key in index' && index'[rest[j].key] == rest[j] {
      var x := if j < i then j else j + 1;
      assert rest[j] == nodes[x];
      assert nodes[x].key != n.key;
    }
    var s := [n] + rest;
    forall j | 0 <= j < |s| ensures s[j].key in index' && index'[s[j].key] == s[j] {
      if j > 0 { assert s[j] == rest[j - 1]; }
    }
  }

  /** The eviction step of `put`: the last node and its key go. */
  lemma IndexAfterDrop(index: map<int, Node>, nodes: seq<Node>)
    requires IndexMatches(index, nodes) && Distinct(nodes) && nodes != []
    ensures IndexMatches(index - {nodes[|nodes| - 1].key}, nodes[..|nodes| - 1])
  {
    DistinctApart(nodes);
    var last := nodes[|nodes| - 1];
    var rest := nodes[..|nodes| - 1];
    var index' := index - {last.key};
    forall k | k in index' ensures index'[k] in rest && index'[k].key == k {
      var j := IndexOf(nodes, index[k]);
      assert j != |nodes| - 1;
      assert rest[j] == index[k];
    }
    forall j | 0 <= j < |rest| ensures rest[j].key in index' && index'[rest[j].key] == rest[j] {
      assert rest[j] == nodes[j] != last;
    }
  }

  /** The inserting branch of `put` with room to spare: a new node goes in front. */
  lemma IndexAfterInsert(index: map<int, Node>, nodes: seq<Node>, n: Node)
    requires IndexMatches(index, nodes) && n !in nodes && n.key !in index
    ensures IndexMatches(index[n.key := n], [n] + nodes)
  {
    var s := [n] + nodes;
    forall j | 0 <= j < |s| ensures s[j].key in index[n.key := n] && index[n.key := n][s[j].key] == s[j] {
      if j > 0 { assert s[j] == nodes[j - 1]; }
    }
  }

  /** Cutting the real node at `i` out of `nodes` cuts position `i + 1` out of the chain `[h] + nodes + [t]`. */
  lemma ChainAfterCut(h: Node, nodes: seq<Node>, t: Node, i: nat)
    requires i < |nodes|
    ensures var c, c' := [h] + nodes + [t], [h] + (nodes[..i] + nodes[i + 1..]) + [t];
      && c' == c[..i + 1] + c[i + 2..]
      && (forall k :: 0 <= k <= i ==> c'[k] == c[k])
      && (forall k :: i + 1 <= k < |c'| ==> c'[k] == c[k + 1])
  {
    var c, c' := [h] + nodes + [t], [h] + (nodes[..i] + nodes[i + 1..]) + [t];
    assert |c'| == |c| - 1;
    forall k | 0 <= k < |c'| ensures c'[k] == (c[..i + 1] + c[i + 2..])[k] {
      if k == 0 || k == |c'| - 1 {
      } else if k <= i {
        assert c'[k] == nodes[k - 1] == c[k];
      } else {
        assert c'[k] == nodes[k] == c[k + 1];
      }
    }
  }

  /** The nodes at positions `i` and `i + 1` of `c` point at each other. */
  ghost predicate LinkedAt(c: seq<Node>, i: int)
    requires 0 <= i < |c| - 1
    reads c[i], c[i + 1]
  {
    c[i].next == c[i + 1] && c[i + 1].prev == c[i]
  }

  /** A cache whose keys and contents are read off `nodes` and `index`. */
  ghost predicate Represents(a: LruSpec.Cache, index: map<int, Node>, nodes: seq<Node>) {
    && LruSpec.Inv(a) && a.keys == KeysOf(nodes) && a.contents == ContentsOf(index)
    && IndexMatches(index, nodes) && Distinct(nodes)
  }

  /** Both sides of a guard on the size agree: the index has as many keys as the cache. */
  lemma SizeAgrees(a: LruSpec.Cache, index: map<int, Node>, nodes: seq<Node>)
    requires Represents(a, index, nodes)
    ensures |index| == |a.contents| == |a.keys|
  {
    assert index.Keys == a.contents.Keys;
    LruSpec.SizeIsLength(a);
  }

  /**
    `nodes` and `index`, as the linked cache leaves them after `put(key, val)`,
    represent `LruSpec.Put` of the cache `a` it started from.
  */
  ghost predicate Refines(a: LruSpec.Cache, key: int, val: int, nodes: seq<Node>, index: map<int, Node>) {
    && IndexMatches(index, nodes)
    && LruSpec.Inv(LruSpec.Put(a, key, val))
    && LruSpec.Put(a, key, val) == LruSpec.Cache(a.capacity, KeysOf(nodes), ContentsOf(index))
  }

  /** Keys of a list after the node at `i` is cut out and `n`, with the same key, is put in front. */
  lemma KeysAfterReplace(ks: seq<int>, nodes: seq<Node>, i: nat, n: Node)
    requires ks == KeysOf(nodes) && Distinct(ks) && i < |nodes| && nodes[i].key == n.key
    ensures KeysOf([n] + (nodes[..i] + nodes[i + 1..])) == [n.key] + Remove(ks, n.key)
  {
    RemoveAt(ks, i);
    KeysOfCons(n, nodes[..i] + nodes[i + 1..]);
    KeysOfCut(nodes, i, i + 1);
  }

  /** `put` of a cached key on the linked form is `LruSpec.Put`. */
  lemma ReplaceRefines(a: LruSpec.Cache, index: map<int, Node>, nodes: seq<Node>, n: Node)
    requires Represents(a, index, nodes) && n.key in index && n !in nodes
    ensures var i := IndexOf(nodes, index[n.key]);
      Refines(a, n.key, n.val, [n] + (nodes[..i] + nodes[i + 1..]), index[n.key := n])
  {
    LruSpec.PutExistingPreservesInv(a, n.key, n.val);
    var i := IndexOf(nodes, index[n.key]);
    IndexAfterReplace(index, nodes, i, n);
    KeysAfterReplace(a.keys, nodes, i, n);
    assert ContentsOf(index[n.key := n]) == a.contents[n.key := n.val];
  }

  /** The eviction step of `put` on the linked form is `LruSpec.Evict`. */
  lemma EvictedRefines(a: LruSpec.Cache, index: map<int, Node>, nodes: seq<Node>)
    requires Represents(a, index, nodes) && |index| == a.capacity
    ensures nodes != []
    ensures Represents(LruSpec.Evict(a), index - {nodes[|nodes| - 1].key}, nodes[..|nodes| - 1])
  {
    SizeAgrees(a, index, nodes);
    LruSpec.EvictPreservesInv(a);
    var last := nodes[|nodes| - 1].key;
    IndexAfterDrop(index, nodes);
    DistinctTake(nodes, |nodes| - 1);
    assert KeysOf(nodes[..|nodes| - 1]) == a.keys[..|a.keys| - 1];
    assert a.keys[|a.keys| - 1] == last;
    assert ContentsOf(index - {last}) == a.contents - {last};
  }

  /** `put` of a new key into a cache with room, on the linked form, is `LruSpec.Put`. */
  lemma InsertRefines(a: LruSpec.Cache, index: map<int, Node>, nodes: seq<Node>, n: Node)
    requires Represents(a, index, nodes) && n.key !in index && n !in nodes && |index| != a.capacity
    ensures Refines(a, n.key, n.val, [n] + nodes, index[n.key := n])
  {
    SizeAgrees(a, index, nodes);
    LruSpec.PutNewPreservesInv(a, n.key, n.val);
    IndexAfterInsert(index, nodes, n);
    KeysOfCons(n, nodes);
  }

  class LRUCache {
    const capacity: int
    const head: Node
    const tail: Node
    var index: map<int, Node>
    ghost var nodes: seq<Node>
    ghost var Repr: set<object>

    /** The whole list, sentinels included. */
    ghost function Chain(): seq<Node>
      reads this`nodes
    {
      [head] + nodes + [tail]
    }

    /**
      The list invariant: the chain from `head` to `tail` visits every node once,
      each node's `next` is its successor, and each successor's `prev` points back.
    */
    ghost predicate ListValid()
      reads this`nodes, this`Repr, Repr - {this}
    {
      && this in Repr && head in Repr && tail in Repr
      && (forall n :: n in nodes ==> n in Repr)
      && Distinct(Chain())
      && (forall i :: 0 <= i < |Chain()| - 1 ==> LinkedAt(Chain(), i))
    }

    /** Every node in the chain is part of the cache. */
    lemma ChainInRepr()
      requires ListValid()
      ensures forall n :: n in Chain() ==> n in Repr
    {
      forall n | n in Chain() ensures n in Repr {
        if n != head && n != tail { assert n in nodes; }
      }
    }

    /** The real nodes are distinct. */
    lemma NodesDistinct()
      requires ListValid()
      ensures Distinct(nodes) && head !in nodes && tail !in nodes
    {
      var c := Chain();
      DistinctApart(c);
      forall i, j | 0 <= i < j < |nodes| ensures nodes[i] != nodes[j] {
        assert nodes[i] == c[i + 1] && nodes[j] == c[j + 1];
      }
      forall i | 0 <= i < |nodes| ensures nodes[i] != head && nodes[i] != tail {
        assert nodes[i] == c[i + 1] && c[0] == head && c[|c| - 1] == tail;
      }
      ApartDistinct(nodes);
    }

    /** The index invariant: `index` maps each listed key, and only those, to its node. */
    ghost predicate IndexValid()
      reads this`index, this`nodes
    {
      IndexMatches(index, nodes)
    }

    /** The keys from most to least recently used. */
    ghost function Keys(): seq<int>
      reads this`nodes
    {
      KeysOf(nodes)
    }

    /** The value bound to each cached key. */
    ghost function Contents(): map<int, int>
      reads this`index
    {
      ContentsOf(index)
    }

    /** The abstract state this cache represents. */
    ghost function Abstract(): LruSpec.Cache
      reads this`nodes, this`index
    {
      LruSpec.Cache(capacity, Keys(), Contents())
    }

    /** The cache invariant: a well-linked list, an index that matches it, and an abstract state that keeps `LruSpec.Inv`. */
    ghost predicate Valid()
      reads this`nodes, this`index, this`Repr, Repr - {this}
    {
      ListValid() && IndexValid() && LruSpec.Inv(Abstract())
    }

    /** A valid cache is represented by its list and its index. */
    lemma ValidRepresents()
      requires Valid()
      ensures Represents(Abstract(), index, nodes) && capacity == Abstract().capacity
    {
      NodesDistinct();
    }

    /** After the update branch of `put` relinks the list, the cache is valid and represents `LruSpec.Put`. */
    lemma ReplaceStep(a: LruSpec.Cache, before: seq<Node>, index0: map<int, Node>, n: Node)
      requires Represents(a, index0, before) && capacity == a.capacity && n.key in index0 && n !in before
      requires ListValid() && index == index0[n.key := n]
      requires var i := IndexOf(before, index0[n.key]); nodes == [n] + (before[..i] + before[i + 1..])
      ensures Valid() && Abstract() == LruSpec.Put(a, n.key, n.val)
    {
      ReplaceRefines(a, index0, before, n);
    }

    /** After the eviction step of `put` unlinks the last node, the cache is valid and represents `LruSpec.Evict`. */
    lemma EvictedStep(a: LruSpec.Cache, before: seq<Node>, index0: map<int, Node>)
      requires Represents(a, index0, before) && capacity == a.capacity && |index0| == capacity && before != []
      requires ListValid() && index == index0 - {before[|before| - 1].key} && nodes == before[..|before| - 1]
      ensures Valid() && Abstract() == LruSpec.Evict(a)
    {
      EvictedRefines(a, index0, before);
    }

    /** After the inserting branch of `put` relinks the list, the cache is valid and represents `LruSpec.Put`. */
    lemma InsertStep(a: LruSpec.Cache, before: seq<Node>, index0: map<int, Node>, n: Node)
      requires Represents(a, index0, before) && capacity == a.capacity && n.key !in index0 && n !in before
      requires |index0| != capacity
      requires ListValid() && index == index0[n.key := n] && nodes == [n] + before
      ensures Valid() && Abstract() == LruSpec.Put(a, n.key, n.val)
    {
      InsertRefines(a, index0, before, n);
    }

    /** An empty cache: `head` and `tail` linked to each other and nothing indexed. */
    constructor (capacity: int)
      requires capacity >= 1
      ensures Valid() && fresh(Repr)
      ensures this.capacity == capacity
      ensures Abstract() == LruSpec.Empty(capacity)
      ensures index == map[] && head.next == tail && tail.prev == head
    {
      this.capacity := capacity;
      index := map[];
      var h := new Node(0, 0);
      var t := new Node(0, 0);
      h.next := t;
      t.prev := h;
      head, tail := h, t;
      nodes := [];
      Repr := {this, h, t};
      new;
      assert Chain() == [h, t] && LinkedAt(Chain(), 0);
    }

    /** `addFirst`: splices a node that is not in the list in right after `head`. */
    method AddFirst(node: Node)
      requires ListValid() && node !in Repr
      modifies Repr, node
      ensures ListValid()
      ensures nodes == [node] + old(nodes) && head.next == node
      ensures Repr == old(Repr) + {node} && index == old(index)
    {
      ghost var c := Chain();
      ChainInRepr();
      assert node !in c;
      assert c[0] == head && LinkedAt(c, 0) && c[1] in Repr;
      node.next := head.next;
      node.prev := head;
      head.next.prev := node;
      head.next := node;
      nodes := [node] + nodes;
      Repr := Repr + {node};
      var c' := Chain();
      assert c' == [c[0], node] + c[1..];
      assert c'[1..] == [node] + c[1..] && ([node] + c[1..])[1..] == c[1..];
      forall i | 0 <= i < |c'| - 1 ensures LinkedAt(c', i) {
        if i >= 2 {
          assert c'[i] == c[i - 1] && c'[i + 1] == c[i];
          assert old(LinkedAt(c, i - 1));
        } else if i == 1 {
          assert c'[2] == c[1];
        }
      }
    }

    /** `delete`: unlinks a listed node by joining its neighbours, and answers its key. */
    method Delete(node: Node) returns (key: int)
      requires ListValid() && node in nodes
      modifies Repr
      ensures ListValid()
      ensures key == node.key
      ensures var i := IndexOf(old(nodes), node);
        nodes == old(nodes)[..i] + old(nodes)[i + 1..]
      ensures Repr == old(Repr) && index == old(index)
    {
      NodesDistinct();
      ghost var c := Chain();
      ghost var i := IndexOf(nodes, node);
      ghost var j := i + 1;
      assert c[j] == node;
      ChainInRepr();
      assert LinkedAt(c, j - 1) && c[j - 1] in Repr;
      assert LinkedAt(c, j) && c[j + 1] in Repr;
      ChainAfterCut(head, nodes, tail, i);
      DistinctCut(c, j);
      key := node.key;
      node.next.prev := node.prev;
      node.prev.next := node.next;
      nodes := nodes[..i] + nodes[i + 1..];
      var c' := Chain();
      forall k | 0 <= k < |c'| - 1 ensures LinkedAt(c', k) {
        if k < j - 1 {
          assert old(LinkedAt(c, k));
        } else if k >= j {
          assert old(LinkedAt(c, k + 1));
        }
      }
      forall x | 0 <= x < |nodes| ensures nodes[x] in Repr {
        var x' := if x < i then x else x + 1;
        assert nodes[x] == old(nodes)[x'];
      }
    }

    /** `deleteLast`: -1 on an empty list; otherwise unlinks `tail.prev` and answers its key. */
    method DeleteLast() returns (key: int)
      requires ListValid()
      modifies Repr
      ensures ListValid() && index == old(index)
      ensures (KeysOf(nodes), key) == LruSpec.EvictLast(KeysOf(old(nodes)))
      ensures old(nodes) == [] ==> unchanged(this) && unchanged(head, tail)
      ensures old(nodes) != [] ==> nodes == old(nodes)[..|old(nodes)| - 1]
      ensures Repr == old(Repr)
    {
      NodesDistinct();
      assert Chain()[0] == head && LinkedAt(Chain(), 0);
      assert nodes != [] ==> Chain()[1] == nodes[0] != tail;
      if head.next == tail {
        return -1;
      }
      assert nodes != [];
      ghost var c := Chain();
      assert c[|c| - 1] == tail && c[|c| - 2] == nodes[|nodes| - 1];
      assert LinkedAt(c, |c| - 2);
      assert IndexOf(nodes, tail.prev) == |nodes| - 1 by { DistinctApart(nodes); }
      ghost var before := nodes;
      key := Delete(tail.prev);
      assert KeysOf(nodes) == KeysOf(before)[..|before| - 1];
    }

    /**
      The eviction step of `put` on a full cache: `deleteLast` unlinks the least
      recently used node, and its key is removed from the index.
    */
    method Evict()
      requires Valid() && |index| == capacity
      modifies Repr
      ensures Valid() && Repr == old(Repr)
      ensures Abstract() == LruSpec.Evict(old(Abstract()))
    {
      ghost var a, before, index0 := Abstract(), nodes, index;
      ValidRepresents();
      SizeAgrees(a, index, before);
      var k := DeleteLast();
      index := index - {k};
      EvictedStep(a, before, index0);
    }

    /** The list part of the update branch of `put`: `delete` of the key's old node, then `addFirst` of the new one. */
    method Relink(stale: Node, node: Node)
      requires ListValid() && stale in nodes && node !in Repr
      modifies Repr, node
      ensures ListValid() && index == old(index)
      ensures var i := IndexOf(old(nodes), stale);
        nodes == [node] + (old(nodes)[..i] + old(nodes)[i + 1..])
      ensures Repr == old(Repr) + {node}
    {
      var _ := Delete(stale);
      AddFirst(node);
    }

    /** The update branch of `put`: the key's node is replaced by the new one at the front, and indexed. */
    method Replace(node: Node)
      requires Valid() && node.key in index && node !in Repr
      modifies Repr, node
      ensures Valid() && Repr == old(Repr) + {node}
      ensures Abstract() == LruSpec.Put(old(Abstract()), node.key, node.val)
    {
      ghost var a, before, index0 := Abstract(), nodes, index;
      ValidRepresents();
      Relink(index[node.key], node);
      index := index[node.key := node];
      ReplaceStep(a, before, index0, node);
    }

    /** The inserting step of `put` with room to spare: the key is indexed and the new node goes first. */
    method InsertWithRoom(node: Node)
      requires Valid() && node.key !in index && |index| != capacity && node !in Repr
      modifies Repr, node
      ensures Valid() && Repr == old(Repr) + {node}
      ensures Abstract() == LruSpec.Put(old(Abstract()), node.key, node.val)
    {
      ghost var a, before, index0 := Abstract(), nodes, index;
      ValidRepresents();
      index := index[node.key := node];
      AddFirst(node);
      InsertStep(a, before, index0, node);
    }

    /**
      The inserting branch of `put`: when the cache is full the least recently used
      entry is evicted first; then the key is indexed and the new node goes first.
    */
    method Insert(node: Node)
      requires Valid() && node.key !in index && node !in Repr
      modifies Repr, node
      ensures Valid() && Repr == old(Repr) + {node}
      ensures Abstract() == LruSpec.Put(old(Abstract()), node.key, node.val)
    {
      if |index| == capacity {
        ghost var a := Abstract();
        Evict();
        LruSpec.EvictThenPut(a, node.key, node.val);
      }
      InsertWithRoom(node);
    }

    /** `put`: updates a cached key, or inserts a new one after evicting when full. */
    method Put(key: int, val: int)
      requires Valid()
      modifies Repr
      ensures Valid() && fresh(Repr - old(Repr))
      ensures Abstract() == LruSpec.Put(old(Abstract()), key, val)
    {
      var newNode := new Node(key, val);
      if key in index {
        Replace(newNode);
      } else {
        Insert(newNode);
      }
    }

    /** `get`: -1 on a miss, changing nothing; on a hit the value, after `put` of that same value. */
    method Get(key: int) returns (r: int)
      requires Valid()
      modifies Repr
      ensures Valid() && fresh(Repr - old(Repr))
      ensures (Abstract(), r) == LruSpec.Get(old(Abstract()), key)
      ensures key !in old(Contents()) ==> r == -1 && unchanged(this) && unchanged(Repr) && Repr == old(Repr)
    {
      if key !in index {
        return -1;
      }
      var v := index[key].val;
      Put(key, v);
      return v;
    }
  }
}
