/**
 * How each step of the skip list's operations in skiplist/skip_list.go keeps
 * the representation invariant `Inv` of SkipIndex: one loop iteration of the
 * splice and unlink loops, the whole splice and unlink, an overwrite in place,
 * and the arena changes made by the node pool.
 */
module SkipSteps {
  import opened SkipIndex

  /**
   * Keys strictly increase along every level: a link at level t leads to a
   * node that reaches level t and, from any node but the head, to a larger key.
   */
  lemma LevelIncreasing<T>(nodes: seq<Node<T>>, order: seq<int>, level: int, c: int, t: int)
    requires Linked(nodes, order, level) && 0 <= c < |order| && 0 <= t <= MAX_LAYER
    ensures var x, y := order[c], nodes[order[c]].forward[t];
      y != NIL ==> 0 <= y < |nodes| && nodes[y].level >= t && (c >= 1 ==> nodes[x].key < nodes[y].key)
  {
    LinkAt(nodes, order, c, t);
  }

  /** Above the current level, the head links nowhere: no node reaches those levels. */
  lemma EmptyAboveLevel<T>(nodes: seq<Node<T>>, order: seq<int>, level: int, size: int,
                           free: seq<int>, contents: map<int, T>, zero: T, t: int)
    requires Inv(nodes, order, level, size, free, contents, zero)
    requires level < t <= MAX_LAYER
    ensures nodes[HEAD].forward[t] == NIL
  {
    var hs := Heights(nodes, order);
    LinkAt(nodes, order, 0, t);
    NextAtUnique(hs, 1, t, |order|);
  }

  /**
   * Conversely, when the head links nowhere above `level`, no node of the chain
   * is taller than `level`: a node of height h would be the head's successor
   * at level h or behind it.
   */
  lemma HeightsBelowLevel<T>(nodes: seq<Node<T>>, order: seq<int>, level: int)
    requires Arena(nodes) && InArena(nodes, order) && LinksOK(nodes, order) && 0 <= level
    requires |order| >= 1 && order[0] == HEAD && nodes[HEAD].level == MAX_LAYER
    requires forall c :: 1 <= c < |order| ==> nodes[order[c]].level <= MAX_LAYER
    requires forall t :: level < t <= MAX_LAYER ==> nodes[HEAD].forward[t] == NIL
    ensures forall c :: 1 <= c < |order| ==> nodes[order[c]].level <= level
  {
    var hs := Heights(nodes, order);
    forall c | 1 <= c < |order|
      ensures nodes[order[c]].level <= level
    {
      var h := hs[c];
      if h > level {
        LinkAt(nodes, order, 0, h);
        assert false;
      }
    }
  }

  /**
   * One move of the descent at level i from the node at coordinate d: the link
   * leads to the next coordinate q that reaches level i, and the key there is
   * below `key` exactly when q is still before the search point p.
   */
  lemma StepRight<T>(nodes: seq<Node<T>>, order: seq<int>, level: int, key: int, p: int, d: int, i: int)
    requires Linked(nodes, order, level) && p == LowerBound(Keys(nodes, order), key, 1)
    requires 0 <= i <= MAX_LAYER && 0 <= d < p && Heights(nodes, order)[d] >= i
    ensures var q := NextAt(Heights(nodes, order), d + 1, i);
      && nodes[order[d]].forward[i] == SlotAt(order, q)
      && (q < p <==> q < |order| && nodes[order[q]].key < key)
  {
    var hs, ks := Heights(nodes, order), Keys(nodes, order);
    LinkAt(nodes, order, d, i);
    var q := NextAt(hs, d + 1, i);
    if p <= q < |order| && p < |order| {
      assert ks[p] <= ks[q];
    }
  }

  /**
   * At the bottom of the descent, the level-0 successor of the predecessor is
   * the node at the lower bound p, or nil when p is past the end.
   */
  lemma Candidate<T>(nodes: seq<Node<T>>, order: seq<int>, level: int, p: int, cs: seq<int>)
    requires Linked(nodes, order, level)
    requires Trail(Heights(nodes, order), p, level, cs)
    ensures nodes[order[cs[0]]].forward[0] == SlotAt(order, p)
  {
    var hs := Heights(nodes, order);
    LinkAt(nodes, order, cs[0], 0);
    assert hs[p - 1] >= 0;
    assert cs[0] == p - 1;
    NextAtUnique(hs, p, 0, p);
  }

  /**
   * The invariant survives any change of the arena that leaves the chain's
   * nodes alone and keeps the pool valid: the pool taking or giving back a slot.
   */
  lemma InvFrame<T>(nodes0: seq<Node<T>>, nodes1: seq<Node<T>>, order: seq<int>, level: int, size: int,
                    free0: seq<int>, free1: seq<int>, contents: map<int, T>, zero: T)
    requires Inv(nodes0, order, level, size, free0, contents, zero)
    requires Forwards(nodes1) && |nodes1| >= |nodes0|
    requires forall c :: 0 <= c < |order| ==> nodes1[order[c]] == nodes0[order[c]]
    requires PoolOK(nodes1, order, free1, zero)
    ensures Inv(nodes1, order, level, size, free1, contents, zero)
    ensures Heights(nodes1, order) == Heights(nodes0, order)
    ensures Keys(nodes1, order) == Keys(nodes0, order)
  {
    ChainFrame(nodes0, nodes1, order);
    assert nodes1[HEAD] == nodes0[HEAD] by { assert order[0] == HEAD; }
  }

  /**
   * Overwriting the value of the node at coordinate p, as Insert does for a key
   * already present, maps that key to the new value and changes nothing else.
   */
  lemma OverwriteInv<T>(nodes: seq<Node<T>>, order: seq<int>, level: int, size: int,
                        free: seq<int>, contents: map<int, T>, zero: T, p: int, val: T)
    requires Inv(nodes, order, level, size, free, contents, zero)
    requires 1 <= p < |order|
    ensures var x := order[p];
      Inv(nodes[x := nodes[x].(value := val)], order, level, size, free, contents[nodes[x].key := val], zero)
  {
    var x := order[p];
    var nodes' := nodes[x := nodes[x].(value := val)];
    var key := nodes[x].key;
    var contents' := contents[key := val];
    assert Heights(nodes', order) == Heights(nodes, order);
    assert Keys(nodes', order) == Keys(nodes, order);
    forall c, t | 0 <= c < |order| && 0 <= t <= MAX_LAYER
      ensures var hs := Heights(nodes', order);
        nodes'[order[c]].forward[t] == (if t <= hs[c] then SlotAt(order, NextAt(hs, c + 1, t)) else NIL)
    {
      LinkAt(nodes, order, c, t);
    }
    LinksIntro(nodes', order);
    var ks, vs := Keys(nodes, order), Values(nodes, order);
    var vs' := Values(nodes', order);
    assert vs' == vs[p := val] by {
      forall c | 0 <= c < |order| && c != p ensures vs'[c] == vs[c] {
        assert order[c] != x;
      }
    }
    ChainMapUpdate(ks, vs, p, val);
    ChainMapFind(ks, vs, 1, key);
    assert nodes'[HEAD] == nodes[HEAD] by {
      assert order[0] != x;
    }
    forall i | 0 <= i < |free|
      ensures nodes'[free[i]] == Blank(zero)
    {
      assert free[i] != x;
    }
  }

  /** One iteration of Insert's splice loop, at level i, with `u` the predecessor there. */
  lemma SpliceStep<T>(nodes1: seq<Node<T>>, nodes: seq<Node<T>>, order: seq<int>, s: int, cs: seq<int>, i: int)
    requires Forwards(nodes1) && InArena(nodes1, order) && 0 <= s < |nodes1| && s !in order
    requires |cs| == MAX_LAYER + 1 && 0 <= i <= MAX_LAYER
    requires forall t :: 0 <= t <= i ==> 0 <= cs[t] < |order|
    requires Spliced(nodes1, nodes, order, s, i - 1, cs)
    ensures var u := order[cs[i]];
      var nodesA := nodes[s := nodes[s].(forward := nodes[s].forward[i := nodes[u].forward[i]])];
      var nodesB := nodesA[u := nodesA[u].(forward := nodesA[u].forward[i := s])];
      Spliced(nodes1, nodesB, order, s, i, cs)
  {
    var u := order[cs[i]];
    var nodesA := nodes[s := nodes[s].(forward := nodes[s].forward[i := nodes[u].forward[i]])];
    var nodesB := nodesA[u := nodesA[u].(forward := nodesA[u].forward[i := s])];
    assert u != s;
    SplicedAt(nodes1, nodes, order, s, i - 1, cs, u, i);
    forall n, t {:trigger nodesB[n].forward[t]} | 0 <= n < |nodesB| && 0 <= t <= MAX_LAYER
      ensures nodesB[n].forward[t] ==
        (if t <= i && n == order[cs[t]] then s
         else if t <= i && n == s then nodes1[order[cs[t]]].forward[t]
         else nodes1[n].forward[t])
    {
      SplicedAt(nodes1, nodes, order, s, i - 1, cs, n, t);
      if t <= i {
        assert n == s ==> n != order[cs[t]];
      }
    }
  }

  /** One iteration of Delete's unlink loop, at level i, with `u` the predecessor there. */
  lemma UnlinkStep<T>(nodes1: seq<Node<T>>, nodes: seq<Node<T>>, order: seq<int>, p: int, cs: seq<int>, i: int)
    requires Forwards(nodes1) && InArena(nodes1, order) && Distinct(order) && 0 <= p < |order|
    requires |cs| == MAX_LAYER + 1 && 0 <= i <= MAX_LAYER
    requires forall t :: 0 <= t <= i ==> 0 <= cs[t] < p
    requires Unlinked(nodes1, nodes, order, p, i - 1, cs)
    ensures var u, x := order[cs[i]], order[p];
      var nodesA := nodes[u := nodes[u].(forward := nodes[u].forward[i := nodes[x].forward[i]])];
      Unlinked(nodes1, nodesA, order, p, i, cs)
  {
    var u, x := order[cs[i]], order[p];
    var nodesA := nodes[u := nodes[u].(forward := nodes[u].forward[i := nodes[x].forward[i]])];
    assert u != x;
    UnlinkedAt(nodes1, nodes, order, p, i - 1, cs, x, i);
    forall t | 0 <= t <= i - 1 ensures x != order[cs[t]] {
      assert cs[t] < p;
    }
    forall n, t {:trigger nodesA[n].forward[t]} | 0 <= n < |nodesA| && 0 <= t <= MAX_LAYER
      ensures nodesA[n].forward[t] ==
        (if t <= i && n == order[cs[t]] then nodes1[order[p]].forward[t] else nodes1[n].forward[t])
    {
      UnlinkedAt(nodes1, nodes, order, p, i - 1, cs, n, t);
    }
  }

  /**
   * One iteration of Delete's unlink loop, at level i: the predecessor u links
   * to the node x exactly when i is within x's height, and then u taking over
   * x's link extends the unlink to level i.
   */
  lemma UnlinkIter<T>(nodes1: seq<Node<T>>, nodes: seq<Node<T>>, order: seq<int>, p: int, cs: seq<int>, i: int)
    requires UnlinkReady(nodes1, order, p, cs)
    requires 0 <= i <= nodes1[order[p]].level + 1 && i <= MAX_LAYER
    requires IsPred(Heights(nodes1, order), p, i, cs[i])
    requires Unlinked(nodes1, nodes, order, p, i - 1, cs)
    ensures var u, x := order[cs[i]], order[p];
      && (nodes[u].forward[i] == x <==> i <= nodes1[x].level)
      && (i <= nodes1[x].level ==>
            Unlinked(nodes1, nodes[u := nodes[u].(forward := nodes[u].forward[i := nodes[x].forward[i]])], order, p, i, cs))
  {
    UnlinkedAt(nodes1, nodes, order, p, i - 1, cs, order[cs[i]], i);
    UnlinkStopsAtHeight(nodes1, order, p, i, cs[i]);
    if i <= nodes1[order[p]].level {
      UnlinkStep(nodes1, nodes, order, p, cs, i);
    }
  }

  /** A slot not in a chain of distinct slots keeps it distinct when spliced in. */
  lemma DistinctInsert(order: seq<int>, p: int, s: int)
    requires Distinct(order) && 0 <= p <= |order| && s !in order
    ensures Distinct(order[..p] + [s] + order[p..])
  {
    var order' := order[..p] + [s] + order[p..];
    forall a, b | 0 <= a < b < |order'| ensures order'[a] != order'[b] {
      var na := if a < p then order[a] else if a == p then s else order[a - 1];
      var nb := if b < p then order[b] else if b == p then s else order[b - 1];
      assert order'[a] == na && order'[b] == nb;
    }
  }

  /** Taking a slot out of a chain of distinct slots keeps it distinct. */
  lemma DistinctRemove(order: seq<int>, p: int)
    requires Distinct(order) && 0 <= p < |order|
    ensures Distinct(order[..p] + order[p + 1..])
  {
    var order' := order[..p] + order[p + 1..];
    forall a, b | 0 <= a < b < |order'| ensures order'[a] != order'[b] {
      assert order'[a] == if a < p then order[a] else order[a + 1];
      assert order'[b] == if b < p then order[b] else order[b + 1];
    }
  }

  /** The splice leaves the pool alone: its slots are neither in the chain nor the new node. */
  lemma SplicePool<T>(nodes1: seq<Node<T>>, nodes2: seq<Node<T>>, order: seq<int>, p: int, s: int, h: int,
                      cs: seq<int>, free: seq<int>, zero: T)
    requires Forwards(nodes1) && InArena(nodes1, order) && 0 <= s < |nodes1| && 0 <= p <= |order|
    requires |cs| == MAX_LAYER + 1 && h <= MAX_LAYER
    requires forall t :: 0 <= t <= h ==> 0 <= cs[t] < |order|
    requires Spliced(nodes1, nodes2, order, s, h, cs)
    requires PoolOK(nodes1, order, free, zero) && s !in free
    ensures PoolOK(nodes2, order[..p] + [s] + order[p..], free, zero)
  {
    var order' := order[..p] + [s] + order[p..];
    forall i | 0 <= i < |free|
      ensures nodes2[free[i]] == Blank(zero) && free[i] !in order'
    {
      var f := free[i];
      forall t | 0 <= t <= MAX_LAYER ensures nodes2[f].forward[t] == nodes1[f].forward[t] {
        SplicedAt(nodes1, nodes2, order, s, h, cs, f, t);
        if t <= h {
          assert f != order[cs[t]];
        }
      }
      assert nodes2[f].forward == nodes1[f].forward;
    }
  }

  /** The unlink leaves the pool alone: its slots are not in the chain. */
  lemma UnlinkPool<T>(nodes1: seq<Node<T>>, nodes2: seq<Node<T>>, order: seq<int>, p: int, h: int,
                      cs: seq<int>, free: seq<int>, zero: T)
    requires Forwards(nodes1) && InArena(nodes1, order) && 0 <= p < |order|
    requires |cs| == MAX_LAYER + 1 && h <= MAX_LAYER
    requires forall t :: 0 <= t <= h ==> 0 <= cs[t] < |order|
    requires Unlinked(nodes1, nodes2, order, p, h, cs)
    requires PoolOK(nodes1, order, free, zero)
    ensures PoolOK(nodes2, order[..p] + order[p + 1..], free, zero)
  {
    var order' := order[..p] + order[p + 1..];
    forall i | 0 <= i < |free|
      ensures nodes2[free[i]] == Blank(zero) && free[i] !in order'
    {
      var f := free[i];
      forall t | 0 <= t <= MAX_LAYER ensures nodes2[f].forward[t] == nodes1[f].forward[t] {
        UnlinkedAt(nodes1, nodes2, order, p, h, cs, f, t);
        if t <= h {
          assert f != order[cs[t]];
        }
      }
      assert nodes2[f].forward == nodes1[f].forward;
    }
  }

  /** The chain after the splice starts at the head, has distinct slots, sorted keys and heights up to the new level. */
  lemma SpliceOrdered<T>(nodes1: seq<Node<T>>, nodes2: seq<Node<T>>, order: seq<int>, level: int, p: int, s: int)
    requires Arena(nodes1) && InArena(nodes1, order) && Ordered(nodes1, order, level)
    requires SameNodes(nodes1, nodes2) && 1 <= p <= |order| && 0 <= s < |nodes1| && s !in order
    requires 0 <= nodes1[s].level <= MAX_LAYER
    requires Sorted(Keys(nodes1, order)[..p] + [nodes1[s].key] + Keys(nodes1, order)[p..])
    ensures var order' := order[..p] + [s] + order[p..];
      && Arena(nodes2) && InArena(nodes2, order')
      && Ordered(nodes2, order', if nodes1[s].level > level then nodes1[s].level else level)
  {
    var order' := order[..p] + [s] + order[p..];
    var h := nodes1[s].level;
    var level' := if h > level then h else level;
    SpliceShape(nodes1, nodes2, order, p, s);
    DistinctInsert(order, p, s);
    assert order'[0] == HEAD;
    var hs, hs' := Heights(nodes1, order), Heights(nodes2, order');
    forall c | 1 <= c < |order'| ensures 0 <= hs'[c] <= level' {
      assert hs'[c] == if c < p then hs[c] else if c == p then h else hs[c - 1];
    }
  }

  /** After the splice, the head links somewhere at the new level unless it is 0. */
  lemma SpliceTop<T>(nodes1: seq<Node<T>>, nodes2: seq<Node<T>>, order: seq<int>, level: int, p: int, s: int, h: int, cs: seq<int>)
    requires Arena(nodes1) && InArena(nodes1, order) && Ordered(nodes1, order, level)
    requires level == 0 || nodes1[HEAD].forward[level] != NIL
    requires 0 <= s < |nodes1| && s !in order && 0 <= h <= MAX_LAYER
    requires Trail(Heights(nodes1, order), p, h, cs)
    requires Spliced(nodes1, nodes2, order, s, h, cs)
    ensures var level' := if h > level then h else level;
      level' == 0 || nodes2[HEAD].forward[level'] != NIL
  {
    var level' := if h > level then h else level;
    var hs := Heights(nodes1, order);
    if level' > 0 {
      SplicedAt(nodes1, nodes2, order, s, h, cs, HEAD, level');
      if h > level {
        assert cs[h] == 0;
      }
    }
  }

  /**
   * Insert of a new key: splicing a fresh node of height h at the key's lower
   * bound p adds exactly that key/value pair, one to the size, and raises the
   * level to h when h is above it.
   */
  lemma SpliceInv<T>(nodes1: seq<Node<T>>, nodes2: seq<Node<T>>, order: seq<int>, level: int, size: int,
                     free: seq<int>, contents: map<int, T>, zero: T,
                     p: int, s: int, h: int, cs: seq<int>, key: int, val: T)
    requires Inv(nodes1, order, level, size, free, contents, zero)
    requires key !in contents && p == LowerBound(Keys(nodes1, order), key, 1)
    requires 0 <= s < |nodes1| && s !in order && s !in free
    requires 0 <= h <= MAX_LAYER
    requires nodes1[s] == Node(seq(MAX_LAYER + 1, _ => NIL), key, h, val)
    requires Trail(Heights(nodes1, order), p, h, cs)
    requires Spliced(nodes1, nodes2, order, s, h, cs)
    ensures Inv(nodes2, order[..p] + [s] + order[p..], if h > level then h else level, size + 1,
                free, contents[key := val], zero)
  {
    var ks, vs := Keys(nodes1, order), Values(nodes1, order);
    SpliceLinks(nodes1, nodes2, order, p, s, h, cs);
    SpliceShape(nodes1, nodes2, order, p, s);
    ChainMapInsert(ks, vs, p, key, val);
    SpliceOrdered(nodes1, nodes2, order, level, p, s);
    SpliceTop(nodes1, nodes2, order, level, p, s, h, cs);
    SplicePool(nodes1, nodes2, order, p, s, h, cs, free, zero);
    ChainMapSize(ks[..p] + [key] + ks[p..], vs[..p] + [val] + vs[p..], 1);
  }

  /** The chain after the unlink starts at the head, has distinct slots, sorted keys and heights up to `level'`. */
  lemma UnlinkOrdered<T>(nodes1: seq<Node<T>>, nodes2: seq<Node<T>>, order: seq<int>, level: int, level': int, p: int)
    requires Arena(nodes1) && InArena(nodes1, order) && Ordered(nodes1, order, level)
    requires SameNodes(nodes1, nodes2) && 1 <= p < |order| && 0 <= level' <= level
    requires LinksOK(nodes2, order[..p] + order[p + 1..])
    requires forall t :: level' < t <= MAX_LAYER ==> nodes2[HEAD].forward[t] == NIL
    requires Sorted(Keys(nodes1, order)[..p] + Keys(nodes1, order)[p + 1..])
    ensures var order' := order[..p] + order[p + 1..];
      && Arena(nodes2) && InArena(nodes2, order') && Ordered(nodes2, order', level')
  {
    var order' := order[..p] + order[p + 1..];
    UnlinkShape(nodes1, nodes2, order, p);
    DistinctRemove(order, p);
    assert order'[0] == HEAD;
    BoundedRemove(Heights(nodes1, order), p);
    HeightsBelowLevel(nodes2, order', level');
  }

  /** Taking one coordinate out of a height sequence keeps every other height within bounds. */
  lemma BoundedRemove(hs: seq<int>, p: int)
    requires 1 <= p < |hs| && forall c :: 1 <= c < |hs| ==> 0 <= hs[c] <= MAX_LAYER
    ensures var hs' := hs[..p] + hs[p + 1..];
      forall c :: 1 <= c < |hs'| ==> 0 <= hs'[c] <= MAX_LAYER
  {
    var hs' := hs[..p] + hs[p + 1..];
    forall c | 1 <= c < |hs'| ensures 0 <= hs'[c] <= MAX_LAYER {
      assert hs'[c] == if c < p then hs[c] else hs[c + 1];
    }
  }

  /**
   * Delete of a present key: unlinking the node at coordinate p and lowering the
   * level past the empty top levels removes exactly that key and one from the size.
   */
  lemma UnlinkInv<T>(nodes1: seq<Node<T>>, nodes2: seq<Node<T>>, order: seq<int>, level: int, level': int,
                     size: int, free: seq<int>, contents: map<int, T>, zero: T, p: int, cs: seq<int>)
    requires Inv(nodes1, order, level, size, free, contents, zero)
    requires 1 <= p < |order|
    requires Trail(Heights(nodes1, order), p, nodes1[order[p]].level, cs)
    requires Unlinked(nodes1, nodes2, order, p, nodes1[order[p]].level, cs)
    requires 0 <= level' <= level
    requires level' == 0 || nodes2[HEAD].forward[level'] != NIL
    requires forall t :: level' < t <= MAX_LAYER ==> nodes2[HEAD].forward[t] == NIL
    ensures Inv(nodes2, order[..p] + order[p + 1..], level', size - 1, free,
                contents - {nodes1[order[p]].key}, zero)
  {
    var ks, vs := Keys(nodes1, order), Values(nodes1, order);
    UnlinkLinks(nodes1, nodes2, order, p, cs);
    UnlinkShape(nodes1, nodes2, order, p);
    ChainMapRemove(ks, vs, p);
    UnlinkOrdered(nodes1, nodes2, order, level, level', p);
    UnlinkPool(nodes1, nodes2, order, p, nodes1[order[p]].level, cs, free, zero);
    ChainMapSize(ks[..p] + ks[p + 1..], vs[..p] + vs[p + 1..], 1);
  }

  // ---------------------------------------------------------------------------
  // Whole operations
  // ---------------------------------------------------------------------------

  /** A node of height h, holding key and val, with no successors. */
  function Fresh<T>(key: int, h: int, val: T): (n: Node<T>)
    ensures n.key == key && n.level == h && n.value == val
    ensures |n.forward| == MAX_LAYER + 1 && forall t :: 0 <= t <= MAX_LAYER ==> n.forward[t] == NIL
  {
    Node(seq(MAX_LAYER + 1, _ => NIL), key, h, val)
  }

  /**
   * The pool handed out slot s holding `node`: the most recently freed slot when
   * the pool has one, a new slot at the end of the arena otherwise.
   */
  ghost predicate Allocated<T>(nodes0: seq<Node<T>>, free0: seq<int>, nodes1: seq<Node<T>>, free1: seq<int>,
                               s: int, node: Node<T>)
  {
    if free0 == [] then
      s == |nodes0| && nodes1 == nodes0 + [node] && free1 == []
    else
      && s == free0[|free0| - 1] && 0 <= s < |nodes0|
      && nodes1 == nodes0[s := node] && free1 == free0[..|free0| - 1]
  }

  /** A slot from the pool is outside the chain, and the rest of the pool stays valid. */
  lemma AllocatePool<T>(nodes0: seq<Node<T>>, nodes1: seq<Node<T>>, order: seq<int>, free0: seq<int>, free1: seq<int>,
                        zero: T, s: int, node: Node<T>)
    requires InArena(nodes0, order) && PoolOK(nodes0, order, free0, zero)
    requires Allocated(nodes0, free0, nodes1, free1, s, node)
    ensures 0 <= s < |nodes1| && s !in order && s !in free1 && nodes1[s] == node
    ensures |nodes1| >= |nodes0| && forall m :: 0 <= m < |nodes0| && m != s ==> nodes1[m] == nodes0[m]
    ensures PoolOK(nodes1, order, free1, zero)
  {
    if free0 != [] {
      forall i | 0 <= i < |free1| ensures free1[i] != s {
        assert free1[i] == free0[i];
      }
    }
  }

  /** After the allocation, the state is ready for Insert's splice loop. */
  lemma AllocateReady<T>(nodes0: seq<Node<T>>, nodes1: seq<Node<T>>, order: seq<int>, level: int, size: int,
                         free0: seq<int>, free1: seq<int>, contents: map<int, T>, zero: T,
                         s: int, key: int, h: int, val: T, p: int, cs: seq<int>)
    requires Inv(nodes0, order, level, size, free0, contents, zero)
    requires Allocated(nodes0, free0, nodes1, free1, s, Fresh(key, h, val))
    requires 0 <= h <= MAX_LAYER && 1 <= p <= |order| && Trail(Heights(nodes0, order), p, h, cs)
    ensures SpliceReady(nodes1, order, p, s, h, cs)
  {
    AllocatePool(nodes0, nodes1, order, free0, free1, zero, s, Fresh(key, h, val));
    InvFrame(nodes0, nodes1, order, level, size, free0, free1, contents, zero);
  }

  /**
   * Insert of a new key, from the allocation of its node to the end of the
   * splice: the pool gives up slot s and the key/value pair joins the map.
   */
  lemma InsertInv<T>(nodes0: seq<Node<T>>, nodes1: seq<Node<T>>, nodes2: seq<Node<T>>, order: seq<int>,
                     level: int, size: int, free0: seq<int>, free1: seq<int>, contents: map<int, T>, zero: T,
                     s: int, key: int, h: int, val: T, p: int, cs: seq<int>)
    requires Inv(nodes0, order, level, size, free0, contents, zero)
    requires key !in contents && p == LowerBound(Keys(nodes0, order), key, 1)
    requires Allocated(nodes0, free0, nodes1, free1, s, Fresh(key, h, val))
    requires 0 <= h <= MAX_LAYER && Trail(Heights(nodes0, order), p, h, cs)
    requires SpliceReady(nodes1, order, p, s, h, cs)
    requires Spliced(nodes1, nodes2, order, s, h, cs)
    ensures Inv(nodes2, order[..p] + [s] + order[p..], if h > level then h else level, size + 1,
                free1, contents[key := val], zero)
    ensures (order[..p] + [s] + order[p..])[p] == s && nodes2[s].key == key && nodes2[s].level == h
  {
    AllocatePool(nodes0, nodes1, order, free0, free1, zero, s, Fresh(key, h, val));
    InvFrame(nodes0, nodes1, order, level, size, free0, free1, contents, zero);
    SpliceInv(nodes1, nodes2, order, level, size, free1, contents, zero, p, s, h, cs, key, val);
  }

  /** Blanking a slot outside the chain and the pool and handing it to the pool keeps the invariant. */
  lemma ReleaseInv<T>(nodes: seq<Node<T>>, order: seq<int>, level: int, size: int,
                      free: seq<int>, contents: map<int, T>, zero: T, x: int)
    requires Inv(nodes, order, level, size, free, contents, zero)
    requires 0 <= x < |nodes| && x !in order && x !in free
    ensures Inv(nodes[x := Blank(zero)], order, level, size, free + [x], contents, zero)
  {
    var nodes' := nodes[x := Blank(zero)];
    assert PoolOK(nodes', order, free + [x], zero) by {
      assert forall i :: 0 <= i < |free| ==> (free + [x])[i] == free[i];
    }
    InvFrame(nodes, nodes', order, level, size, free, free + [x], contents, zero);
  }

  /** The slot taken out of the chain is neither in the rest of the chain nor in the pool. */
  lemma RemovedSlot(order: seq<int>, p: int, free: seq<int>)
    requires Distinct(order) && 0 <= p < |order|
    requires forall i :: 0 <= i < |free| ==> free[i] !in order
    ensures order[p] !in order[..p] + order[p + 1..] && order[p] !in free
  {
    DistinctRemove(order, p);
    var order' := order[..p] + order[p + 1..];
    assert forall c :: 0 <= c < |order'| ==> order'[c] == (if c < p then order[c] else order[c + 1]);
  }

  /** The unlink loop leaves the head's links above the level NIL. */
  lemma UnlinkedTop<T>(nodes1: seq<Node<T>>, nodes2: seq<Node<T>>, order: seq<int>, level: int, size: int,
                       free: seq<int>, contents: map<int, T>, zero: T, p: int, cs: seq<int>)
    requires Inv(nodes1, order, level, size, free, contents, zero)
    requires 1 <= p < |order|
    requires Trail(Heights(nodes1, order), p, level, cs)
    requires Unlinked(nodes1, nodes2, order, p, nodes1[order[p]].level, cs)
    ensures forall t :: level < t <= MAX_LAYER ==> nodes2[HEAD].forward[t] == NIL
  {
    forall t | level < t <= MAX_LAYER
      ensures nodes2[HEAD].forward[t] == NIL
    {
      EmptyAboveLevel(nodes1, order, level, size, free, contents, zero, t);
      UnlinkedAt(nodes1, nodes2, order, p, nodes1[order[p]].level, cs, HEAD, t);
    }
  }

  /**
   * Delete of a present key, from the unlink loop to the return of its node to
   * the pool: the key leaves the map and the slot joins the pool.
   */
  lemma DeleteInv<T>(nodes1: seq<Node<T>>, nodes2: seq<Node<T>>, order: seq<int>, level: int, level': int,
                     size: int, free: seq<int>, contents: map<int, T>, zero: T, p: int, cs: seq<int>)
    requires Inv(nodes1, order, level, size, free, contents, zero)
    requires 1 <= p < |order|
    requires Trail(Heights(nodes1, order), p, level, cs)
    requires Unlinked(nodes1, nodes2, order, p, nodes1[order[p]].level, cs)
    requires 0 <= level' <= level
    requires level' == 0 || nodes2[HEAD].forward[level'] != NIL
    requires forall t :: level' < t <= level ==> nodes2[HEAD].forward[t] == NIL
    ensures var x := order[p];
      Inv(nodes2[x := Blank(zero)], order[..p] + order[p + 1..], level', size - 1, free + [x],
          contents - {nodes1[x].key}, zero)
  {
    var x := order[p];
    UnlinkedTop(nodes1, nodes2, order, level, size, free, contents, zero, p, cs);
    UnlinkInv(nodes1, nodes2, order, level, level', size, free, contents, zero, p, cs);
    RemovedSlot(order, p, free);
    ReleaseInv(nodes2, order[..p] + order[p + 1..], level', size - 1, free, contents - {nodes1[x].key}, zero, x);
  }
}
