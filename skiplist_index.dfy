/**
 * The index structure of the skip list in skiplist/skip_list.go, as values.
 *
 * Nodes live in an arena: a sequence indexed by slot number. A forward link is
 * the slot number of the successor, or NIL. Slot HEAD holds the sentinel.
 *
 * The shape of a valid index is described by a ghost sequence `order`: the
 * level-0 chain as slot numbers, starting with HEAD at coordinate 0. A node's
 * height is its `level` field; the heights along `order` decide every forward
 * link: the link of the node at coordinate c at level t is the first node
 * after c whose height reaches t (NextAt), when the node itself reaches t,
 * and NIL otherwise.
 */
module SkipIndex {

  /** The highest level index: the head has forward links at levels 0..MAX_LAYER. */
  const MAX_LAYER: int := 32
  /** The nil link. */
  const NIL: int := -1
  /** The arena slot of the head sentinel. */
  const HEAD: int := 0

  datatype Node<T> = Node(forward: seq<int>, key: int, level: int, value: T)

  /** A node as the pool hands it out: no successors, key and level 0, the zero value. */
  function Blank<T>(zero: T): Node<T>
  {
    Node(seq(MAX_LAYER + 1, _ => NIL), 0, 0, zero)
  }

  /** Every node of the arena has one forward link per level 0..MAX_LAYER. */
  ghost predicate Forwards<T>(nodes: seq<Node<T>>)
  {
    forall n :: 0 <= n < |nodes| ==> |nodes[n].forward| == MAX_LAYER + 1
  }

  /** An arena that holds the head. */
  ghost predicate Arena<T>(nodes: seq<Node<T>>)
  {
    HEAD < |nodes| && Forwards(nodes)
  }

  /** Every slot named by `order` is a slot of the arena. */
  ghost predicate InArena<T>(nodes: seq<Node<T>>, order: seq<int>)
  {
    forall c :: 0 <= c < |order| ==> 0 <= order[c] < |nodes|
  }

  ghost predicate Distinct(s: seq<int>)
  {
    forall a, b :: 0 <= a < b < |s| ==> s[a] != s[b]
  }

  /** The heights of the nodes along `order`. */
  function Heights<T>(nodes: seq<Node<T>>, order: seq<int>): (hs: seq<int>)
    requires InArena(nodes, order)
    ensures |hs| == |order|
    ensures forall c :: 0 <= c < |order| ==> hs[c] == nodes[order[c]].level
  {
    seq(|order|, c requires 0 <= c < |order| => nodes[order[c]].level)
  }

  /** The keys of the nodes along `order` (the head's key at coordinate 0 is never compared). */
  function Keys<T>(nodes: seq<Node<T>>, order: seq<int>): (ks: seq<int>)
    requires InArena(nodes, order)
    ensures |ks| == |order|
    ensures forall c :: 0 <= c < |order| ==> ks[c] == nodes[order[c]].key
  {
    seq(|order|, c requires 0 <= c < |order| => nodes[order[c]].key)
  }

  /** The first coordinate at or after `j` whose height reaches level `t`, or |hs| when none does. */
  function NextAt(hs: seq<int>, j: int, t: int): (q: int)
    requires 0 <= j <= |hs|
    ensures j <= q <= |hs|
    ensures q < |hs| ==> hs[q] >= t
    ensures forall k :: j <= k < q ==> hs[k] < t
    decreases |hs| - j
  {
    if j == |hs| then j
    else if hs[j] >= t then j
    else NextAt(hs, j + 1, t)
  }

  /** The slot at coordinate `q`, or NIL past the end of the chain. */
  function SlotAt(order: seq<int>, q: int): int
    requires 0 <= q
  {
    if q < |order| then order[q] else NIL
  }

  /**
   * The first coordinate at or after `j` whose key is not below `key`, or |ks|.
   * On a chain sorted from coordinate 1, LowerBound(ks, key, 1) is where `key`
   * is found or would be spliced in.
   */
  function LowerBound(ks: seq<int>, key: int, j: int): (p: int)
    requires 0 <= j <= |ks|
    ensures j <= p <= |ks|
    ensures p < |ks| ==> ks[p] >= key
    ensures forall c :: j <= c < p ==> ks[c] < key
    decreases |ks| - j
  {
    if j == |ks| then j
    else if ks[j] >= key then j
    else LowerBound(ks, key, j + 1)
  }

  /**
   * Coordinate `c` is the predecessor at level `t` of splice point `p`: the last
   * coordinate before `p` whose height reaches `t`.
   */
  ghost predicate IsPred(hs: seq<int>, p: int, t: int, c: int)
  {
    0 <= c < p <= |hs| && hs[c] >= t && forall k :: c < k < p ==> hs[k] < t
  }

  /**
   * The links of the node at coordinate c agree with the heights `hs` along
   * `order`: when the node reaches level t it links there to the next node that
   * reaches t; above its height its links are NIL.
   */
  ghost predicate NodeLinked<T>(nodes: seq<Node<T>>, order: seq<int>, hs: seq<int>, c: int)
    requires Forwards(nodes) && InArena(nodes, order) && |hs| == |order| && 0 <= c < |order|
  {
    forall t :: 0 <= t <= MAX_LAYER ==>
      nodes[order[c]].forward[t] == (if t <= hs[c] then SlotAt(order, NextAt(hs, c + 1, t)) else NIL)
  }

  /** Every node of the chain from coordinate c on has its links right. */
  ghost predicate LinkedFrom<T>(nodes: seq<Node<T>>, order: seq<int>, hs: seq<int>, c: int)
    requires Forwards(nodes) && InArena(nodes, order) && |hs| == |order| && 0 <= c <= |order|
    decreases |order| - c
  {
    c == |order| || (NodeLinked(nodes, order, hs, c) && LinkedFrom(nodes, order, hs, c + 1))
  }

  /** The forward links of the whole chain agree with its heights. */
  ghost predicate LinksOK<T>(nodes: seq<Node<T>>, order: seq<int>)
    requires Forwards(nodes) && InArena(nodes, order)
  {
    LinkedFrom(nodes, order, Heights(nodes, order), 0)
  }

  /**
   * The chain starts at the head, names each slot once, has keys strictly
   * increasing after the head and heights in 0..level.
   */
  ghost predicate Ordered<T>(nodes: seq<Node<T>>, order: seq<int>, level: int)
    requires InArena(nodes, order)
  {
    && |order| >= 1 && order[0] == HEAD && Distinct(order)
    && nodes[HEAD].level == MAX_LAYER
    && 0 <= level <= MAX_LAYER
    && (forall c :: 1 <= c < |order| ==> 0 <= nodes[order[c]].level <= level)
    && Sorted(Keys(nodes, order))
  }

  /** The values of the nodes along `order`. */
  function Values<T>(nodes: seq<Node<T>>, order: seq<int>): (vs: seq<T>)
    requires InArena(nodes, order)
    ensures |vs| == |order|
    ensures forall c :: 0 <= c < |order| ==> vs[c] == nodes[order[c]].value
  {
    seq(|order|, c requires 0 <= c < |order| => nodes[order[c]].value)
  }

  /** The map from each key ks[c] to its value vs[c], for the coordinates c from `j` on. */
  function ChainMap<T>(ks: seq<int>, vs: seq<T>, j: int): (m: map<int, T>)
    requires |ks| == |vs| && 0 <= j <= |ks|
    decreases |ks| - j
  {
    if j == |ks| then map[] else ChainMap(ks, vs, j + 1)[ks[j] := vs[j]]
  }

  /** `contents` holds exactly the key/value pairs of the level-0 chain after the head. */
  ghost predicate ContentsOK<T>(nodes: seq<Node<T>>, order: seq<int>, contents: map<int, T>)
    requires InArena(nodes, order) && |order| >= 1
  {
    contents == ChainMap(Keys(nodes, order), Values(nodes, order), 1)
  }

  /** The pool: distinct blank slots that are not in the chain. */
  ghost predicate PoolOK<T>(nodes: seq<Node<T>>, order: seq<int>, free: seq<int>, zero: T)
  {
    && Distinct(free)
    && forall i :: 0 <= i < |free| ==>
         0 <= free[i] < |nodes| && nodes[free[i]] == Blank(zero) && free[i] !in order
  }

  /** The index part of the invariant: the chain and the links the descent follows. */
  ghost predicate Linked<T>(nodes: seq<Node<T>>, order: seq<int>, level: int)
  {
    && Arena(nodes) && InArena(nodes, order)
    && Ordered(nodes, order, level)
    && LinksOK(nodes, order)
  }

  /** The whole representation invariant of a skip list. */
  ghost predicate Inv<T>(nodes: seq<Node<T>>, order: seq<int>, level: int, size: int,
                         free: seq<int>, contents: map<int, T>, zero: T)
  {
    && Linked(nodes, order, level)
    && (level == 0 || nodes[HEAD].forward[level] != NIL)
    && ContentsOK(nodes, order, contents)
    && size == |order| - 1 && |contents| == size
    && PoolOK(nodes, order, free, zero)
  }

  /** The height drawn for a new node, clamped to the maximum level `m`. */
  function RandomLevel(m: int, sample: nat): (lvl: int)
    ensures lvl <= m && lvl <= sample
    ensures lvl == m || lvl == sample
  {
    if m < sample then m else sample
  }

  // ---------------------------------------------------------------------------
  // Facts about NextAt and LowerBound
  // ---------------------------------------------------------------------------

  /** NextAt is the only coordinate with its three defining properties. */
  lemma NextAtUnique(hs: seq<int>, j: int, t: int, q: int)
    requires 0 <= j <= q <= |hs|
    requires q < |hs| ==> hs[q] >= t
    requires forall k :: j <= k < q ==> hs[k] < t
    ensures NextAt(hs, j, t) == q
  {
  }

  /** LowerBound is the only coordinate with its three defining properties. */
  lemma LowerBoundUnique(ks: seq<int>, key: int, j: int, p: int)
    requires 0 <= j <= p <= |ks|
    requires p < |ks| ==> ks[p] >= key
    requires forall c :: j <= c < p ==> ks[c] < key
    ensures LowerBound(ks, key, j) == p
  {
  }

  /** Where NextAt lands once a node of height `h` is spliced in at coordinate `p`. */
  lemma NextAtInsert(hs: seq<int>, p: int, h: int, j: int, t: int)
    requires 0 <= p <= |hs| && 0 <= j <= |hs| + 1
    ensures var hs' := hs[..p] + [h] + hs[p..];
      && (j <= p ==>
            NextAt(hs', j, t) ==
              (if NextAt(hs, j, t) < p then NextAt(hs, j, t)
               else if h >= t then p
               else NextAt(hs, j, t) + 1))
      && (p < j ==> NextAt(hs', j, t) == NextAt(hs, j - 1, t) + 1)
  {
    var hs' := hs[..p] + [h] + hs[p..];
    assert forall k :: 0 <= k < p ==> hs'[k] == hs[k];
    assert hs'[p] == h;
    assert forall k :: p < k <= |hs| ==> hs'[k] == hs[k - 1];
    if j <= p {
      var q := NextAt(hs, j, t);
      if q < p {
        NextAtUnique(hs', j, t, q);
      } else if h >= t {
        NextAtUnique(hs', j, t, p);
      } else {
        NextAtUnique(hs', j, t, q + 1);
      }
    } else {
      var q := NextAt(hs, j - 1, t);
      NextAtUnique(hs', j, t, q + 1);
    }
  }

  /** Where NextAt lands once the node at coordinate `p` is taken out. */
  lemma NextAtRemove(hs: seq<int>, p: int, j: int, t: int)
    requires 0 <= p < |hs| && 0 <= j < |hs|
    ensures var hs' := hs[..p] + hs[p + 1..];
      && (j <= p ==>
            NextAt(hs', j, t) ==
              (if NextAt(hs, j, t) < p then NextAt(hs, j, t) else NextAt(hs, p + 1, t) - 1))
      && (p <= j ==> NextAt(hs', j, t) == NextAt(hs, j + 1, t) - 1)
  {
    var hs' := hs[..p] + hs[p + 1..];
    assert forall k :: 0 <= k < p ==> hs'[k] == hs[k];
    assert forall k :: p <= k < |hs| - 1 ==> hs'[k] == hs[k + 1];
    if j <= p {
      var q := NextAt(hs, j, t);
      if q < p {
        NextAtUnique(hs', j, t, q);
      } else {
        var r := NextAt(hs, p + 1, t);
        NextAtUnique(hs', j, t, r - 1);
      }
    }
    if p <= j {
      var r := NextAt(hs, j + 1, t);
      NextAtUnique(hs', j, t, r - 1);
    }
  }

  // ---------------------------------------------------------------------------
  // Facts about the links
  // ---------------------------------------------------------------------------

  /** LinkedFrom(c) says exactly that every coordinate from c on is NodeLinked. */
  lemma {:induction false} LinkedFromAll<T>(nodes: seq<Node<T>>, order: seq<int>, hs: seq<int>, c: int)
    requires Forwards(nodes) && InArena(nodes, order) && |hs| == |order| && 0 <= c <= |order|
    ensures LinkedFrom(nodes, order, hs, c) <==> forall d :: c <= d < |order| ==> NodeLinked(nodes, order, hs, d)
    decreases |order| - c
  {
    if c < |order| {
      LinkedFromAll(nodes, order, hs, c + 1);
    }
  }

  /** The link of one node of a well-linked chain at one level. */
  lemma LinkAt<T>(nodes: seq<Node<T>>, order: seq<int>, c: int, t: int)
    requires Forwards(nodes) && InArena(nodes, order) && LinksOK(nodes, order)
    requires 0 <= c < |order| && 0 <= t <= MAX_LAYER
    ensures var hs := Heights(nodes, order);
      nodes[order[c]].forward[t] == (if t <= hs[c] then SlotAt(order, NextAt(hs, c + 1, t)) else NIL)
  {
    LinkedFromAll(nodes, order, Heights(nodes, order), 0);
    assert NodeLinked(nodes, order, Heights(nodes, order), c);
  }

  /** A chain whose every link agrees with its heights is well linked. */
  lemma LinksIntro<T>(nodes: seq<Node<T>>, order: seq<int>)
    requires Forwards(nodes) && InArena(nodes, order)
    requires var hs := Heights(nodes, order);
      forall c, t :: 0 <= c < |order| && 0 <= t <= MAX_LAYER ==>
        nodes[order[c]].forward[t] == (if t <= hs[c] then SlotAt(order, NextAt(hs, c + 1, t)) else NIL)
    ensures LinksOK(nodes, order)
  {
    var hs := Heights(nodes, order);
    forall c | 0 <= c < |order| ensures NodeLinked(nodes, order, hs, c) {
    }
    LinkedFromAll(nodes, order, hs, 0);
  }

  /** The invariant of the chain depends only on the nodes in the chain. */
  lemma ChainFrame<T>(nodes1: seq<Node<T>>, nodes2: seq<Node<T>>, order: seq<int>)
    requires Forwards(nodes1) && Forwards(nodes2)
    requires InArena(nodes1, order) && InArena(nodes2, order)
    requires forall c :: 0 <= c < |order| ==> nodes2[order[c]] == nodes1[order[c]]
    ensures Heights(nodes2, order) == Heights(nodes1, order)
    ensures Keys(nodes2, order) == Keys(nodes1, order)
    ensures Values(nodes2, order) == Values(nodes1, order)
    ensures LinksOK(nodes1, order) ==> LinksOK(nodes2, order)
  {
    assert Heights(nodes2, order) == Heights(nodes1, order);
    assert Keys(nodes2, order) == Keys(nodes1, order);
    assert Values(nodes2, order) == Values(nodes1, order);
    if LinksOK(nodes1, order) {
      forall c, t | 0 <= c < |order| && 0 <= t <= MAX_LAYER
        ensures var hs := Heights(nodes2, order);
          nodes2[order[c]].forward[t] == (if t <= hs[c] then SlotAt(order, NextAt(hs, c + 1, t)) else NIL)
      {
        LinkAt(nodes1, order, c, t);
      }
      LinksIntro(nodes2, order);
    }
  }

  // ---------------------------------------------------------------------------
  // Splicing a node in (Insert) and unlinking it (Delete)
  // ---------------------------------------------------------------------------

  /** The trail `cs` holds, for each level 0..h, the predecessor of splice point `p`. */
  ghost predicate Trail(hs: seq<int>, p: int, h: int, cs: seq<int>)
  {
    |cs| == MAX_LAYER + 1 && h <= MAX_LAYER && forall t :: 0 <= t <= h ==> IsPred(hs, p, t, cs[t])
  }

  /** Only forward links differ between two arenas of the same size. */
  ghost predicate SameNodes<T>(nodes1: seq<Node<T>>, nodes2: seq<Node<T>>)
  {
    && |nodes2| == |nodes1| && Forwards(nodes2)
    && forall n :: 0 <= n < |nodes2| ==>
         nodes2[n].key == nodes1[n].key && nodes2[n].level == nodes1[n].level && nodes2[n].value == nodes1[n].value
  }

  /**
   * `nodes2` is `nodes1` after the splice loop of Insert: at each level t <= h
   * the predecessor cs[t] now links to `s`, and `s` takes over the predecessor's
   * old successor.
   */
  ghost predicate Spliced<T>(nodes1: seq<Node<T>>, nodes2: seq<Node<T>>, order: seq<int>, s: int, h: int, cs: seq<int>)
    requires Forwards(nodes1) && InArena(nodes1, order) && 0 <= s < |nodes1|
    requires |cs| == MAX_LAYER + 1 && h <= MAX_LAYER
    requires forall t :: 0 <= t <= h ==> 0 <= cs[t] < |order|
  {
    && SameNodes(nodes1, nodes2)
    && forall n, t {:trigger nodes2[n].forward[t]} :: 0 <= n < |nodes2| && 0 <= t <= MAX_LAYER ==>
         nodes2[n].forward[t] ==
           (if t <= h && n == order[cs[t]] then s
            else if t <= h && n == s then nodes1[order[cs[t]]].forward[t]
            else nodes1[n].forward[t])
  }

  /** What Insert needs of the state before its splice loop. */
  ghost predicate SpliceReady<T>(nodes1: seq<Node<T>>, order: seq<int>, p: int, s: int, h: int, cs: seq<int>)
  {
    && Forwards(nodes1) && InArena(nodes1, order) && Distinct(order) && LinksOK(nodes1, order)
    && 1 <= p <= |order| && 0 <= s < |nodes1| && s !in order
    && 0 <= h <= MAX_LAYER && nodes1[s].level == h
    && (forall t :: 0 <= t <= MAX_LAYER ==> nodes1[s].forward[t] == NIL)
    && Trail(Heights(nodes1, order), p, h, cs)
  }

  /** The chain and its heights, keys and values after the splice. */
  lemma SpliceShape<T>(nodes1: seq<Node<T>>, nodes2: seq<Node<T>>, order: seq<int>, p: int, s: int)
    requires InArena(nodes1, order) && SameNodes(nodes1, nodes2)
    requires 0 <= p <= |order| && 0 <= s < |nodes1|
    ensures var order' := order[..p] + [s] + order[p..];
      && InArena(nodes2, order')
      && Heights(nodes2, order') == Heights(nodes1, order)[..p] + [nodes1[s].level] + Heights(nodes1, order)[p..]
      && Keys(nodes2, order') == Keys(nodes1, order)[..p] + [nodes1[s].key] + Keys(nodes1, order)[p..]
      && Values(nodes2, order') == Values(nodes1, order)[..p] + [nodes1[s].value] + Values(nodes1, order)[p..]
  {
    var order' := order[..p] + [s] + order[p..];
    assert forall k :: 0 <= k < p ==> order'[k] == order[k];
    assert order'[p] == s;
    assert forall k :: p < k <= |order| ==> order'[k] == order[k - 1];
  }

  /**
   * A link after the splice, at a coordinate c before the splice point: `f1` is
   * its link before, `f2` after; `d` is the predecessor at level t when t <= h.
   */
  lemma SpliceLinkBefore(hs: seq<int>, order: seq<int>, p: int, s: int, h: int,
                         c: int, t: int, d: int, f1: int, f2: int)
    requires |hs| == |order| && 1 <= p <= |order| && 0 <= c < p
    requires t <= h ==> IsPred(hs, p, t, d)
    requires f1 == (if t <= hs[c] then SlotAt(order, NextAt(hs, c + 1, t)) else NIL)
    requires f2 == (if t <= h && c == d then s else f1)
    ensures var order', hs' := order[..p] + [s] + order[p..], hs[..p] + [h] + hs[p..];
      f2 == (if t <= hs'[c] then SlotAt(order', NextAt(hs', c + 1, t)) else NIL)
  {
    var order', hs' := order[..p] + [s] + order[p..], hs[..p] + [h] + hs[p..];
    assert hs'[c] == hs[c];
    NextAtInsert(hs, p, h, c + 1, t);
    if t <= hs[c] {
      var q := NextAt(hs, c + 1, t);
      if t <= h && c == d {
        assert q >= p;
        assert order'[p] == s;
      } else if t <= h {
        assert c < d;
        assert q < p;
        assert order'[q] == order[q];
      } else if q < p {
        assert order'[q] == order[q];
      } else if q < |order| {
        assert order'[q + 1] == order[q];
      }
    }
  }

  /** A link after the splice, out of the new node; `f` is the old link of its predecessor `d`. */
  lemma SpliceLinkNew(hs: seq<int>, order: seq<int>, p: int, s: int, h: int,
                      t: int, d: int, f: int, f2: int)
    requires |hs| == |order| && 1 <= p <= |order|
    requires t <= h ==> IsPred(hs, p, t, d) && f == SlotAt(order, NextAt(hs, d + 1, t))
    requires f2 == (if t <= h then f else NIL)
    ensures var order', hs' := order[..p] + [s] + order[p..], hs[..p] + [h] + hs[p..];
      f2 == (if t <= hs'[p] then SlotAt(order', NextAt(hs', p + 1, t)) else NIL)
  {
    var order', hs' := order[..p] + [s] + order[p..], hs[..p] + [h] + hs[p..];
    assert hs'[p] == h;
    if t <= h {
      var q := NextAt(hs, p, t);
      NextAtUnique(hs, d + 1, t, q);
      NextAtInsert(hs, p, h, p + 1, t);
      if q < |order| {
        assert order'[q + 1] == order[q];
      }
    }
  }

  /** A link after the splice, at a coordinate c after the splice point; it does not change. */
  lemma SpliceLinkAfter(hs: seq<int>, order: seq<int>, p: int, s: int, h: int,
                        c: int, t: int, f: int)
    requires |hs| == |order| && 1 <= p <= |order| && p < c <= |order|
    requires f == (if t <= hs[c - 1] then SlotAt(order, NextAt(hs, c, t)) else NIL)
    ensures var order', hs' := order[..p] + [s] + order[p..], hs[..p] + [h] + hs[p..];
      f == (if t <= hs'[c] then SlotAt(order', NextAt(hs', c + 1, t)) else NIL)
  {
    var order', hs' := order[..p] + [s] + order[p..], hs[..p] + [h] + hs[p..];
    assert hs'[c] == hs[c - 1];
    if t <= hs[c - 1] {
      NextAtInsert(hs, p, h, c + 1, t);
      var q := NextAt(hs, c, t);
      if q < |order| {
        assert order'[q + 1] == order[q];
      }
    }
  }

  /** One link of the arena after the splice loop. */
  lemma SplicedAt<T>(nodes1: seq<Node<T>>, nodes2: seq<Node<T>>, order: seq<int>, s: int, h: int, cs: seq<int>,
                     n: int, t: int)
    requires Forwards(nodes1) && InArena(nodes1, order) && 0 <= s < |nodes1|
    requires |cs| == MAX_LAYER + 1 && h <= MAX_LAYER
    requires forall t :: 0 <= t <= h ==> 0 <= cs[t] < |order|
    requires Spliced(nodes1, nodes2, order, s, h, cs)
    requires 0 <= n < |nodes1| && 0 <= t <= MAX_LAYER
    ensures nodes2[n].forward[t] ==
      (if t <= h && n == order[cs[t]] then s
       else if t <= h && n == s then nodes1[order[cs[t]]].forward[t]
       else nodes1[n].forward[t])
  {
  }

  /**
   * The link at level t of the node at coordinate c < p after the splice, from
   * its value f2 (`d` is the predecessor at level t when t <= h).
   */
  lemma SpliceLinkAtBefore<T>(nodes2: seq<Node<T>>, order: seq<int>, hs: seq<int>, p: int, s: int, h: int,
                        d: int, f1: int,
                        order': seq<int>, hs': seq<int>, c: int, t: int)
    requires |hs| == |order| && 1 <= p <= |order| && 0 <= t <= MAX_LAYER
    requires order' == order[..p] + [s] + order[p..] && hs' == hs[..p] + [h] + hs[p..]
    requires 0 <= c < p && 0 <= order[c] < |nodes2| && |nodes2[order[c]].forward| == MAX_LAYER + 1
    requires t <= h ==> IsPred(hs, p, t, d)
    requires f1 == (if t <= hs[c] then SlotAt(order, NextAt(hs, c + 1, t)) else NIL)
    requires nodes2[order[c]].forward[t] == (if t <= h && c == d then s else f1)
    ensures nodes2[order'[c]].forward[t] == (if t <= hs'[c] then SlotAt(order', NextAt(hs', c + 1, t)) else NIL)
  {
    assert order'[c] == order[c];
    SpliceLinkBefore(hs, order, p, s, h, c, t, d, f1, nodes2[order[c]].forward[t]);
  }

  /** The link at level t of the new node after the splice; `f` is the old link of its predecessor `d`. */
  lemma SpliceLinkAtNew<T>(nodes2: seq<Node<T>>, order: seq<int>, hs: seq<int>, p: int, s: int, h: int,
                        d: int, f: int,
                        order': seq<int>, hs': seq<int>, c: int, t: int)
    requires |hs| == |order| && 1 <= p <= |order| && 0 <= t <= MAX_LAYER
    requires order' == order[..p] + [s] + order[p..] && hs' == hs[..p] + [h] + hs[p..]
    requires c == p && 0 <= s < |nodes2| && |nodes2[s].forward| == MAX_LAYER + 1
    requires t <= h ==> IsPred(hs, p, t, d) && f == SlotAt(order, NextAt(hs, d + 1, t))
    requires nodes2[s].forward[t] == (if t <= h then f else NIL)
    ensures nodes2[order'[c]].forward[t] == (if t <= hs'[c] then SlotAt(order', NextAt(hs', c + 1, t)) else NIL)
  {
    assert order'[c] == s;
    SpliceLinkNew(hs, order, p, s, h, t, d, f, nodes2[s].forward[t]);
  }

  /** The link at level t of the node at coordinate c > p after the splice; it does not change. */
  lemma SpliceLinkAtAfter<T>(nodes2: seq<Node<T>>, order: seq<int>, hs: seq<int>, p: int, s: int, h: int,
                        order': seq<int>, hs': seq<int>, c: int, t: int)
    requires |hs| == |order| && 1 <= p <= |order| && 0 <= t <= MAX_LAYER
    requires order' == order[..p] + [s] + order[p..] && hs' == hs[..p] + [h] + hs[p..]
    requires p < c < |order'| && 0 <= order[c - 1] < |nodes2| && |nodes2[order[c - 1]].forward| == MAX_LAYER + 1
    requires nodes2[order[c - 1]].forward[t] == (if t <= hs[c - 1] then SlotAt(order, NextAt(hs, c, t)) else NIL)
    ensures nodes2[order'[c]].forward[t] == (if t <= hs'[c] then SlotAt(order', NextAt(hs', c + 1, t)) else NIL)
  {
    assert order'[c] == order[c - 1];
    SpliceLinkAfter(hs, order, p, s, h, c, t, nodes2[order[c - 1]].forward[t]);
  }

  /** A link of the chain after the splice, at a coordinate c before the splice point. */
  lemma SplicedBefore<T>(nodes1: seq<Node<T>>, nodes2: seq<Node<T>>, order: seq<int>,
                        p: int, s: int, h: int, cs: seq<int>,
                        order': seq<int>, hs': seq<int>, c: int, t: int)
    requires SpliceReady(nodes1, order, p, s, h, cs)
    requires Spliced(nodes1, nodes2, order, s, h, cs)
    requires order' == order[..p] + [s] + order[p..]
    requires hs' == Heights(nodes1, order)[..p] + [h] + Heights(nodes1, order)[p..]
    requires 0 <= c < p && 0 <= t <= MAX_LAYER
    ensures nodes2[order'[c]].forward[t] == (if t <= hs'[c] then SlotAt(order', NextAt(hs', c + 1, t)) else NIL)
  {
    var d := if t <= h then cs[t] else 0;
    var n := order[c];
    assert n != s;
    assert t <= h ==> (n == order[d] <==> c == d);
    SplicedAt(nodes1, nodes2, order, s, h, cs, n, t);
    LinkAt(nodes1, order, c, t);
    SpliceLinkAtBefore(nodes2, order, Heights(nodes1, order), p, s, h, d, nodes1[n].forward[t], order', hs', c, t);
  }

  /** The links of the new node after the splice. */
  lemma SplicedNew<T>(nodes1: seq<Node<T>>, nodes2: seq<Node<T>>, order: seq<int>,
                        p: int, s: int, h: int, cs: seq<int>,
                        order': seq<int>, hs': seq<int>, c: int, t: int)
    requires SpliceReady(nodes1, order, p, s, h, cs)
    requires Spliced(nodes1, nodes2, order, s, h, cs)
    requires order' == order[..p] + [s] + order[p..]
    requires hs' == Heights(nodes1, order)[..p] + [h] + Heights(nodes1, order)[p..]
    requires c == p && 0 <= t <= MAX_LAYER
    ensures nodes2[order'[c]].forward[t] == (if t <= hs'[c] then SlotAt(order', NextAt(hs', c + 1, t)) else NIL)
  {
    var d := if t <= h then cs[t] else 0;
    assert t <= h ==> s != order[d];
    SplicedAt(nodes1, nodes2, order, s, h, cs, s, t);
    if t <= h {
      LinkAt(nodes1, order, d, t);
    }
    SpliceLinkAtNew(nodes2, order, Heights(nodes1, order), p, s, h, d, nodes1[order[d]].forward[t], order', hs', c, t);
  }

  /** A link of the chain after the splice, at a coordinate c after the splice point. */
  lemma SplicedAfter<T>(nodes1: seq<Node<T>>, nodes2: seq<Node<T>>, order: seq<int>,
                        p: int, s: int, h: int, cs: seq<int>,
                        order': seq<int>, hs': seq<int>, c: int, t: int)
    requires SpliceReady(nodes1, order, p, s, h, cs)
    requires Spliced(nodes1, nodes2, order, s, h, cs)
    requires order' == order[..p] + [s] + order[p..]
    requires hs' == Heights(nodes1, order)[..p] + [h] + Heights(nodes1, order)[p..]
    requires p < c < |order'| && 0 <= t <= MAX_LAYER
    ensures nodes2[order'[c]].forward[t] == (if t <= hs'[c] then SlotAt(order', NextAt(hs', c + 1, t)) else NIL)
  {
    var n := order[c - 1];
    assert n != s;
    assert t <= h ==> n != order[cs[t]];
    SplicedAt(nodes1, nodes2, order, s, h, cs, n, t);
    LinkAt(nodes1, order, c - 1, t);
    SpliceLinkAtAfter(nodes2, order, Heights(nodes1, order), p, s, h, order', hs', c, t);
  }

  /** Insert's splice loop keeps every link of the chain right. */
  lemma SpliceLinks<T>(nodes1: seq<Node<T>>, nodes2: seq<Node<T>>, order: seq<int>,
                       p: int, s: int, h: int, cs: seq<int>)
    requires SpliceReady(nodes1, order, p, s, h, cs)
    requires Spliced(nodes1, nodes2, order, s, h, cs)
    ensures InArena(nodes2, order[..p] + [s] + order[p..])
    ensures LinksOK(nodes2, order[..p] + [s] + order[p..])
  {
    var order' := order[..p] + [s] + order[p..];
    SpliceShape(nodes1, nodes2, order, p, s);
    var hs := Heights(nodes1, order);
    var hs' := hs[..p] + [h] + hs[p..];
    forall c, t | 0 <= c < |order'| && 0 <= t <= MAX_LAYER
      ensures nodes2[order'[c]].forward[t] == (if t <= hs'[c] then SlotAt(order', NextAt(hs', c + 1, t)) else NIL)
    {
      if c < p {
        SplicedBefore(nodes1, nodes2, order, p, s, h, cs, order', hs', c, t);
      } else if c == p {
        SplicedNew(nodes1, nodes2, order, p, s, h, cs, order', hs', c, t);
      } else {
        SplicedAfter(nodes1, nodes2, order, p, s, h, cs, order', hs', c, t);
      }
    }
    LinksIntro(nodes2, order');
  }

  /**
   * `nodes2` is `nodes1` after the unlink loop of Delete: at each level the
   * node at coordinate p reaches, its predecessor cs[t] takes over its link.
   */
  ghost predicate Unlinked<T>(nodes1: seq<Node<T>>, nodes2: seq<Node<T>>, order: seq<int>, p: int, h: int, cs: seq<int>)
    requires Forwards(nodes1) && InArena(nodes1, order) && 0 <= p < |order|
    requires |cs| == MAX_LAYER + 1 && h <= MAX_LAYER
    requires forall t :: 0 <= t <= h ==> 0 <= cs[t] < |order|
  {
    && SameNodes(nodes1, nodes2)
    && forall n, t {:trigger nodes2[n].forward[t]} :: 0 <= n < |nodes2| && 0 <= t <= MAX_LAYER ==>
         nodes2[n].forward[t] ==
           (if t <= h && n == order[cs[t]] then nodes1[order[p]].forward[t]
            else nodes1[n].forward[t])
  }

  /** What Delete needs of the state before its unlink loop. */
  ghost predicate UnlinkReady<T>(nodes1: seq<Node<T>>, order: seq<int>, p: int, cs: seq<int>)
  {
    && Forwards(nodes1) && InArena(nodes1, order) && Distinct(order) && LinksOK(nodes1, order)
    && 1 <= p < |order| && nodes1[order[p]].level <= MAX_LAYER
    && Trail(Heights(nodes1, order), p, nodes1[order[p]].level, cs)
  }

  /**
   * The unlink loop of Delete may stop at the first level whose predecessor does
   * not link to the node: that happens exactly above the node's height, because
   * a node is linked at every level up to its height and at none above.
   */
  lemma UnlinkStopsAtHeight<T>(nodes: seq<Node<T>>, order: seq<int>, p: int, t: int, d: int)
    requires Forwards(nodes) && InArena(nodes, order) && Distinct(order) && LinksOK(nodes, order)
    requires 1 <= p < |order| && 0 <= t <= MAX_LAYER
    requires IsPred(Heights(nodes, order), p, t, d)
    ensures nodes[order[d]].forward[t] == order[p] <==> t <= nodes[order[p]].level
  {
    var hs := Heights(nodes, order);
    LinkAt(nodes, order, d, t);
    var q := NextAt(hs, d + 1, t);
    if t <= hs[p] {
      NextAtUnique(hs, d + 1, t, p);
    } else {
      assert q != p;
      assert order[p] >= 0;
    }
  }

  /** The chain and its heights, keys and values after the unlink. */
  lemma UnlinkShape<T>(nodes1: seq<Node<T>>, nodes2: seq<Node<T>>, order: seq<int>, p: int)
    requires InArena(nodes1, order) && SameNodes(nodes1, nodes2) && 0 <= p < |order|
    ensures var order' := order[..p] + order[p + 1..];
      && InArena(nodes2, order')
      && Heights(nodes2, order') == Heights(nodes1, order)[..p] + Heights(nodes1, order)[p + 1..]
      && Keys(nodes2, order') == Keys(nodes1, order)[..p] + Keys(nodes1, order)[p + 1..]
      && Values(nodes2, order') == Values(nodes1, order)[..p] + Values(nodes1, order)[p + 1..]
  {
    var order' := order[..p] + order[p + 1..];
    assert forall k :: 0 <= k < p ==> order'[k] == order[k];
    assert forall k :: p <= k < |order| - 1 ==> order'[k] == order[k + 1];
  }

  /** The slot NextAt reaches from coordinate j <= p once coordinate p is taken out. */
  lemma SlotAfterRemove(hs: seq<int>, order: seq<int>, p: int, j: int, t: int)
    requires |hs| == |order| && 0 <= j <= p < |order|
    ensures var order', hs' := order[..p] + order[p + 1..], hs[..p] + hs[p + 1..];
      var q := NextAt(hs, j, t);
      SlotAt(order', NextAt(hs', j, t)) == (if q == p then SlotAt(order, NextAt(hs, p + 1, t)) else SlotAt(order, q))
  {
    var order', hs' := order[..p] + order[p + 1..], hs[..p] + hs[p + 1..];
    NextAtRemove(hs, p, j, t);
    var q := NextAt(hs, j, t);
    if q < p {
      assert order'[q] == order[q];
    } else {
      var r := NextAt(hs, p + 1, t);
      if q != p {
        NextAtUnique(hs, p + 1, t, q);
      }
      if r < |order| {
        assert order'[r - 1] == order[r];
      }
    }
  }

  /**
   * A link after the unlink, at a coordinate c before the removed one: `fx` is
   * the removed node's link, `f1` the old and `f2` the new link of c.
   */
  lemma UnlinkLinkBefore(hs: seq<int>, order: seq<int>, p: int, c: int, t: int, d: int,
                         fx: int, f1: int, f2: int)
    requires |hs| == |order| && 1 <= p < |order| && 0 <= c < p
    requires t <= hs[p] ==> IsPred(hs, p, t, d)
    requires fx == (if t <= hs[p] then SlotAt(order, NextAt(hs, p + 1, t)) else NIL)
    requires f1 == (if t <= hs[c] then SlotAt(order, NextAt(hs, c + 1, t)) else NIL)
    requires f2 == (if t <= hs[p] && c == d then fx else f1)
    ensures var order', hs' := order[..p] + order[p + 1..], hs[..p] + hs[p + 1..];
      f2 == (if t <= hs'[c] then SlotAt(order', NextAt(hs', c + 1, t)) else NIL)
  {
    var hs' := hs[..p] + hs[p + 1..];
    assert hs'[c] == hs[c];
    if t <= hs[c] {
      SlotAfterRemove(hs, order, p, c + 1, t);
      if t <= hs[p] && c == d {
        NextAtUnique(hs, c + 1, t, p);
      } else if t <= hs[p] {
        assert c < d;
      }
    }
  }

  /** A link after the unlink, at a coordinate c at or after the removed one; it does not change. */
  lemma UnlinkLinkAfter(hs: seq<int>, order: seq<int>, p: int, c: int, t: int, f: int)
    requires |hs| == |order| && 1 <= p < |order| && p <= c < |order| - 1
    requires f == (if t <= hs[c + 1] then SlotAt(order, NextAt(hs, c + 2, t)) else NIL)
    ensures var order', hs' := order[..p] + order[p + 1..], hs[..p] + hs[p + 1..];
      f == (if t <= hs'[c] then SlotAt(order', NextAt(hs', c + 1, t)) else NIL)
  {
    var order', hs' := order[..p] + order[p + 1..], hs[..p] + hs[p + 1..];
    assert hs'[c] == hs[c + 1];
    if t <= hs[c + 1] {
      NextAtRemove(hs, p, c + 1, t);
      var q := NextAt(hs, c + 2, t);
      if q < |order| {
        assert order'[q - 1] == order[q];
      }
    }
  }

  /** One link of the arena after the unlink loop. */
  lemma UnlinkedAt<T>(nodes1: seq<Node<T>>, nodes2: seq<Node<T>>, order: seq<int>, p: int, h: int, cs: seq<int>,
                      n: int, t: int)
    requires Forwards(nodes1) && InArena(nodes1, order) && 0 <= p < |order|
    requires |cs| == MAX_LAYER + 1 && h <= MAX_LAYER
    requires forall t :: 0 <= t <= h ==> 0 <= cs[t] < |order|
    requires Unlinked(nodes1, nodes2, order, p, h, cs)
    requires 0 <= n < |nodes1| && 0 <= t <= MAX_LAYER
    ensures nodes2[n].forward[t] ==
      (if t <= h && n == order[cs[t]] then nodes1[order[p]].forward[t] else nodes1[n].forward[t])
  {
  }

  /**
   * The link at level t of the node at coordinate c < p after the unlink, from
   * its value (`d` is the predecessor at level t when the node x at p reaches t).
   */
  lemma UnlinkLinkAtBefore<T>(nodes2: seq<Node<T>>, order: seq<int>, hs: seq<int>, p: int, d: int, fx: int, f1: int,
                              order': seq<int>, hs': seq<int>, c: int, t: int)
    requires |hs| == |order| && 1 <= p < |order| && 0 <= t <= MAX_LAYER
    requires order' == order[..p] + order[p + 1..] && hs' == hs[..p] + hs[p + 1..]
    requires 0 <= c < p && 0 <= order[c] < |nodes2| && |nodes2[order[c]].forward| == MAX_LAYER + 1
    requires t <= hs[p] ==> IsPred(hs, p, t, d)
    requires fx == (if t <= hs[p] then SlotAt(order, NextAt(hs, p + 1, t)) else NIL)
    requires f1 == (if t <= hs[c] then SlotAt(order, NextAt(hs, c + 1, t)) else NIL)
    requires nodes2[order[c]].forward[t] == (if t <= hs[p] && c == d then fx else f1)
    ensures nodes2[order'[c]].forward[t] == (if t <= hs'[c] then SlotAt(order', NextAt(hs', c + 1, t)) else NIL)
  {
    assert order'[c] == order[c];
    UnlinkLinkBefore(hs, order, p, c, t, d, fx, f1, nodes2[order[c]].forward[t]);
  }

  /** The link at level t of the node at coordinate c >= p after the unlink; it does not change. */
  lemma UnlinkLinkAtAfter<T>(nodes2: seq<Node<T>>, order: seq<int>, hs: seq<int>, p: int,
                             order': seq<int>, hs': seq<int>, c: int, t: int)
    requires |hs| == |order| && 1 <= p < |order| && 0 <= t <= MAX_LAYER
    requires order' == order[..p] + order[p + 1..] && hs' == hs[..p] + hs[p + 1..]
    requires p <= c < |order'| && 0 <= order[c + 1] < |nodes2| && |nodes2[order[c + 1]].forward| == MAX_LAYER + 1
    requires nodes2[order[c + 1]].forward[t] == (if t <= hs[c + 1] then SlotAt(order, NextAt(hs, c + 2, t)) else NIL)
    ensures nodes2[order'[c]].forward[t] == (if t <= hs'[c] then SlotAt(order', NextAt(hs', c + 1, t)) else NIL)
  {
    assert order'[c] == order[c + 1];
    UnlinkLinkAfter(hs, order, p, c, t, nodes2[order[c + 1]].forward[t]);
  }

  /** A link of the remaining chain after the unlink, at a coordinate c before p. */
  lemma UnlinkedBefore<T>(nodes1: seq<Node<T>>, nodes2: seq<Node<T>>, order: seq<int>, p: int, cs: seq<int>,
                        order': seq<int>, hs': seq<int>, c: int, t: int)
    requires UnlinkReady(nodes1, order, p, cs)
    requires Unlinked(nodes1, nodes2, order, p, nodes1[order[p]].level, cs)
    requires order' == order[..p] + order[p + 1..]
    requires hs' == Heights(nodes1, order)[..p] + Heights(nodes1, order)[p + 1..]
    requires 0 <= c < p && 0 <= t <= MAX_LAYER
    ensures nodes2[order'[c]].forward[t] == (if t <= hs'[c] then SlotAt(order', NextAt(hs', c + 1, t)) else NIL)
  {
    var hs := Heights(nodes1, order);
    var d := if t <= hs[p] then cs[t] else 0;
    var n := order[c];
    assert t <= hs[p] ==> (n == order[d] <==> c == d);
    UnlinkedAt(nodes1, nodes2, order, p, hs[p], cs, n, t);
    LinkAt(nodes1, order, c, t);
    LinkAt(nodes1, order, p, t);
    UnlinkLinkAtBefore(nodes2, order, hs, p, d, nodes1[order[p]].forward[t], nodes1[n].forward[t], order', hs', c, t);
  }

  /** A link of the remaining chain after the unlink, at a coordinate c from p on. */
  lemma UnlinkedAfter<T>(nodes1: seq<Node<T>>, nodes2: seq<Node<T>>, order: seq<int>, p: int, cs: seq<int>,
                        order': seq<int>, hs': seq<int>, c: int, t: int)
    requires UnlinkReady(nodes1, order, p, cs)
    requires Unlinked(nodes1, nodes2, order, p, nodes1[order[p]].level, cs)
    requires order' == order[..p] + order[p + 1..]
    requires hs' == Heights(nodes1, order)[..p] + Heights(nodes1, order)[p + 1..]
    requires p <= c < |order'| && 0 <= t <= MAX_LAYER
    ensures nodes2[order'[c]].forward[t] == (if t <= hs'[c] then SlotAt(order', NextAt(hs', c + 1, t)) else NIL)
  {
    var hs := Heights(nodes1, order);
    var n := order[c + 1];
    assert t <= hs[p] ==> n != order[cs[t]];
    UnlinkedAt(nodes1, nodes2, order, p, hs[p], cs, n, t);
    LinkAt(nodes1, order, c + 1, t);
    UnlinkLinkAtAfter(nodes2, order, hs, p, order', hs', c, t);
  }

  /** Delete's unlink loop keeps every link of the remaining chain right. */
  lemma UnlinkLinks<T>(nodes1: seq<Node<T>>, nodes2: seq<Node<T>>, order: seq<int>, p: int, cs: seq<int>)
    requires UnlinkReady(nodes1, order, p, cs)
    requires Unlinked(nodes1, nodes2, order, p, nodes1[order[p]].level, cs)
    ensures InArena(nodes2, order[..p] + order[p + 1..])
    ensures LinksOK(nodes2, order[..p] + order[p + 1..])
  {
    var order' := order[..p] + order[p + 1..];
    UnlinkShape(nodes1, nodes2, order, p);
    var hs := Heights(nodes1, order);
    var hs' := hs[..p] + hs[p + 1..];
    forall c, t | 0 <= c < |order'| && 0 <= t <= MAX_LAYER
      ensures nodes2[order'[c]].forward[t] == (if t <= hs'[c] then SlotAt(order', NextAt(hs', c + 1, t)) else NIL)
    {
      if c < p {
        UnlinkedBefore(nodes1, nodes2, order, p, cs, order', hs', c, t);
      } else {
        UnlinkedAfter(nodes1, nodes2, order, p, cs, order', hs', c, t);
      }
    }
    LinksIntro(nodes2, order');
  }

  // ---------------------------------------------------------------------------
  // The key/value view
  // ---------------------------------------------------------------------------

  /** Keys strictly increase after the head's coordinate 0. */
  ghost predicate Sorted(ks: seq<int>)
  {
    forall a, b :: 1 <= a < b < |ks| ==> ks[a] < ks[b]
  }

  /** Where LowerBound lands once `key` is spliced in at its own lower bound `p`. */
  lemma LowerBoundInsert(ks: seq<int>, p: int, key: int, k: int)
    requires 1 <= p <= |ks|
    requires forall c :: 1 <= c < p ==> ks[c] < key
    requires forall c :: p <= c < |ks| ==> ks[c] > key
    ensures var ks' := ks[..p] + [key] + ks[p..];
      LowerBound(ks', k, 1) == if k <= key then LowerBound(ks, k, 1) else LowerBound(ks, k, 1) + 1
  {
    var ks' := ks[..p] + [key] + ks[p..];
    assert forall c :: 0 <= c < p ==> ks'[c] == ks[c];
    assert ks'[p] == key;
    assert forall c :: p < c <= |ks| ==> ks'[c] == ks[c - 1];
    var q := LowerBound(ks, k, 1);
    if k <= key {
      LowerBoundUnique(ks', k, 1, q);
    } else {
      LowerBoundUnique(ks', k, 1, q + 1);
    }
  }

  /** Where LowerBound lands for another key once coordinate `p` is taken out of a sorted chain. */
  lemma LowerBoundRemove(ks: seq<int>, p: int, k: int)
    requires Sorted(ks) && 1 <= p < |ks| && ks[p] != k
    ensures var ks' := ks[..p] + ks[p + 1..];
      LowerBound(ks', k, 1) == if LowerBound(ks, k, 1) <= p then LowerBound(ks, k, 1) else LowerBound(ks, k, 1) - 1
  {
    var ks' := ks[..p] + ks[p + 1..];
    assert forall c :: 0 <= c < p ==> ks'[c] == ks[c];
    assert forall c :: p <= c < |ks| - 1 ==> ks'[c] == ks[c + 1];
    var q := LowerBound(ks, k, 1);
    if q <= p {
      LowerBoundUnique(ks', k, 1, q);
    } else {
      LowerBoundUnique(ks', k, 1, q - 1);
    }
  }

  /**
   * On a sorted chain, a key is in the map of the pairs from coordinate j on
   * exactly when its lower bound from j carries it, and maps to the value there.
   */
  lemma {:induction false} ChainMapFind<T>(ks: seq<int>, vs: seq<T>, j: int, k: int)
    requires |ks| == |vs| && 1 <= j <= |ks| && Sorted(ks)
    ensures var q := LowerBound(ks, k, j);
      && (k in ChainMap(ks, vs, j) <==> q < |ks| && ks[q] == k)
      && (k in ChainMap(ks, vs, j) ==> ChainMap(ks, vs, j)[k] == vs[q])
    decreases |ks| - j
  {
    if j < |ks| {
      ChainMapFind(ks, vs, j + 1, k);
      if ks[j] > k && j + 1 < |ks| {
        assert ks[j] < ks[j + 1];
      }
    }
  }

  /** A sorted chain holds as many pairs as it has coordinates from j on. */
  lemma {:induction false} ChainMapSize<T>(ks: seq<int>, vs: seq<T>, j: int)
    requires |ks| == |vs| && 1 <= j <= |ks| && Sorted(ks)
    ensures |ChainMap(ks, vs, j)| == |ks| - j
    decreases |ks| - j
  {
    if j < |ks| {
      ChainMapSize(ks, vs, j + 1);
      ChainMapFind(ks, vs, j + 1, ks[j]);
      if j + 1 < |ks| {
        assert ks[j] < ks[j + 1];
      }
    }
  }

  /**
   * The search result decides membership: `key` is in the map exactly when the
   * node at its lower bound carries it, and then that node holds its value.
   */
  lemma Locate<T>(nodes: seq<Node<T>>, order: seq<int>, contents: map<int, T>, key: int)
    requires InArena(nodes, order) && |order| >= 1 && Sorted(Keys(nodes, order))
    requires ContentsOK(nodes, order, contents)
    ensures var p := LowerBound(Keys(nodes, order), key, 1);
      && (key in contents <==> p < |order| && nodes[order[p]].key == key)
      && (key in contents ==> contents[key] == nodes[order[p]].value)
  {
    ChainMapFind(Keys(nodes, order), Values(nodes, order), 1, key);
  }

  /** A key strictly between its neighbours keeps a chain sorted. */
  lemma SortedInsert(ks: seq<int>, p: int, key: int)
    requires Sorted(ks) && 1 <= p <= |ks|
    requires forall c :: 1 <= c < p ==> ks[c] < key
    requires forall c :: p <= c < |ks| ==> ks[c] > key
    ensures Sorted(ks[..p] + [key] + ks[p..])
  {
    var ks' := ks[..p] + [key] + ks[p..];
    forall a, b | 1 <= a < b < |ks'| ensures ks'[a] < ks'[b] {
      var ka := if a < p then ks[a] else if a == p then key else ks[a - 1];
      var kb := if b < p then ks[b] else if b == p then key else ks[b - 1];
      assert ks'[a] == ka && ks'[b] == kb;
    }
  }

  /** Taking a key out keeps a chain sorted. */
  lemma SortedRemove(ks: seq<int>, p: int)
    requires Sorted(ks) && 1 <= p < |ks|
    ensures Sorted(ks[..p] + ks[p + 1..])
  {
    var ks' := ks[..p] + ks[p + 1..];
    forall a, b | 1 <= a < b < |ks'| ensures ks'[a] < ks'[b] {
      assert ks'[a] == (if a < p then ks[a] else ks[a + 1]);
      assert ks'[b] == (if b < p then ks[b] else ks[b + 1]);
    }
  }

  /** One key's view of ChainMapInsert: its membership and value after the insertion. */
  lemma ChainMapInsertAt<T>(ks: seq<int>, vs: seq<T>, ks': seq<int>, vs': seq<T>, p: int, key: int, val: T, k: int)
    requires |ks| == |vs| >= 1 && Sorted(ks) && 1 <= p <= |ks|
    requires forall c :: 1 <= c < p ==> ks[c] < key
    requires forall c :: p <= c < |ks| ==> ks[c] > key
    requires ks' == ks[..p] + [key] + ks[p..] && vs' == vs[..p] + [val] + vs[p..] && Sorted(ks')
    ensures var m, m' := ChainMap(ks, vs, 1)[key := val], ChainMap(ks', vs', 1);
      (k in m' <==> k in m) && (k in m' ==> m'[k] == m[k])
  {
    ChainMapFind(ks, vs, 1, k);
    ChainMapFind(ks', vs', 1, k);
    LowerBoundInsert(ks, p, key, k);
    var q := LowerBound(ks, k, 1);
    if k == key {
      assert q == p && ks'[p] == key && vs'[p] == val;
    } else if k < key {
      if q < p {
        assert ks'[q] == ks[q] && vs'[q] == vs[q];
      } else {
        assert ks'[p] == key;
      }
    } else if q < |ks| {
      assert q >= p && ks'[q + 1] == ks[q] && vs'[q + 1] == vs[q];
    }
  }

  /** Adding a new key at its lower bound adds exactly that pair to the map. */
  lemma ChainMapInsert<T>(ks: seq<int>, vs: seq<T>, p: int, key: int, val: T)
    requires |ks| == |vs| >= 1 && Sorted(ks)
    requires p == LowerBound(ks, key, 1) && key !in ChainMap(ks, vs, 1)
    ensures var ks', vs' := ks[..p] + [key] + ks[p..], vs[..p] + [val] + vs[p..];
      Sorted(ks') && ChainMap(ks', vs', 1) == ChainMap(ks, vs, 1)[key := val]
  {
    var ks', vs' := ks[..p] + [key] + ks[p..], vs[..p] + [val] + vs[p..];
    var m, m' := ChainMap(ks, vs, 1)[key := val], ChainMap(ks', vs', 1);
    ChainMapFind(ks, vs, 1, key);
    assert forall c :: p <= c < |ks| ==> ks[c] > key;
    SortedInsert(ks, p, key);
    forall k
      ensures (k in m' <==> k in m) && (k in m' ==> m'[k] == m[k])
    {
      ChainMapInsertAt(ks, vs, ks', vs', p, key, val, k);
    }
  }

  /** Giving the pair at coordinate p a new value overwrites that key's value in the map. */
  lemma ChainMapUpdate<T>(ks: seq<int>, vs: seq<T>, p: int, val: T)
    requires |ks| == |vs| && Sorted(ks) && 1 <= p < |ks|
    ensures ChainMap(ks, vs[p := val], 1) == ChainMap(ks, vs, 1)[ks[p] := val]
  {
    var m, m' := ChainMap(ks, vs, 1), ChainMap(ks, vs[p := val], 1);
    forall k
      ensures (k in m' <==> k in m[ks[p] := val]) && (k in m' ==> m'[k] == m[ks[p] := val][k])
    {
      ChainMapFind(ks, vs, 1, k);
      ChainMapFind(ks, vs[p := val], 1, k);
      if k == ks[p] {
        if p + 1 < |ks| {
          assert ks[p] < ks[p + 1];
        }
        LowerBoundUnique(ks, k, 1, p);
      }
    }
  }

  /** One key's view of ChainMapRemove: its membership and value after the removal. */
  lemma ChainMapRemoveAt<T>(ks: seq<int>, vs: seq<T>, p: int, k: int)
    requires |ks| == |vs| && Sorted(ks) && 1 <= p < |ks|
    ensures var ks', vs' := ks[..p] + ks[p + 1..], vs[..p] + vs[p + 1..];
      var m, m' := ChainMap(ks, vs, 1) - {ks[p]}, ChainMap(ks', vs', 1);
      Sorted(ks') && (k in m' <==> k in m) && (k in m' ==> m'[k] == m[k])
  {
    var ks', vs' := ks[..p] + ks[p + 1..], vs[..p] + vs[p + 1..];
    SortedRemove(ks, p);
    ChainMapFind(ks, vs, 1, k);
    ChainMapFind(ks', vs', 1, k);
    if k == ks[p] {
      if p + 1 < |ks| {
        assert ks[p] < ks[p + 1] && ks'[p] == ks[p + 1];
      }
      assert forall c :: 1 <= c < p ==> ks'[c] == ks[c];
      LowerBoundUnique(ks', k, 1, p);
    } else {
      LowerBoundRemove(ks, p, k);
      var q := LowerBound(ks, k, 1);
      if q < p {
        assert ks'[q] == ks[q] && vs'[q] == vs[q];
      } else if p < q < |ks| {
        assert ks'[q - 1] == ks[q] && vs'[q - 1] == vs[q];
      }
    }
  }

  /** Taking out the pair at coordinate p removes exactly its key from the map. */
  lemma ChainMapRemove<T>(ks: seq<int>, vs: seq<T>, p: int)
    requires |ks| == |vs| && Sorted(ks) && 1 <= p < |ks|
    ensures var ks', vs' := ks[..p] + ks[p + 1..], vs[..p] + vs[p + 1..];
      Sorted(ks') && ChainMap(ks', vs', 1) == ChainMap(ks, vs, 1) - {ks[p]}
  {
    var ks', vs' := ks[..p] + ks[p + 1..], vs[..p] + vs[p + 1..];
    var m, m' := ChainMap(ks, vs, 1) - {ks[p]}, ChainMap(ks', vs', 1);
    SortedRemove(ks, p);
    forall k
      ensures (k in m' <==> k in m) && (k in m' ==> m'[k] == m[k])
    {
      ChainMapRemoveAt(ks, vs, p, k);
    }
  }
}
