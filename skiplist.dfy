/**
 * The generic skip list of skiplist/skip_list.go: an ordered map from int keys
 * to values of type T, kept as a tower of sorted linked lists.
 *
 * The nodes live in the arena `nodes` (see SkipIndex); a pointer is a slot
 * number and nil is NIL. The ghost fields `order` (the level-0 chain, head
 * first) and `contents` (the map the list stands for) describe the abstract
 * state; `Valid()` ties them to the arena.
 */
module Skiplist {
  import opened SkipIndex
  import opened SkipSteps

  class SkipList<T> {
    /** The node arena; slot HEAD holds the head sentinel. */
    var nodes: seq<Node<T>>
    /** The current highest level in use. */
    var level: int
    /** The number of elements. */
    var size: int
    /** The node pool: blank slots ready for reuse, most recently freed last. */
    var free: seq<int>
    /** The zero value of T, which Get returns for a missing key. */
    const zero: T
    /** The level-0 chain as slots, starting with the head. */
    ghost var order: seq<int>
    /** The key/value pairs the list holds. */
    ghost var contents: map<int, T>

    ghost predicate Valid()
      reads this
    {
      Inv(nodes, order, level, size, free, contents, zero)
    }

    /** An empty list: the head alone, of the maximum height, linked nowhere. */
    constructor (zero: T)
      ensures Valid()
      ensures this.zero == zero
      ensures contents == map[] && level == 0 && size == 0
      ensures forall t :: 0 <= t <= MAX_LAYER ==> nodes[HEAD].forward[t] == NIL
    {
      this.zero := zero;
      nodes := [];
      level := 0;
      size := 0;
      free := [];
      order := [];
      contents := map[];
      new;
      var head := CreateNode(MAX_LAYER, 0, zero);
      order := [head];
      LinksIntro(nodes, order);
    }

    /**
     * Takes a node from the pool, or a new blank one when the pool is empty,
     * and gives it a height, a key and a value; its links are all nil.
     */
    method CreateNode(lvl: int, key: int, val: T) returns (n: int)
      requires PoolOK(nodes, order, free, zero)
      modifies this
      ensures Allocated(old(nodes), old(free), nodes, free, n, Fresh(key, lvl, val))
      ensures level == old(level) && size == old(size) && order == old(order) && contents == old(contents)
    {
      if |free| > 0 {
        n := free[|free| - 1];
        free := free[..|free| - 1];
      } else {
        n := |nodes|;
        nodes := nodes + [Blank(zero)];
      }
      nodes := nodes[n := nodes[n].(level := lvl)];
      nodes := nodes[n := nodes[n].(key := key)];
      nodes := nodes[n := nodes[n].(value := val)];
    }

    /** Blanks a node (zero value, nil links, height and key 0) and gives it back to the pool. */
    method FreeNode(n: int)
      requires Forwards(nodes) && 0 <= n < |nodes|
      modifies this
      ensures nodes == old(nodes)[n := Blank(zero)] && free == old(free) + [n]
      ensures level == old(level) && size == old(size) && order == old(order) && contents == old(contents)
    {
      nodes := nodes[n := nodes[n].(value := zero)];
      var i := 0;
      while i <= MAX_LAYER
        invariant 0 <= i <= MAX_LAYER + 1
        invariant |nodes| == |old(nodes)| && |nodes[n].forward| == MAX_LAYER + 1
        invariant forall m :: 0 <= m < |nodes| && m != n ==> nodes[m] == old(nodes)[m]
        invariant nodes[n].value == zero && nodes[n].key == old(nodes)[n].key && nodes[n].level == old(nodes)[n].level
        invariant forall t :: 0 <= t < i ==> nodes[n].forward[t] == NIL
        invariant free == old(free) && order == old(order)
        invariant level == old(level) && size == old(size) && contents == old(contents)
      {
        nodes := nodes[n := nodes[n].(forward := nodes[n].forward[i := NIL])];
        i := i + 1;
      }
      nodes := nodes[n := nodes[n].(level := 0)];
      nodes := nodes[n := nodes[n].(key := 0)];
      assert nodes[n].forward == Blank(zero).forward;
      free := free + [n];
    }

    /**
     * The descent shared by Get, Insert and Delete: from the current level down
     * to 0, move right while the next key is below `key`, and remember at each
     * level the last node visited. That node is the predecessor, at its level,
     * of the place p where `key` is or belongs.
     */
    method Search(key: int) returns (update: seq<int>, ghost cs: seq<int>, ghost p: int)
      requires Linked(nodes, order, level)
      ensures p == LowerBound(Keys(nodes, order), key, 1)
      ensures |update| == MAX_LAYER + 1
      ensures Trail(Heights(nodes, order), p, level, cs)
      ensures forall t :: 0 <= t <= level ==> update[t] == order[cs[t]]
      ensures forall t :: level < t <= MAX_LAYER ==> update[t] == NIL
      ensures nodes[update[0]].forward[0] == SlotAt(order, p)
    {
      ghost var hs := Heights(nodes, order);
      p := LowerBound(Keys(nodes, order), key, 1);
      update := seq(MAX_LAYER + 1, _ => NIL);
      cs := seq(MAX_LAYER + 1, _ => 0);
      var x := HEAD;
      ghost var c := 0;
      var i := level;
      while i >= 0
        invariant -1 <= i <= level
        invariant |update| == MAX_LAYER + 1 && |cs| == MAX_LAYER + 1
        invariant 0 <= c < p && x == order[c] && hs[c] >= i
        invariant forall k :: c < k < p ==> hs[k] <= i
        invariant forall t :: i < t <= level ==> IsPred(hs, p, t, cs[t])
        invariant forall t :: i < t <= level ==> update[t] == order[cs[t]]
        invariant forall t :: level < t <= MAX_LAYER ==> update[t] == NIL
      {
        x, c := Advance(key, x, c, i, p);
        update := update[i := x];
        cs := cs[i := c];
        i := i - 1;
      }
      Candidate(nodes, order, level, p, cs);
    }

    /**
     * One level of the descent: from the node at coordinate c, move right at
     * level i while the next key is below `key`; the node reached is the
     * predecessor at level i of the place p where `key` belongs.
     */
    method Advance(key: int, x: int, ghost c: int, i: int, ghost p: int) returns (y: int, ghost d: int)
      requires Linked(nodes, order, level) && p == LowerBound(Keys(nodes, order), key, 1)
      requires 0 <= i <= MAX_LAYER && 0 <= c < p && x == order[c]
      requires Heights(nodes, order)[c] >= i
      requires forall k :: c < k < p ==> Heights(nodes, order)[k] <= i
      ensures IsPred(Heights(nodes, order), p, i, d) && y == order[d]
      ensures y == x || nodes[y].key < key
      ensures var n := nodes[y].forward[i]; n == NIL || (0 <= n < |nodes| && nodes[n].key >= key)
    {
      ghost var hs := Heights(nodes, order);
      y, d := x, c;
      StepRight(nodes, order, level, key, p, d, i);
      while nodes[y].forward[i] != NIL && nodes[nodes[y].forward[i]].key < key
        invariant 0 <= d < p && y == order[d] && hs[d] >= i
        invariant y == x || nodes[y].key < key
        invariant forall k :: d < k < p ==> hs[k] <= i
        invariant nodes[y].forward[i] == SlotAt(order, NextAt(hs, d + 1, i))
        invariant NextAt(hs, d + 1, i) < p <==> nodes[y].forward[i] != NIL && nodes[nodes[y].forward[i]].key < key
        decreases p - d
      {
        y := nodes[y].forward[i];
        d := NextAt(hs, d + 1, i);
        StepRight(nodes, order, level, key, p, d, i);
      }
      assert NextAt(hs, d + 1, i) >= p;
    }

    /** The value stored under `key`, or the zero value and false when there is none. */
    method Get(key: int) returns (v: T, found: bool)
      requires Valid()
      ensures found <==> key in contents
      ensures found ==> v == contents[key]
      ensures !found ==> v == zero
    {
      var update, cs, p := Search(key);
      var x := nodes[update[0]].forward[0];
      Locate(nodes, order, contents, key);
      if x != NIL && nodes[x].key == key {
        v, found := nodes[x].value, true;
      } else {
        v, found := zero, false;
      }
    }

    /**
     * Maps `key` to `val`. A present key has its value overwritten in place.
     * Otherwise a node of height RandomLevel(MAX_LAYER, sample) is spliced in at
     * every level up to its height, raising the list's level to that height when
     * it is above; `sample` is the draw of the level generator.
     */
    method Insert(key: int, val: T, sample: nat)
      requires Valid()
      modifies this
      ensures Valid()
      ensures contents == old(contents)[key := val]
      ensures key in old(contents) ==>
        level == old(level) && size == old(size) && order == old(order) && free == old(free)
      ensures key in old(contents) ==> |nodes| == |old(nodes)|
      ensures key in old(contents) ==> forall m :: 0 <= m < |nodes| ==>
        nodes[m].forward == old(nodes)[m].forward && nodes[m].key == old(nodes)[m].key && nodes[m].level == old(nodes)[m].level
      ensures key !in old(contents) ==> size == old(size) + 1
      ensures key !in old(contents) ==>
        level == (if RandomLevel(MAX_LAYER, sample) > old(level) then RandomLevel(MAX_LAYER, sample) else old(level))
      ensures key !in old(contents) ==>
        exists c :: 1 <= c < |order| && nodes[order[c]].key == key && nodes[order[c]].level == RandomLevel(MAX_LAYER, sample)
    {
      var update, cs, p := Search(key);
      var x := nodes[update[0]].forward[0];
      Locate(nodes, order, contents, key);
      if x != NIL && nodes[x].key == key {
        OverwriteInv(nodes, order, level, size, free, contents, zero, p, val);
        nodes := nodes[x := nodes[x].(value := val)];
        contents := contents[key := val];
        return;
      }
      var lvl := RandomLevel(MAX_LAYER, sample);
      InsertNew(key, val, lvl, update, cs, p);
    }

    /**
     * Insert of a key that is not present: a node of height lvl holding the
     * pair is taken from the pool and spliced in at the key's place p.
     */
    method InsertNew(key: int, val: T, lvl: int, update: seq<int>, ghost cs: seq<int>, ghost p: int)
      requires Valid() && key !in contents && p == LowerBound(Keys(nodes, order), key, 1)
      requires 0 <= lvl <= MAX_LAYER && |update| == MAX_LAYER + 1
      requires Trail(Heights(nodes, order), p, level, cs)
      requires forall t :: 0 <= t <= level ==> update[t] == order[cs[t]]
      modifies this
      ensures Valid()
      ensures contents == old(contents)[key := val] && size == old(size) + 1
      ensures level == if lvl > old(level) then lvl else old(level)
      ensures 1 <= p < |order| && nodes[order[p]].key == key && nodes[order[p]].level == lvl
    {
      ghost var nodes0, level0, free0 := nodes, level, free;
      var update', cs' := Raise(lvl, update, cs, p);
      var s := CreateNode(lvl, key, val);
      AllocateReady(nodes0, nodes, order, level0, size, free0, free, contents, zero, s, key, lvl, val, p, cs');
      ghost var nodes1 := nodes;
      Splice(s, lvl, update', cs', p);
      InsertInv(nodes0, nodes1, nodes, order, level0, size, free0, free, contents, zero, s, key, lvl, val, p, cs');
      size := size + 1;
      order := order[..p] + [s] + order[p..];
      contents := contents[key := val];
    }

    /**
     * The raise step of Insert: when the new height lvl is above the list's
     * level, the head becomes the predecessor at the levels in between and the
     * level rises to lvl. The returned trail reaches lvl.
     */
    method Raise(lvl: int, update: seq<int>, ghost cs: seq<int>, ghost p: int) returns (update': seq<int>, ghost cs': seq<int>)
      requires Valid() && 1 <= p <= |order| && 0 <= lvl <= MAX_LAYER && |update| == MAX_LAYER + 1
      requires Trail(Heights(nodes, order), p, level, cs)
      requires forall t :: 0 <= t <= level ==> update[t] == order[cs[t]]
      modifies this
      ensures nodes == old(nodes) && order == old(order) && contents == old(contents)
      ensures size == old(size) && free == old(free)
      ensures level == if lvl > old(level) then lvl else old(level)
      ensures |update'| == MAX_LAYER + 1 && Trail(Heights(nodes, order), p, lvl, cs')
      ensures forall t :: 0 <= t <= lvl ==> update'[t] == order[cs'[t]]
    {
      update', cs' := update, cs;
      if lvl > level {
        ghost var hs := Heights(nodes, order);
        var i := level + 1;
        while i <= lvl
          invariant level + 1 <= i <= lvl + 1
          invariant |update'| == MAX_LAYER + 1
          invariant Trail(hs, p, i - 1, cs')
          invariant forall t :: 0 <= t < i ==> update'[t] == order[cs'[t]]
        {
          update' := update'[i := HEAD];
          cs' := cs'[i := 0];
          i := i + 1;
        }
        level := lvl;
      }
    }

    /**
     * The splice loop of Insert: at each level up to the new node's height,
     * the new node takes over its predecessor's link and the predecessor links
     * to the new node.
     */
    method Splice(s: int, lvl: int, update: seq<int>, ghost cs: seq<int>, ghost p: int)
      requires SpliceReady(nodes, order, p, s, lvl, cs) && |update| == MAX_LAYER + 1
      requires forall t :: 0 <= t <= lvl ==> update[t] == order[cs[t]]
      modifies this
      ensures order == old(order) && contents == old(contents) && level == old(level)
      ensures size == old(size) && free == old(free)
      ensures Spliced(old(nodes), nodes, order, s, lvl, cs)
    {
      ghost var nodes1 := nodes;
      var i := 0;
      while i <= lvl
        invariant order == old(order) && contents == old(contents) && level == old(level)
        invariant size == old(size) && free == old(free)
        invariant 0 <= i <= lvl + 1
        invariant Spliced(nodes1, nodes, order, s, i - 1, cs)
      {
        SpliceStep(nodes1, nodes, order, s, cs, i);
        nodes := nodes[s := nodes[s].(forward := nodes[s].forward[i := nodes[update[i]].forward[i]])];
        nodes := nodes[update[i] := nodes[update[i]].(forward := nodes[update[i]].forward[i := s])];
        i := i + 1;
      }
    }

    /**
     * The unlink loop of Delete: from level 0 up, the predecessor takes over the
     * link of node x, until a level where the predecessor does not link to x,
     * which is the first level above x's height.
     */
    method Unlink(x: int, update: seq<int>, ghost cs: seq<int>, ghost p: int)
      requires UnlinkReady(nodes, order, p, cs) && x == order[p]
      requires 0 <= nodes[x].level <= level <= MAX_LAYER && |update| == MAX_LAYER + 1
      requires Trail(Heights(nodes, order), p, level, cs)
      requires forall t :: 0 <= t <= level ==> update[t] == order[cs[t]]
      modifies this
      ensures order == old(order) && contents == old(contents) && level == old(level)
      ensures size == old(size) && free == old(free)
      ensures Unlinked(old(nodes), nodes, order, p, old(nodes)[x].level, cs)
    {
      ghost var nodes1 := nodes;
      ghost var hx := nodes[x].level;
      var i := 0;
      while i <= level
        invariant order == old(order) && contents == old(contents) && level == old(level)
        invariant size == old(size) && free == old(free)
        invariant 0 <= i <= hx + 1
        invariant Unlinked(nodes1, nodes, order, p, i - 1, cs)
      {
        UnlinkIter(nodes1, nodes, order, p, cs, i);
        if nodes[update[i]].forward[i] != x {
          break;
        }
        nodes := nodes[update[i] := nodes[update[i]].(forward := nodes[update[i]].forward[i := nodes[x].forward[i]])];
        i := i + 1;
      }
      assert i == hx + 1;
    }

    /**
     * Removes `key` and reports whether it was present. The node is unlinked
     * level by level from the bottom until a level where its predecessor does
     * not link to it; empty top levels are then dropped, and the node goes back
     * to the pool.
     */
    method Delete(key: int) returns (found: bool)
      requires Valid()
      modifies this
      ensures Valid()
      ensures found <==> key in old(contents)
      ensures contents == old(contents) - {key}
      ensures !found ==>
        nodes == old(nodes) && level == old(level) && size == old(size) && free == old(free) && order == old(order)
      ensures found ==> size == old(size) - 1 && level <= old(level)
    {
      var update, cs, p := Search(key);
      var x := nodes[update[0]].forward[0];
      Locate(nodes, order, contents, key);
      if x == NIL || nodes[x].key != key {
        return false;
      }
      DeleteFound(x, update, cs, p);
      found := true;
    }

    /**
     * Delete of a present key, held by node x at coordinate p: the node is
     * unlinked, the empty top levels are dropped and the node goes back to the pool.
     */
    method DeleteFound(x: int, update: seq<int>, ghost cs: seq<int>, ghost p: int)
      requires Valid() && 1 <= p < |order| && x == order[p]
      requires |update| == MAX_LAYER + 1 && Trail(Heights(nodes, order), p, level, cs)
      requires forall t :: 0 <= t <= level ==> update[t] == order[cs[t]]
      modifies this
      ensures Valid()
      ensures contents == old(contents) - {old(nodes)[x].key}
      ensures size == old(size) - 1 && level <= old(level)
    {
      ghost var nodes1, level1, size1, free1, order1 := nodes, level, size, free, order;
      Unlink(x, update, cs, p);
      ghost var nodes2 := nodes;
      ShrinkLevel();
      DeleteInv(nodes1, nodes2, order1, level1, level, size1, free1, contents, zero, p, cs);
      size := size - 1;
      FreeNode(x);
      order := order[..p] + order[p + 1..];
      contents := contents - {nodes1[x].key};
    }

    /** Drops the empty top levels: lowers the level while the head links nowhere there. */
    method ShrinkLevel()
      requires Arena(nodes) && 0 <= level <= MAX_LAYER
      modifies this
      ensures nodes == old(nodes) && order == old(order) && contents == old(contents)
      ensures size == old(size) && free == old(free)
      ensures 0 <= level <= old(level)
      ensures level == 0 || nodes[HEAD].forward[level] != NIL
      ensures forall t :: level < t <= old(level) ==> nodes[HEAD].forward[t] == NIL
    {
      while level > 0 && nodes[HEAD].forward[level] == NIL
        invariant nodes == old(nodes) && order == old(order) && contents == old(contents)
        invariant size == old(size) && free == old(free)
        invariant 0 <= level <= old(level)
        invariant forall t :: level < t <= old(level) ==> nodes[HEAD].forward[t] == NIL
        decreases level
      {
        level := level - 1;
      }
    }

    /** The number of elements. */
    method Size() returns (n: int)
      requires Valid()
      ensures n == |contents|
    {
      n := size;
    }
  }
}
