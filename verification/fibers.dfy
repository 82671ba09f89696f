/**
 * The fiber graph that the reconciler owns and the library only reads.
 *
 * Fibers live in an arena (a sequence); the `return`, `child` and `sibling`
 * pointers of a React fiber become optional arena indices. Only the parts of
 * a fiber the library looks at are kept: what its `type` is, its `stateNode`,
 * and, for a context provider, the context and the `value` prop.
 */
module Fibers {
  import opened Wrappers

  /** Identity of a React context object. */
  type Ctx = nat

  /** A context value. */
  type Val = int

  /** What the fiber's `type` field holds. */
  datatype Kind =
    | Host(tag: string)                // `typeof type === 'string'`: a host element
    | NullTyped                        // `type == null`: host root, text, fragment
    | Provider(ctx: Ctx, value: Val)   // `type._context` is set: a context provider
    | Consumer(ctx: Ctx)               // `type._context` is set, but the fiber provides nothing
    | Composite(name: string)          // a function or class component

  /** What the fiber's `stateNode` field holds. */
  datatype StateNode =
    | NoState                                 // `null`
    | HostInstance(name: string)              // a host instance, carrying its `name` prop
    | ClassInstance                           // a class component instance; its props carry no `name`
    | FiberRoot(containerInfo: Option<nat>)   // an object with a `containerInfo` field: a fiber root, or a portal's state node

  datatype Fiber = Fiber(
    kind: Kind,
    stateNode: StateNode,
    ret: Option<nat>,      // the `return` pointer (parent)
    child: Option<nat>,    // first child
    sibling: Option<nat>   // next sibling
  )

  type Arena = seq<Fiber>

  /**
   * The pointers of fiber `i` respect the arena's pre-order numbering:
   * a parent comes before its children, a fiber before its next sibling;
   * a child points back at its parent and a sibling shares its parent.
   * This is the acyclicity the library silently relies on to terminate.
   */
  predicate LinksOk(g: Arena, i: nat)
    requires i < |g|
  {
    && (g[i].ret.Some? ==> g[i].ret.value < i)
    && (g[i].child.Some? ==>
          i < g[i].child.value < |g| && g[g[i].child.value].ret == Some(i))
    && (g[i].sibling.Some? ==>
          i < g[i].sibling.value < |g| && g[g[i].sibling.value].ret == g[i].ret)
  }

  predicate WellFormed(g: Arena) {
    forall i | 0 <= i < |g| :: LinksOk(g, i)
  }

  /** An optional pointer that, when present, stays inside the arena. */
  predicate InArena(g: Arena, o: Option<nat>) {
    o.Some? ==> o.value < |g|
  }

  /** `fiber[ascending ? 'return' : 'child']` */
  function Link(f: Fiber, ascending: bool): (next: Option<nat>) {
    if ascending then f.ret else f.child
  }

  /** A measure that every `Link` step (in the given direction) decreases. */
  function ChainRank(g: Arena, o: Option<nat>, ascending: bool): (rank: nat)
    requires InArena(g, o)
  {
    if o.None? then 0 else if ascending then o.value + 1 else |g| - o.value
  }

  /**
   * The fibers reached from `o` by following `Link` in one direction, in order:
   * the `return` chain (ancestors) or the `child` chain (first descendants).
   */
  function ChainFrom(g: Arena, o: Option<nat>, ascending: bool): (c: seq<nat>)
    requires WellFormed(g) && InArena(g, o)
    ensures |c| == 0 <==> o.None?
    ensures o.Some? ==> c[0] == o.value
    ensures forall k | 0 <= k < |c| ::
              c[k] < |g| && if ascending then c[k] <= o.value else o.value <= c[k]
    decreases ChainRank(g, o, ascending)
  {
    if o.None? then []
    else
      var i := o.value;
      assert LinksOk(g, i);
      [i] + ChainFrom(g, Link(g[i], ascending), ascending)
  }

  /** The fibers reached from `o` by following `sibling` pointers, in order. */
  function SiblingsFrom(g: Arena, o: Option<nat>): (c: seq<nat>)
    requires WellFormed(g) && InArena(g, o)
    ensures |c| == 0 <==> o.None?
    ensures o.Some? ==> c[0] == o.value
    ensures forall k | 0 <= k < |c| ::
              o.value <= c[k] < |g| && g[c[k]].ret == g[o.value].ret
    decreases if o.None? then 0 else |g| - o.value
  {
    if o.None? then []
    else
      var i := o.value;
      assert LinksOk(g, i);
      [i] + SiblingsFrom(g, g[i].sibling)
  }

  /** Position `k` of `xs` as an optional pointer: `None` past the end. */
  function At(xs: seq<nat>, k: nat): (o: Option<nat>)
    ensures o.Some? <==> k < |xs|
    ensures o.Some? ==> o.value == xs[k]
  {
    if k < |xs| then Some(xs[k]) else None
  }

  /** Following `Link` from the `k`-th fiber of a chain lands on the next one, or on nothing at the end. */
  lemma {:induction false} ChainFromStep(g: Arena, o: Option<nat>, ascending: bool, k: nat)
    requires WellFormed(g) && InArena(g, o) && k < |ChainFrom(g, o, ascending)|
    ensures Link(g[ChainFrom(g, o, ascending)[k]], ascending) == At(ChainFrom(g, o, ascending), k + 1)
    decreases k
  {
    var i := o.value;
    assert LinksOk(g, i);
    if k > 0 {
      ChainFromStep(g, Link(g[i], ascending), ascending, k - 1);
    }
  }

  /** Following `sibling` from the `k`-th fiber of a sibling list lands on the next one, or on nothing. */
  lemma {:induction false} SiblingsFromStep(g: Arena, o: Option<nat>, k: nat)
    requires WellFormed(g) && InArena(g, o) && k < |SiblingsFrom(g, o)|
    ensures g[SiblingsFrom(g, o)[k]].sibling == At(SiblingsFrom(g, o), k + 1)
    decreases k
  {
    var i := o.value;
    assert LinksOk(g, i);
    if k > 0 {
      SiblingsFromStep(g, g[i].sibling, k - 1);
    }
  }

  /** The later siblings of `s`: `s.sibling`, `s.sibling.sibling`, ... */
  function Siblings(g: Arena, s: nat): (sibs: seq<nat>)
    requires WellFormed(g) && s < |g|
    ensures forall k | 0 <= k < |sibs| :: s < sibs[k] < |g| && g[sibs[k]].ret == g[s].ret
  {
    assert LinksOk(g, s);
    SiblingsFrom(g, g[s].sibling)
  }

  /**
   * The chain walked from `s`, excluding `s` itself: its ancestors
   * (ascending) or its first child, that child's first child, ... (descending).
   */
  function Chain(g: Arena, s: nat, ascending: bool): (chain: seq<nat>)
    requires WellFormed(g) && s < |g|
    ensures forall k | 0 <= k < |chain| ::
              chain[k] < |g| && if ascending then chain[k] < s else s < chain[k]
  {
    assert LinksOk(g, s);
    ChainFrom(g, Link(g[s], ascending), ascending)
  }

  /**
   * Every fiber that a traversal from `s` offers to a selector that never
   * halts: the siblings of `s` first, then the chain, and nothing at all
   * when the chain is empty (the outer loop never starts).
   */
  function Visits(g: Arena, s: nat, ascending: bool): (vs: seq<nat>)
    requires WellFormed(g) && s < |g|
  {
    var chain := Chain(g, s, ascending);
    if |chain| == 0 then [] else Siblings(g, s) + chain
  }

  /** The walk from `s` starts at `Link(g[s])` and moves one chain position per `Link` step. */
  lemma ChainStep(g: Arena, s: nat, ascending: bool, k: nat)
    requires WellFormed(g) && s < |g|
    ensures Link(g[s], ascending) == At(Chain(g, s, ascending), 0)
    ensures k < |Chain(g, s, ascending)| ==>
              Link(g[Chain(g, s, ascending)[k]], ascending) == At(Chain(g, s, ascending), k + 1)
  {
    assert LinksOk(g, s);
    if k < |Chain(g, s, ascending)| {
      ChainFromStep(g, Link(g[s], ascending), ascending, k);
    }
  }

  /** The sibling walk from `s` starts at `s.sibling` and moves one position per `sibling` step. */
  lemma SiblingStep(g: Arena, s: nat, k: nat)
    requires WellFormed(g) && s < |g|
    ensures g[s].sibling == At(Siblings(g, s), 0)
    ensures k < |Siblings(g, s)| ==> g[Siblings(g, s)[k]].sibling == At(Siblings(g, s), k + 1)
  {
    assert LinksOk(g, s);
    if k < |Siblings(g, s)| {
      SiblingsFromStep(g, g[s].sibling, k);
    }
  }

  /** No fiber occurs twice. */
  predicate Distinct(xs: seq<nat>) {
    forall j, k | 0 <= j < k < |xs| :: xs[j] != xs[k]
  }

  /** Strictly decreasing when `down`, strictly increasing otherwise. */
  predicate Monotone(c: seq<nat>, down: bool) {
    forall j, k | 0 <= j < k < |c| :: if down then c[k] < c[j] else c[j] < c[k]
  }

  /** A chain moves strictly away from where it started: down the arena when ascending, up when descending. */
  lemma {:induction false} ChainFromMonotone(g: Arena, o: Option<nat>, ascending: bool)
    requires WellFormed(g) && InArena(g, o)
    ensures Monotone(ChainFrom(g, o, ascending), ascending)
    decreases ChainRank(g, o, ascending)
  {
    if o.Some? {
      var i := o.value;
      assert LinksOk(g, i);
      var c, rest := ChainFrom(g, o, ascending), ChainFrom(g, Link(g[i], ascending), ascending);
      ChainFromMonotone(g, Link(g[i], ascending), ascending);
      assert c == [i] + rest;
      forall j, k | 0 <= j < k < |c|
        ensures if ascending then c[k] < c[j] else c[j] < c[k]
      {
        assert c[k] == rest[k - 1];
        if j > 0 {
          assert c[j] == rest[j - 1];
          assert if ascending then rest[k - 1] < rest[j - 1] else rest[j - 1] < rest[k - 1];
        } else {
          assert c[j] == i;
          assert if ascending then rest[k - 1] <= rest[0] else rest[0] <= rest[k - 1];
          assert if ascending then rest[0] < i else i < rest[0];
        }
      }
    }
  }

  /** Sibling pointers move strictly up the arena. */
  lemma {:induction false} SiblingsFromIncreasing(g: Arena, o: Option<nat>)
    requires WellFormed(g) && InArena(g, o)
    ensures Monotone(SiblingsFrom(g, o), false)
    decreases if o.None? then 0 else |g| - o.value
  {
    if o.Some? {
      var i := o.value;
      assert LinksOk(g, i);
      var c, rest := SiblingsFrom(g, o), SiblingsFrom(g, g[i].sibling);
      SiblingsFromIncreasing(g, g[i].sibling);
      assert c == [i] + rest;
      forall j, k | 0 <= j < k < |c|
        ensures c[j] < c[k]
      {
        assert rest[k - 1] >= rest[0];
        assert c[k] == rest[k - 1];
        if j > 0 {
          assert c[j] == rest[j - 1];
        }
      }
    }
  }

  /**
   * The parent of the `k`-th chain fiber: the next chain fiber when ascending
   * (none at the root); when descending, the previous chain fiber, or `s`
   * itself for the first one.
   */
  lemma ChainParent(g: Arena, s: nat, ascending: bool, k: nat)
    requires WellFormed(g) && s < |g| && k < |Chain(g, s, ascending)|
    ensures var chain := Chain(g, s, ascending);
            g[chain[k]].ret
            == if ascending then At(chain, k + 1)
               else Some(if k == 0 then s else chain[k - 1])
  {
    var chain := Chain(g, s, ascending);
    ChainStep(g, s, ascending, k);
    if !ascending {
      if k == 0 {
        assert LinksOk(g, s);
      } else {
        ChainStep(g, s, ascending, k - 1);
        assert LinksOk(g, chain[k - 1]);
      }
    }
  }

  /**
   * No fiber is visited twice: the siblings are distinct, the chain is
   * distinct, and no sibling of `s` lies on its chain.
   */
  lemma VisitsDistinct(g: Arena, s: nat, ascending: bool)
    requires WellFormed(g) && s < |g|
    ensures Distinct(Visits(g, s, ascending))
  {
    var sibs, chain := Siblings(g, s), Chain(g, s, ascending);
    assert LinksOk(g, s);
    SiblingsFromIncreasing(g, g[s].sibling);
    ChainFromMonotone(g, Link(g[s], ascending), ascending);
    if !ascending {
      forall j, k | 0 <= j < |sibs| && 0 <= k < |chain|
        ensures sibs[j] != chain[k]
      {
        ChainParent(g, s, ascending, k);
      }
    }
    var vs := sibs + chain;
    if |chain| > 0 {
      forall j, k | 0 <= j < k < |vs|
        ensures vs[j] != vs[k]
      {
        if k < |sibs| {
        } else if j >= |sibs| {
          assert vs[j] == chain[j - |sibs|] && vs[k] == chain[k - |sibs|];
        } else {
          assert vs[j] == sibs[j] && vs[k] == chain[k - |sibs|];
        }
      }
    }
  }

  /**
   * A sibling of the `k`-th chain fiber, earlier or later, is not on the
   * chain: no two chain fibers share a parent.
   */
  lemma OffChain(g: Arena, s: nat, ascending: bool, k: nat, m: nat)
    requires WellFormed(g) && s < |g| && m < |g|
    requires k < |Chain(g, s, ascending)|
    requires g[m].ret == g[Chain(g, s, ascending)[k]].ret && m != Chain(g, s, ascending)[k]
    ensures m !in Chain(g, s, ascending)
  {
    var chain := Chain(g, s, ascending);
    ChainParent(g, s, ascending, k);
    assert LinksOk(g, s);
    ChainFromMonotone(g, Link(g[s], ascending), ascending);
    assert Monotone(chain, ascending);
    forall i | 0 <= i < |chain|
      ensures chain[i] != m
    {
      ChainParent(g, s, ascending, i);
      if i < k {
        assert chain[i] != chain[k];
      } else if k < i {
        assert chain[k] != chain[i];
      }
    }
  }

  /** A fiber sharing its parent with a chain fiber is not a sibling of `s`. */
  lemma NotStartSibling(g: Arena, s: nat, ascending: bool, k: nat, m: nat)
    requires WellFormed(g) && s < |g| && m < |g|
    requires k < |Chain(g, s, ascending)|
    requires g[m].ret == g[Chain(g, s, ascending)[k]].ret
    ensures m !in Siblings(g, s)
  {
    var chain := Chain(g, s, ascending);
    ChainParent(g, s, ascending, k);
    ChainStep(g, s, ascending, 0);
    assert LinksOk(g, s);
    if ascending {
      ChainFromMonotone(g, Link(g[s], ascending), ascending);
      assert Monotone(chain, ascending);
      assert g[m].ret != Some(chain[0]);
    }
  }

  /**
   * Siblings of a chain fiber, earlier or later, are neither on the chain
   * nor siblings of `s`, so they are never visited.
   */
  lemma ChainSiblingNotVisited(g: Arena, s: nat, ascending: bool, k: nat, m: nat)
    requires WellFormed(g) && s < |g| && m < |g|
    requires k < |Chain(g, s, ascending)|
    requires g[m].ret == g[Chain(g, s, ascending)[k]].ret && m != Chain(g, s, ascending)[k]
    ensures m !in Visits(g, s, ascending)
  {
    OffChain(g, s, ascending, k, m);
    NotStartSibling(g, s, ascending, k, m);
  }
}
