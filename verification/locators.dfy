/**
 * The three locator hooks: `useNearestChild`, `useNearestParent` and
 * `useContainer`. Each composes a predicate on fibers with `traverseFiber`
 * and projects the selected fiber to its `stateNode`. The start fiber (the
 * one `useFiber` returns) is an input; hook caching and effect timing are
 * not modelled.
 */
module Locators {
  import opened Wrappers
  import opened Fibers
  import opened Traversal

  /** `typeof node.type === 'string'`: a host element fiber. */
  predicate IsHost(f: Fiber) {
    f.kind.Host?
  }

  /** `node.type == null && node.stateNode.containerInfo != null`, where it does not throw. */
  predicate IsContainer(f: Fiber) {
    f.kind.NullTyped? && f.stateNode.FiberRoot? && f.stateNode.containerInfo.Some?
  }

  /**
   * Evaluating `node.stateNode.containerInfo` throws a TypeError: the type
   * is null (so `&&` does not short-circuit) and the state node is null, as
   * on a Fragment fiber.
   */
  predicate ProbeThrows(f: Fiber) {
    f.kind.NullTyped? && f.stateNode.NoState?
  }

  /** `?.stateNode` of an optional fiber. */
  function StateOf(g: Arena, o: Option<nat>): (state: Option<StateNode>)
    requires o.Some? ==> o.value < |g|
  {
    if o.Some? then Some(g[o.value].stateNode) else None
  }

  /** None of the first `j` fibers of `vs` is accepted. */
  ghost predicate NoneBefore(g: Arena, vs: seq<nat>, sel: Selector, j: nat)
    requires AllIn(g, vs) && j <= |vs|
  {
    forall i | 0 <= i < j :: !sel(g[vs[i]])
  }

  /**
   * What `traverseFiber(fiber, ascending, sel)?.stateNode` must be, said
   * without the traversal: nothing when there is no chain; the first chain
   * fiber's state node when some sibling of the start fiber is accepted;
   * otherwise the state node of the nearest accepted chain fiber, or nothing.
   */
  ghost predicate NearestState(g: Arena, s: nat, ascending: bool, sel: Selector, r: Option<StateNode>)
    requires WellFormed(g) && s < |g|
  {
    var sibs, chain := Siblings(g, s), Chain(g, s, ascending);
    if |chain| == 0 then r.None?
    else if exists j | 0 <= j < |sibs| :: sel(g[sibs[j]]) then r == Some(g[chain[0]].stateNode)
    else if forall k | 0 <= k < |chain| :: !sel(g[chain[k]]) then r.None?
    else exists k | 0 <= k < |chain| ::
           && sel(g[chain[k]])
           && NoneBefore(g, chain, sel, k)
           && r == Some(g[chain[k]].stateNode)
  }

  /** The traversal's answer, projected to its state node, meets `NearestState`. */
  lemma NearestWalk(g: Arena, s: nat, ascending: bool, sel: Selector)
    requires WellFormed(g) && s < |g|
    ensures var w := TraverseSpec(g, s, ascending, sel);
      && (w.selected.Some? ==> w.selected.value < |g|)
      && NearestState(g, s, ascending, sel, StateOf(g, w.selected))
  {
    var sibs := Siblings(g, s);
    ChainStep(g, s, ascending, 0);
    if exists j | 0 <= j < |sibs| :: sel(g[sibs[j]]) {
      var j :| 0 <= j < |sibs| && sel(g[sibs[j]]);
      if Link(g[s], ascending).Some? {
        SiblingHitReturnsFirstChainFiber(g, s, ascending, sel, j);
      }
    } else {
      NoSiblingHitReturnsFirstChainMatch(g, s, ascending, sel);
    }
  }

  /** `traverseFiber(fiber, false, isHost)?.stateNode`, the value `useNearestChild` stores. */
  function NearestChild(g: Arena, s: nat): (r: Option<StateNode>)
    requires WellFormed(g) && s < |g|
    ensures NearestState(g, s, false, IsHost, r)
    ensures g[s].child.None? ==> r.None?
  {
    NearestWalk(g, s, false, IsHost);
    ChainStep(g, s, false, 0);
    StateOf(g, TraverseSpec(g, s, false, IsHost).selected)
  }

  /** `traverseFiber(fiber, true, isHost)?.stateNode`, the value `useNearestParent` stores. */
  function NearestParent(g: Arena, s: nat): (r: Option<StateNode>)
    requires WellFormed(g) && s < |g|
    ensures NearestState(g, s, true, IsHost, r)
    ensures g[s].ret.None? ==> r.None?
  {
    NearestWalk(g, s, true, IsHost);
    ChainStep(g, s, true, 0);
    StateOf(g, TraverseSpec(g, s, true, IsHost).selected)
  }

  /** Why `useContainer` throws instead of returning. */
  datatype ContainerError =
    | NoContainer  // no fiber matched, so `!.stateNode` reads a property of undefined
    | ReadOfNull   // the selector read `containerInfo` of a null state node

  /**
   * When the offered fibers are a prefix of the visited ones that stops
   * right after the first accepted fiber, some offered fiber is `bad` iff a
   * visited fiber is `bad` before any visited fiber is accepted.
   */
  lemma {:induction false} OfferedReaches(g: Arena, offered: seq<nat>, vs: seq<nat>, sel: Selector, bad: Selector)
    requires AllIn(g, vs) && offered <= vs
    requires forall j | 0 <= j < |offered| - 1 :: !sel(g[offered[j]])
    requires |offered| < |vs| ==> |offered| > 0 && sel(g[offered[|offered| - 1]])
    ensures (exists j | 0 <= j < |offered| :: bad(g[offered[j]]))
      <==> (exists j | 0 <= j < |vs| :: bad(g[vs[j]]) && NoneBefore(g, vs, sel, j))
  {
    if j :| 0 <= j < |offered| && bad(g[offered[j]]) {
      assert vs[j] == offered[j];
      assert NoneBefore(g, vs, sel, j) by {
        forall i | 0 <= i < j ensures !sel(g[vs[i]]) {
          assert vs[i] == offered[i];
        }
      }
    }
    if j :| 0 <= j < |vs| && bad(g[vs[j]]) && NoneBefore(g, vs, sel, j) {
      if |offered| < |vs| {
        assert offered[|offered| - 1] == vs[|offered| - 1];
      }
      assert offered[j] == vs[j];
    }
  }

  /**
   * A probe is made on exactly the offered fibers, so the selector throws
   * iff some visited fiber throws before any visited fiber matches.
   */
  lemma ThrowsIffReachedFirst(g: Arena, s: nat)
    requires WellFormed(g) && s < |g|
    ensures var w, vs := TraverseSpec(g, s, true, IsContainer), Visits(g, s, true);
      (exists j | 0 <= j < |w.offered| :: ProbeThrows(g[w.offered[j]]))
      <==> (exists j | 0 <= j < |vs| :: ProbeThrows(g[vs[j]]) && NoneBefore(g, vs, IsContainer, j))
  {
    var w, vs := TraverseSpec(g, s, true, IsContainer), Visits(g, s, true);
    OffersPrefixOfVisits(g, s, true, IsContainer);
    OfferedReaches(g, w.offered, vs, IsContainer, ProbeThrows);
  }

  /**
   * `useContainer` as written: the selector throws on the first offered
   * fiber that `ProbeThrows`, and the non-null assertion throws when
   * nothing matched; otherwise the selected fiber's state node.
   */
  function UseContainer(g: Arena, s: nat): (r: Result<StateNode, ContainerError>)
    requires WellFormed(g) && s < |g|
    ensures var vs := Visits(g, s, true);
      r == Failure(ReadOfNull)
      <==> exists j | 0 <= j < |vs| :: ProbeThrows(g[vs[j]]) && NoneBefore(g, vs, IsContainer, j)
    ensures r != Failure(ReadOfNull) ==>
      && NearestState(g, s, true, IsContainer, if r.Success? then Some(r.value) else None)
      && (r.Failure? ==> r.error == NoContainer)
  {
    var w := TraverseSpec(g, s, true, IsContainer);
    ThrowsIffReachedFirst(g, s);
    NearestWalk(g, s, true, IsContainer);
    if exists j | 0 <= j < |w.offered| :: ProbeThrows(g[w.offered[j]]) then Failure(ReadOfNull)
    else if w.selected.None? then Failure(NoContainer)
    else Success(g[w.selected.value].stateNode)
  }

  /**
   * `useContainer` with the probe written `node.stateNode?.containerInfo`:
   * it never reads through a null state node, and fails only when no
   * visited fiber is a container.
   */
  function UseContainerGuarded(g: Arena, s: nat): (r: Result<StateNode, ContainerError>)
    requires WellFormed(g) && s < |g|
    ensures r.Failure? ==> r.error == NoContainer
    ensures NearestState(g, s, true, IsContainer, if r.Success? then Some(r.value) else None)
    ensures var vs := Visits(g, s, true);
      r.Failure? <==> forall j | 0 <= j < |vs| :: !IsContainer(g[vs[j]])
  {
    var w := TraverseSpec(g, s, true, IsContainer);
    NearestWalk(g, s, true, IsContainer);
    OffersPrefixOfVisits(g, s, true, IsContainer);
    ContainerFoundIffVisited(g, s);
    if w.selected.None? then Failure(NoContainer)
    else Success(g[w.selected.value].stateNode)
  }

  /** The ascending walk selects a fiber iff some visited fiber is a container. */
  lemma ContainerFoundIffVisited(g: Arena, s: nat)
    requires WellFormed(g) && s < |g|
    ensures var vs := Visits(g, s, true);
      TraverseSpec(g, s, true, IsContainer).selected.None? <==> forall j | 0 <= j < |vs| :: !IsContainer(g[vs[j]])
  {
    var w, vs := TraverseSpec(g, s, true, IsContainer), Visits(g, s, true);
    OffersPrefixOfVisits(g, s, true, IsContainer);
    if w.selected.Some? {
      var last := |w.offered| - 1;
      assert w.offered[last] == vs[last];
    }
  }

  /** Where `useContainer` as written does not throw on a null state node, the guarded form agrees with it. */
  lemma GuardedAgreesUnlessReadOfNull(g: Arena, s: nat)
    requires WellFormed(g) && s < |g|
    ensures UseContainer(g, s) == Failure(ReadOfNull) || UseContainer(g, s) == UseContainerGuarded(g, s)
    ensures UseContainerGuarded(g, s) != Failure(ReadOfNull)
  {
  }
}
