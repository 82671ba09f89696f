/**
 * `traverseFiber`: a walk from a start fiber along the `return` chain
 * (ascending) or the `child` chain (descending), offering fibers to a
 * selector until it answers true.
 *
 * `TraverseSpec` says declaratively which fibers are offered and which one
 * is returned; `Traverse` mirrors the two nested loops of the source and is
 * proved to agree with it. The lemmas state the behaviour a caller sees,
 * including the quirks: the start fiber is never offered, only the start
 * fiber's own siblings are, and a matching sibling makes the walk return the
 * first chain fiber instead of the sibling.
 */
module Traversal {
  import opened Wrappers
  import opened Fibers

  /** A selector as the library calls it: `!!selector(node)`. */
  type Selector = Fiber -> bool

  /** Every element of `xs` indexes the arena. */
  predicate AllIn(g: Arena, xs: seq<nat>) {
    forall j | 0 <= j < |xs| :: xs[j] < |g|
  }

  /** The position of the first fiber of `xs` the selector accepts, or `|xs|`. */
  function FirstMatch(g: Arena, xs: seq<nat>, sel: Selector): (k: nat)
    requires AllIn(g, xs)
    ensures k <= |xs|
    ensures forall j | 0 <= j < k :: !sel(g[xs[j]])
    ensures k < |xs| ==> sel(g[xs[k]])
  {
    FirstMatchFrom(g, xs, sel, 0)
  }

  /** The position of the first fiber of `xs` at or after `i` that the selector accepts, or `|xs|`. */
  function FirstMatchFrom(g: Arena, xs: seq<nat>, sel: Selector, i: nat): (k: nat)
    requires AllIn(g, xs) && i <= |xs|
    ensures i <= k <= |xs|
    ensures forall j | i <= j < k :: !sel(g[xs[j]])
    ensures k < |xs| ==> sel(g[xs[k]])
    decreases |xs| - i
  {
    if i == |xs| then i
    else if sel(g[xs[i]]) then i
    else FirstMatchFrom(g, xs, sel, i + 1)
  }

  /** What one traversal produces: the selected fiber and the fibers offered, in call order. */
  datatype Walk = Walk(selected: Option<nat>, offered: seq<nat>)

  /**
   * The traversal, stated declaratively. Nothing is offered when the chain
   * is empty. Otherwise the start fiber's siblings are offered up to the
   * first accepted one, and if there is one the first chain fiber is
   * returned; if not, the chain is offered up to its first accepted fiber,
   * which is returned.
   */
  function TraverseSpec(g: Arena, s: nat, ascending: bool, sel: Selector): (w: Walk)
    requires WellFormed(g) && s < |g|
  {
    var sibs, chain := Siblings(g, s), Chain(g, s, ascending);
    var ks, kc := FirstMatch(g, sibs, sel), FirstMatch(g, chain, sel);
    if |chain| == 0 then Walk(None, [])
    else if ks < |sibs| then Walk(Some(chain[0]), sibs[..ks + 1])
    else if kc < |chain| then Walk(Some(chain[kc]), sibs + chain[..kc + 1])
    else Walk(None, sibs + chain)
  }

  /** `FirstMatch` is the unique position before which nothing matches and at which something does. */
  lemma FirstMatchAt(g: Arena, xs: seq<nat>, sel: Selector, k: nat)
    requires AllIn(g, xs) && k <= |xs|
    requires forall j | 0 <= j < k :: !sel(g[xs[j]])
    requires k < |xs| ==> sel(g[xs[k]])
    ensures FirstMatch(g, xs, sel) == k
  {
  }

  /** Offering the next chain fiber extends the offered prefix by one. */
  lemma PrefixGrows(sibs: seq<nat>, chain: seq<nat>, i: nat)
    requires i < |chain|
    ensures sibs + chain[..i] + [chain[i]] == sibs + chain[..i + 1]
  {
    assert chain[..i] + [chain[i]] == chain[..i + 1];
  }

  /** How the traversal ends when a sibling of the start fiber is accepted. */
  lemma OnSiblingHit(g: Arena, s: nat, ascending: bool, sel: Selector)
    requires WellFormed(g) && s < |g|
    requires |Chain(g, s, ascending)| > 0
    requires FirstMatch(g, Siblings(g, s), sel) < |Siblings(g, s)|
    ensures TraverseSpec(g, s, ascending, sel)
         == Walk(Some(Chain(g, s, ascending)[0]),
                 Siblings(g, s)[..FirstMatch(g, Siblings(g, s), sel) + 1])
  {
  }

  /** How the traversal ends when no sibling but the `i`-th chain fiber is accepted. */
  lemma OnChainHit(g: Arena, s: nat, ascending: bool, sel: Selector, i: nat)
    requires WellFormed(g) && s < |g|
    requires FirstMatch(g, Siblings(g, s), sel) == |Siblings(g, s)|
    requires i < |Chain(g, s, ascending)|
    requires forall j | 0 <= j < i :: !sel(g[Chain(g, s, ascending)[j]])
    requires sel(g[Chain(g, s, ascending)[i]])
    ensures TraverseSpec(g, s, ascending, sel)
         == Walk(Some(Chain(g, s, ascending)[i]),
                 Siblings(g, s) + Chain(g, s, ascending)[..i + 1])
  {
    FirstMatchAt(g, Chain(g, s, ascending), sel, i);
  }

  /** How the traversal ends when the chain is exhausted without a match. */
  lemma OnExhaustion(g: Arena, s: nat, ascending: bool, sel: Selector)
    requires WellFormed(g) && s < |g|
    requires |Chain(g, s, ascending)| > 0 ==> FirstMatch(g, Siblings(g, s), sel) == |Siblings(g, s)|
    requires forall j | 0 <= j < |Chain(g, s, ascending)| :: !sel(g[Chain(g, s, ascending)[j]])
    ensures TraverseSpec(g, s, ascending, sel) == Walk(None, Visits(g, s, ascending))
  {
    FirstMatchAt(g, Chain(g, s, ascending), sel, |Chain(g, s, ascending)|);
  }

  /** Moving past a rejected chain fiber: the next link, the longer offered prefix, the longer rejected prefix. */
  lemma AdvanceChain(g: Arena, s: nat, ascending: bool, sel: Selector, i: nat)
    requires WellFormed(g) && s < |g|
    requires i < |Chain(g, s, ascending)|
    requires forall j | 0 <= j < i :: !sel(g[Chain(g, s, ascending)[j]])
    requires !sel(g[Chain(g, s, ascending)[i]])
    ensures Link(g[Chain(g, s, ascending)[i]], ascending) == At(Chain(g, s, ascending), i + 1)
    ensures Siblings(g, s) + Chain(g, s, ascending)[..i] + [Chain(g, s, ascending)[i]]
            == Siblings(g, s) + Chain(g, s, ascending)[..i + 1]
    ensures forall j | 0 <= j < i + 1 :: !sel(g[Chain(g, s, ascending)[j]])
  {
    PrefixGrows(Siblings(g, s), Chain(g, s, ascending), i);
    ChainStep(g, s, ascending, i);
  }

  /**
   * The inner `while (sibling)` loop. On the first outer iteration it offers
   * the start fiber's siblings in order until one is accepted; on later
   * iterations `sibling` is already exhausted and it does nothing.
   */
  method OfferSiblings(g: Arena, start: nat, selector: Selector,
                       sibling0: Option<nat>, offered0: seq<nat>)
    returns (halted: bool, selected: Option<nat>, sibling: Option<nat>, offered: seq<nat>)
    requires WellFormed(g) && start < |g|
    requires sibling0.Some? ==> sibling0 == At(Siblings(g, start), 0) && offered0 == []
    ensures sibling0.None? ==> !halted && selected.None? && sibling.None? && offered == offered0
    ensures sibling0.Some? ==>
              var sibs := Siblings(g, start);
              var k := FirstMatch(g, sibs, selector);
              && selected == At(sibs, k)
              && halted == selected.Some?
              && offered == (if halted then sibs[..k + 1] else sibs)
              && (!halted ==> sibling.None?)
  {
    ghost var sibs := Siblings(g, start);
    ghost var si: nat := 0;  // position of `sibling` in `sibs`
    halted, selected, sibling, offered := false, None, sibling0, offered0;
    while sibling.Some?
      invariant si <= |sibs| && !halted && selected.None?
      invariant sibling0.None? ==> sibling.None? && offered == offered0
      invariant sibling0.Some? ==> sibling == At(sibs, si) && offered == sibs[..si]
      invariant forall j | 0 <= j < si :: !selector(g[sibs[j]])
      decreases |sibs| - si
    {
      var y := sibling.value;
      offered := offered + [y];
      halted := halted || selector(g[y]);
      if halted {
        selected := sibling;
        FirstMatchAt(g, sibs, selector, si);
        break;
      }
      SiblingStep(g, start, si);
      sibling := g[y].sibling;
      si := si + 1;
    }
    if !halted && sibling0.Some? {
      FirstMatchAt(g, sibs, selector, |sibs|);
    }
  }

  /**
   * `traverseFiber(fiber, ascending, selector)`, loop for loop. `offered`
   * records, in order, every fiber the selector was called on.
   */
  method Traverse(g: Arena, start: nat, ascending: bool, selector: Selector)
    returns (selected: Option<nat>, offered: seq<nat>)
    requires WellFormed(g) && start < |g|
    ensures Walk(selected, offered) == TraverseSpec(g, start, ascending, selector)
  {
    var halted := false;
    selected := None;
    offered := [];
    ghost var sibs := Siblings(g, start);
    ghost var chain := Chain(g, start, ascending);
    ghost var ci: nat := 0;  // position of `node` in `chain`
    ChainStep(g, start, ascending, 0);
    SiblingStep(g, start, 0);

    var node := Link(g[start], ascending);
    var sibling := g[start].sibling;
    while node.Some?
      invariant ci <= |chain| && node == At(chain, ci)
      invariant ci == 0 ==> sibling == At(sibs, 0) && offered == []
      invariant ci > 0 ==> sibling.None? && FirstMatch(g, sibs, selector) == |sibs|
      invariant ci > 0 ==> offered == sibs + chain[..ci]
      invariant forall j | 0 <= j < ci :: !selector(g[chain[j]])
      invariant !halted && selected.None?
      decreases |chain| - ci
    {
      var x := node.value;
      halted, selected, sibling, offered := OfferSiblings(g, start, selector, sibling, offered);
      ghost var siblingHit := halted;
      assert !siblingHit ==> FirstMatch(g, sibs, selector) == |sibs| && offered == sibs + chain[..ci];

      if !halted {
        offered := offered + [x];
      }
      halted := halted || selector(g[x]);
      if halted {
        selected := node;
        if siblingHit {
          OnSiblingHit(g, start, ascending, selector);
        } else {
          PrefixGrows(sibs, chain, ci);
          OnChainHit(g, start, ascending, selector, ci);
        }
        break;
      }

      AdvanceChain(g, start, ascending, selector, ci);
      node := Link(g[x], ascending);
      ci := ci + 1;
    }
    if !halted {
      OnExhaustion(g, start, ascending, selector);
    }
  }

  /**
   * Sequence facts behind `OffersPrefixOfVisits`: a prefix of `sibs + chain`
   * of length `n`, before whose last element nothing is accepted, is a
   * prefix of the visits all of whose elements but the last are rejected.
   */
  lemma {:induction false} PrefixRejected(g: Arena, sibs: seq<nat>, chain: seq<nat>, sel: Selector, n: nat)
    requires AllIn(g, sibs) && AllIn(g, chain) && 0 < n <= |sibs| + |chain|
    requires forall j | 0 <= j < n - 1 && j < |sibs| :: !sel(g[sibs[j]])
    requires forall j | 0 <= j < n - 1 - |sibs| :: !sel(g[chain[j]])
    ensures (sibs + chain)[..n] <= sibs + chain
    ensures forall j | 0 <= j < n - 1 :: !sel(g[(sibs + chain)[..n][j]])
    ensures (sibs + chain)[..n][n - 1] == if n - 1 < |sibs| then sibs[n - 1] else chain[n - 1 - |sibs|]
  {
    var vs := sibs + chain;
    forall j | 0 <= j < n - 1 ensures !sel(g[vs[..n][j]]) {
      if j >= |sibs| {
        assert vs[j] == chain[j - |sibs|];
      }
    }
  }

  /**
   * The offered fibers are a prefix of the visit sequence. The selector
   * rejects every one but possibly the last, and a fiber is selected exactly
   * when the last one was accepted, so nothing is offered after a truthy
   * answer. Without a match the whole visit sequence is offered. The
   * selected fiber always lies on the chain.
   */
  lemma OffersPrefixOfVisits(g: Arena, s: nat, ascending: bool, sel: Selector)
    requires WellFormed(g) && s < |g|
    ensures var w := TraverseSpec(g, s, ascending, sel);
            && w.offered <= Visits(g, s, ascending)
            && (forall j | 0 <= j < |w.offered| - 1 :: !sel(g[w.offered[j]]))
            && (w.selected.Some? <==> |w.offered| > 0 && sel(g[w.offered[|w.offered| - 1]]))
            && (w.selected.None? ==> w.offered == Visits(g, s, ascending))
            && (w.selected.Some? ==> w.selected.value in Chain(g, s, ascending))
  {
    OfferedPrefix(g, s, ascending, sel);
    OfferedEnd(g, s, ascending, sel);
  }

  /** The first half of `OffersPrefixOfVisits`: a prefix, rejected up to its last fiber. */
  lemma OfferedPrefix(g: Arena, s: nat, ascending: bool, sel: Selector)
    requires WellFormed(g) && s < |g|
    ensures var w := TraverseSpec(g, s, ascending, sel);
            && w.offered <= Visits(g, s, ascending)
            && (forall j | 0 <= j < |w.offered| - 1 :: !sel(g[w.offered[j]]))
  {
    var sibs, chain := Siblings(g, s), Chain(g, s, ascending);
    var ks, kc := FirstMatch(g, sibs, sel), FirstMatch(g, chain, sel);
    if |chain| > 0 {
      if ks < |sibs| {
        PrefixRejected(g, sibs, chain, sel, ks + 1);
        assert sibs[..ks + 1] == (sibs + chain)[..ks + 1];
      } else if kc < |chain| {
        PrefixRejected(g, sibs, chain, sel, |sibs| + kc + 1);
        assert sibs + chain[..kc + 1] == (sibs + chain)[..|sibs| + kc + 1];
      } else {
        PrefixRejected(g, sibs, chain, sel, |sibs| + |chain|);
        assert sibs + chain == (sibs + chain)[..|sibs| + |chain|];
      }
    }
  }

  /** The second half of `OffersPrefixOfVisits`: how the offered list ends. */
  lemma OfferedEnd(g: Arena, s: nat, ascending: bool, sel: Selector)
    requires WellFormed(g) && s < |g|
    ensures var w := TraverseSpec(g, s, ascending, sel);
            && (w.selected.Some? <==> |w.offered| > 0 && sel(g[w.offered[|w.offered| - 1]]))
            && (w.selected.None? ==> w.offered == Visits(g, s, ascending))
            && (w.selected.Some? ==> w.selected.value in Chain(g, s, ascending))
  {
    var sibs, chain := Siblings(g, s), Chain(g, s, ascending);
    var ks, kc := FirstMatch(g, sibs, sel), FirstMatch(g, chain, sel);
    if |chain| > 0 {
      if ks < |sibs| {
        assert sibs[..ks + 1][ks] == sibs[ks];
      } else if kc < |chain| {
        assert (sibs + chain[..kc + 1])[|sibs| + kc] == chain[kc];
      } else if |sibs + chain| > 0 {
        var last := |sibs| + |chain| - 1;
        assert (sibs + chain)[last] == chain[|chain| - 1];
      }
    }
  }

  /**
   * The start fiber is never offered and never returned. The first fiber
   * offered is the start fiber's next sibling if it has one, else its
   * `return` (ascending) or `child` (descending); and when that link is
   * absent nothing is offered at all, siblings or not.
   */
  lemma StartNeverVisited(g: Arena, s: nat, ascending: bool, sel: Selector)
    requires WellFormed(g) && s < |g|
    ensures var w := TraverseSpec(g, s, ascending, sel);
            && s !in w.offered
            && w.selected != Some(s)
            && (Link(g[s], ascending).None? ==> w == Walk(None, []))
  {
    var w := TraverseSpec(g, s, ascending, sel);
    OffersPrefixOfVisits(g, s, ascending, sel);
    ChainStep(g, s, ascending, 0);
    StartNotInVisits(g, s, ascending);
    var vs := Visits(g, s, ascending);
    assert forall j | 0 <= j < |w.offered| :: w.offered[j] == vs[j];
  }

  /** The first fiber offered is the start fiber's sibling when it has one, and its first link otherwise. */
  lemma FirstOffered(g: Arena, s: nat, ascending: bool, sel: Selector)
    requires WellFormed(g) && s < |g|
    ensures var w := TraverseSpec(g, s, ascending, sel);
            |w.offered| > 0 ==>
              w.offered[0] == (if g[s].sibling.Some? then g[s].sibling
                               else Link(g[s], ascending)).value
  {
    var w := TraverseSpec(g, s, ascending, sel);
    OffersPrefixOfVisits(g, s, ascending, sel);
    ChainStep(g, s, ascending, 0);
    SiblingStep(g, s, 0);
    var vs := Visits(g, s, ascending);
    if |w.offered| > 0 {
      assert w.offered[0] == vs[0];
    }
  }

  /** The start fiber is neither one of its own later siblings nor on its own chain. */
  lemma StartNotInVisits(g: Arena, s: nat, ascending: bool)
    requires WellFormed(g) && s < |g|
    ensures s !in Visits(g, s, ascending)
  {
    var sibs, chain := Siblings(g, s), Chain(g, s, ascending);
    ChainStep(g, s, ascending, 0);
    SiblingStep(g, s, 0);
    var vs := Visits(g, s, ascending);
    forall j | 0 <= j < |vs|
      ensures vs[j] != s
    {
      if j >= |sibs| {
        assert vs[j] == chain[j - |sibs|];
      }
    }
  }

  /** Each fiber is offered at most once. */
  lemma OffersEachFiberOnce(g: Arena, s: nat, ascending: bool, sel: Selector)
    requires WellFormed(g) && s < |g|
    ensures Distinct(TraverseSpec(g, s, ascending, sel).offered)
  {
    var w := TraverseSpec(g, s, ascending, sel);
    var vs := Visits(g, s, ascending);
    OffersPrefixOfVisits(g, s, ascending, sel);
    VisitsDistinct(g, s, ascending);
    assert forall j | 0 <= j < |w.offered| :: w.offered[j] == vs[j];
  }

  /**
   * When one of the start fiber's siblings is accepted, the traversal
   * returns the first chain fiber (the start fiber's parent or first child),
   * which is not that sibling, and that chain fiber is never offered to the
   * selector.
   */
  lemma SiblingHitReturnsFirstChainFiber(g: Arena, s: nat, ascending: bool, sel: Selector, j: nat)
    requires WellFormed(g) && s < |g|
    requires Link(g[s], ascending).Some?
    requires j < |Siblings(g, s)| && sel(g[Siblings(g, s)[j]])
    ensures var w := TraverseSpec(g, s, ascending, sel);
            && w.selected == Link(g[s], ascending)
            && w.selected.value !in Siblings(g, s)
            && w.selected.value !in w.offered
            && (forall i | 0 <= i < |w.offered| :: w.offered[i] in Siblings(g, s))
  {
    var sibs, chain := Siblings(g, s), Chain(g, s, ascending);
    ChainStep(g, s, ascending, 0);
    VisitsDistinct(g, s, ascending);
    var vs := Visits(g, s, ascending);
    assert vs[|sibs|] == chain[0];
    var ks := FirstMatch(g, sibs, sel);
    assert ks <= j;
    assert forall i | 0 <= i < |sibs| :: vs[i] == sibs[i];
  }

  /**
   * When no sibling of the start fiber is accepted, the traversal returns
   * the first accepted chain fiber, or nothing if the chain has none.
   */
  lemma NoSiblingHitReturnsFirstChainMatch(g: Arena, s: nat, ascending: bool, sel: Selector)
    requires WellFormed(g) && s < |g|
    requires forall j | 0 <= j < |Siblings(g, s)| :: !sel(g[Siblings(g, s)[j]])
    ensures var w := TraverseSpec(g, s, ascending, sel);
            var chain := Chain(g, s, ascending);
            && (w.selected.None? <==> forall k | 0 <= k < |chain| :: !sel(g[chain[k]]))
            && (w.selected.Some? ==>
                  exists k | 0 <= k < |chain| ::
                    && w.selected == Some(chain[k])
                    && sel(g[chain[k]])
                    && forall i | 0 <= i < k :: !sel(g[chain[i]]))
  {
    var chain := Chain(g, s, ascending);
    var kc := FirstMatch(g, chain, sel);
    if kc < |chain| {
      assert TraverseSpec(g, s, ascending, sel).selected == Some(chain[kc]);
    }
  }

  /**
   * Ascending or descending, siblings of chain fibers, earlier or later, are
   * never offered: only the start fiber's own later siblings are.
   */
  lemma ChainSiblingsNeverOffered(g: Arena, s: nat, ascending: bool, sel: Selector, k: nat, m: nat)
    requires WellFormed(g) && s < |g| && m < |g|
    requires k < |Chain(g, s, ascending)|
    requires g[m].ret == g[Chain(g, s, ascending)[k]].ret && m != Chain(g, s, ascending)[k]
    ensures m !in TraverseSpec(g, s, ascending, sel).offered
  {
    ChainSiblingNotVisited(g, s, ascending, k, m);
    OffersPrefixOfVisits(g, s, ascending, sel);
  }

  /**
   * With a selector that accepts everything the result is the start fiber's
   * own `return`/`child`, whatever its siblings; with one that accepts
   * nothing the result is empty and every visit is offered.
   */
  lemma ConstantSelectors(g: Arena, s: nat, ascending: bool)
    requires WellFormed(g) && s < |g|
    ensures TraverseSpec(g, s, ascending, _ => true).selected == Link(g[s], ascending)
    ensures TraverseSpec(g, s, ascending, _ => false) == Walk(None, Visits(g, s, ascending))
  {
    ChainStep(g, s, ascending, 0);
    var never: Selector := _ => false;
    var chain := Chain(g, s, ascending);
    assert FirstMatch(g, chain, never) == |chain|;
    assert FirstMatch(g, Siblings(g, s), never) == |Siblings(g, s)|;
  }
}
