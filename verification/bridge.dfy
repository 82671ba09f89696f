/**
 * `useContextBridge`: collect the distinct contexts seen on an ascending
 * walk from the calling fiber, then fold them into one component that
 * re-provides, around its children, the value the caller reads for each.
 *
 * `useContext` is a parameter `valueAt`; rendering is modelled by an
 * element tree `Elem`, and a context read inside the bridged children by
 * `Lookup`, the innermost provider of that context on the way down.
 */
module Bridge {
  import opened Wrappers
  import opened Fibers
  import opened Traversal

  /** `node.type?._context` */
  function ContextOf(f: Fiber): (ctx: Option<Ctx>) {
    match f.kind
    case Provider(c, _) => Some(c)
    case Consumer(c) => Some(c)
    case _ => None
  }

  /** The collecting selector returns `undefined`, so it never halts the walk. */
  predicate NeverHalts(f: Fiber) {
    false
  }

  /** The position in `vs` of the first fiber whose context is `c`, or `|vs|`. */
  function FirstWith(g: Arena, vs: seq<nat>, c: Ctx): (p: nat)
    requires AllIn(g, vs)
    ensures p <= |vs|
    ensures forall j | 0 <= j < p :: ContextOf(g[vs[j]]) != Some(c)
    ensures p < |vs| ==> ContextOf(g[vs[p]]) == Some(c)
  {
    FirstMatch(g, vs, f => ContextOf(f) == Some(c))
  }

  /**
   * The contexts of `vs` in the order the collecting selector adds them to
   * its `Set`: a context is added when first seen, and seen again it is
   * skipped.
   */
  function Collect(g: Arena, vs: seq<nat>): (cs: seq<Ctx>)
    requires AllIn(g, vs)
  {
    if |vs| == 0 then []
    else
      var seen := Collect(g, vs[..|vs| - 1]);
      var context := ContextOf(g[vs[|vs| - 1]]);
      if context.Some? && context.value !in seen then seen + [context.value] else seen
  }

  /** One step of `Collect`: the fiber appended last adds its context if it is new. */
  lemma CollectSnoc(g: Arena, vs: seq<nat>, x: nat)
    requires AllIn(g, vs) && x < |g|
    ensures AllIn(g, vs + [x])
    ensures Collect(g, vs + [x])
            == if ContextOf(g[x]).Some? && ContextOf(g[x]).value !in Collect(g, vs)
               then Collect(g, vs) + [ContextOf(g[x]).value]
               else Collect(g, vs)
  {
    assert (vs + [x])[..|vs|] == vs;
  }

  /** Visited fibers lie in the arena. */
  lemma VisitsInArena(g: Arena, s: nat, ascending: bool)
    requires WellFormed(g) && s < |g|
    ensures AllIn(g, Visits(g, s, ascending))
  {
    var sibs, chain := Siblings(g, s), Chain(g, s, ascending);
    if |chain| > 0 {
      forall j | 0 <= j < |sibs + chain| ensures (sibs + chain)[j] < |g| {
        if j >= |sibs| {
          assert (sibs + chain)[j] == chain[j - |sibs|];
        }
      }
    }
  }

  /** The contexts `useContextBridge` collects from fiber `s`. */
  function Collected(g: Arena, s: nat): (cs: seq<Ctx>)
    requires WellFormed(g) && s < |g|
  {
    VisitsInArena(g, s, true);
    Collect(g, Visits(g, s, true))
  }

  /** Appending a fiber moves no earlier first sighting, and makes `x`'s context first seen at `|vs|` if it is new. */
  lemma FirstWithSnoc(g: Arena, vs: seq<nat>, x: nat, c: Ctx)
    requires AllIn(g, vs) && x < |g|
    ensures AllIn(g, vs + [x])
    ensures FirstWith(g, vs, c) < |vs| ==> FirstWith(g, vs + [x], c) == FirstWith(g, vs, c)
    ensures FirstWith(g, vs, c) == |vs| ==>
      (FirstWith(g, vs + [x], c) == |vs| <==> ContextOf(g[x]) == Some(c))
  {
    var ws := vs + [x];
    var sel := (f: Fiber) => ContextOf(f) == Some(c);
    var p := FirstWith(g, vs, c);
    assert forall j | 0 <= j < |vs| :: ws[j] == vs[j];
    if p < |vs| {
      FirstMatchAt(g, ws, sel, p);
    } else if ContextOf(g[x]) == Some(c) {
      FirstMatchAt(g, ws, sel, |vs|);
    } else {
      FirstMatchAt(g, ws, sel, |ws|);
    }
  }

  /**
   * `Collect` holds each context at most once; it holds exactly the contexts
   * some fiber of `vs` carries; and it lists them in order of first sighting.
   */
  lemma {:induction false} CollectFacts(g: Arena, vs: seq<nat>)
    requires AllIn(g, vs)
    ensures var cs := Collect(g, vs);
      && Distinct(cs)
      && (forall c :: c in cs <==> FirstWith(g, vs, c) < |vs|)
      && (forall i, j | 0 <= i < j < |cs| :: FirstWith(g, vs, cs[i]) < FirstWith(g, vs, cs[j]))
  {
    if |vs| > 0 {
      var us, x := vs[..|vs| - 1], vs[|vs| - 1];
      assert vs == us + [x];
      CollectFacts(g, us);
      var seen, cs := Collect(g, us), Collect(g, vs);
      var context := ContextOf(g[x]);
      var added := context.Some? && context.value !in seen;
      assert cs == if added then seen + [context.value] else seen;
      forall c ensures c in cs <==> FirstWith(g, vs, c) < |vs| {
        FirstWithSnoc(g, us, x, c);
      }
      forall i, j | 0 <= i < j < |cs| ensures FirstWith(g, vs, cs[i]) < FirstWith(g, vs, cs[j]) {
        assert cs[i] == seen[i];
        FirstWithSnoc(g, us, x, cs[i]);
        FirstWithSnoc(g, us, x, cs[j]);
      }
    }
  }

  /**
   * The body of the collecting selector, run on each offered fiber in turn:
   * a context not yet in `unique` is added to it.
   */
  method CollectEach(g: Arena, offered: seq<nat>) returns (contexts: seq<Ctx>)
    requires AllIn(g, offered)
    ensures contexts == Collect(g, offered)
  {
    var unique: set<Ctx> := {};
    contexts := [];
    var n := 0;
    while n < |offered|
      invariant n <= |offered|
      invariant contexts == Collect(g, offered[..n])
      invariant forall c :: c in unique <==> c in contexts
    {
      var context := ContextOf(g[offered[n]]);
      if context.Some? && context.value !in unique {
        unique := unique + {context.value};
        contexts := contexts + [context.value];
      }
      assert offered[..n + 1][..n] == offered[..n];
      n := n + 1;
    }
    assert offered[..n] == offered;
  }

  /**
   * The contexts collected during one walk that never halts: each at most
   * once, exactly those some visited fiber carries, in order of first
   * sighting (`Array.from` of a `Set` keeps insertion order).
   */
  method CollectContexts(g: Arena, s: nat) returns (contexts: seq<Ctx>)
    requires WellFormed(g) && s < |g|
    ensures contexts == Collected(g, s)
    ensures Distinct(contexts)
    ensures var vs := Visits(g, s, true);
      && AllIn(g, vs)
      && (forall c {:trigger FirstWith(g, vs, c)} :: c in contexts <==> FirstWith(g, vs, c) < |vs|)
      && (forall i, j {:trigger FirstWith(g, vs, contexts[i]), FirstWith(g, vs, contexts[j])} | 0 <= i < j < |contexts| ::
            FirstWith(g, vs, contexts[i]) < FirstWith(g, vs, contexts[j]))
  {
    var selected, offered := Traverse(g, s, true, NeverHalts);
    NeverHaltsOffersVisits(g, s);
    VisitsInArena(g, s, true);
    contexts := CollectEach(g, offered);
    CollectFacts(g, offered);
  }

  /** A selector that never halts is offered every visited fiber and selects nothing. */
  lemma NeverHaltsOffersVisits(g: Arena, s: nat)
    requires WellFormed(g) && s < |g|
    ensures TraverseSpec(g, s, true, NeverHalts) == Walk(None, Visits(g, s, true))
  {
    var sibs, chain := Siblings(g, s), Chain(g, s, true);
    FirstMatchAt(g, sibs, NeverHalts, |sibs|);
    OnExhaustion(g, s, true, NeverHalts);
  }

  /** What the bridge component renders: `Elem` trees with the bridged children at a leaf. */
  datatype Elem =
    | Fragment(inner: Elem)                      // `<React.Fragment {...props} />`
    | Provide(ctx: Ctx, value: Val, inner: Elem) // `<context.Provider {...props} value={value} />`
    | Children(id: nat)                          // the children passed to the bridge

  /** A function component taking only `children`. */
  type Component = Elem -> Elem

  /**
   * `contexts.reduce((Prev, context) => props => <Prev><context.Provider
   * {...props} value={value} /></Prev>, base)`, one context at a time from
   * the front.
   */
  function Reduce(cs: seq<Ctx>, valueAt: Ctx -> Val, prev: Component): (bridge: Component)
    decreases |cs|
  {
    if |cs| == 0 then prev
    else Reduce(cs[1..], valueAt, (children: Elem) => prev(Provide(cs[0], valueAt(cs[0]), children)))
  }

  /** The initial value of the fold: a plain Fragment around the children. */
  function BaseComponent(): (base: Component) {
    (children: Elem) => Fragment(children)
  }

  /** One provider per context, the first outermost, around `children`. */
  function Providers(cs: seq<Ctx>, valueAt: Ctx -> Val, children: Elem): (e: Elem)
    decreases |cs|
  {
    if |cs| == 0 then children
    else Provide(cs[0], valueAt(cs[0]), Providers(cs[1..], valueAt, children))
  }

  /** The fold nests the providers in list order inside whatever `prev` renders. */
  lemma {:induction false} ReduceNests(cs: seq<Ctx>, valueAt: Ctx -> Val, prev: Component, children: Elem)
    ensures Reduce(cs, valueAt, prev)(children) == prev(Providers(cs, valueAt, children))
    decreases |cs|
  {
    if |cs| > 0 {
      var next := (x: Elem) => prev(Provide(cs[0], valueAt(cs[0]), x));
      ReduceNests(cs[1..], valueAt, next, children);
    }
  }

  /** A context read made inside `e`'s children: the innermost provider of `c` on the way down, if any. */
  function Lookup(e: Elem, c: Ctx): (v: Option<Val>) {
    match e
    case Children(_) => None
    case Fragment(inner) => Lookup(inner, c)
    case Provide(d, v, inner) =>
      var below := Lookup(inner, c);
      if below.Some? then below else if d == c then Some(v) else None
  }

  /** The element `n` wrapper layers below `e`. */
  function Peel(e: Elem, n: nat): (inner: Elem) {
    if n == 0 then e
    else match e
      case Children(_) => e
      case Fragment(inner) => Peel(inner, n - 1)
      case Provide(_, _, inner) => Peel(inner, n - 1)
  }

  /** Inside distinct providers, a read of `c` sees its provider's value, and nothing when none provides `c`. */
  lemma {:induction false} LookupProviders(cs: seq<Ctx>, valueAt: Ctx -> Val, id: nat, c: Ctx)
    requires Distinct(cs)
    ensures Lookup(Providers(cs, valueAt, Children(id)), c) == if c in cs then Some(valueAt(c)) else None
    ensures Peel(Providers(cs, valueAt, Children(id)), |cs|) == Children(id)
    decreases |cs|
  {
    if |cs| > 0 {
      assert Distinct(cs[1..]) by {
        forall i, j | 0 <= i < j < |cs[1..]| ensures cs[1..][i] != cs[1..][j] {
          assert cs[1..][i] == cs[i + 1] && cs[1..][j] == cs[j + 1];
        }
      }
      LookupProviders(cs[1..], valueAt, id, c);
      assert c in cs <==> c == cs[0] || c in cs[1..] by {
        assert cs == [cs[0]] + cs[1..];
      }
      if c == cs[0] {
        assert c !in cs[1..] by {
          forall k | 0 <= k < |cs[1..]| ensures cs[1..][k] != c {
            assert cs[1..][k] == cs[k + 1];
          }
        }
      }
    }
  }

  /** The folded component renders a Fragment around the providers, around the children. */
  lemma BridgeRenders(cs: seq<Ctx>, valueAt: Ctx -> Val, id: nat, c: Ctx)
    requires Distinct(cs)
    ensures Reduce(cs, valueAt, BaseComponent())(Children(id)) == Fragment(Providers(cs, valueAt, Children(id)))
    ensures Lookup(Reduce(cs, valueAt, BaseComponent())(Children(id)), c) == if c in cs then Some(valueAt(c)) else None
    ensures Peel(Reduce(cs, valueAt, BaseComponent())(Children(id)), |cs| + 1) == Children(id)
    ensures |cs| == 0 ==> Reduce(cs, valueAt, BaseComponent())(Children(id)) == Fragment(Children(id))
  {
    ReduceNests(cs, valueAt, BaseComponent(), Children(id));
    LookupProviders(cs, valueAt, id, c);
  }

  /**
   * The `reduce` over distinct contexts: a read of any context inside the
   * children sees `valueAt` for a listed context and no provider otherwise.
   * The result is a Fragment around one provider per context, the first
   * context outermost, around the unchanged children.
   */
  method FoldProviders(cs: seq<Ctx>, valueAt: Ctx -> Val) returns (bridge: Component)
    requires Distinct(cs)
    ensures forall id: nat :: bridge(Children(id)) == Fragment(Providers(cs, valueAt, Children(id)))
    ensures forall id: nat, c: Ctx :: Lookup(bridge(Children(id)), c) == if c in cs then Some(valueAt(c)) else None
    ensures forall id: nat :: Peel(bridge(Children(id)), |cs| + 1) == Children(id)
    ensures |cs| == 0 ==> forall id: nat :: bridge(Children(id)) == Fragment(Children(id))
  {
    bridge := Reduce(cs, valueAt, BaseComponent());
    forall id: nat, c: Ctx
      ensures Lookup(bridge(Children(id)), c) == if c in cs then Some(valueAt(c)) else None
    {
      BridgeRenders(cs, valueAt, id, c);
    }
    forall id: nat
      ensures bridge(Children(id)) == Fragment(Providers(cs, valueAt, Children(id)))
      ensures Peel(bridge(Children(id)), |cs| + 1) == Children(id)
      ensures |cs| == 0 ==> bridge(Children(id)) == Fragment(Children(id))
    {
      BridgeRenders(cs, valueAt, id, 0);
    }
  }

  /**
   * `useContextBridge()`: the contexts it collects and the component it
   * returns. A read of any context inside the bridged children sees the
   * caller's value for a collected context and no provider otherwise. The
   * bridge is a Fragment around one provider per collected context, the
   * first collected outermost, around the unchanged children.
   */
  method UseContextBridge(g: Arena, s: nat, valueAt: Ctx -> Val) returns (contexts: seq<Ctx>, bridge: Component)
    requires WellFormed(g) && s < |g|
    ensures contexts == Collected(g, s)
    ensures forall id: nat :: bridge(Children(id)) == Fragment(Providers(contexts, valueAt, Children(id)))
    ensures forall id: nat, c: Ctx :: Lookup(bridge(Children(id)), c) == if c in contexts then Some(valueAt(c)) else None
    ensures forall id: nat :: Peel(bridge(Children(id)), |contexts| + 1) == Children(id)
    ensures |contexts| == 0 ==> forall id: nat :: bridge(Children(id)) == Fragment(Children(id))
  {
    contexts := CollectContexts(g, s);
    bridge := FoldProviders(contexts, valueAt);
  }

  /** The fiber is a provider of context `c`. */
  predicate Provides(f: Fiber, c: Ctx) {
    f.kind.Provider? && f.kind.ctx == c
  }

  /** Accepts the providers of `c`. */
  function ProviderOf(c: Ctx): (sel: Selector) {
    f => Provides(f, c)
  }

  /**
   * `useContext(c)` called by fiber `s`: the value of its nearest ancestor
   * provider of `c`, or `None` for the context's default value.
   */
  function ContextRead(g: Arena, s: nat, c: Ctx): (r: Option<Val>)
    requires WellFormed(g) && s < |g|
    ensures r.Some? <==> exists k | 0 <= k < |Chain(g, s, true)| :: Provides(g[Chain(g, s, true)[k]], c)
    ensures r.Some? ==> exists k | 0 <= k < |Chain(g, s, true)| ::
      && Provides(g[Chain(g, s, true)[k]], c)
      && (forall i | 0 <= i < k :: !Provides(g[Chain(g, s, true)[i]], c))
      && r.value == g[Chain(g, s, true)[k]].kind.value
  {
    var chain := Chain(g, s, true);
    var k := FirstMatch(g, chain, ProviderOf(c));
    if k < |chain| then Some(g[chain[k]].kind.value) else None
  }

  /** A context no visited fiber carries has no provider among the caller's ancestors. */
  lemma UncollectedIsUnprovided(g: Arena, s: nat, c: Ctx)
    requires WellFormed(g) && s < |g|
    requires c !in Collected(g, s)
    ensures ContextRead(g, s, c).None?
  {
    var sibs, chain, vs := Siblings(g, s), Chain(g, s, true), Visits(g, s, true);
    VisitsInArena(g, s, true);
    CollectFacts(g, vs);
    forall k | 0 <= k < |chain| ensures !Provides(g[chain[k]], c) {
      assert vs[|sibs| + k] == chain[k];
    }
  }

  /** The value the caller reads for each context, the context's default standing in for no provider. */
  function CallerValues(g: Arena, s: nat, dflt: Ctx -> Val): (valueAt: Ctx -> Val)
    requires WellFormed(g) && s < |g|
  {
    (c: Ctx) => ContextRead(g, s, c).GetOr(dflt(c))
  }

  /**
   * The bridge is faithful: when it is built from the values the caller
   * reads, a read of any context inside the bridged children gives what the
   * same read gives at the caller, defaults included.
   */
  lemma BridgeForwardsContext(g: Arena, s: nat, dflt: Ctx -> Val, id: nat, c: Ctx)
    requires WellFormed(g) && s < |g|
    ensures Lookup(Reduce(Collected(g, s), CallerValues(g, s, dflt), BaseComponent())(Children(id)), c).GetOr(dflt(c))
            == ContextRead(g, s, c).GetOr(dflt(c))
  {
    var valueAt := CallerValues(g, s, dflt);
    VisitsInArena(g, s, true);
    CollectFacts(g, Visits(g, s, true));
    BridgeRenders(Collected(g, s), valueAt, id, c);
    if c !in Collected(g, s) {
      UncollectedIsUnprovided(g, s, c);
    }
  }
}
