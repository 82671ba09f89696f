/**
 * Concrete fiber trees: the trees the repository's own tests render; the
 * tree that shows `useContainer` reading through a null state node; a tree
 * with a portal beside the caller, where `useContainer` returns the
 * enclosing host instead of the root; and a tree with two nested providers
 * of one context.
 * Arena indices follow the order React creates the fibers in.
 */
module Scenarios {
  import opened Wrappers
  import opened Fibers
  import opened Traversal
  import opened Locators
  import opened Bridge

  /** `ref.current?.props?.name`: only host instances carry a `name` prop here. */
  function PropsName(r: Option<StateNode>): (name: Option<string>) {
    if r.Some? && r.value.HostInstance? then Some(r.value.name) else None
  }

  function Root(child: nat): (f: Fiber) {
    Fiber(NullTyped, FiberRoot(Some(0)), None, Some(child), None)
  }

  function Test(ret: nat, child: Option<nat>, sibling: Option<nat>): (f: Fiber) {
    Fiber(Composite("Test"), NoState, Some(ret), child, sibling)
  }

  function Primitive(name: string, ret: nat, child: Option<nat>, sibling: Option<nat>): (f: Fiber) {
    Fiber(Host("primitive"), HostInstance(name), Some(ret), child, sibling)
  }

  function FragmentFiber(ret: nat, child: Option<nat>, sibling: Option<nat>): (f: Fiber) {
    Fiber(NullTyped, NoState, Some(ret), child, sibling)
  }

  function ClassComponent(ret: nat, child: Option<nat>, sibling: Option<nat>): (f: Fiber) {
    Fiber(Composite("ClassComponent"), ClassInstance, Some(ret), child, sibling)
  }

  /** `render(<><Test /></>)`: the top-level fragment is unwrapped, so `Test` hangs off the root. */
  function ContainerTree(): (g: Arena) {
    [Root(1), Test(0, None, None)]
  }

  lemma UseContainerFindsRoot()
    ensures WellFormed(ContainerTree())
    ensures UseContainer(ContainerTree(), 1) == Success(FiberRoot(Some(0)))
  {
    var g := ContainerTree();
    assert LinksOk(g, 0) && LinksOk(g, 1);
  }

  /**
   * `Test` under a fragment that React keeps as a fiber (a keyed fragment,
   * or one among several children): the walk probes the fragment first.
   */
  function FragmentTree(): (g: Arena) {
    [Root(1), FragmentFiber(0, Some(2), None), Test(1, None, None)]
  }

  lemma UseContainerThrowsUnderFragment()
    ensures WellFormed(FragmentTree())
    ensures UseContainer(FragmentTree(), 2) == Failure(ReadOfNull)
    ensures UseContainerGuarded(FragmentTree(), 2) == Success(FiberRoot(Some(0)))
  {
    var g := FragmentTree();
    assert LinksOk(g, 0) && LinksOk(g, 1) && LinksOk(g, 2);
    assert ChainFrom(g, Some(0), true) == [0];
    assert Chain(g, 2, true) == [1, 0];
    assert Siblings(g, 2) == [];
    assert FirstMatch(g, [1, 0], IsContainer) == 1;
    var w := TraverseSpec(g, 2, true, IsContainer);
    assert w.offered == [1, 0] && w.selected == Some(0);
    assert ProbeThrows(g[w.offered[0]]);
  }

  /**
   * `<div><Test />{createPortal(..., target)}</div>`: the portal fiber is a
   * later sibling of `Test`. It has a null type and a state node with a
   * `containerInfo`, so the container selector accepts it, and the walk
   * returns the first chain fiber, the `div`, rather than the root.
   * `divState` is the `div`'s state node: still `null` while `Test` renders
   * on first mount (the `div` gets its host instance when it completes),
   * and its host instance on later renders.
   */
  function PortalSiblingTree(divState: StateNode): (g: Arena) {
    [ Root(1),
      Fiber(Host("div"), divState, Some(0), Some(2), None),              // 1
      Test(1, None, Some(3)),                                           // 2
      Fiber(NullTyped, FiberRoot(Some(7)), Some(1), None, None) ]       // 3: the portal
  }

  /** Whatever the `div`'s state node is at that moment, `useContainer` returns it, never the root. */
  lemma UseContainerAtPortalSibling(divState: StateNode)
    ensures WellFormed(PortalSiblingTree(divState))
    ensures UseContainer(PortalSiblingTree(divState), 2) == Success(divState)
    ensures UseContainerGuarded(PortalSiblingTree(divState), 2) == Success(divState)
  {
    var g := PortalSiblingTree(divState);
    assert LinksOk(g, 0) && LinksOk(g, 1) && LinksOk(g, 2) && LinksOk(g, 3);
    assert ChainFrom(g, Some(0), true) == [0];
    assert Chain(g, 2, true) == [1, 0];
    assert Siblings(g, 2) == [3];
    assert FirstMatch(g, [3], IsContainer) == 0;
    var w := TraverseSpec(g, 2, true, IsContainer);
    assert w.offered == [3] && w.selected == Some(1);
    assert !ProbeThrows(g[w.offered[0]]);
  }

  /**
   * The tree of the `useNearestParent` test. The top-level fragment and the
   * fragment directly inside `one` are unwrapped; the inner `<>` among
   * several children stays a fiber, and so does the class component.
   */
  function ParentTree(): (g: Arena) {
    [ Root(1),
      Test(0, None, Some(2)),                     // 1: first Test
      Primitive("one", 0, Some(3), None),         // 2
      Test(2, None, Some(4)),                     // 3: second Test
      FragmentFiber(2, Some(5), Some(6)),              // 4
      Test(4, None, None),                        // 5: third Test
      ClassComponent(2, Some(7), Some(8)),        // 6
      Test(6, None, None),                        // 7: fourth Test
      Primitive("two", 2, Some(9), None),         // 8
      Test(8, None, None) ]                       // 9: fifth Test
  }

  lemma ParentTreeWellFormed()
    ensures WellFormed(ParentTree())
  {
    var g := ParentTree();
    assert LinksOk(g, 0) && LinksOk(g, 1) && LinksOk(g, 2) && LinksOk(g, 3) && LinksOk(g, 4);
    assert LinksOk(g, 5) && LinksOk(g, 6) && LinksOk(g, 7) && LinksOk(g, 8) && LinksOk(g, 9);
  }

  /** The first `Test` gets the root, not `one`: its sibling `one` is a host. */
  lemma NearestParentOfFirstTest()
    ensures WellFormed(ParentTree())
    ensures NearestParent(ParentTree(), 1) == Some(FiberRoot(Some(0)))
    ensures PropsName(NearestParent(ParentTree(), 1)) == None
  {
    ParentTreeWellFormed();
    var g := ParentTree();
    assert Siblings(g, 1) == [2];
    assert Chain(g, 1, true) == [0];
    assert FirstMatch(g, [2], IsHost) == 0;
  }

  /** The second `Test` gets `one`, the first chain fiber, because its later sibling `two` is a host. */
  lemma NearestParentOfSecondTest()
    ensures WellFormed(ParentTree())
    ensures PropsName(NearestParent(ParentTree(), 3)) == Some("one")
  {
    ParentTreeWellFormed();
    var g := ParentTree();
    assert SiblingsFrom(g, Some(8)) == [8];
    assert SiblingsFrom(g, Some(6)) == [6, 8];
    assert Siblings(g, 3) == [4, 6, 8];
    assert ChainFrom(g, Some(0), true) == [0];
    assert Chain(g, 3, true) == [2, 0];
    assert FirstMatch(g, [4, 6, 8], IsHost) == 2;
  }

  /** The third `Test` passes over its fragment parent to `one`. */
  lemma NearestParentOfThirdTest()
    ensures WellFormed(ParentTree())
    ensures PropsName(NearestParent(ParentTree(), 5)) == Some("one")
  {
    ParentTreeWellFormed();
    var g := ParentTree();
    assert Siblings(g, 5) == [];
    assert ChainFrom(g, Some(0), true) == [0];
    assert ChainFrom(g, Some(2), true) == [2, 0];
    assert Chain(g, 5, true) == [4, 2, 0];
    assert FirstMatch(g, [4, 2, 0], IsHost) == 1;
  }

  /** The fourth `Test` passes over its class component parent to `one`. */
  lemma NearestParentOfFourthTest()
    ensures WellFormed(ParentTree())
    ensures PropsName(NearestParent(ParentTree(), 7)) == Some("one")
  {
    ParentTreeWellFormed();
    var g := ParentTree();
    assert Siblings(g, 7) == [];
    assert ChainFrom(g, Some(0), true) == [0];
    assert ChainFrom(g, Some(2), true) == [2, 0];
    assert Chain(g, 7, true) == [6, 2, 0];
    assert FirstMatch(g, [6, 2, 0], IsHost) == 1;
  }

  /** The fifth `Test` gets its host parent `two`. */
  lemma NearestParentOfFifthTest()
    ensures WellFormed(ParentTree())
    ensures PropsName(NearestParent(ParentTree(), 9)) == Some("two")
  {
    ParentTreeWellFormed();
    var g := ParentTree();
    assert Siblings(g, 9) == [];
    assert ChainFrom(g, Some(0), true) == [0];
    assert ChainFrom(g, Some(2), true) == [2, 0];
    assert Chain(g, 9, true) == [8, 2, 0];
    assert FirstMatch(g, [8, 2, 0], IsHost) == 0;
  }

  /**
   * From the fifth `Test`, the earlier siblings of its parent `two` (the
   * second `Test`, the Fragment fiber and the class component) are never
   * offered, whatever the selector.
   */
  lemma EarlierChainSiblingsNotOffered(sel: Selector)
    ensures WellFormed(ParentTree())
    ensures var offered := TraverseSpec(ParentTree(), 9, true, sel).offered;
      3 !in offered && 4 !in offered && 6 !in offered
  {
    ParentTreeWellFormed();
    var g := ParentTree();
    assert ChainFrom(g, Some(0), true) == [0];
    assert ChainFrom(g, Some(2), true) == [2, 0];
    assert Chain(g, 9, true) == [8, 2, 0];
    ChainSiblingsNeverOffered(g, 9, true, sel, 0, 3);
    ChainSiblingsNeverOffered(g, 9, true, sel, 0, 4);
    ChainSiblingsNeverOffered(g, 9, true, sel, 0, 6);
  }

  /**
   * The tree of the `useNearestChild` test. Each `Test` renders its
   * children through an unwrapped fragment; the fragment passed as the
   * third `Test`'s only child stays a fiber.
   */
  function ChildTree(): (g: Arena) {
    [ Root(1),
      Test(0, None, Some(2)),                     // 1: first Test, no children
      Test(0, Some(3), Some(4)),                  // 2: second Test
      Primitive("one", 2, None, None),            // 3
      Test(0, Some(5), Some(7)),                  // 4: third Test
      FragmentFiber(4, Some(6), None),                 // 5
      Primitive("two", 5, None, None),            // 6
      Test(0, Some(8), Some(10)),                 // 7: fourth Test
      ClassComponent(7, Some(9), None),           // 8
      Primitive("two", 8, None, None),            // 9
      Test(0, Some(11), None),                    // 10: fifth Test
      Primitive("three", 10, None, Some(12)),     // 11
      Primitive("four", 10, None, None) ]         // 12
  }

  lemma ChildTreeWellFormed()
    ensures WellFormed(ChildTree())
  {
    var g := ChildTree();
    assert LinksOk(g, 0) && LinksOk(g, 1) && LinksOk(g, 2) && LinksOk(g, 3) && LinksOk(g, 4);
    assert LinksOk(g, 5) && LinksOk(g, 6) && LinksOk(g, 7) && LinksOk(g, 8) && LinksOk(g, 9);
    assert LinksOk(g, 10) && LinksOk(g, 11) && LinksOk(g, 12);
  }

  /** A `Test` without children finds nothing, whatever its siblings hold. */
  lemma NearestChildOfFirstTest()
    ensures WellFormed(ChildTree())
    ensures NearestChild(ChildTree(), 1) == None
  {
    ChildTreeWellFormed();
  }

  /** The second `Test` finds its host child `one`; its siblings hold no host. */
  lemma NearestChildOfSecondTest()
    ensures WellFormed(ChildTree())
    ensures PropsName(NearestChild(ChildTree(), 2)) == Some("one")
  {
    ChildTreeWellFormed();
    var g := ChildTree();
    assert SiblingsFrom(g, Some(10)) == [10];
    assert SiblingsFrom(g, Some(7)) == [7, 10];
    assert Siblings(g, 2) == [4, 7, 10];
    assert Chain(g, 2, false) == [3];
    assert FirstMatch(g, [4, 7, 10], IsHost) == 3;
  }

  /** The third `Test` passes down through the fragment to `two`. */
  lemma NearestChildOfThirdTest()
    ensures WellFormed(ChildTree())
    ensures PropsName(NearestChild(ChildTree(), 4)) == Some("two")
  {
    ChildTreeWellFormed();
    var g := ChildTree();
    assert SiblingsFrom(g, Some(10)) == [10];
    assert Siblings(g, 4) == [7, 10];
    assert ChainFrom(g, Some(6), false) == [6];
    assert Chain(g, 4, false) == [5, 6];
    assert FirstMatch(g, [7, 10], IsHost) == 2;
    assert FirstMatch(g, [5, 6], IsHost) == 1;
  }

  /** The fourth `Test` passes down through the class component to `two`. */
  lemma NearestChildOfFourthTest()
    ensures WellFormed(ChildTree())
    ensures PropsName(NearestChild(ChildTree(), 7)) == Some("two")
  {
    ChildTreeWellFormed();
    var g := ChildTree();
    assert Siblings(g, 7) == [10];
    assert ChainFrom(g, Some(9), false) == [9];
    assert Chain(g, 7, false) == [8, 9];
    assert FirstMatch(g, [10], IsHost) == 1;
    assert FirstMatch(g, [8, 9], IsHost) == 1;
  }

  /** The fifth `Test` finds its first child `three`; the child's sibling `four` is never offered. */
  lemma NearestChildOfFifthTest()
    ensures WellFormed(ChildTree())
    ensures PropsName(NearestChild(ChildTree(), 10)) == Some("three")
  {
    ChildTreeWellFormed();
    var g := ChildTree();
    assert Siblings(g, 10) == [];
    assert Chain(g, 10, false) == [11];
  }

  /** The context of the `useContextBridge` test. */
  const TestContext: Ctx := 0

  function ProviderFiber(value: Val, ret: nat, child: nat): (f: Fiber) {
    Fiber(Provider(TestContext, value), NoState, Some(ret), Some(child), None)
  }

  function One(ret: nat): (f: Fiber) {
    Fiber(Composite("One"), NoState, Some(ret), None, None)
  }

  /** `render(<One />)`: no provider above the bridge. */
  function BareTree(): (g: Arena) {
    [Root(1), One(0)]
  }

  /** `render(<context.Provider value={v}><One /></context.Provider>)` */
  function ProvidedTree(v: Val): (g: Arena) {
    [Root(1), ProviderFiber(v, 0, 2), One(1)]
  }

  /** Two providers of the same context, the inner one nearer to `One`. */
  function NestedTree(): (g: Arena) {
    [Root(1), ProviderFiber(1, 0, 2), ProviderFiber(2, 1, 3), One(2)]
  }

  lemma BridgeTreesWellFormed(v: Val)
    ensures WellFormed(BareTree()) && WellFormed(ProvidedTree(v)) && WellFormed(NestedTree())
  {
    var g, h, n := BareTree(), ProvidedTree(v), NestedTree();
    assert LinksOk(g, 0) && LinksOk(g, 1);
    assert LinksOk(h, 0) && LinksOk(h, 1) && LinksOk(h, 2);
    assert LinksOk(n, 0) && LinksOk(n, 1) && LinksOk(n, 2) && LinksOk(n, 3);
  }

  /** Without a provider the ascending walk from `One` visits the root only. */
  lemma BareTreeVisits()
    ensures WellFormed(BareTree())
    ensures Chain(BareTree(), 1, true) == [0]
    ensures Visits(BareTree(), 1, true) == [0]
  {
    BridgeTreesWellFormed(0);
    var g := BareTree();
    assert ChainFrom(g, Some(0), true) == [0];
    assert Siblings(g, 1) == [];
  }

  /** Without a provider nothing is collected and the caller's read finds no provider. */
  lemma NothingCollectedWithoutProvider()
    ensures WellFormed(BareTree())
    ensures Collected(BareTree(), 1) == []
    ensures ContextRead(BareTree(), 1, TestContext) == None
  {
    BareTreeVisits();
    var g := BareTree();
    CollectSnoc(g, [], 0);
    assert [] + [0] == [0];
    assert !Provides(g[0], TestContext);
  }

  /** The test's first render: the bridge is a bare Fragment, so a read inside it gets the default. */
  lemma BridgeWithoutProvider(dflt: Ctx -> Val, id: nat)
    ensures WellFormed(BareTree())
    ensures Reduce(Collected(BareTree(), 1), CallerValues(BareTree(), 1, dflt), BaseComponent())(Children(id))
            == Fragment(Children(id))
    ensures Lookup(Reduce(Collected(BareTree(), 1), CallerValues(BareTree(), 1, dflt), BaseComponent())(Children(id)),
                   TestContext)
            == None
  {
    NothingCollectedWithoutProvider();
    BridgeRenders([], CallerValues(BareTree(), 1, dflt), id, TestContext);
  }

  /** Under a provider of `v` the context is collected once. */
  lemma CollectedUnderProvider(v: Val)
    ensures WellFormed(ProvidedTree(v))
    ensures Collected(ProvidedTree(v), 2) == [TestContext]
  {
    BridgeTreesWellFormed(v);
    var g := ProvidedTree(v);
    assert ChainFrom(g, Some(0), true) == [0];
    assert Chain(g, 2, true) == [1, 0];
    assert Visits(g, 2, true) == [1, 0];
    CollectSnoc(g, [], 1);
    assert [] + [1] == [1];
    CollectSnoc(g, [1], 0);
    assert [1] + [0] == [1, 0];
  }

  /** Under a provider of `v` the caller reads `v`. */
  lemma ReadUnderProvider(v: Val)
    ensures WellFormed(ProvidedTree(v))
    ensures ContextRead(ProvidedTree(v), 2, TestContext) == Some(v)
  {
    BridgeTreesWellFormed(v);
    var g := ProvidedTree(v);
    assert ChainFrom(g, Some(0), true) == [0];
    assert Chain(g, 2, true) == [1, 0];
    FirstMatchAt(g, [1, 0], ProviderOf(TestContext), 0);
  }

  /** The test's second and third renders: a read inside the bridge sees the provided value, 1 or 2. */
  lemma BridgeUnderProvider(v: Val, dflt: Ctx -> Val, id: nat)
    ensures WellFormed(ProvidedTree(v))
    ensures Lookup(Reduce(Collected(ProvidedTree(v), 2), CallerValues(ProvidedTree(v), 2, dflt), BaseComponent())(Children(id)),
                   TestContext)
            == Some(v)
  {
    CollectedUnderProvider(v);
    ReadUnderProvider(v);
    BridgeRenders([TestContext], CallerValues(ProvidedTree(v), 2, dflt), id, TestContext);
  }

  /** The ascending walk from `One` in the nested tree visits both providers, then the root. */
  lemma NestedTreeVisits()
    ensures WellFormed(NestedTree())
    ensures Chain(NestedTree(), 3, true) == [2, 1, 0]
    ensures Visits(NestedTree(), 3, true) == [2, 1, 0]
  {
    BridgeTreesWellFormed(0);
    var g := NestedTree();
    assert ChainFrom(g, Some(0), true) == [0];
    assert ChainFrom(g, Some(1), true) == [1, 0];
    assert Siblings(g, 3) == [];
  }

  /** Nested providers of one context: it is collected once. */
  lemma CollectedUnderNestedProviders()
    ensures WellFormed(NestedTree())
    ensures Collected(NestedTree(), 3) == [TestContext]
  {
    NestedTreeVisits();
    var g := NestedTree();
    CollectSnoc(g, [], 2);
    assert [] + [2] == [2];
    CollectSnoc(g, [2], 1);
    assert [2] + [1] == [2, 1];
    CollectSnoc(g, [2, 1], 0);
    assert [2, 1] + [0] == [2, 1, 0];
  }

  /** Nested providers of one context: the caller reads the nearer provider's value. */
  lemma ReadUnderNestedProviders()
    ensures WellFormed(NestedTree())
    ensures ContextRead(NestedTree(), 3, TestContext) == Some(2)
  {
    NestedTreeVisits();
    var g := NestedTree();
    FirstMatchAt(g, [2, 1, 0], ProviderOf(TestContext), 0);
  }

  /** Nested providers of one context: inside the bridge, too, the nearer provider's value wins. */
  lemma BridgeUnderNestedProviders(dflt: Ctx -> Val, id: nat)
    ensures WellFormed(NestedTree())
    ensures Lookup(Reduce(Collected(NestedTree(), 3), CallerValues(NestedTree(), 3, dflt), BaseComponent())(Children(id)),
                   TestContext)
            == Some(2)
  {
    CollectedUnderNestedProviders();
    ReadUnderNestedProviders();
    BridgeRenders([TestContext], CallerValues(NestedTree(), 3, dflt), id, TestContext);
  }
}
