# its-fine: fiber traversal, locators and the context bridge

This project models the fiber-graph logic of the its-fine React utility
library and proves properties of it in Dafny. It covers four parts:

- **`traverseFiber`**: a walk from a fiber up its `return` chain or down its
  `child` chain. Each fiber reached is offered to a selector, and the walk
  stops at the first one the selector accepts.
- **The locator hooks `useNearestChild`, `useNearestParent` and `useContainer`**:
  each is a predicate given to `traverseFiber`, and the hook projects the
  selected fiber to its `stateNode`.
- **`useContextBridge`**: it collects the distinct contexts seen on an
  ascending walk. It then folds them into one component that re-provides,
  around its children, the value the caller reads for each context.
- **Concrete trees**: the trees the repository's own tests render, plus three
  more. One shows the `useContainer` finding below. One has a portal beside
  the caller. One has two nested providers of one context.

Files, one module each:

- `wrappers.dfy`: `Option` and `Result`.
- `fibers.dfy`: the fiber arena and its well-formedness. Also the sequences a
  walk can reach: the start fiber's later siblings (`Siblings`) and the
  `return` or `child` chain (`Chain`).
- `traversal.dfy`:
  - `TraverseSpec`, a declarative statement of what `traverseFiber` offers and returns.
  - `Traverse`, a method that mirrors the two nested loops of the source and is proved equal to `TraverseSpec`.
  - Lemmas for the behaviour a caller observes.
- `locators.dfy`: the three locator hooks.
- `bridge.dfy`:
  - Context collection.
  - The provider fold.
  - A model of a context read inside the bridged children.
  - The end-to-end faithfulness lemma.
- `scenarios.dfy`: the trees from the repository's tests, the tree behind the finding below, the portal-sibling tree and the nested-provider tree.

Fibers live in a sequence. The `return`, `child` and `sibling` pointers are
optional indices into it. Well-formedness asks that a parent come before its
children and a fiber before its next sibling. It also asks that a child point
back at its parent and that a sibling share its fiber's parent. React
guarantees these properties, and termination of the walk relies on them.

`src/index.ts` is an older version of `src/index.tsx`. The bodies of
`traverseFiber` (lines 17-44) and `useFiber` (lines 55-60) are identical in
both. The three locator hooks are the same code too: `src/index.ts:72-108`
and `src/index.tsx:74-114`. The two files differ in the import alias, in doc
comments, and in whether `Container` extends `Fiber`. None of these affects
the model. `src/index.ts` has no context bridge. Rows below cite whichever
copy is clearer.

The model follows the code. Some of its behaviour is easy to misread from
the doc comment "Traverses up or down through a Fiber" (src/index.tsx:15)
and from the tests:

- The walk never offers the start fiber. The traversal tests
  (src/index.test.tsx:247-297) expect the start fiber to be offered first.
- After the start fiber's own later siblings, the walk follows only the chain:
  no siblings of chain fibers and no subtrees.
- A matching sibling makes the walk return the first chain fiber, not the
  sibling.
- The ascending walk goes all the way to the root.
- Contexts of the start fiber's siblings are collected too.
- The fold puts the first-collected context **outermost**
  around the children, not innermost. That is the first context the walk
  meets: a later sibling's, else the nearest ancestor's. The collected contexts are distinct, so
  this does not change what a read inside the bridge sees. `BridgeForwardsContext`
  proves this.

## Model

| member | source | states |
|---|---|---|
| Fibers.Link | src/index.tsx:21 | `fiber[ascending ? 'return' : 'child']`, the step the outer loop also takes at line 40 |
| Fibers.ChainFrom | src/index.tsx:21-40 | following `return` (or `child`) from a fiber gives an empty list exactly when there is no fiber, starts at that fiber, and stays in the arena on the near side of it |
| Fibers.SiblingsFrom | src/index.tsx:22-31 | following `sibling` gives a list that starts at the given fiber and stays in the arena; every fiber on it has the same parent |
| Fibers.Siblings | src/index.ts:22-31 | every later sibling the inner loop reaches comes after the start fiber and shares its parent |
| Fibers.Chain | src/index.ts:21-40 | every chain fiber lies above the start fiber (ascending) or below it (descending) |
| Fibers.Visits | src/index.tsx:21-41 | every fiber a walk offers when its selector never halts: the later siblings of the start fiber, then the chain; nothing without a chain |
| Fibers.ChainStep | src/index.tsx:21-40 | the start fiber's link is the first chain fiber, and the link of the k-th chain fiber is the (k+1)-th, or nothing at the end |
| Fibers.SiblingStep | src/index.tsx:22-31 | the start fiber's `sibling` is the first later sibling, and the `sibling` of the k-th is the (k+1)-th, or nothing |
| Fibers.ChainFromMonotone | src/index.tsx:21-40 | the chain strictly decreases (ascending) or increases (descending) in arena order, so the walk cannot cycle |
| Fibers.SiblingsFromIncreasing | src/index.tsx:22-31 | the sibling list strictly increases in arena order |
| Fibers.ChainParent | src/index.ts:21-40 | the parent of each ascending chain fiber is the next one; the parent of each descending chain fiber is the previous one, or the start fiber |
| Fibers.VisitsDistinct | src/index.tsx:17-44 | a walk whose selector never halts reaches no fiber twice |
| Fibers.OffChain | src/index.tsx:23-40 | a sibling of a chain fiber, earlier or later, is not itself on the chain |
| Fibers.NotStartSibling | src/index.tsx:22-40 | a fiber sharing its parent with a chain fiber is not a later sibling of the start fiber |
| Fibers.ChainSiblingNotVisited | src/index.tsx:22-40 | a sibling of a chain fiber, earlier or later, is never among the fibers a walk reaches |
| Traversal.TraverseSpec | src/index.tsx:17-44 | what `traverseFiber` offers and returns. Nothing without a chain. After a sibling hit, the siblings up to the hit are offered and the first chain fiber is returned. Otherwise the first accepted chain fiber is returned, or nothing after every visit is offered |
| Traversal.OfferSiblings | src/index.tsx:24-32 | the inner loop offers the later siblings up to and including the first accepted one, and reports that one; if none is accepted it offers them all and reports nothing |
| Traversal.Traverse | src/index.tsx:17-44 | the two nested loops select and offer exactly what `TraverseSpec` says: nothing without a chain; the first chain fiber after a sibling hit; otherwise the first accepted chain fiber |
| Traversal.OffersPrefixOfVisits | src/index.ts:25-43 | the offered fibers are a prefix of the visit sequence; all but the last are rejected; a fiber is returned iff the last offered one was accepted; a walk that returns nothing offered every visited fiber; a returned fiber is on the chain |
| Traversal.OfferedPrefix | src/index.ts:25-43 | the offered fibers are a prefix of the visit sequence, and every one but the last was rejected |
| Traversal.OfferedEnd | src/index.ts:25-43 | a fiber is returned iff the last offered one was accepted; a walk that returns nothing offered every visited fiber; a returned fiber is on the chain |
| Traversal.StartNeverVisited | src/index.ts:21-23 | the start fiber is neither offered nor returned; with no link nothing is offered, siblings or not |
| Traversal.FirstOffered | src/index.ts:21-26 | the first fiber offered is the start fiber's next sibling, else its link |
| Traversal.AdvanceChain | src/index.tsx:34-40 | moving past a rejected chain fiber reaches the next chain fiber and extends the offered and rejected prefixes by one |
| Traversal.OffersEachFiberOnce | src/index.tsx:17-44 | no fiber is offered twice in one walk |
| Traversal.SiblingHitReturnsFirstChainFiber | src/index.ts:24-37 | when a later sibling of the start fiber is accepted, the walk returns the first chain fiber, which is not that sibling and was never offered, and offers only siblings |
| Traversal.NoSiblingHitReturnsFirstChainMatch | src/index.tsx:23-43 | when no sibling is accepted, the walk returns the first accepted chain fiber after rejecting every chain fiber before it, or nothing when none is accepted |
| Traversal.ChainSiblingsNeverOffered | src/index.tsx:22-40 | siblings of chain fibers, earlier or later, are never offered: only the start fiber's own later siblings are |
| Traversal.ConstantSelectors | src/index.tsx:17-44 | a selector that always accepts gets the start fiber's link; one that never accepts is offered every visited fiber and gets nothing |
| Locators.IsHost | src/index.tsx:94 | the `useNearestChild` and `useNearestParent` selector `typeof node.type === 'string'`: a host element fiber (also line 110) |
| Locators.IsContainer | src/index.tsx:77 | the container selector where it does not throw: a null type and a state node whose `containerInfo` is set |
| Locators.ProbeThrows | src/index.tsx:77 | the container selector throws: the type is null, so `&&` goes on, and the state node is null |
| Locators.StateOf | src/index.tsx:94 | the `?.stateNode` projection of the walk's optional result (also line 110) |
| Locators.NearestWalk | src/index.tsx:17-44 | the returned fiber's state node meets `NearestState`: nothing without a chain, the first chain fiber after a sibling hit, else the nearest accepted chain fiber or nothing |
| Locators.NearestChild | src/index.tsx:89-98 | `useNearestChild` stores the state node of the nearest host fiber down the `child` chain, subject to the sibling quirk, and nothing when the fiber has no child |
| Locators.NearestParent | src/index.ts:99-108 | `useNearestParent` stores the state node of the nearest host ancestor, subject to the sibling quirk, and nothing at a root |
| Locators.ThrowsIffReachedFirst | src/index.ts:75 | the container selector throws iff a visited fiber with a null type and null state node comes before any container fiber |
| Locators.UseContainer | src/index.tsx:74-82 | `useContainer` fails reading through a null state node exactly in that case. Otherwise it returns the state node `NearestState` picks: the first chain fiber's when a later sibling of the start fiber is a container, else the nearest container's. It fails at the non-null assertion when no fiber matched |
| Locators.UseContainerGuarded | src/index.tsx:77 | with the probe guarded, `useContainer` never reads through null. It fails iff no visited fiber is a container. Otherwise it returns the state node `NearestState` picks: the first chain fiber's when a later sibling is a container, else the nearest container's |
| Locators.ContainerFoundIffVisited | src/index.tsx:77 | the container walk selects a fiber iff some visited fiber is a container |
| Locators.GuardedAgreesUnlessReadOfNull | src/index.ts:72-81 | wherever `useContainer` as written does not throw on a null state node, it returns what the guarded form returns |
| Bridge.ContextOf | src/index.tsx:132 | `node.type?._context`: the context of a provider or other context-typed fiber, and nothing for any other fiber |
| Bridge.NeverHalts | src/index.tsx:131-134 | the collecting selector returns `undefined`, so it never accepts a fiber |
| Bridge.Collect | src/index.tsx:131-134 | the selector's effect over the offered fibers: each context is appended the first time it is seen |
| Bridge.Collected | src/index.tsx:129-136 | `Array.from(unique)` after the ascending walk from the caller |
| Bridge.CollectFacts | src/index.tsx:129-136 | collecting holds each context once, holds exactly the contexts some offered fiber carries, and orders them by first sighting |
| Bridge.CollectEach | src/index.tsx:131-134 | the selector body, run over the offered fibers with a `Set`, yields the first-sighting list of their contexts |
| Bridge.CollectContexts | src/index.tsx:128-137 | the collected list has no duplicates, holds exactly the contexts of the visited fibers, and lists them in first-encounter order |
| Bridge.NeverHaltsOffersVisits | src/index.tsx:131-134 | the collecting selector, which returns nothing, is offered every visited fiber and selects none |
| Bridge.Reduce | src/index.tsx:139-149 | the `contexts.reduce`: each context wraps the previous component's output around a provider of that context's value |
| Bridge.BaseComponent | src/index.tsx:148 | the initial value of the `reduce`: a Fragment around the children |
| Bridge.ReduceNests | src/index.tsx:139-149 | the `reduce` renders its initial component around one provider per context, the first context outermost, around the children |
| Bridge.LookupProviders | src/index.tsx:141-146 | inside distinct providers, a read of a context sees that context's provided value, and nothing when none provides it; the children sit unchanged one layer per provider down |
| Bridge.BridgeRenders | src/index.tsx:139-149 | the bridge renders a Fragment around one provider per context, the first context outermost and the last directly around the unchanged children. A read inside sees the listed value or no provider. With no contexts it is just a Fragment |
| Bridge.FoldProviders | src/index.tsx:139-149 | the `reduce` over distinct contexts renders a Fragment around one provider per context, first context outermost, around the children. A read inside the children sees the given value for a listed context and no provider otherwise. With no contexts the bridge is a bare Fragment |
| Bridge.UseContextBridge | src/index.tsx:126-150 | the contexts are those collected by the walk. The bridge renders a Fragment around one provider per collected context, first collected outermost, around the unchanged children. A read of any context inside gives the caller's value for a collected context and no provider otherwise |
| Bridge.ContextRead | src/index.tsx:141 | `useContext` at a fiber finds a value iff some ancestor provides that context, and the value is the nearest such provider's |
| Bridge.UncollectedIsUnprovided | src/index.tsx:129-136 | a context the walk did not collect has no provider among the caller's ancestors |
| Bridge.BridgeForwardsContext | src/index.tsx:139-149 | built from the caller's reads, the bridge makes every read inside it, default included, equal the same read at the caller |
| Scenarios.UseContainerFindsRoot | tests/index.test.tsx:48-67 | with `Test` directly under the root, `useContainer` returns the root's state node |
| Scenarios.UseContainerThrowsUnderFragment | src/index.tsx:77 | with a Fragment fiber between `Test` and the root, `useContainer` throws reading through the Fragment's null state node; the guarded form returns the root |
| Scenarios.UseContainerAtPortalSibling | src/index.tsx:25-36 | when a later sibling of `Test` is a portal (null type, state node with `containerInfo`), `useContainer` returns the enclosing `div`'s state node, not the root, with or without the guard. That state node is still null while `Test` renders on first mount, and the `div`'s host instance afterwards |
| Scenarios.NearestParentOfFirstTest | tests/index.test.tsx:118-139 | the first `Test` gets the root, whose state node has no `name`, because its sibling `one` is a host |
| Scenarios.NearestParentOfSecondTest | tests/index.test.tsx:121-139 | the second `Test` gets `one` through its host sibling `two` |
| Scenarios.NearestParentOfThirdTest | tests/index.test.tsx:124-139 | the third `Test`, inside a Fragment fiber, gets `one` |
| Scenarios.NearestParentOfFourthTest | tests/index.test.tsx:127-139 | the fourth `Test`, inside a class component, gets `one` |
| Scenarios.NearestParentOfFifthTest | tests/index.test.tsx:130-139 | the fifth `Test` gets `two` |
| Scenarios.ParentTreeWellFormed | tests/index.test.tsx:117-137 | the `useNearestParent` test tree is well formed |
| Scenarios.EarlierChainSiblingsNotOffered | src/index.tsx:22-40 | from the fifth `Test`, the earlier siblings of its parent `two` are never offered, whatever the selector |
| Scenarios.ChildTreeWellFormed | tests/index.test.tsx:79-102 | the `useNearestChild` test tree is well formed |
| Scenarios.NearestChildOfFirstTest | tests/index.test.tsx:82-104 | the childless `Test` gets nothing |
| Scenarios.NearestChildOfSecondTest | tests/index.test.tsx:83-104 | the second `Test` gets `one` |
| Scenarios.NearestChildOfThirdTest | tests/index.test.tsx:86-104 | the third `Test` passes down through a Fragment fiber to `two` |
| Scenarios.NearestChildOfFourthTest | tests/index.test.tsx:91-104 | the fourth `Test` passes down through a class component to `two` |
| Scenarios.NearestChildOfFifthTest | tests/index.test.tsx:96-104 | the fifth `Test` gets its first child `three`, never `four` |
| Scenarios.BridgeTreesWellFormed | src/index.test.tsx:333-347 | the trees of the `useContextBridge` test are well formed |
| Scenarios.BareTreeVisits | src/index.test.tsx:333-334 | with no provider, the ascending walk from `One` visits only the root |
| Scenarios.NothingCollectedWithoutProvider | src/index.test.tsx:333-334 | with no provider on the chain nothing is collected and the caller's read finds no provider |
| Scenarios.BridgeWithoutProvider | src/index.test.tsx:333-334 | with no provider the bridge renders a bare Fragment around the children, and a read inside it finds no provider |
| Scenarios.CollectedUnderProvider | src/index.test.tsx:336-341 | under one provider its context is collected once |
| Scenarios.ReadUnderProvider | src/index.test.tsx:336-341 | under a provider of v the caller reads v |
| Scenarios.BridgeUnderProvider | src/index.test.tsx:336-348 | a read inside the bridge sees the provided value, 1 or 2 |
| Scenarios.NestedTreeVisits | src/index.tsx:129-136 | below two nested providers the ascending walk visits the inner provider, the outer one and the root, in that order |
| Scenarios.CollectedUnderNestedProviders | src/index.tsx:129-136 | a context provided twice on the chain is collected once |
| Scenarios.ReadUnderNestedProviders | src/index.tsx:141 | under two providers of one context the caller reads the nearer value |
| Scenarios.BridgeUnderNestedProviders | src/index.tsx:139-149 | inside the bridge, too, the nearer provider's value wins |

## Left out

- `useFiber` (src/index.tsx:55-60) reads React's private current-owner pointer and has no logic of its own. The start fiber is a parameter of every operation.
- Hook and reconciler behaviour is not modelled: `useMemo` and `useRef` caching, `useLayoutEffect` timing, rendering and commit. `NearestChild` and `NearestParent` give the value the effect stores in the ref.
- `useContext` is the parameter `valueAt` of `UseContextBridge`. `ContextRead` models its result at the calling fiber: the nearest ancestor provider, or the context's default.
- The read happens while the hook runs, not when the bridge renders. With a pure `valueAt` the two are the same, so liveness across re-renders is not modelled.
- The bridged children and their props are the leaf `Children(id)`. Only the nesting and context reads of the rendered output are modelled.
- A selector is a total function `Fiber -> bool`. `!!selector(node)` of a truthy or falsy JavaScript value is folded into it.
- The container selector's throw is modelled as the `ReadOfNull` error value. An exception carries no other information here.
- The fiber kinds that matter are kept: host elements, null-typed fibers, context providers, other fibers whose type carries `_context`, and components. Element type identity, props and keys are not modelled, except the `name` prop the tests inspect.
- React's own guarantees about the tree are assumed in `WellFormed` and not derived.
- Scenario trees follow how React unwraps a top-level unkeyed fragment. That reconciler behaviour is not part of this model.
- The traversal assertions in src/index.test.tsx:247-297 target a published build that offers the start fiber first. That contradicts src/index.tsx:21, so no property is taken from them.
- The concurrent-identity tests (src/index.test.tsx:175-243) exercise React itself.
- The test host configuration (tests/react-nil.tsx) is test setup code with no library logic.

## Findings

| source | as written | input that shows it | evidently intended | confidence | as-written member | corrected member |
|---|---|---|---|---|---|---|
| src/index.tsx:77 | the selector `node.type == null && node.stateNode.containerInfo != null` reads `containerInfo` of `stateNode` whenever the type is null | a component under a Fragment fiber (a keyed fragment, or a fragment among several children): the Fragment has a null type and a null state node, so the walk throws a TypeError before it reaches the root | skip fibers without a state node (`node.stateNode?.containerInfo`) and return the root container | not executed | Locators.UseContainer, Scenarios.UseContainerThrowsUnderFragment | Locators.UseContainerGuarded |
