# Polaris Box style props and global search navigation, in Dafny

This project models two pieces of the Polaris design system.

**Box** (`polaris-react/src/components/Box/Box.tsx`) is the lowest-level
layout primitive. It takes out the props it handles itself (`as`, `id`,
`role`, `printHidden`, `visuallyHidden`, `tabIndex`, `children`). It splits
the rest into ARIA attributes (keys starting with `aria-`) and style props.
It then hands the style props to `convertStylePropsToCSSProperties`, with a
callback that turns a tokenized prop's value into a `var(--p-<group>-<value>)`
reference. The engine's body and its generated tables are not part of this
model. The engine is modelled as a function over three abstract parameters:

- an alias table: alias prop to its ordered physical targets, each with a rank;
- a token-group map: prop to token group;
- an ordered breakpoint list, narrowest first.

The engine is constrained by what Box's doc-comment states about it:

- aliases expand to their physical props;
- the most specific prop wins, whatever order the props are written in;
- a responsive value compiles to one `--pc-box-<prop>-<bp>` custom property
  per breakpoint, holding `var(--_<bp>) <value>`;
- the prop itself is bound to a nested `var()` chain over those custom
  properties, widest breakpoint first, ending in `unset`.

The doc-comment's examples are proved as lemmas. They hold for every
configuration whose padding aliases, `space` token group and breakpoints
(`xs` … `xl`) are shaped like Polaris's own.

**Global search** (`polaris.shopify.com/src/components/GlobalSearch/GlobalSearch.tsx`)
is the search dialog of the documentation site. Its results arrive grouped
by category. The dialog lists them group after group and keeps a cursor on
one of them. ArrowDown and ArrowUp move the cursor within the list. Enter
closes the dialog and navigates to the result under the cursor. Each
rendered result reads from a context whether it is the current one. The
dialog's state is a class, `SearchDialog`, with:

- the results;
- whether it is open;
- the cursor;
- a log of the URLs handed to the router.

Files:

- `wrappers.dfy`: `Option`.
- `style_engine.dfy`: module `StyleEngine`, the modelled `convertStylePropsToCSSProperties`.
- `box.dfy`: module `Box`, the prop split, the token callback and the component.
- `box_examples.dfy`: module `BoxExamples`, the doc-comment examples.
- `global_search.dfy`: module `GlobalSearch`.

## Model

| member | source | states |
|---|---|---|
| `StyleEngine.ExpandMembership` | polaris-react/src/components/Box/Box.tsx:113-119 | An alias proposes its own value, unchanged, for each of its physical targets at that target's rank. Any other prop proposes itself, directly. |
| `StyleEngine.WinnersSelectMostSpecific` | polaris-react/src/components/Box/Box.tsx:113-125 | Every physical prop some prop proposes gets a value. That value is one of the proposals for it, and no proposal for it outranks it. |
| `StyleEngine.NoTies` | polaris-react/src/components/Box/Box.tsx:118-119 | With distinct keys and a well-formed alias table, two proposals for one physical prop that do not outrank each other are the same proposal, so "most specific" is never ambiguous. |
| `StyleEngine.MostSpecificWins` | polaris-react/src/components/Box/Box.tsx:118-125 | A proposal that no other proposal for its physical prop outranks is the value that prop ends up with. |
| `StyleEngine.ExplicitPropWins` | polaris-react/src/components/Box/Box.tsx:116-121 | A physical prop written out explicitly keeps its own value, whatever aliases also aim at it. |
| `StyleEngine.WinnersOrderIndependent` | polaris-react/src/components/Box/Box.tsx:115-119 | Any permutation of the same props selects the same value for every physical prop. |
| `StyleEngine.WinnersCharacterised` | polaris-react/src/components/Box/Box.tsx:113-125 | The selected values are determined by the proposals alone. A choice that covers every proposed prop with an unbeaten proposal is exactly what the engine selects. |
| `StyleEngine.WidestFirstOrder` | polaris-react/src/components/Box/Box.tsx:103-109 | The chain lists exactly the supplied breakpoints that are configured, each once, strictly from wider to narrower (`lg` before `xs`). |
| `StyleEngine.ChainPicksWidestMatching` | polaris-react/src/components/Box/Box.tsx:101-109 | Reading the chain left to right when the narrowest n breakpoints match finds the widest supplied breakpoint among them, or falls through to `unset` when none is supplied. |
| `StyleEngine.ChainAllMatching` | polaris-react/src/components/Box/Box.tsx:105 | When every breakpoint matches, the chain picks the widest supplied breakpoint. |
| `StyleEngine.KebabHasNoCapitals` | polaris-react/src/components/Box/Box.tsx:103-104 | The kebab-case name of a prop holds no capital letter and is at least as long as the prop name. |
| `StyleEngine.KebabAppend` | polaris-react/src/components/Box/Box.tsx:103-108 | Kebab-casing a name works word by word: it distributes over concatenation. |
| `StyleEngine.KebabLowerCase` | polaris-react/src/components/Box/Box.tsx:98-99 | A prop name with no capitals (`display`) keeps its name in the custom property. |
| `StyleEngine.ChainNames` | polaris-react/src/components/Box/Box.tsx:105 | The chain has one custom-property name per breakpoint it lists. |
| `StyleEngine.FallbackChainShape` | polaris-react/src/components/Box/Box.tsx:105 | The chain opens one `var(` per name in order, ends in `unset`, and closes every `var(` it opened. |
| `StyleEngine.ConvertStyleProps` | polaris-react/src/components/Box/Box.tsx:80-110 | The style object binds exactly the physical props that received a value. It also binds one custom property per (responsive prop, supplied configured breakpoint) pair, and nothing else. |
| `StyleEngine.ConvertOrderIndependent` | polaris-react/src/components/Box/Box.tsx:115 | Any permutation of the same props yields the same style object. |
| `StyleEngine.ConvertedBinding` | polaris-react/src/components/Box/Box.tsx:95-109 | A single value is resolved through the token callback. A responsive value gives one `var(--_<bp>) <resolved>` binding per supplied breakpoint, and the prop is bound to the widest-first chain over those bindings. |
| `StyleEngine.AliasSpreadsToTarget` | polaris-react/src/components/Box/Box.tsx:89-109 | An alias that is the most specific source for one of its targets hands that target its value unchanged. A responsive alias hands it the same per-breakpoint values, bindings and chain. |
| `StyleEngine.PhysicalPropsPassThrough` | polaris-react/src/components/Box/Box.tsx:47-62 | Props that are all physical and single-valued come out one binding each, each value passed once through the token callback, and nothing else is added. |
| `StyleEngine.SingleValuedOutput` | polaris-react/src/components/Box/Box.tsx:120-125 | When no selected value is responsive, the style object is flat: one binding per physical prop that received a value, holding that value resolved. |
| `Box.RestProps` | polaris-react/src/components/Box/Box.tsx:131-141 | The rest props are exactly the given entries whose key is not one that Box destructures. |
| `Box.SelectAria` | polaris-react/src/components/Box/Box.tsx:144-150 | Filtering on the `aria-` prefix keeps exactly the entries whose key does, or does not, start with `aria-`. |
| `Box.SplitIsExact` | polaris-react/src/components/Box/Box.tsx:144-150 | Style props and ARIA props together are the rest props, each entry exactly once. The ARIA props are exactly the `aria-` keys, and the style props exactly the others. |
| `Box.AriaPropNotDestructured` | polaris-react/src/components/Box/Box.tsx:132-149 | No destructured prop name starts with `aria-`, so no ARIA attribute is lost to destructuring. |
| `Box.TagOf` | polaris-react/src/components/Box/Box.tsx:133 | The element type is the value of an `as` prop when one is given, and `div` when none is. |
| `Box.RenderBoxTag` | polaris-react/src/components/Box/Box.tsx:133-172 | With one value per key, the rendered element is the tag given by `as`, and `div` when there is no `as` prop. |
| `Box.RenderBoxSplitsProps` | polaris-react/src/components/Box/Box.tsx:131-153 | The engine sees exactly the non-ARIA props that Box does not destructure. The element gets exactly the ARIA ones. `as`, `id`, `role`, `printHidden`, `visuallyHidden`, `tabIndex` and `children` reach neither. |
| `Box.StyleSeesEveryProp` | polaris-react/src/components/Box/Box.tsx:144-162 | When no prop is destructured or ARIA, Box's style object is the engine's output on the props as written. |
| `Box.RenderBoxOrderIndependent` | polaris-react/src/components/Box/Box.tsx:144-162 | Box's style object does not depend on the order the props were written in. |
| `Box.TokenValueRoundTrip` | polaris-react/src/components/Box/Box.tsx:157-160 | The token value can be read back from the `var(--p-<group>-<value>)` reference built for it. |
| `Box.ResolveStyleValueSpec` | polaris-react/src/components/Box/Box.tsx:153-161 | For a prop in the token-group map, the resolved value is the reference to that group's token for the value. For any other prop, the value passes through unchanged. |
| `BoxExamples.SpaceTokenResolves` | polaris-react/src/components/Box/Box.tsx:59-62 | A padding side resolves `v` to `var(--p-space-v)`. |
| `BoxExamples.SinglePhysicalProp` | polaris-react/src/components/Box/Box.tsx:50-53 | One physical single-valued prop compiles to exactly one binding, its resolved value. |
| `BoxExamples.StandardPropPassesThrough` | polaris-react/src/components/Box/Box.tsx:47-53 | `<Box display="flex" />` renders the style object `{display: flex}`. |
| `BoxExamples.TokenizedPropBecomesVar` | polaris-react/src/components/Box/Box.tsx:56-62 | `<Box paddingInlineStart="400" />` renders `{padding-inline-start: var(--p-space-400)}`. |
| `BoxExamples.MixedWinnersExact` | polaris-react/src/components/Box/Box.tsx:116-119 | For `paddingInlineStart="200" padding="400" paddingBlock="600"`, inline start comes from `paddingInlineStart`, inline end from `padding`, and both block sides from `paddingBlock`. |
| `BoxExamples.MostSpecificAliasWins` | polaris-react/src/components/Box/Box.tsx:113-125 | That element's style object is exactly inline start 200, inline end 400, and both block sides 600, as `var(--p-space-…)` references. |
| `BoxExamples.ResponsiveWinnersExact` | polaris-react/src/components/Box/Box.tsx:84-93 | For the responsive `display` and `paddingInline` example, `display` keeps its own per-breakpoint values. Both inline sides take `paddingInline`'s per-breakpoint values. |
| `BoxExamples.DisplayValues` | polaris-react/src/components/Box/Box.tsx:98-99 | `display` gets `var(--_sm) grid` at `sm` and `var(--_xl) flex` at `xl`. It is bound to the chain `--pc-box-display-xl`, then `--pc-box-display-sm`. |
| `BoxExamples.InlineValues` | polaris-react/src/components/Box/Box.tsx:103-109 | Each inline side gets `var(--_xs) var(--p-space-200)` and `var(--_lg) var(--p-space-400)`, and is bound to the chain over its `lg` then `xs` custom properties. |
| `BoxExamples.ResponsiveKeys` | polaris-react/src/components/Box/Box.tsx:97-110 | The style object has exactly nine keys: `display`, `padding-inline-start` and `padding-inline-end`, plus their six breakpoint custom properties. The shown object binds `color` in place of `display` and has a hover row (lines 100-101); see "Left out". |
| `BoxExamples.ResponsiveValuesBecomeChains` | polaris-react/src/components/Box/Box.tsx:80-110 | The responsive example renders exactly the shown style object, with two changes. The hover row is dropped. `display` is bound to the inner chain of line 101 (`--pc-box-display-xl`, then `--pc-box-display-sm`, then `unset`) instead of the shown `color` binding. |
| `GlobalSearch.FlattenAppend` | polaris.shopify.com/src/components/GlobalSearch/GlobalSearch.tsx:83-87 | Flattening the concatenation of two group lists gives the concatenation of their flattenings. |
| `GlobalSearch.FlattenLength` | polaris.shopify.com/src/components/GlobalSearch/GlobalSearch.tsx:83-89 | The result count equals the sum of the group lengths. |
| `GlobalSearch.FlattenMembership` | polaris.shopify.com/src/components/GlobalSearch/GlobalSearch.tsx:83-87 | A result is listed exactly when some group holds it. |
| `GlobalSearch.FlattenPosition` | polaris.shopify.com/src/components/GlobalSearch/GlobalSearch.tsx:85-87 | Result k of group i is listed at position (number of results in the groups before i) + k. Groups keep their order, and each group keeps its own order. |
| `GlobalSearch.StepIndex` | polaris.shopify.com/src/components/GlobalSearch/GlobalSearch.tsx:161-174 | A key moves the cursor by at most one. Keys other than the arrows do not move it. A cursor in `[0, max(count-1, 0)]` stays there. |
| `GlobalSearch.ReplayKeepsInRange` | polaris.shopify.com/src/components/GlobalSearch/GlobalSearch.tsx:162-174 | Under any sequence of keys, a cursor starting in `[0, max(count-1, 0)]` (as 0 does) stays in that range. |
| `GlobalSearch.ArrowDownStopsAtLast` | polaris.shopify.com/src/components/GlobalSearch/GlobalSearch.tsx:162-167 | n ArrowDown presses move the cursor to `min(index + n, max(count-1, 0))`: it advances only while it is below the last result. |
| `GlobalSearch.ArrowUpStopsAtFirst` | polaris.shopify.com/src/components/GlobalSearch/GlobalSearch.tsx:169-174 | n ArrowUp presses move the cursor to `max(index - n, 0)`: it retreats only while it is above 0. |
| `GlobalSearch.ArrowKeysUndoEachOther` | polaris.shopify.com/src/components/GlobalSearch/GlobalSearch.tsx:162-174 | An ArrowDown that moved the cursor is undone by ArrowUp, and an ArrowUp that moved it is undone by ArrowDown. |
| `GlobalSearch.CurrentItemId` | polaris.shopify.com/src/components/GlobalSearch/GlobalSearch.tsx:186 | The current item id is the id of the result under the cursor when the cursor is in range, and `''` otherwise. |
| `GlobalSearch.DefaultContextYieldsNothing` | polaris.shopify.com/src/components/GlobalSearch/GlobalSearch.tsx:25-29 | A result read outside any provider sees the default context, whose id is empty, and gets no attributes. |
| `GlobalSearch.UseGlobalSearchResult` | polaris.shopify.com/src/components/GlobalSearch/GlobalSearch.tsx:27-38 | Returns nothing exactly when the context id is empty. Otherwise the result is marked current exactly when the current item id equals its id, is flagged as a global search result, and has `tabIndex` -1. |
| `GlobalSearch.ExactlyOneCurrentResult` | polaris.shopify.com/src/components/GlobalSearch/GlobalSearch.tsx:25-38 | With distinct non-empty ids, every listed result gets attributes, and only the one under the cursor is marked current. None is marked when the cursor is off the list. |
| `GlobalSearch.SearchDialog.constructor` | polaris.shopify.com/src/components/GlobalSearch/GlobalSearch.tsx:71-74 | The dialog starts closed, with no results and the cursor at 0. |
| `GlobalSearch.SearchDialog.ResultsInRenderedOrder` | polaris.shopify.com/src/components/GlobalSearch/GlobalSearch.tsx:83-87 | The loop over the groups builds the flattened list: every group's results, in group order. |
| `GlobalSearch.SearchDialog.SearchResultsCount` | polaris.shopify.com/src/components/GlobalSearch/GlobalSearch.tsx:89 | The count is the sum of the group lengths. |
| `GlobalSearch.SearchDialog.StartSearch` | polaris.shopify.com/src/components/GlobalSearch/GlobalSearch.tsx:113 | A new search puts the cursor back at 0, whatever it held, even past the end of the list. It changes nothing else and restores the cursor invariant. |
| `GlobalSearch.SearchDialog.ShowResultsKeepingCursor` | polaris.shopify.com/src/components/GlobalSearch/GlobalSearch.tsx:108-111 | As written: the response's groups replace the results, and the cursor is left where it was. |
| `GlobalSearch.SearchDialog.ShowResults` | polaris.shopify.com/src/components/GlobalSearch/GlobalSearch.tsx:108-113 | Corrected: the response's groups replace the results and the cursor goes back to 0, which keeps the cursor invariant. |
| `GlobalSearch.SearchDialog.HandleKeyboardNavigation` | polaris.shopify.com/src/components/GlobalSearch/GlobalSearch.tsx:158-184 | ArrowDown and ArrowUp move the cursor as `StepIndex` does, and the default action is prevented exactly when the cursor moved. Enter on a non-empty list closes the dialog and navigates to the URL of the result under the cursor. Enter on an empty list, or any other key, leaves the open state and the navigations unchanged. The results never change, and the cursor invariant is kept when it held. Arrow keys are accepted with any cursor. Only Enter on a non-empty list needs the cursor on the list, because off the list the source queues the close and then throws (lines 178-179). |
| `GlobalSearch.SlowResponseScenario` | polaris.shopify.com/src/components/GlobalSearch/GlobalSearch.tsx:105-113 | As written: if a response arrives after arrow keys have moved the cursor over the previous results, the cursor can be left past the end of the new list. |
| `GlobalSearch.RecoveryAfterSlowResponse` | polaris.shopify.com/src/components/GlobalSearch/GlobalSearch.tsx:105-174 | As written, after the slow response: ArrowUp still moves the stranded cursor (3 to 2, still past the end). Typing again starts a new search, which brings the cursor back to 0 and restores the invariant. |
| `GlobalSearch.ResetOnResponseScenario` | polaris.shopify.com/src/components/GlobalSearch/GlobalSearch.tsx:105-181 | Corrected: the same presses leave the cursor on a listed result, and Enter navigates to it. |

## Left out

- `stylePropDefaults`: it is passed to the engine but its effect cannot be observed in Box, so it is not modelled.
- Modifier props such as the `color`-on-hover row of the responsive example (line 100): the modifier machinery is not part of this model.
- Line 101 of the responsive example binds `color` to a chain whose inner part is built from the `display` custom properties, although the example's props set no `color`. The model's expected style object binds `display` to that inner chain (`var(--pc-box-display-xl, var(--pc-box-display-sm, unset))`). It has no `color` key and no hover row. `BoxExamples.ResponsiveKeys` and `BoxExamples.ResponsiveValuesBecomeChains` are proved against that corrected object, not the one printed.
- The alias example at Box.tsx:65-77: its shown output has the explicit `paddingInlineStart="600"` lose to `padding`, contradicting lines 118-125. The model follows lines 118-125.
- `createPolarisCSSVar` is not part of this model. It is taken to build `var(--p-<group>-<value>)`, as the doc-comment's examples show.
- The engine's own handling of a responsive value whose breakpoint is not in the configured list is not shown. The model drops such a breakpoint.
- The breakpoint list is assumed to run narrowest first (min-width queries), so the chain is read widest first.
- Numeric style values: every value is a string.
- `className` (Box.tsx:164-169) is not modelled. It adds the `visuallyHidden` and `printHidden` classes when those props are set, and the list-reset class when `as` is `ul`. `printHidden` and `visuallyHidden` are modelled only as kept out of the style object and the ARIA attributes.
- The element's `ref`, `id`, `role` and `tabIndex` attributes, `forwardRef` and `React.createElement` are not modelled: they pass values through to React. Only the element type (`as`, default `div`), the style object and the ARIA attributes are modelled.
- Global search I/O: the `fetch` calls, `useThrottle`'s timing, router events, the `/` shortcut listener, `scrollToTop`/`scrollIntoView`, and closing the dialog through the router or the close button. The router is reduced to a log of pushed URLs. A search response is an explicit call. As written it is `ShowResultsKeepingCursor`, which leaves the cursor alone. The corrected `ShowResults` also resets the cursor.
- The AI prompt mode, `handleAskQuestion`, `TypingAnimation` and all JSX. This includes skipping a result whose `meta` lacks its category when rendering.
- `GlobalSearch.SearchDialog.HandleKeyboardNavigation` requires, for Enter on a non-empty list only, that the cursor is on the list. There the source first queues the close with `setIsOpen(false)` (line 178), then throws a TypeError reading `.url` (line 179). Neither the queued close nor the error is modelled. `SlowResponseScenario` shows how the source reaches that state (see Findings).

## Findings

| source | as written | input that shows it | evidently intended | confidence | as-written member | corrected member |
|---|---|---|---|---|---|---|
| polaris.shopify.com/src/components/GlobalSearch/GlobalSearch.tsx:105-113 | The cursor is reset to 0 when a search is sent (line 113), not when its response is stored (line 110). Arrow keys pressed in between move it over the previous results. | Four results are shown. A new search starts and the cursor goes to 0. ArrowDown is pressed three times, so the cursor is at 3. The response holds two results, and the cursor stays at 3. Enter then reads `.url` of a missing entry (line 179). | The cursor stays on a listed result: reset it when the new results are stored. | medium; not executed | `GlobalSearch.SlowResponseScenario` | `GlobalSearch.SearchDialog.ShowResults` |
