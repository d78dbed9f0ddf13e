# The basic renderer's render-request coordinator, in Dafny

This project models `BasicRenderer` of the mapbox-gl-js "basic" renderer fork.
It is the part that turns a caller's tile request into a render. A request is
a list of source tiles with their placements (`tilesSpec`) plus the rectangle
to copy out (`drawSpec`).

The renderer does the following:
- It canonicalizes the request and files it under a tile-set key.
- A request with the same key as a render in flight joins that render.
  Otherwise it creates a new render that acquires one tile per entry for each
  kind of layer in the style: symbol and other.
- When the tiles have settled, one of three things happens:
  - It clears the targets and finishes the render. This happens exactly when
    the number of failed tile positions equals the number N of entries of
    the creating request.
  - It registers the tiles with their caches, then walks the requested area
    in 1024 × 1024 blocks. A block that some consumer's source rectangle
    overlaps is painted once and then blitted into each such consumer. A
    block that no consumer overlaps is skipped. Every consumer is then told
    the outcome and the render is finished.
  - Registration throws, because a tile or a cache is missing. The render
    stays pending and no consumer is told anything.
- It cancels everything when the filter zoom changes, or when a queued style
  change is applied.
- Style changes (`setPaintProperty`, `setLayoutProperty`, `setFilter`) are
  debounced. Only the most recent one applies the whole queue.

The model also covers two pieces of the renderer's collaborators:
- the zoom gate of `BasicPainter.renderLayer`;
- `BasicStyle.addSource`, which registers an `other:<id>` cache for every
  source and a `symbol:<id>` cache for vector and GeoJSON sources, and
  `BasicStyle.setLayers`.

Every operation is a pure step function over immutable state. The renderer
state holds:
- the pending renders, a sequence in the `Map`'s insertion order;
- the render, consumer and config counters;
- the config queue, the painter and the style.

Each step also returns the calls it makes on the outside world, in order:
acquiring, using and releasing tiles, notifying consumers, clearing, painting,
blitting, and invalidating caches. These calls are an `Effect` log.

Asynchrony becomes explicit events:
- A render's tiles settle in one `Settle` event. The event names the positions
  that failed to load. Each load failure is caught on its own, so the join
  behaves like `allSettled`.
- The style becoming ready is the `OnReady` event. The continuations waiting
  on the style promise run in the order their promises were made, which
  `ResolveAll` models.

Modules:
- `Common`: options, `map`, and minimum of a list.
- `Text`: integer formatting, the default string sort order, `join` and `indexOf`.
- `TileSpec`: tile entries, draw specs, canonicalization and the tile-set key.
- `Styles`: `addSource`, `setLayers` and the base style's layer setters.
- `Painter`: the zoom gate.
- `Compositing`: bounding box, blocks and blits.
- `Registry`: pending renders, `_finishRender`, `releaseRender` and
  `_cancelAllPendingRenders`.
- `Renderer`: `renderTiles`, the settle callback, `filterForZoom` and
  `getLayersVisible`.
- `Invariants`: what every step preserves, and why a stale settle callback
  can do nothing.
- `Properties`: the cross-operation properties.
- `Config`: the style-change sequencer.

Behaviour kept as the code has it:
- **All-failed test.** It compares the number of failed positions in
  `state.tiles` with the number N of entries of the request. `state.tiles` can
  hold 2N handles.
- **Clearing.** `clearRect` uses the creating request's `drawSpec` for every
  consumer.
- **Tile registration.** In the callback, `state.tiles[ii]` is paired with
  entry `ii` for every role, while the tiles were acquired role by role in
  the order the roles first appear among the layers. So when both roles are
  present, the pass of the second role pushes tiles acquired for the first:
  if an ordinary layer comes before every symbol layer, the symbol pass pushes
  the tiles acquired from the `other:` caches; if a symbol layer comes first,
  the other pass pushes the tiles acquired from the `symbol:` caches.
- **Block order.** Blocks are walked columns first: the outer loop is over
  `xx`.
- **Painter and `getLayersVisible` disagree at the upper bound.** The
  painter's upper zoom bound is exclusive and ignores a bound of 0.
  `getLayersVisible` treats both bounds as inclusive.

## Model

| member | source | states |
|---|---|---|
| TileSpec.Canonicalize | src/basic/renderer.js:280-307 | the entries are moved by the same offset as `srcLeft`/`srcTop`; `width`, `height`, `destLeft` and `destTop` are unchanged |
| TileSpec.CanonicalMinimaAreZero | src/basic/renderer.js:285-297 | after canonicalization the smallest `left` and the smallest `top` of a non-empty list are both 0 |
| TileSpec.CanonicalizeOffsets | src/basic/renderer.js:285-300 | `srcLeft`/`srcTop` move by exactly the minimum `left`/`top` of the entries |
| TileSpec.CanonicalizeIsCanonical | src/basic/renderer.js:280-307 | the result satisfies the independent characterization `IsCanonicalOf`: one common shift, non-negative placements, a zero on each axis |
| TileSpec.CanonicalFormsCoincide | src/basic/renderer.js:280-307 | any two canonical forms of a request and of a translated copy of it are equal |
| TileSpec.CanonicalizeTranslationInvariant | src/basic/renderer.js:280-307 | a request moved by any (dx, dy), entries and draw spec together, has the same canonical form |
| TileSpec.CanonicalizeReorder | src/basic/renderer.js:280-307 | reordering the entries leaves the canonical draw spec unchanged and moves every entry to the same canonical entry wherever it stands, so the canonical list is permuted the same way as the input |
| TileSpec.EntryKey | src/basic/renderer.js:312 | the entry string begins with the source name followed by a space; `EntryKeyInjective` states that the string identifies the entry |
| TileSpec.EntryKeyInjective | src/basic/renderer.js:312 | two entries whose source names have no space get the same string only if they are equal (a space in a source name can make different entries collide) |
| TileSpec.TileSetKey | src/basic/renderer.js:309-315 | the key is the join, with single spaces, of a code-point-sorted arrangement of the entry strings |
| TileSpec.RequestKey | src/basic/renderer.js:348-350 | the key of a request is the tile-set key of its entries moved so that the smallest `left` and `top` are 0, whatever the draw spec; an empty request is keyed by the empty string |
| TileSpec.TileSetKeyInjective | src/basic/renderer.js:309-315 | over source names without spaces, two lists with the same key hold the same entries, each as often |
| TileSpec.EntriesFromKeys | src/basic/renderer.js:312 | over source names without spaces, equal multisets of entry strings come from equal multisets of entries |
| TileSpec.TileSetKeyReorderInvariant | src/basic/renderer.js:309-315 | the tile-set key does not depend on the order of the entries |
| TileSpec.RequestKeyTranslationReorderInvariant | src/basic/renderer.js:348-350 | two requests that differ by a translation and a reordering are filed under the same key, whatever their draw specs |
| Text.NatToString | src/basic/renderer.js:312 | the decimal form of a natural number is non-empty, all digits, and a single digit exactly for numbers below 10 |
| Text.NatToStringInjective | src/basic/renderer.js:312 | different natural numbers print differently |
| Text.IntToString | src/basic/renderer.js:312 | the form of an integer is non-empty, starts with '-' exactly for negative numbers, and is digits after that |
| Text.IntToStringInjective | src/basic/renderer.js:312 | different integers print differently |
| Text.JoinWordsInjective | src/basic/renderer.js:312-314 | non-empty strings of n space-free words each, joined by single spaces, give the same string only if the lists are equal |
| Text.JoinSpaceInjective | src/basic/renderer.js:312-314 | equally many strings without spaces, joined by single spaces, give the same string only if the lists are equal |
| Text.Sort | src/basic/renderer.js:313 | the sorted list is in code-point order and is a permutation of the input |
| Text.SortedUnique | src/basic/renderer.js:313 | two sorted lists with the same elements are equal, so sorting has only one possible result |
| Text.SortReorderInvariant | src/basic/renderer.js:313 | reordering the input does not change the sorted list |
| Text.IndexOfFrom | src/basic/renderer.js:202 | the search `indexOf` makes, from position `from` (0 on every call): the first position of the needle at or after `from`, and -1 exactly when there is none |
| Styles.AddSource | src/basic/style.js:18-60 | throws "not loaded", duplicate id or missing/empty type in that order; returns early iff a built-in type fails validation; otherwise adds `other:<id>` and, only for vector/geojson, `symbol:<id>` to the source maps, keeps the layers and marks the style changed |
| Styles.AddSourceRegisters | src/basic/style.js:43-55 | a successful add keeps the registration invariant, makes the source known, and appends `other:<id>` and then (vector/geojson only) `symbol:<id>` to `_sourceCaches` |
| Styles.AddSourceFindsCaches | src/basic/style.js:43-55 | after a successful add, `_sourceCaches["other:" + id]` is the new non-symbol cache, and `_sourceCaches["symbol:" + id]` exists iff the type is vector or geojson |
| Styles.PutCacheFound | src/basic/style.js:45 | after `_sourceCaches[c.id] = c`, looking up `c.id` yields `c` and any other id yields what it did before |
| Styles.WellFormedRegister | src/basic/style.js:43-50 | registering a cache under an unused id for a source with no cache of that kind keeps the invariant and appends the cache |
| Styles.ApplyChange | src/basic/renderer.js:144-161 | a queued setter changes the layer with that id and leaves every other layer, and the caches, as they were |
| Styles.SetLayers | src/basic/style.js:65-72 | one `setLayoutProperty(name, 'visibility', …)` per layer, in layer order, with 'visible' iff the name is listed and 'none' iff it is not |
| Styles.VisibilityPrefix | src/basic/style.js:67-71 | once the first j calls have run, exactly the first j layers have had their visibility set |
| Styles.SetLayersVisibility | src/basic/style.js:65-72 | after `setLayers` each layer's visibility is 'visible' iff it is listed; its paint, filter, type, stylesheet entry and other layout properties are unchanged |
| Painter.NewPainter | src/basic/painter.js:6-9 | a new painter filters for zoom 15 |
| Painter.RenderLayer | src/basic/painter.js:10-15 | the layer is delegated to the base painter, with the same arguments plus `true`, iff the filter zoom lies inside its truthy bounds (lower inclusive, upper exclusive); otherwise nothing is drawn |
| Painter.UpperBoundExclusive | src/basic/painter.js:13 | at exactly `maxzoom_` the layer is skipped; below it, if the lower bound allows, it is drawn |
| Painter.NoBoundsNoFilter | src/basic/painter.js:12-13 | a missing stylesheet entry, or bounds that are absent or 0, never skip a layer |
| Compositing.ToInt32 | src/basic/renderer.js:479-482 | `v \| 0` is in the signed 32-bit range, is `v` itself when `v` is in range, and is congruent to `v` modulo 2^32 |
| Compositing.Relevant | src/basic/renderer.js:465-469 | a consumer is processed for block (xx, yy) iff its source rectangle overlaps `[xx, xx+1024) × [yy, yy+1024)` |
| Compositing.RelevantConcat | src/basic/renderer.js:465-469 | the filter keeps consumer order: the consumers processed for two runs of consumers are the first run's followed by the second's, and one consumer is kept iff it overlaps |
| Compositing.BlitFor | src/basic/renderer.js:479-487 | for an overlapping consumer, `0 <= srcLeft < srcLeft + width <= 1024` (same for top), the blit is non-empty iff the rectangle is, and `destLeft - c.destLeft == (xx + srcLeft) - c.srcLeft` (same for top) |
| Compositing.BlitCoversIntersection | src/basic/renderer.js:465-487 | a block's blit copies exactly the pixels of the consumer's rectangle inside the block, each to the same offset from the destination corner as it has from the source corner |
| Compositing.BoundingBox | src/basic/renderer.js:453-456 | there is a box exactly when there are consumers, and it contains every consumer's source rectangle |
| Compositing.BoundingBoxAttained | src/basic/renderer.js:453-456 | each side of the box is a side of some consumer's rectangle, so it is the smallest such box |
| Compositing.OriginsLength | src/basic/renderer.js:459-460 | the loop visits origin `lo + 1024k` iff `lo + 1024k < hi` |
| Compositing.OneOriginPerPixel | src/basic/renderer.js:459-460 | every coordinate in `[lo, hi)` falls in the block of exactly one visited origin, the one at index `(p - lo) / 1024` |
| Compositing.BlockSteps | src/basic/renderer.js:465-488 | a block that no consumer overlaps produces nothing; otherwise one paint, then for the k-th overlapping consumer, in order, a blit into its own target with `BlitFor` of its draw spec and the block |
| Compositing.Column | src/basic/renderer.js:460-489 | every step of a column of blocks is a paint of a block some consumer overlaps, or such a consumer's blit into its own target |
| Compositing.Grid | src/basic/renderer.js:459-490 | every step of the walk over the columns is a paint of a block some consumer overlaps, or such a consumer's blit into its own target |
| Compositing.Composite | src/basic/renderer.js:452-490 | no consumers give no steps; every step paints a block that some consumer's rectangle overlaps, or blits that block into such a consumer's own target; that the steps include every needed blit is stated by `CompositeBlitsEveryPixel` |
| Compositing.PixelCopiedOnce | src/basic/renderer.js:452-490 | every pixel of every consumer's source rectangle is copied by exactly one block of the walk |
| Compositing.CompositeBlitsEveryPixel | src/basic/renderer.js:452-490 | for every consumer and every pixel of its source rectangle, the pass draws that consumer's blit, into its own target, for a visited block whose blit copies the pixel |
| Compositing.ConsumerBlitInGrid | src/basic/renderer.js:459-489 | a consumer's blit for every visited block it overlaps is a step of the walk |
| Compositing.GridHasBlock | src/basic/renderer.js:459-490 | every step of every visited block is a step of the walk |
| Compositing.PixelInOneBlock | src/basic/renderer.js:459-489 | within a box, a pixel of a rectangle is covered by the blit of exactly one block |
| Compositing.ColumnLoop | src/basic/renderer.js:460-489 | the inner loop produces the steps of the blocks of one column, top to bottom |
| Compositing.GridLoop | src/basic/renderer.js:459-490 | the nested loops produce the steps column by column |
| Compositing.CompositeLoop | src/basic/renderer.js:452-490 | the compositing pass produces exactly the walk over the bounding box's blocks |
| Registry.Find | src/basic/renderer.js:269 | the lookup yields the position of the render filed under the key, or nothing iff no render has that key |
| Registry.Delete | src/basic/renderer.js:277 | `delete` removes exactly the renders with the key and keeps the rest |
| Registry.DeleteKeepsOrder | src/basic/renderer.js:277 | deletion works entry by entry: on a registry split in two it is the deletion on each half, in order, and one entry survives iff its key differs, so the survivors keep their insertion order |
| Registry.DeleteKeepsUnique | src/basic/renderer.js:277 | deleting keeps keys unique |
| Registry.Notify | src/basic/renderer.js:274-276 | `consumers.shift().next(err)` until empty: consumer k, in attachment order, is told `err`, once |
| Registry.FinishRender | src/basic/renderer.js:265-278 | an absent key or a different render number changes nothing; otherwise every consumer is told `err` once, in attachment order, and the key is removed |
| Registry.FinishRenderIdempotent | src/basic/renderer.js:265-278 | finishing the same render a second time does nothing |
| Registry.IndexOfConsumer | src/basic/renderer.js:327 | `indexOf` yields the first position of the consumer, or nothing iff it is absent |
| Registry.RemoveConsumer | src/basic/renderer.js:327-328 | an absent id leaves the list as it was; a present one shortens it by one; nothing is added and every consumer with another id stays |
| Registry.RemoveConsumerSpec | src/basic/renderer.js:327-328 | an absent consumer leaves the list as it was; otherwise exactly the first occurrence, at position i, is removed: the consumers before i keep their positions and those after move down by one |
| Registry.ReleaseRender | src/basic/renderer.js:317-332 | the token's tiles are released first, whatever the registry holds; a stale token changes nothing else; a current one next tells its consumer "canceled"; no render under another key is added |
| Registry.ReleaseRenderEffect | src/basic/renderer.js:317-332 | the token's tiles are released once each; a stale token changes nothing else; a current one notifies its consumer "canceled", removes it, and drops the render when it was the last consumer |
| Registry.CancelEach | src/basic/renderer.js:260 | finishing the listed renders in turn only removes renders from the registry |
| Registry.CancelEachNotifiesAll | src/basic/renderer.js:260 | finishing every pending render in turn tells each consumer "canceled" once, in registry and attachment order, and leaves nothing |
| Registry.CancelAll | src/basic/renderer.js:259-263 | cancelling leaves the registry empty |
| Registry.CancelAllNotifiesAll | src/basic/renderer.js:259-263 | cancelling notifies every consumer of every render, then invalidates every source cache once |
| Renderer.Roles | src/basic/renderer.js:362-380 | a role is present iff some layer (not hidden) has it; no role is listed twice; the order is stated by `RolesFirstAppearance` |
| Renderer.RolesFirstAppearance | src/basic/renderer.js:362-376 | the roles are listed in the order they first appear: of two listed roles, some visible layer with the earlier one comes before every visible layer with the later one |
| Renderer.OtherThenSymbol | src/basic/renderer.js:362-376 | the roles are [other, symbol] iff a visible ordinary layer comes before every visible symbol layer and some visible symbol layer exists |
| Renderer.AcquirePlan | src/basic/renderer.js:362-380 | the plan has N entries per role present |
| Renderer.AcquirePlanAt | src/basic/renderer.js:362-380 | position `k * N + i` of the plan is entry i with role k |
| Renderer.AcquireAll | src/basic/renderer.js:385-393 | acquiring completes iff the cache for every plan entry exists; a complete acquisition has one handle per entry |
| Renderer.AcquiredHandleAt | src/basic/renderer.js:385-393 | handle k is acquired from the cache of plan entry k's role and source |
| Renderer.NewRenderer | src/basic/renderer.js:58-61 | a new renderer has no pending renders, both counters at 0, an empty queue, and a painter filtering for zoom 15 |
| Renderer.Submit | src/basic/renderer.js:348-358 | the request joins a pending render iff its canonical key is pending, in which case the token carries that render's number and tiles; the consumer carries the canonical request |
| Renderer.SubmitCanonical | src/basic/renderer.js:351-399 | joining adds a use to every tile of the render and appends the consumer; creating takes the next render number, acquires N × (roles present) tiles and files a render with exactly this consumer; a missing cache throws and files nothing |
| Renderer.Release | src/basic/renderer.js:317-332 | releasing changes only the registry |
| Renderer.RegisterFrom | src/basic/renderer.js:429-446 | one role's pass succeeds iff, from position ii on, every entry has a tile in `state.tiles` and the role has a cache for its source; it only sets tile metadata and pushes tiles |
| Renderer.RegisterRoles | src/basic/renderer.js:421-450 | the registration loop succeeds iff every entry has a tile and a cache for every role present; it only sets tile metadata and pushes tiles |
| Renderer.ClearAll | src/basic/renderer.js:413-414 | every consumer's target, in attachment order, is cleared once with the creating request's destination rectangle |
| Renderer.SettleError | src/basic/renderer.js:408 | consumers get `null` iff no tile failed, and otherwise "k of N tiles not available" with N the number of entries |
| Renderer.Settle | src/basic/renderer.js:403-407 | a callback whose render was canceled or replaced does nothing; any callback changes only the registry |
| Renderer.FilterForZoom | src/basic/renderer.js:228-237 | the same zoom changes nothing; a new zoom becomes both the filter zoom and the zoom, leaves no pending render, changes nothing else, and is first set on the camera and then passed to the style update |
| Renderer.LayersVisible | src/basic/renderer.js:186-205 | a layer id is listed iff some layer with that id is 'visible', within the inclusive zoom bounds when a zoom is given, and has a stylesheet source occurring in `source` when one is given |
| Renderer.LayersVisibleConcat | src/basic/renderer.js:186-205 | the listing keeps layer order and multiplicity: for two runs of layers it is the first run's ids followed by the second's, and one layer contributes its id iff it passes the filters |
| Invariants.NewRendererValid | src/basic/renderer.js:58-61 | a new renderer satisfies the registry invariant |
| Invariants.ValidSubmit | src/basic/renderer.js:349-396 | `renderTiles` keeps the invariant |
| Invariants.ValidRelease | src/basic/renderer.js:317-332 | `releaseRender` keeps the invariant |
| Invariants.ValidSettle | src/basic/renderer.js:403-497 | the settle callback keeps the invariant |
| Invariants.ValidFilterForZoom | src/basic/renderer.js:228-237 | `filterForZoom` keeps the invariant |
| Invariants.RetiredSettleIsNoop | src/basic/renderer.js:404-407 | the callback of a render that is no longer pending does nothing |
| Invariants.RetiredAfterSubmit | src/basic/renderer.js:361 | a retired render number stays retired after a request, since new renders take fresh numbers |
| Invariants.RetiredAfterRelease | src/basic/renderer.js:317-332 | a retired render number stays retired after a release |
| Invariants.RetiredAfterSettle | src/basic/renderer.js:403-497 | a retired render number stays retired after any settle callback |
| Invariants.RetiredAfterFilterForZoom | src/basic/renderer.js:228-237 | a retired render number stays retired after `filterForZoom` |
| Invariants.FilterForZoomRetiresAll | src/basic/renderer.js:228-237 | after a zoom change every render number issued so far is retired, so every earlier callback does nothing |
| Invariants.SettleRetiresItself | src/basic/renderer.js:411-495 | a callback that clears, or that registers its tiles and composites, retires its own render |
| Properties.AttachThenReleaseRestores | src/basic/renderer.js:353-358 | joining adds one use per tile and nothing else; releasing that token restores the registry and releases each of those tiles once |
| Properties.CreateThenReleaseRestores | src/basic/renderer.js:361-396 | creating a render and then releasing its only token leaves the registry as it was |
| Properties.CreatedNumberIsFresh | src/basic/renderer.js:361 | a created render's number is greater than that of every pending render |
| Properties.TranslatedRequestJoins | src/basic/renderer.js:348-358 | a request that differs from a pending one only by a translation and a reordering joins it: same render number, same tiles |
| Properties.CreatedTileAt | src/basic/renderer.js:382-395 | tile `k * N + i` of a created render is the one acquired for entry i from the cache of role k |
| Properties.SubmitThrowsIffCacheMissing | src/basic/renderer.js:385-393 | creating throws iff some entry's source lacks the cache of some role present |
| Properties.AcquireCompleteIff | src/basic/renderer.js:385-393 | acquiring the plan completes iff every (entry, role) pair has its cache |
| Properties.SettleClearsWhenFailuresMatchEntries | src/basic/renderer.js:408-416 | the targets are cleared iff the number of failed tiles equals the number of entries; then the render is finished with the error, using the creating request's draw spec |
| Properties.SettleComposites | src/basic/renderer.js:420-497 | when the failures do not match the entries and every entry can be registered for every role, the callback resets, registers, composites the consumers' blocks, tells every consumer the outcome once in attachment order, resets again and retires the render |
| Properties.SettleRegistrationThrows | src/basic/renderer.js:420-450 | when some entry cannot be registered for some role, the callback throws after the first reset: the render stays pending, nothing is composited and no consumer hears anything |
| Properties.EmptyRequestClears | src/basic/renderer.js:410-416 | a request with no tiles acquires nothing, clears its target and is finished with `null` |
| Properties.RegisterPassCompletes | src/basic/renderer.js:429-446 | a registration pass over entries whose caches exist succeeds with two calls per entry |
| Properties.RegisterPairsByPosition | src/basic/renderer.js:429-446 | the pass sets the metadata of `state.tiles[ii]` from entry ii and pushes it onto entry ii's cache |
| Properties.SymbolPassPushesOtherTiles | src/basic/renderer.js:362-435 | when an ordinary layer comes before every symbol layer in `_order` and some symbol layer exists, the symbol pass pushes onto `symbol:<source>` the tile acquired from `other:<source>` |
| Properties.FilterForZoomCancelsEveryConsumer | src/basic/renderer.js:228-237 | a zoom change sets the zoom, updates the style, notifies every consumer "canceled" and invalidates every cache, in that order |
| Properties.FilterForZoomIdempotent | src/basic/renderer.js:228-237 | a second `filterForZoom` with the same zoom does nothing |
| Properties.ListedVersusDrawn | src/basic/renderer.js:196-199 | with both bounds set, `getLayersVisible` lists a layer iff the painter draws it, or the zoom is exactly its `maxzoom_`, which is listed but not drawn |
| Properties.SourceFilterIsSubstring | src/basic/renderer.js:200-203 | with a source given, a visible layer is listed iff its stylesheet source occurs as a substring of that source |
| Properties.UnfilteredListsVisibleLayers | src/basic/renderer.js:192-193 | with no zoom and no source, exactly the layers whose visibility is 'visible' are listed |
| Config.Enqueue | src/basic/renderer.js:144-161 | a setter appends its change to the queue; with `exec` it takes the next config number, otherwise it takes none and returns a thunk |
| Config.InvokeThunk | src/basic/renderer.js:147 | calling the thunk takes the next config number |
| Config.OnReady | src/basic/renderer.js:168-180 | a continuation resolves true iff its number is current; a superseded one changes nothing; the current one empties the registry and the queue, applies the queue in order, changes nothing else in the renderer (zoom, counters, painter), and ends by updating the style and firing "configChanged" |
| Config.OnReadyEffects | src/basic/renderer.js:173-178 | the winning continuation cancels every render and invalidates every cache, then applies each change in queue order, then updates the style and fires the event |
| Config.EnqueueAll | src/basic/renderer.js:144-161 | n immediate setters append their changes in order and take the numbers configId+1 … configId+n |
| Config.ResolveAll | src/basic/renderer.js:168-180 | running the continuations never changes the current config number, and continuation k resolves true iff it holds that number |
| Config.SupersededResolveFalse | src/basic/renderer.js:170-172 | continuations holding numbers below the current one all resolve false and change nothing |
| Config.LastNumberWins | src/basic/renderer.js:168-180 | when only the last continuation holds the current number, all others resolve false and the last applies the whole queue and empties it |
| Config.OnlyLastConfigApplies | src/basic/renderer.js:144-181 | after n immediate setters, only the last promise resolves true; the style gets every queued change applied once, in push order; the queue and the registry end empty |
| Config.ThunkCalledLastWins | src/basic/renderer.js:146-147 | a deferred setter whose thunk is called after an immediate setter holds the winning number, and the immediate one loses |
| Config.ValidOnReady | src/basic/renderer.js:168-180 | the continuation keeps the registry invariant |
| Config.OnReadyRetiresAll | src/basic/renderer.js:173 | after the winning continuation, every render number issued so far is retired, so every earlier settle callback does nothing |

## Left out

- `_calculatePosMatrix` (floating-point gl-matrix arithmetic), the per-block positioning of tiles, `_updatePlacement` and `painter.render`. Together they are one opaque `Paint` step per block.
- WebGL context creation, the offscreen canvas and its listeners, the constructor's option defaults and camera setup, and `_transformRequest`. These are DOM, GPU or collaborator setup.
- Camera zoom clamping. `setZoom` and `getZoom` are an effect and a stored value.
- `_onReady` on the style's `data` event. It updates the style at load time, and that is a collaborator call.
- The Promise machinery. Tile loading becomes one settle event with the set of failed positions. `loadedPromise` becomes the `OnReady` event, and continuations run in creation order (`ResolveAll`). The `.catch` at line 402 can never fire, because each load failure is already caught.
- `queryRenderedFeatures`, `getVisibleFeatures` and `getVisibleSources`. They are wrappers over source-cache and feature-query internals that are not part of this model.
- `getLayerOriginalFilter`, `getLayerOriginalPaint` and `getLayerOriginalLayout`. They are lookups in the initial style JSON.
- `showCanvasForDebug` and `destroyDebugCanvas` (DOM), and all of src/util/dom.js.
- Internals of collaborators: tile loading, `acquireTile`/`releaseTile`/`uses++`, `invalidateAllLoadedTiles`, `createSource`, `validateStyle` and the base `Style`.
  - Tile, cache and consumer calls are effects.
  - The validator's verdict is a parameter of `AddSource`.
  - A layer's `isHidden(zoom)` is the set of hidden layer ids passed to `Settle`.
  - The base style's `setPaintProperty`/`setLayoutProperty`/`setFilter` are plain updates of the named layer. Their validation and side effects are not modelled.
- `Object.keys` order. Layers are kept in style order, and `_layers` is assumed to list keys in that order. Integer-like layer ids, which JavaScript lists first, are not modelled.
- TileSpec.Canonicalize: for an empty tile list the source subtracts `Infinity` from `srcLeft`/`srcTop`. The model keeps the draw spec unchanged instead. An empty request always takes the clearing path, whose calls do not depend on `srcLeft`/`srcTop`.
- Text.IntToString: gives plain decimal digits. JavaScript switches to exponent notation from 1e21 on, and coordinates and tile numbers never get that large. Non-integral numbers are not modelled: coordinates are integers.
- Text.Sort: orders strings by code point. JavaScript compares UTF-16 code units, which differs only for characters outside the Basic Multilingual Plane.
- Renderer.Settle: the set of failed positions is not limited to positions below `|state.tiles|`. The source's `badTileIdxs` can only name real positions. A larger position only changes the count of failures, and `ValidSettle` holds for any set.
- Renderer.Settle: its own contract states only the stale case and that nothing but the registry changes. The three other paths are stated by separate lemmas: clearing by `Properties.SettleClearsWhenFailuresMatchEntries`, compositing by `Properties.SettleComposites`, and a failed registration by `Properties.SettleRegistrationThrows`.
- Re-entrant consumers. A consumer's `next` is an effect, so the model assumes it does not call back into the renderer. In the source, a `releaseRender` made from inside `next` while `_finishRender` (lines 274-275) or the callback (lines 492-493) is notifying would still find the render current. That consumer would hear "canceled" a second time. If no consumer were left in the list, the nested `_finishRender` with "fully-canceled" would remove the render before the outer walk ends.
- Zooms are `real`. A falsy zoom or source (`undefined`, 0, "") is written as 0.0 and "". Not-a-number zooms are not modelled.
