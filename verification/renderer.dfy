/** `BasicRenderer` (src/basic/renderer.js): the render-request coordinator. Each
    public operation is a step from one renderer state to the next that also
    returns the calls it made on tiles, caches, consumers and the style, in
    order. Tile loading is not modelled: a render's tiles settle in one event
    that names the positions of the tiles that failed. */
module Renderer {
  import opened Common
  import opened Text
  import opened TileSpec
  import opened Styles
  import opened Painter
  import opened Compositing
  import opened Registry

  /** The two kinds of source cache a tile is acquired from. */
  datatype Role = SymbolRole | OtherRole

  function RoleOf(l: StyleLayer): Role
  {
    if l.ltype == "symbol" then SymbolRole else OtherRole
  }

  /** `"symbol:" + source` or `"other:" + source` */
  function RoleCache(role: Role, source: string): string
  {
    CacheId(role == SymbolRole, source)
  }

  /** The roles present among the layers, in order of first appearance, skipping
      the layers named in `hidden` (the `symbolInit`/`otherInit` and
      `symbolCached`/`otherCached` flags). */
  function Roles(layers: seq<StyleLayer>, hidden: set<string>): (r: seq<Role>)
    ensures forall role :: role in r <==> exists i :: 0 <= i < |layers| && layers[i].id !in hidden && RoleOf(layers[i]) == role
    ensures forall i, j :: 0 <= i < j < |r| ==> r[i] != r[j]
  {
    if |layers| == 0 then []
    else
      var prev := Roles(layers[..|layers| - 1], hidden);
      var l := layers[|layers| - 1];
      if l.id in hidden || RoleOf(l) in prev then prev else prev + [RoleOf(l)]
  }

  /** Layer `m` is not hidden and has role `role`. */
  predicate ShowsRole(layers: seq<StyleLayer>, hidden: set<string>, m: int, role: Role)
  {
    0 <= m < |layers| && layers[m].id !in hidden && RoleOf(layers[m]) == role
  }

  /** Some layer shows role `a` before any layer shows role `b`. */
  ghost predicate FirstBefore(layers: seq<StyleLayer>, hidden: set<string>, a: Role, b: Role)
  {
    exists p :: ShowsRole(layers, hidden, p, a) && forall q :: 0 <= q <= p ==> !ShowsRole(layers, hidden, q, b)
  }

  /** Appending layers keeps a first appearance that happened already. */
  lemma FirstBeforeExtend(pre: seq<StyleLayer>, layers: seq<StyleLayer>, hidden: set<string>, a: Role, b: Role)
    requires |pre| <= |layers| && pre == layers[..|pre|]
    requires FirstBefore(pre, hidden, a, b)
    ensures FirstBefore(layers, hidden, a, b)
  {
    var p :| ShowsRole(pre, hidden, p, a) && forall q :: 0 <= q <= p ==> !ShowsRole(pre, hidden, q, b);
    assert layers[p] == pre[p];
    forall q | 0 <= q <= p
      ensures !ShowsRole(layers, hidden, q, b)
    {
      assert layers[q] == pre[q];
      assert !ShowsRole(pre, hidden, q, b);
    }
    assert ShowsRole(layers, hidden, p, a);
  }

  /** `Roles` lists the roles in the order of their first visible layer: for
      any two listed roles, the earlier one shows up before any layer of the
      later one. */
  lemma {:induction false} RolesFirstAppearance(layers: seq<StyleLayer>, hidden: set<string>)
    ensures forall i, j :: 0 <= i < j < |Roles(layers, hidden)| ==> FirstBefore(layers, hidden, Roles(layers, hidden)[i], Roles(layers, hidden)[j])
  {
    if |layers| > 0 {
      var n := |layers| - 1;
      var pre := layers[..n];
      RolesFirstAppearance(pre, hidden);
      var prev := Roles(pre, hidden);
      var r := Roles(layers, hidden);
      assert |r| <= |prev| + 1 && r[..|prev|] == prev;
      forall i, j | 0 <= i < j < |r|
        ensures FirstBefore(layers, hidden, r[i], r[j])
      {
        assert r[i] == prev[i];
        if j < |prev| {
          assert r[j] == prev[j];
          assert FirstBefore(pre, hidden, Roles(pre, hidden)[i], Roles(pre, hidden)[j]);
          FirstBeforeExtend(pre, layers, hidden, prev[i], prev[j]);
        } else {
          var b := RoleOf(layers[n]);
          assert r[j] == b && b !in prev;
          assert prev[i] in prev;
          var p :| 0 <= p < |pre| && pre[p].id !in hidden && RoleOf(pre[p]) == prev[i];
          assert ShowsRole(layers, hidden, p, r[i]);
          forall q | 0 <= q <= p
            ensures !ShowsRole(layers, hidden, q, b)
          {
            assert layers[q] == pre[q];
          }
        }
      }
    }
  }

  /** The roles are exactly [other, symbol] iff some visible ordinary layer
      comes before every visible symbol layer and a visible symbol layer
      exists: the order `_order` lists them in decides which role is first. */
  lemma OtherThenSymbol(layers: seq<StyleLayer>, hidden: set<string>)
    ensures Roles(layers, hidden) == [OtherRole, SymbolRole]
            <==> FirstBefore(layers, hidden, OtherRole, SymbolRole) && exists m :: ShowsRole(layers, hidden, m, SymbolRole)
  {
    var r := Roles(layers, hidden);
    RolesFirstAppearance(layers, hidden);
    if FirstBefore(layers, hidden, OtherRole, SymbolRole) && exists m :: ShowsRole(layers, hidden, m, SymbolRole) {
      var m :| ShowsRole(layers, hidden, m, SymbolRole);
      var p :| ShowsRole(layers, hidden, p, OtherRole) && forall q :: 0 <= q <= p ==> !ShowsRole(layers, hidden, q, SymbolRole);
      assert OtherRole in r && SymbolRole in r;
      RolesAtMostTwo(r);
      if r[0] == SymbolRole {
        assert false;
      }
    }
    if r == [OtherRole, SymbolRole] {
      assert FirstBefore(layers, hidden, r[0], r[1]);
      assert SymbolRole in r;
      var m :| 0 <= m < |layers| && layers[m].id !in hidden && RoleOf(layers[m]) == SymbolRole;
      assert ShowsRole(layers, hidden, m, SymbolRole);
    }
  }

  /** Three roles cannot all differ. */
  lemma PigeonholeRoles(a: Role, b: Role, c: Role)
    ensures a == b || a == c || b == c
  {
  }

  /** A duplicate-free list holding both roles is one of the two orders. */
  lemma RolesAtMostTwo(r: seq<Role>)
    requires forall i, j :: 0 <= i < j < |r| ==> r[i] != r[j]
    requires OtherRole in r && SymbolRole in r
    ensures r == [OtherRole, SymbolRole] || r == [SymbolRole, OtherRole]
  {
    if |r| > 2 {
      PigeonholeRoles(r[0], r[1], r[2]);
      assert false;
    } else if r[0] == OtherRole {
      assert r == [OtherRole, SymbolRole];
    } else {
      assert r == [SymbolRole, OtherRole];
    }
  }

  /** The `_tilesSpec` list: every entry once for the first role, then every
      entry once for the second. */
  function AcquirePlan(tiles: seq<TileSpecEntry>, roles: seq<Role>): (plan: seq<(TileSpecEntry, Role)>)
    ensures |plan| == |roles| * |tiles|
  {
    if |roles| == 0 then []
    else seq(|tiles|, i requires 0 <= i < |tiles| => (tiles[i], roles[0])) + AcquirePlan(tiles, roles[1..])
  }

  /** Entry `k * N + i` of the plan pairs entry `i` with role `k`. */
  lemma {:induction false} AcquirePlanAt(tiles: seq<TileSpecEntry>, roles: seq<Role>, k: nat, i: nat)
    requires k < |roles| && i < |tiles|
    ensures k * |tiles| + i < |AcquirePlan(tiles, roles)|
    ensures AcquirePlan(tiles, roles)[k * |tiles| + i] == (tiles[i], roles[k])
  {
    if k > 0 {
      AcquirePlanAt(tiles, roles[1..], k - 1, i);
      assert k * |tiles| + i == |tiles| + ((k - 1) * |tiles| + i);
    }
  }

  /** Every entry of the plan pairs some entry with some role. */
  lemma {:induction false} AcquirePlanEntry(tiles: seq<TileSpecEntry>, roles: seq<Role>, j: nat)
    requires j < |AcquirePlan(tiles, roles)|
    ensures exists k, i :: 0 <= k < |roles| && 0 <= i < |tiles| && AcquirePlan(tiles, roles)[j] == (tiles[i], roles[k])
  {
    if j < |tiles| {
      assert AcquirePlan(tiles, roles)[j] == (tiles[j], roles[0]);
    } else {
      AcquirePlanEntry(tiles, roles[1..], j - |tiles|);
      var k, i :| 0 <= k < |roles[1..]| && 0 <= i < |tiles| && AcquirePlan(tiles, roles[1..])[j - |tiles|] == (tiles[i], roles[1..][k]);
      assert AcquirePlan(tiles, roles)[j] == (tiles[i], roles[k + 1]);
    }
  }

  /** The tiles handed out before `acquireTile` was reached on a missing cache,
      and whether every acquisition went through. */
  datatype Acquisition = Acquisition(handles: seq<TileHandle>, complete: bool)

  function Handle(cache: SourceCache, s: TileSpecEntry): TileHandle
  {
    TileHandle(cache.id, TileId(s.z, s.x, s.y), s.size)
  }

  /** A cache exists for the role of a plan entry and the entry's source. */
  predicate Available(st: Style, e: (TileSpecEntry, Role))
  {
    FindCache(st.caches, RoleCache(e.1, e.0.source)).Some?
  }

  /** `_sourceCaches[role + s.source].acquireTile(tileID, s.size)` for each plan
      entry in turn; reading `acquireTile` of a missing cache throws and stops
      the walk. */
  function AcquireAll(st: Style, plan: seq<(TileSpecEntry, Role)>): (a: Acquisition)
    ensures |a.handles| <= |plan|
    ensures a.complete ==> |a.handles| == |plan|
    ensures a.complete <==> forall k :: 0 <= k < |plan| ==> Available(st, plan[k])
  {
    if |plan| == 0 then Acquisition([], true)
    else match FindCache(st.caches, RoleCache(plan[0].1, plan[0].0.source))
      case None => Acquisition([], false)
      case Some(cache) =>
        var rest := AcquireAll(st, plan[1..]);
        Acquisition([Handle(cache, plan[0].0)] + rest.handles, rest.complete)
  }

  /** Handle `k` comes from the cache for plan entry `k`. */
  lemma {:induction false} AcquiredHandleAt(st: Style, plan: seq<(TileSpecEntry, Role)>, k: nat)
    requires k < |AcquireAll(st, plan).handles|
    ensures Available(st, plan[k])
    ensures AcquireAll(st, plan).handles[k] == Handle(FindCache(st.caches, RoleCache(plan[k].1, plan[k].0.source)).value, plan[k].0)
  {
    if k > 0 {
      AcquiredHandleAt(st, plan[1..], k - 1);
    }
  }

  function AcquiredAll(hs: seq<TileHandle>): (r: seq<Effect>)
    ensures |r| == |hs| && forall k :: 0 <= k < |hs| ==> r[k] == Acquired(hs[k])
  {
    seq(|hs|, k requires 0 <= k < |hs| => Acquired(hs[k]))
  }

  /** `state.tiles.forEach(t => t.uses++)` */
  function UsesAdded(hs: seq<TileHandle>): (r: seq<Effect>)
    ensures |r| == |hs| && forall k :: 0 <= k < |hs| ==> r[k] == UseAdded(hs[k])
  {
    seq(|hs|, k requires 0 <= k < |hs| => UseAdded(hs[k]))
  }

  /** The renderer's state: the registry, `_nextRenderId`, the counter that
      stands for consumer object identity, `_configId`, `_queuedConfigChanges`,
      the painter, the camera zoom, and the style. */
  datatype Renderer = Renderer(
    pending: Registry,
    nextRenderId: nat,
    nextConsumer: nat,
    configId: nat,
    queue: seq<ConfigChange>,
    painter: BasicPainter,
    zoom: real,
    style: Style)

  /** A fresh renderer over a style. */
  function NewRenderer(st: Style, zoom: real): (r: Renderer)
    ensures r.pending == [] && r.nextRenderId == 0 && r.configId == 0 && r.queue == []
    ensures r.painter.filterZoom == 15.0
  {
    Renderer([], 0, 0, 0, [], NewPainter(), zoom, st)
  }

  /** What the settle callback of a new render closes over: its key, its number
      and the canonical tile and draw specs of the request that created it. */
  datatype SettleHandle = SettleHandle(key: string, renderId: nat, tiles: seq<TileSpecEntry>, draw: DrawSpec)

  /** The outcome of `renderTiles`: joined a pending render, created one (with
      the callback that will run when its tiles settle), or threw on a missing
      cache part-way through acquiring tiles. */
  datatype Submission =
    | Attached(r: Renderer, effects: seq<Effect>, token: RenderToken)
    | Created(r: Renderer, effects: seq<Effect>, token: RenderToken, settle: SettleHandle)
    | Threw(r: Renderer, effects: seq<Effect>)

  /** `renderTiles(ctx, drawSpec, tilesSpec, next)`, with `target` naming `ctx`:
      the request is canonicalized and filed under its tile-set key. */
  function Submit(r: Renderer, target: nat, draw: DrawSpec, tiles: seq<TileSpecEntry>): (s: Submission)
    ensures s.Attached? <==> Find(r.pending, RequestKey(tiles, draw)).Some?
    ensures !s.Threw? ==> && s.token.key == RequestKey(tiles, draw)
                          && s.token.consumer == Consumer(r.nextConsumer, target, Canonicalize(tiles, draw).draw, Canonicalize(tiles, draw).tiles)
    ensures s.Attached? ==> var i := Find(r.pending, RequestKey(tiles, draw)).value;
                            s.token.renderId == r.pending[i].renderId && s.token.tiles == r.pending[i].tiles
  {
    SubmitCanonical(r, target, Canonicalize(tiles, draw), RequestKey(tiles, draw))
  }

  /** `renderTiles` once the request is in canonical form `c` with key `key`:
      join the render pending under the key, or number a new one, acquire its
      tiles and file it. */
  function SubmitCanonical(r: Renderer, target: nat, c: Canonical, key: string): (s: Submission)
    ensures s.r.nextConsumer == r.nextConsumer + 1
    ensures s.r.configId == r.configId && s.r.queue == r.queue && s.r.style == r.style && s.r.painter == r.painter
    ensures s.Attached? <==> Find(r.pending, key).Some?
    ensures !s.Threw? ==> s.token.consumer == Consumer(r.nextConsumer, target, c.draw, c.tiles) && s.token.key == key
    ensures s.Attached? ==>
              var i := Find(r.pending, key).value;
              && s.r.nextRenderId == r.nextRenderId
              && s.token.renderId == r.pending[i].renderId && s.token.tiles == r.pending[i].tiles
              && s.effects == UsesAdded(r.pending[i].tiles)
              && s.r.pending == r.pending[i := r.pending[i].(consumers := r.pending[i].consumers + [s.token.consumer])]
    ensures !s.Attached? ==> s.r.nextRenderId == r.nextRenderId + 1
    ensures s.Created? ==> && s.token.renderId == r.nextRenderId + 1
                           && s.r.pending == r.pending + [PendingRender(key, s.token.renderId, s.token.tiles, [s.token.consumer])]
                           && |s.token.tiles| == |c.tiles| * |Roles(r.style.layers, {})|
                           && s.effects == AcquiredAll(s.token.tiles)
                           && s.settle == SettleHandle(key, s.token.renderId, c.tiles, c.draw)
    ensures s.Threw? ==> s.r.pending == r.pending
  {
    var consumer := Consumer(r.nextConsumer, target, c.draw, c.tiles);
    var r1 := r.(nextConsumer := r.nextConsumer + 1);
    match Find(r.pending, key)
    case Some(i) =>
      var st := r.pending[i];
      Attached(r1.(pending := r.pending[i := st.(consumers := st.consumers + [consumer])]),
               UsesAdded(st.tiles), RenderToken(st.renderId, consumer, st.tiles, key))
    case None =>
      var renderId := r.nextRenderId + 1;
      var r2 := r1.(nextRenderId := renderId);
      var acq := AcquireAll(r.style, AcquirePlan(c.tiles, Roles(r.style.layers, {})));
      if !acq.complete then Threw(r2, AcquiredAll(acq.handles))
      else
        Created(r2.(pending := r.pending + [PendingRender(key, renderId, acq.handles, [consumer])]),
                AcquiredAll(acq.handles),
                RenderToken(renderId, consumer, acq.handles, key),
                SettleHandle(key, renderId, c.tiles, c.draw))
  }

  /** `releaseRender(token)` */
  function Release(r: Renderer, tok: RenderToken): (out: (Renderer, seq<Effect>))
    ensures out.0 == r.(pending := out.0.pending)
  {
    var (reg, eff) := ReleaseRender(r.pending, tok);
    (r.(pending := reg), eff)
  }

  /** The registration of one role: for entry `ii`, `state.tiles[ii]` gets the
      entry's size and placement and is pushed onto the role's cache for the
      entry's source. A missing handle or cache throws; the effects made up to
      that point are kept. */
  function RegisterFrom(st: Style, handles: seq<TileHandle>, spec: seq<TileSpecEntry>, role: Role, ii: nat): (out: (seq<Effect>, bool))
    ensures out.1 <==> forall j :: ii <= j < |spec| ==> Registrable(st, handles, spec, role, j)
    ensures forall k :: 0 <= k < |out.0| ==> out.0[k].TileMetaSet? || out.0[k].RenderingPushed?
    decreases |spec| - ii
  {
    if ii >= |spec| then ([], true)
    else if ii >= |handles| then
      assert !Registrable(st, handles, spec, role, ii);
      ([], false)
    else
      var t := handles[ii];
      var e := spec[ii];
      var meta := [TileMetaSet(t, e.size, e.left, e.top)];
      match FindCache(st.caches, RoleCache(role, e.source))
      case None =>
        assert !Registrable(st, handles, spec, role, ii);
        (meta, false)
      case Some(cache) =>
        assert Registrable(st, handles, spec, role, ii);
        var (rest, ok) := RegisterFrom(st, handles, spec, role, ii + 1);
        (meta + [RenderingPushed(cache.id, t)] + rest, ok)
  }

  /** Position `j` of the request can be registered for `role`: the render holds
      a tile there and the role has a cache for the entry's source. */
  predicate Registrable(st: Style, handles: seq<TileHandle>, spec: seq<TileSpecEntry>, role: Role, j: nat)
    requires j < |spec|
  {
    j < |handles| && Available(st, (spec[j], role))
  }

  /** The registration loop over the roles of the layers that are not hidden. */
  function RegisterRoles(st: Style, handles: seq<TileHandle>, spec: seq<TileSpecEntry>, roles: seq<Role>): (out: (seq<Effect>, bool))
    ensures out.1 <==> forall k, j :: 0 <= k < |roles| && 0 <= j < |spec| ==> Registrable(st, handles, spec, roles[k], j)
    ensures forall k :: 0 <= k < |out.0| ==> out.0[k].TileMetaSet? || out.0[k].RenderingPushed?
  {
    if |roles| == 0 then ([], true)
    else
      var (first, ok) := RegisterFrom(st, handles, spec, roles[0], 0);
      assert forall k :: 1 <= k < |roles| ==> roles[k] == roles[1..][k - 1];
      if !ok then (first, false)
      else
        var (rest, ok') := RegisterRoles(st, handles, spec, roles[1..]);
        (first + rest, ok')
  }

  function CompositedAll(steps: seq<CompositeStep>): (r: seq<Effect>)
    ensures |r| == |steps| && forall k :: 0 <= k < |steps| ==> r[k] == Composited(steps[k])
  {
    seq(|steps|, k requires 0 <= k < |steps| => Composited(steps[k]))
  }

  /** `ctx.clearRect(drawSpec.destLeft, drawSpec.destTop, drawSpec.width,
      drawSpec.height)` on every consumer's target, with the draw spec of the
      request that created the render. */
  function ClearAll(cs: seq<Consumer>, d: DrawSpec): (r: seq<Effect>)
    ensures |r| == |cs|
    ensures forall k :: 0 <= k < |cs| ==> r[k] == Cleared(cs[k].target, d.destLeft, d.destTop, d.width, d.height)
  {
    seq(|cs|, k requires 0 <= k < |cs| => Cleared(cs[k].target, d.destLeft, d.destTop, d.width, d.height))
  }

  /** The error the consumers receive: `null`, or `"<k> of <N> tiles not
      available"` with `N` the number of entries of the creating request. */
  function SettleError(failed: nat, entries: nat): (err: Outcome)
    ensures err == Done <==> failed == 0
    ensures err != Done ==> err == TilesUnavailable(failed, entries)
  {
    if failed > 0 then TilesUnavailable(failed, entries) else Done
  }

  /** The settle callback (renderer.js 403-497). `failed` are the positions in
      `state.tiles` whose loading failed (the source can only name positions
      below `|state.tiles|`; only the size of the set is used); `hidden` are the
      layers that report themselves hidden at the current zoom. */
  function Settle(r: Renderer, h: SettleHandle, failed: set<nat>, hidden: set<string>): (out: (Renderer, seq<Effect>))
    ensures !IsCurrent(r.pending, h.key, h.renderId) ==> out == (r, [])
    ensures out.0 == r.(pending := out.0.pending)
  {
    if !IsCurrent(r.pending, h.key, h.renderId) then (r, [])
    else
      var st := r.pending[Find(r.pending, h.key).value];
      var err := SettleError(|failed|, |h.tiles|);
      if |h.tiles| - |failed| == 0 then
        var (reg, fin) := FinishRender(r.pending, h.key, h.renderId, err);
        (r.(pending := reg), ClearAll(st.consumers, h.draw) + fin)
      else
        var (registered, ok) := RegisterRoles(r.style, st.tiles, h.tiles, Roles(r.style.layers, hidden));
        if !ok then (r, [RenderingReset] + registered)
        else
          (r.(pending := Delete(r.pending, h.key)),
           [RenderingReset] + registered + CompositedAll(Composite(st.consumers))
           + Notify(st.consumers, err) + [RenderingReset])
  }

  /** `filterForZoom(zoom)` */
  function FilterForZoom(r: Renderer, zoom: real): (out: (Renderer, seq<Effect>))
    ensures zoom == r.painter.filterZoom ==> out == (r, [])
    ensures zoom != r.painter.filterZoom ==>
              && out.0 == r.(pending := [], zoom := zoom, painter := r.painter.(filterZoom := zoom))
              && |out.1| >= 2 && out.1[..2] == [ZoomSet(zoom), StyleUpdated(zoom)]
  {
    if zoom == r.painter.filterZoom then (r, [])
    else
      var (reg, canceled) := CancelAll(r.pending, r.style.caches);
      (r.(painter := r.painter.(filterZoom := zoom), zoom := zoom, pending := reg),
       [ZoomSet(zoom), StyleUpdated(zoom)] + canceled)
  }

  /** `String(sheet.source)`: an absent source reads as "undefined". */
  function SheetSource(sheet: LayerSheet): string
  {
    if sheet.source.Some? then sheet.source.value else "undefined"
  }

  /** The filters of `getLayersVisible(zoom, source)` for one layer: visibility
      exactly "visible"; with a non-zero zoom, a stylesheet entry whose bounds,
      where set, hold the zoom inclusively; with a non-empty source, a
      stylesheet entry whose source occurs in `source` as a substring. */
  predicate LayerListed(l: StyleLayer, zoom: real, source: string)
  {
    && "visibility" in l.layout && l.layout["visibility"] == "visible"
    && (zoom == 0.0 || (l.sheet.Some?
                        && (l.sheet.value.minzoom.None? || zoom >= l.sheet.value.minzoom.value)
                        && (l.sheet.value.maxzoom.None? || zoom <= l.sheet.value.maxzoom.value)))
    && (source == "" || (l.sheet.Some? && IndexOf(source, SheetSource(l.sheet.value)) != -1))
  }

  /** `getLayersVisible(zoom, source)`: the ids of the layers that pass, in
      layer order. */
  function LayersVisible(layers: seq<StyleLayer>, zoom: real, source: string): (ids: seq<string>)
    ensures |ids| <= |layers|
    ensures forall id :: id in ids <==> exists i :: 0 <= i < |layers| && layers[i].id == id && LayerListed(layers[i], zoom, source)
  {
    if |layers| == 0 then []
    else
      var rest := LayersVisible(layers[1..], zoom, source);
      assert forall i :: 1 <= i < |layers| ==> layers[i] == layers[1..][i - 1];
      if LayerListed(layers[0], zoom, source) then [layers[0].id] + rest else rest
  }

  /** The listing goes layer by layer: the ids listed for two runs of layers
      are those of the first run followed by those of the second, and a single
      layer contributes its id exactly when it passes the filters. */
  lemma {:induction false} LayersVisibleConcat(a: seq<StyleLayer>, b: seq<StyleLayer>, zoom: real, source: string)
    ensures LayersVisible(a + b, zoom, source) == LayersVisible(a, zoom, source) + LayersVisible(b, zoom, source)
    ensures |a| == 1 ==>
              LayersVisible(a, zoom, source) == if LayerListed(a[0], zoom, source) then [a[0].id] else []
  {
    if |a| == 0 {
      assert a + b == b;
    } else {
      var ab := a + b;
      assert ab[0] == a[0] && ab[1..] == a[1..] + b;
      LayersVisibleConcat(a[1..], b, zoom, source);
      var x, y := LayersVisible(a[1..], zoom, source), LayersVisible(b, zoom, source);
      if LayerListed(a[0], zoom, source) {
        assert [a[0].id] + (x + y) == ([a[0].id] + x) + y;
      }
    }
  }

  function GetLayersVisible(r: Renderer, zoom: real, source: string): seq<string>
  {
    LayersVisible(r.style.layers, zoom, source)
  }
}
