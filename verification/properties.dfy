/** Properties of the renderer's operations taken together: joining and leaving
    a render leaves the registry as it was, the layout of a new render's tiles,
    what a settle callback does with its failure count, and how
    `getLayersVisible` compares with the painter's zoom test. */
module Properties {
  import opened Common
  import opened Text
  import opened TileSpec
  import opened Styles
  import opened Painter
  import opened Compositing
  import opened Registry
  import opened Renderer
  import opened Invariants

  /** Joining a pending render adds a use to each of its tiles and acquires
      nothing; releasing the token right away puts the registry back as it was
      and releases those tiles once each. */
  lemma AttachThenReleaseRestores(r: Renderer, target: nat, c: Canonical, key: string)
    requires Valid(r)
    requires Find(r.pending, key).Some?
    ensures var s := SubmitCanonical(r, target, c, key);
            && s.Attached?
            && s.effects == UsesAdded(s.token.tiles)
            && Release(s.r, s.token).0.pending == r.pending
            && Release(s.r, s.token).1 == ReleaseAll(s.token.tiles) + [Notified(s.token.consumer.id, Canceled)]
  {
    var s := SubmitCanonical(r, target, c, key);
    var i := Find(r.pending, key).value;
    var st := r.pending[i];
    var u := s.token.consumer;
    var cs := st.consumers + [u];
    assert st in r.pending;
    forall k | 0 <= k < |st.consumers|
      ensures cs[k].id != u.id
    {
      assert cs[k] == st.consumers[k] && st.consumers[k] in st.consumers;
    }
    assert cs[|st.consumers|] == u;
    var found := IndexOfConsumer(cs, u.id);
    assert found.Some?;
    assert found.value == |st.consumers|;
    assert RemoveConsumer(cs, u.id) == st.consumers;
    FindAfterUpdate(r.pending, i, st.(consumers := cs));
    ReleaseRenderEffect(s.r.pending, s.token);
    assert r.pending[i := st.(consumers := cs)][i := st] == r.pending;
  }

  /** A new render's acquisitions are undone by releasing its only token: the
      registry is back as it was, and every tile acquired is released once. */
  lemma CreateThenReleaseRestores(r: Renderer, target: nat, c: Canonical, key: string)
    requires SubmitCanonical(r, target, c, key).Created?
    ensures var s := SubmitCanonical(r, target, c, key);
            && s.effects == AcquiredAll(s.token.tiles)
            && Release(s.r, s.token).0.pending == r.pending
            && Release(s.r, s.token).1 == ReleaseAll(s.token.tiles) + [Notified(s.token.consumer.id, Canceled)]
  {
    var s := SubmitCanonical(r, target, c, key);
    var u := s.token.consumer;
    var n := |r.pending|;
    FindFirst(s.r.pending, key, n);
    ReleaseRenderEffect(s.r.pending, s.token);
    assert RemoveConsumer([u], u.id) == [];
    var e' := PendingRender(key, s.token.renderId, s.token.tiles, []);
    assert s.r.pending[n := e'] == r.pending + [e'];
    DeleteAppended(r.pending, e');
  }

  /** A new render's number is above the number of every render pending. */
  lemma CreatedNumberIsFresh(r: Renderer, target: nat, c: Canonical, key: string)
    requires Valid(r) && SubmitCanonical(r, target, c, key).Created?
    ensures forall p :: p in r.pending ==> p.renderId < SubmitCanonical(r, target, c, key).token.renderId
  {
  }

  /** Two requests whose tile lists differ by a translation and by order share
      one render: the second joins the render the first created. */
  lemma TranslatedRequestJoins(r: Renderer, t1: nat, t2: nat, da: DrawSpec, a: seq<TileSpecEntry>,
                               db: DrawSpec, b: seq<TileSpecEntry>, dx: int, dy: int)
    requires multiset(b) == multiset(Translate(a, dx, dy))
    requires Submit(r, t1, da, a).Created?
    ensures var s1 := Submit(r, t1, da, a);
            var s2 := Submit(s1.r, t2, db, b);
            && s2.Attached?
            && s2.token.renderId == s1.token.renderId
            && s2.token.tiles == s1.token.tiles
  {
    var s1 := Submit(r, t1, da, a);
    RequestKeyTranslationReorderInvariant(a, b, da, db, dx, dy);
    FindFirst(s1.r.pending, RequestKey(a, da), |r.pending|);
  }

  /** Tile `k * N + i` of a new render is entry `i` of the canonical request,
      acquired from the cache of the `k`-th role for that entry's source. */
  lemma CreatedTileAt(r: Renderer, target: nat, c: Canonical, key: string, k: nat, i: nat)
    requires SubmitCanonical(r, target, c, key).Created?
    requires k < |Roles(r.style.layers, {})| && i < |c.tiles|
    ensures var cache := FindCache(r.style.caches, RoleCache(Roles(r.style.layers, {})[k], c.tiles[i].source));
            && cache.Some?
            && k * |c.tiles| + i < |SubmitCanonical(r, target, c, key).token.tiles|
            && SubmitCanonical(r, target, c, key).token.tiles[k * |c.tiles| + i] == Handle(cache.value, c.tiles[i])
  {
    var roles := Roles(r.style.layers, {});
    var plan := AcquirePlan(c.tiles, roles);
    assert SubmitCanonical(r, target, c, key).token.tiles == AcquireAll(r.style, plan).handles;
    AcquirePlanAt(c.tiles, roles, k, i);
    AcquiredHandleAt(r.style, plan, k * |c.tiles| + i);
  }

  /** Every role has a cache for the source of every entry. */
  predicate AllAvailable(st: Style, tiles: seq<TileSpecEntry>, roles: seq<Role>)
  {
    forall k, i :: 0 <= k < |roles| && 0 <= i < |tiles| ==> Available(st, (tiles[i], roles[k]))
  }

  /** `renderTiles` throws exactly when some role lacks a cache for the source of
      some entry. */
  lemma SubmitThrowsIffCacheMissing(r: Renderer, target: nat, c: Canonical, key: string)
    requires Find(r.pending, key).None?
    ensures SubmitCanonical(r, target, c, key).Threw? <==> !AllAvailable(r.style, c.tiles, Roles(r.style.layers, {}))
  {
    var roles := Roles(r.style.layers, {});
    AcquireCompleteIff(r.style, c.tiles, roles);
    assert SubmitCanonical(r, target, c, key).Threw? <==> !AcquireAll(r.style, AcquirePlan(c.tiles, roles)).complete;
  }

  /** Acquisition goes through exactly when every role has a cache for the
      source of every entry. */
  lemma AcquireCompleteIff(st: Style, tiles: seq<TileSpecEntry>, roles: seq<Role>)
    ensures AcquireAll(st, AcquirePlan(tiles, roles)).complete <==> AllAvailable(st, tiles, roles)
  {
    var plan := AcquirePlan(tiles, roles);
    if AcquireAll(st, plan).complete {
      forall k, i | 0 <= k < |roles| && 0 <= i < |tiles|
        ensures Available(st, (tiles[i], roles[k]))
      {
        AcquirePlanAt(tiles, roles, k, i);
        assert Available(st, plan[k * |tiles| + i]);
      }
    } else {
      var j :| 0 <= j < |plan| && !Available(st, plan[j]);
      AcquirePlanEntry(tiles, roles, j);
    }
  }

  /** The callback clears instead of compositing exactly when the number of
      failed tiles equals the number of entries of the creating request. With
      two roles the render holds twice that many tiles, so all of one role's
      tiles failing clears although the other role's loaded, while every tile
      failing composites. */
  lemma SettleClearsWhenFailuresMatchEntries(r: Renderer, h: SettleHandle, failed: set<nat>, hidden: set<string>)
    requires Valid(r) && IsCurrent(r.pending, h.key, h.renderId)
    ensures var st := r.pending[Find(r.pending, h.key).value];
            var out := Settle(r, h, failed, hidden);
            && |out.1| > 0
            && (out.1[0].Cleared? <==> |failed| == |h.tiles|)
            && (!out.1[0].Cleared? ==> out.1[0] == RenderingReset)
            && (|failed| == |h.tiles| ==>
                  && out.0.pending == Delete(r.pending, h.key)
                  && out.1 == ClearAll(st.consumers, h.draw) + Notify(st.consumers, SettleError(|failed|, |h.tiles|)))
  {
    var st := r.pending[Find(r.pending, h.key).value];
    assert st in r.pending;
  }

  /** When the number of failed positions differs from the number of entries
      and every position can be registered for every role of the visible
      layers, the callback resets, registers, composites the consumers' blocks,
      tells every consumer the outcome once in attachment order, resets again
      and retires the render. */
  lemma SettleComposites(r: Renderer, h: SettleHandle, failed: set<nat>, hidden: set<string>)
    requires IsCurrent(r.pending, h.key, h.renderId) && |failed| != |h.tiles|
    requires var st := r.pending[Find(r.pending, h.key).value];
             forall k, j :: 0 <= k < |Roles(r.style.layers, hidden)| && 0 <= j < |h.tiles| ==>
               Registrable(r.style, st.tiles, h.tiles, Roles(r.style.layers, hidden)[k], j)
    ensures var st := r.pending[Find(r.pending, h.key).value];
            var out := Settle(r, h, failed, hidden);
            var registered := RegisterRoles(r.style, st.tiles, h.tiles, Roles(r.style.layers, hidden)).0;
            && out.0 == r.(pending := Delete(r.pending, h.key))
            && Find(out.0.pending, h.key).None?
            && out.1 == [RenderingReset] + registered + CompositedAll(Composite(st.consumers))
                        + Notify(st.consumers, SettleError(|failed|, |h.tiles|)) + [RenderingReset]
  {
    var st := r.pending[Find(r.pending, h.key).value];
    var roles := Roles(r.style.layers, hidden);
    assert forall k, j :: 0 <= k < |Roles(r.style.layers, hidden)| && 0 <= j < |h.tiles| ==>
               Registrable(r.style, r.pending[Find(r.pending, h.key).value].tiles, h.tiles, Roles(r.style.layers, hidden)[k], j);
    assert RegisterRoles(r.style, st.tiles, h.tiles, roles).1;
  }

  /** When some position cannot be registered for some role, the callback
      throws after the first reset: the render stays pending, no block is
      composited and no consumer hears anything. */
  lemma SettleRegistrationThrows(r: Renderer, h: SettleHandle, failed: set<nat>, hidden: set<string>)
    requires IsCurrent(r.pending, h.key, h.renderId) && |failed| != |h.tiles|
    requires var st := r.pending[Find(r.pending, h.key).value];
             exists k, j :: 0 <= k < |Roles(r.style.layers, hidden)| && 0 <= j < |h.tiles|
               && !Registrable(r.style, st.tiles, h.tiles, Roles(r.style.layers, hidden)[k], j)
    ensures var out := Settle(r, h, failed, hidden);
            && out.0 == r
            && |out.1| > 0 && out.1[0] == RenderingReset
            && forall k :: 1 <= k < |out.1| ==> out.1[k].TileMetaSet? || out.1[k].RenderingPushed?
  {
  }

  /** A request with no entries creates a render whose callback clears the
      destination rectangle and reports success, leaving the registry as it
      was. */
  lemma EmptyRequestClears(r: Renderer, target: nat, draw: DrawSpec, key: string, hidden: set<string>)
    requires Find(r.pending, key).None?
    ensures var s := SubmitCanonical(r, target, Canonical([], draw), key);
            && s.Created?
            && s.token.tiles == [] && s.effects == []
            && Settle(s.r, s.settle, {}, hidden).0.pending == r.pending
            && Settle(s.r, s.settle, {}, hidden).1
               == [Cleared(target, draw.destLeft, draw.destTop, draw.width, draw.height), Notified(s.token.consumer.id, Done)]
  {
    var roles := Roles(r.style.layers, {});
    assert AcquirePlan([], roles) == [] by {
      assert |AcquirePlan([], roles)| == |roles| * 0 == 0;
    }
    var s := SubmitCanonical(r, target, Canonical([], draw), key);
    var e := PendingRender(key, s.token.renderId, [], [s.token.consumer]);
    FindFirst(s.r.pending, key, |r.pending|);
    DeleteAppended(r.pending, e);
  }

  /** The canonical form of an empty request is the empty list with the draw
      spec unchanged. */
  lemma EmptyRequestCanonical(draw: DrawSpec)
    ensures Canonicalize([], draw) == Canonical([], draw)
  {
  }

  /** One step of a registration pass whose cache exists: the entry's tile gets
      its placement and is pushed, then the pass goes on. */
  lemma RegisterFromStep(st: Style, handles: seq<TileHandle>, spec: seq<TileSpecEntry>, role: Role, ii: nat)
    requires ii < |spec| && ii < |handles|
    requires FindCache(st.caches, RoleCache(role, spec[ii].source)).Some?
    ensures RegisterFrom(st, handles, spec, role, ii).1 == RegisterFrom(st, handles, spec, role, ii + 1).1
    ensures RegisterFrom(st, handles, spec, role, ii).0
            == [TileMetaSet(handles[ii], spec[ii].size, spec[ii].left, spec[ii].top),
                RenderingPushed(RoleCache(role, spec[ii].source), handles[ii])]
               + RegisterFrom(st, handles, spec, role, ii + 1).0
  {
  }

  /** A registration pass over entries whose caches all exist goes through and
      makes two calls per entry. */
  lemma {:induction false} RegisterPassCompletes(st: Style, handles: seq<TileHandle>, spec: seq<TileSpecEntry>, role: Role, ii: nat)
    requires ii <= |spec| <= |handles|
    requires forall j :: ii <= j < |spec| ==> Available(st, (spec[j], role))
    ensures RegisterFrom(st, handles, spec, role, ii).1
    ensures |RegisterFrom(st, handles, spec, role, ii).0| == 2 * (|spec| - ii)
    decreases |spec| - ii
  {
    if ii < |spec| {
      assert Available(st, (spec[ii], role));
      RegisterPassCompletes(st, handles, spec, role, ii + 1);
      RegisterFromStep(st, handles, spec, role, ii);
    }
  }

  /** One role's registration pass pairs position `j` of the render's tiles with
      entry `j` of the request, whatever the role. */
  lemma {:induction false} RegisterPairsByPosition(st: Style, handles: seq<TileHandle>, spec: seq<TileSpecEntry>, role: Role, ii: nat, j: nat)
    requires ii <= j < |spec| <= |handles|
    requires forall m :: ii <= m < |spec| ==> Available(st, (spec[m], role))
    ensures |RegisterFrom(st, handles, spec, role, ii).0| == 2 * (|spec| - ii)
    ensures RegisterFrom(st, handles, spec, role, ii).0[2 * (j - ii)] == TileMetaSet(handles[j], spec[j].size, spec[j].left, spec[j].top)
    ensures RegisterFrom(st, handles, spec, role, ii).0[2 * (j - ii) + 1] == RenderingPushed(RoleCache(role, spec[j].source), handles[j])
    decreases j - ii
  {
    RegisterPassCompletes(st, handles, spec, role, ii);
    assert Available(st, (spec[ii], role));
    RegisterFromStep(st, handles, spec, role, ii);
    if j > ii {
      RegisterPairsByPosition(st, handles, spec, role, ii + 1, j);
      var rest := RegisterFrom(st, handles, spec, role, ii + 1).0;
      assert 2 * (j - ii) == 2 + 2 * (j - (ii + 1));
    }
  }

  /** When an ordinary layer comes before every symbol layer and some symbol
      layer exists, the first half of a new render's tiles comes from the
      "other:" caches, and the symbol pass of the callback still pushes
      position `i` (one of those tiles) onto the "symbol:" cache of entry
      `i`'s source. */
  lemma SymbolPassPushesOtherTiles(r: Renderer, target: nat, c: Canonical, key: string, i: nat)
    requires SubmitCanonical(r, target, c, key).Created?
    requires FirstBefore(r.style.layers, {}, OtherRole, SymbolRole)
    requires exists m :: ShowsRole(r.style.layers, {}, m, SymbolRole)
    requires i < |c.tiles|
    ensures var s := SubmitCanonical(r, target, c, key);
            var out := RegisterFrom(r.style, s.token.tiles, c.tiles, SymbolRole, 0);
            && s.token.tiles[i].cache == "other:" + c.tiles[i].source
            && out.1
            && |out.0| == 2 * |c.tiles|
            && out.0[2 * i + 1] == RenderingPushed("symbol:" + c.tiles[i].source, s.token.tiles[i])
  {
    OtherThenSymbol(r.style.layers, {});
    SymbolPassAfterOtherRole(r, target, c, key, i);
  }

  /** The same, for roles already known to be [other, symbol]. */
  lemma SymbolPassAfterOtherRole(r: Renderer, target: nat, c: Canonical, key: string, i: nat)
    requires SubmitCanonical(r, target, c, key).Created?
    requires Roles(r.style.layers, {}) == [OtherRole, SymbolRole]
    requires i < |c.tiles|
    ensures var s := SubmitCanonical(r, target, c, key);
            var out := RegisterFrom(r.style, s.token.tiles, c.tiles, SymbolRole, 0);
            && s.token.tiles[i].cache == "other:" + c.tiles[i].source
            && out.1
            && |out.0| == 2 * |c.tiles|
            && out.0[2 * i + 1] == RenderingPushed("symbol:" + c.tiles[i].source, s.token.tiles[i])
  {
    var s := SubmitCanonical(r, target, c, key);
    CreatedTileAt(r, target, c, key, 0, i);
    SymbolCachesAvailable(r, target, c, key);
    PassPairsByPosition(r.style, s.token.tiles, c.tiles, SymbolRole, i);
  }

  /** With an ordinary and a symbol role, a created render found a "symbol:"
      cache for the source of every entry. */
  lemma SymbolCachesAvailable(r: Renderer, target: nat, c: Canonical, key: string)
    requires SubmitCanonical(r, target, c, key).Created?
    requires Roles(r.style.layers, {}) == [OtherRole, SymbolRole]
    ensures forall j :: 0 <= j < |c.tiles| ==> Available(r.style, (c.tiles[j], SymbolRole))
    ensures |SubmitCanonical(r, target, c, key).token.tiles| == 2 * |c.tiles|
  {
    forall j | 0 <= j < |c.tiles|
      ensures Available(r.style, (c.tiles[j], SymbolRole))
    {
      CreatedTileAt(r, target, c, key, 1, j);
    }
  }

  /** A whole registration pass over entries whose caches exist pairs position
      `i` of the tiles with entry `i`. */
  lemma PassPairsByPosition(st: Style, handles: seq<TileHandle>, spec: seq<TileSpecEntry>, role: Role, i: nat)
    requires i < |spec| <= |handles|
    requires forall j :: 0 <= j < |spec| ==> Available(st, (spec[j], role))
    ensures var out := RegisterFrom(st, handles, spec, role, 0);
            && out.1
            && |out.0| == 2 * |spec|
            && out.0[2 * i + 1] == RenderingPushed(RoleCache(role, spec[i].source), handles[i])
  {
    RegisterPassCompletes(st, handles, spec, role, 0);
    RegisterPairsByPosition(st, handles, spec, role, 0, i);
  }

  /** A new filter zoom cancels every pending render, telling each consumer
      "canceled" once, and invalidates every cache after updating the style. */
  lemma FilterForZoomCancelsEveryConsumer(r: Renderer, zoom: real)
    requires Valid(r) && zoom != r.painter.filterZoom
    ensures FilterForZoom(r, zoom).1
            == [ZoomSet(zoom), StyleUpdated(zoom)] + NotifyAll(r.pending, Canceled) + InvalidateAll(r.style.caches)
  {
    CancelAllNotifiesAll(r.pending, r.style.caches);
  }

  /** Filtering twice for the same zoom does nothing the second time. */
  lemma FilterForZoomIdempotent(r: Renderer, zoom: real)
    ensures var (r1, _) := FilterForZoom(r, zoom);
            FilterForZoom(r1, zoom) == (r1, [])
  {
  }

  /** With both bounds set and non-zero, `getLayersVisible` and the painter agree
      on a visible layer except at exactly `maxzoom`, which `getLayersVisible`
      includes and the painter excludes. */
  lemma ListedVersusDrawn(l: StyleLayer, z: real)
    requires "visibility" in l.layout && l.layout["visibility"] == "visible"
    requires z != 0.0 && l.sheet.Some? && Truthy(l.sheet.value.minzoom) && Truthy(l.sheet.value.maxzoom)
    ensures LayerListed(l, z, "") <==>
              DrawnAt(l.sheet, z) || (z == l.sheet.value.maxzoom.value && l.sheet.value.minzoom.value <= z)
    ensures z == l.sheet.value.maxzoom.value && l.sheet.value.minzoom.value <= z ==>
              LayerListed(l, z, "") && !DrawnAt(l.sheet, z)
  {
  }

  /** The source filter is a substring test: a layer passes when its
      stylesheet source occurs anywhere in the argument. */
  lemma SourceFilterIsSubstring(l: StyleLayer, source: string)
    requires source != ""
    ensures LayerListed(l, 0.0, source) <==>
              && "visibility" in l.layout && l.layout["visibility"] == "visible"
              && l.sheet.Some? && exists k: nat :: OccursAt(source, SheetSource(l.sheet.value), k)
  {
    if l.sheet.Some? {
      var v := IndexOf(source, SheetSource(l.sheet.value));
      if v != -1 {
        assert OccursAt(source, SheetSource(l.sheet.value), v as nat);
      }
    }
  }

  /** A zero zoom and an empty source list exactly the visible layers. */
  lemma UnfilteredListsVisibleLayers(r: Renderer, id: string)
    ensures id in GetLayersVisible(r, 0.0, "") <==>
              exists i :: 0 <= i < |r.style.layers| && r.style.layers[i].id == id
                          && "visibility" in r.style.layers[i].layout
                          && r.style.layers[i].layout["visibility"] == "visible"
  {
  }
}
