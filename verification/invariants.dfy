/** What every operation of the renderer keeps true, and why a settle callback
    that has been overtaken by a cancel can never touch a later render. */
module Invariants {
  import opened Common
  import opened TileSpec
  import opened Styles
  import opened Registry
  import opened Renderer

  /** Keys are unique; every pending render has a consumer, a number already
      issued, and only consumers already issued; renders with different keys
      have different numbers. */
  ghost predicate Valid(r: Renderer)
  {
    && KeysUnique(r.pending)
    && (forall p :: p in r.pending ==>
          && |p.consumers| > 0
          && 0 < p.renderId <= r.nextRenderId
          && forall c :: c in p.consumers ==> c.id < r.nextConsumer)
    && (forall p, q :: p in r.pending && q in r.pending && p.key != q.key ==> p.renderId != q.renderId)
  }

  lemma NewRendererValid(st: Style, zoom: real)
    ensures Valid(NewRenderer(st, zoom))
  {
  }

  lemma UpdateMembers(reg: Registry, i: nat, v: PendingRender)
    requires i < |reg|
    ensures forall p :: p in reg[i := v] ==> p == v || p in reg
  {
    forall p | p in reg[i := v]
      ensures p == v || p in reg
    {
      var j :| 0 <= j < |reg[i := v]| && reg[i := v][j] == p;
      if j != i {
        assert reg[j] == p;
      }
    }
  }

  lemma RemoveConsumerMembers(cs: seq<Consumer>, id: nat)
    ensures forall c :: c in RemoveConsumer(cs, id) ==> c in cs
  {
    match IndexOfConsumer(cs, id)
    case None =>
    case Some(i) =>
      assert forall c :: c in cs[..i] + cs[i + 1..] ==> c in cs[..i] || c in cs[i + 1..];
  }

  /** Replacing an entry by one with the same key and number keeps the registry
      valid as long as the new entry's consumers are acceptable. */
  lemma ValidUpdate(r: Renderer, i: nat, v: PendingRender, nextConsumer: nat)
    requires Valid(r) && i < |r.pending|
    requires v.key == r.pending[i].key && v.renderId == r.pending[i].renderId
    requires |v.consumers| > 0 && forall c :: c in v.consumers ==> c.id < nextConsumer
    requires r.nextConsumer <= nextConsumer
    ensures Valid(r.(pending := r.pending[i := v], nextConsumer := nextConsumer))
  {
    UpdateMembers(r.pending, i, v);
    var reg := r.pending[i := v];
    forall p, q | p in reg && q in reg && p.key != q.key
      ensures p.renderId != q.renderId
    {
      var p' := if p == v then r.pending[i] else p;
      var q' := if q == v then r.pending[i] else q;
      assert p' in r.pending && q' in r.pending && p'.key != q'.key;
    }
  }

  /** Dropping the entries under one key keeps the registry valid. */
  lemma ValidDelete(r: Renderer, key: string)
    requires Valid(r)
    ensures Valid(r.(pending := Delete(r.pending, key)))
  {
    DeleteKeepsUnique(r.pending, key);
  }

  lemma ValidSubmit(r: Renderer, target: nat, c: Canonical, key: string)
    requires Valid(r)
    ensures Valid(SubmitCanonical(r, target, c, key).r)
  {
    var s := SubmitCanonical(r, target, c, key);
    if s.Attached? {
      var i := Find(r.pending, key).value;
      var st := r.pending[i];
      var v := st.(consumers := st.consumers + [s.token.consumer]);
      assert st in r.pending;
      ValidUpdate(r, i, v, r.nextConsumer + 1);
      assert s.r == r.(pending := r.pending[i := v], nextConsumer := r.nextConsumer + 1);
    } else if s.Created? {
      var e := PendingRender(key, s.token.renderId, s.token.tiles, [s.token.consumer]);
      assert forall p :: p in s.r.pending ==> p in r.pending || p == e;
    }
  }

  lemma ValidRelease(r: Renderer, tok: RenderToken)
    requires Valid(r)
    ensures Valid(Release(r, tok).0)
  {
    ReleaseRenderEffect(r.pending, tok);
    if IsCurrent(r.pending, tok.key, tok.renderId) {
      var i := Find(r.pending, tok.key).value;
      RemoveConsumerMembers(r.pending[i].consumers, tok.consumer.id);
      ValidShrinkConsumers(r, i, RemoveConsumer(r.pending[i].consumers, tok.consumer.id));
    }
  }

  /** Narrowing one entry's consumers keeps the registry valid while some remain,
      and dropping its key once none remain does too. */
  lemma ValidShrinkConsumers(r: Renderer, i: nat, rest: seq<Consumer>)
    requires Valid(r) && i < |r.pending|
    requires forall c :: c in rest ==> c in r.pending[i].consumers
    ensures var reg := r.pending[i := r.pending[i].(consumers := rest)];
            && (|rest| > 0 ==> Valid(r.(pending := reg)))
            && (|rest| == 0 ==> Valid(r.(pending := Delete(reg, r.pending[i].key))))
  {
    var v := r.pending[i].(consumers := rest);
    assert r.pending[i] in r.pending;
    if |rest| > 0 {
      ValidUpdate(r, i, v, r.nextConsumer);
    } else {
      var reg := r.pending[i := v];
      UpdateMembers(r.pending, i, v);
      DeleteKeepsUnique(reg, r.pending[i].key);
      assert KeysUnique(reg);
      assert forall p :: p in Delete(reg, r.pending[i].key) ==> p in r.pending;
    }
  }

  lemma ValidSettle(r: Renderer, h: SettleHandle, failed: set<nat>, hidden: set<string>)
    requires Valid(r)
    ensures Valid(Settle(r, h, failed, hidden).0)
  {
    if IsCurrent(r.pending, h.key, h.renderId) {
      var err := SettleError(|failed|, |h.tiles|);
      assert FinishRender(r.pending, h.key, h.renderId, err).0 == Delete(r.pending, h.key);
      ValidDelete(r, h.key);
    }
  }

  lemma ValidFilterForZoom(r: Renderer, zoom: real)
    requires Valid(r)
    ensures Valid(FilterForZoom(r, zoom).0)
  {
  }

  /** The render numbered as the handle is no longer pending, and its number was
      issued: nothing the renderer does can make it current again. */
  ghost predicate Retired(r: Renderer, h: SettleHandle)
  {
    h.renderId <= r.nextRenderId && forall p :: p in r.pending ==> p.renderId != h.renderId
  }

  /** A retired handle's callback does nothing. */
  lemma RetiredSettleIsNoop(r: Renderer, h: SettleHandle, failed: set<nat>, hidden: set<string>)
    requires Retired(r, h)
    ensures Settle(r, h, failed, hidden) == (r, [])
  {
  }

  /** A submission never brings a retired number back: a new render takes a
      number above every number issued. */
  lemma RetiredAfterSubmit(r: Renderer, h: SettleHandle, target: nat, c: Canonical, key: string)
    requires Retired(r, h)
    ensures Retired(SubmitCanonical(r, target, c, key).r, h)
  {
    var s := SubmitCanonical(r, target, c, key);
    if s.Attached? {
      var i := Find(r.pending, key).value;
      var st := r.pending[i];
      UpdateMembers(r.pending, i, st.(consumers := st.consumers + [s.token.consumer]));
      assert st in r.pending;
    }
  }

  lemma RetiredAfterRelease(r: Renderer, h: SettleHandle, tok: RenderToken)
    requires Retired(r, h)
    ensures Retired(Release(r, tok).0, h)
  {
    ReleaseRenderEffect(r.pending, tok);
    if IsCurrent(r.pending, tok.key, tok.renderId) {
      var i := Find(r.pending, tok.key).value;
      var v := r.pending[i].(consumers := RemoveConsumer(r.pending[i].consumers, tok.consumer.id));
      UpdateMembers(r.pending, i, v);
      assert r.pending[i] in r.pending;
    }
  }

  lemma RetiredAfterSettle(r: Renderer, h: SettleHandle, other: SettleHandle, failed: set<nat>, hidden: set<string>)
    requires Retired(r, h)
    ensures Retired(Settle(r, other, failed, hidden).0, h)
  {
    if IsCurrent(r.pending, other.key, other.renderId) {
      var err := SettleError(|failed|, |other.tiles|);
      assert FinishRender(r.pending, other.key, other.renderId, err).0 == Delete(r.pending, other.key);
    }
  }

  lemma RetiredAfterFilterForZoom(r: Renderer, h: SettleHandle, zoom: real)
    requires Retired(r, h)
    ensures Retired(FilterForZoom(r, zoom).0, h)
  {
  }

  /** A zoom change retires every handle issued so far. */
  lemma FilterForZoomRetiresAll(r: Renderer, h: SettleHandle, zoom: real)
    requires h.renderId <= r.nextRenderId && zoom != r.painter.filterZoom
    ensures Retired(FilterForZoom(r, zoom).0, h)
  {
  }

  /** A callback that composites or clears retires its own render. */
  lemma SettleRetiresItself(r: Renderer, h: SettleHandle, failed: set<nat>, hidden: set<string>)
    requires Valid(r) && IsCurrent(r.pending, h.key, h.renderId)
    requires |h.tiles| - |failed| == 0
             || RegisterRoles(r.style, r.pending[Find(r.pending, h.key).value].tiles, h.tiles, Roles(r.style.layers, hidden)).1
    ensures Retired(Settle(r, h, failed, hidden).0, h)
  {
    var i := Find(r.pending, h.key).value;
    assert r.pending[i] in r.pending;
    var err := SettleError(|failed|, |h.tiles|);
    assert FinishRender(r.pending, h.key, h.renderId, err).0 == Delete(r.pending, h.key);
    forall p | p in Delete(r.pending, h.key)
      ensures p.renderId != h.renderId
    {
      assert p in r.pending && p.key != r.pending[i].key;
    }
  }
}
