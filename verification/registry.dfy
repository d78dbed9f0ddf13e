/** The pending-render registry (renderer.js 259-278, 317-332): a map from
    tile-set key to the render in flight for it, kept as a sequence in the map's
    insertion order. Calls into tiles, caches and consumers are recorded as
    effects, in the order they are made. */
module Registry {
  import opened Common
  import opened TileSpec
  import opened Styles
  import opened Compositing

  /** `new OverscaledTileID(z, 0, z, x, y, 0)`, reduced to what distinguishes it. */
  datatype TileId = TileId(z: int, x: int, y: int)

  /** What `acquireTile(tileID, size)` of the cache named `cache` hands out. */
  datatype TileHandle = TileHandle(cache: string, tile: TileId, size: int)

  /** `{tileSetID, renderId, tiles, consumers}` */
  datatype PendingRender = PendingRender(key: string, renderId: nat, tiles: seq<TileHandle>, consumers: seq<Consumer>)

  /** The token `renderTiles` returns: `{renderId, consumer, tiles, tileSetID}`. */
  datatype RenderToken = RenderToken(renderId: nat, consumer: Consumer, tiles: seq<TileHandle>, key: string)

  /** The value passed to a consumer's `next`: `null`, `"<k> of <n> tiles not
      available"`, `"canceled"` or `"fully-canceled"`. */
  datatype Outcome = Done | TilesUnavailable(failed: nat, total: nat) | Canceled | FullyCanceled

  /** Calls the renderer makes on things outside it. */
  datatype Effect =
    | Acquired(handle: TileHandle)
    | UseAdded(handle: TileHandle)
    | Released(handle: TileHandle)
    | Notified(consumer: nat, outcome: Outcome)
    | Cleared(target: nat, left: int, top: int, width: int, height: int)
    | RenderingReset
    | TileMetaSet(handle: TileHandle, size: int, left: int, top: int)
    | RenderingPushed(cache: string, handle: TileHandle)
    | Composited(step: CompositeStep)
    | Invalidated(cache: string)
    | ZoomSet(zoom: real)
    | StyleUpdated(zoom: real)
    | ConfigApplied(change: ConfigChange)
    | ConfigChangedFired

  type Registry = seq<PendingRender>

  ghost predicate KeysUnique(reg: Registry)
  {
    forall i, j :: 0 <= i < j < |reg| ==> reg[i].key != reg[j].key
  }

  /** `_pendingRenders.get(key)`, as the position of the entry. */
  function Find(reg: Registry, key: string): (r: Option<nat>)
    ensures r.Some? ==> r.value < |reg| && reg[r.value].key == key
                        && forall k :: 0 <= k < r.value ==> reg[k].key != key
    ensures r.None? <==> forall k :: 0 <= k < |reg| ==> reg[k].key != key
  {
    if |reg| == 0 then None
    else if reg[0].key == key then Some(0)
    else match Find(reg[1..], key)
      case None => None
      case Some(i) => Some(i + 1)
  }

  /** `_pendingRenders.delete(key)`: the other entries keep their order. */
  function Delete(reg: Registry, key: string): (r: Registry)
    ensures forall p :: p in r <==> p in reg && p.key != key
    ensures |r| <= |reg|
  {
    if |reg| == 0 then []
    else if reg[0].key == key then Delete(reg[1..], key)
    else [reg[0]] + Delete(reg[1..], key)
  }

  /** Deleting works entry by entry: what survives of a registry split in two
      is what survives of each half, in the same order, and a single entry
      survives exactly when its key differs. */
  lemma {:induction false} DeleteKeepsOrder(a: Registry, b: Registry, key: string)
    ensures Delete(a + b, key) == Delete(a, key) + Delete(b, key)
    ensures |a| == 1 ==> Delete(a, key) == if a[0].key == key then [] else [a[0]]
  {
    if |a| == 0 {
      assert a + b == b;
    } else {
      var ab := a + b;
      assert ab[0] == a[0] && ab[1..] == a[1..] + b;
      DeleteKeepsOrder(a[1..], b, key);
      var x, y := Delete(a[1..], key), Delete(b, key);
      if a[0].key != key {
        assert [a[0]] + (x + y) == ([a[0]] + x) + y;
      }
    }
  }

  lemma {:induction false} DeleteAbsent(reg: Registry, key: string)
    requires forall k :: 0 <= k < |reg| ==> reg[k].key != key
    ensures Delete(reg, key) == reg
  {
    if |reg| != 0 {
      DeleteAbsent(reg[1..], key);
      assert reg == [reg[0]] + reg[1..];
    }
  }

  /** Deleting the key of an entry just appended under a fresh key gives back
      the registry as it was. */
  lemma {:induction false} DeleteAppended(reg: Registry, e: PendingRender)
    requires forall k :: 0 <= k < |reg| ==> reg[k].key != e.key
    ensures Delete(reg + [e], e.key) == reg
  {
    if |reg| == 0 {
      assert [e][1..] == [];
    } else {
      assert (reg + [e])[1..] == reg[1..] + [e];
      DeleteAppended(reg[1..], e);
      assert reg == [reg[0]] + reg[1..];
    }
  }

  lemma {:induction false} DeleteKeepsUnique(reg: Registry, key: string)
    requires KeysUnique(reg)
    ensures KeysUnique(Delete(reg, key))
  {
    if |reg| != 0 {
      DeleteKeepsUnique(reg[1..], key);
      var rest := Delete(reg[1..], key);
      if reg[0].key != key {
        forall k | 0 <= k < |rest|
          ensures rest[k].key != reg[0].key
        {
          assert rest[k] in reg[1..];
        }
      }
    }
  }

  /** `consumers.forEach(c => c.next(err))`, in order. */
  function Notify(cs: seq<Consumer>, err: Outcome): (r: seq<Effect>)
    ensures |r| == |cs|
    ensures forall k :: 0 <= k < |cs| ==> r[k] == Notified(cs[k].id, err)
  {
    seq(|cs|, k requires 0 <= k < |cs| => Notified(cs[k].id, err))
  }

  /** The render filed under `key` if it is the one numbered `renderId`. */
  predicate IsCurrent(reg: Registry, key: string, renderId: nat)
  {
    Find(reg, key).Some? && reg[Find(reg, key).value].renderId == renderId
  }

  /** `_finishRender(key, renderId, err)`: when the render is still current,
      every consumer is told `err` once, in attachment order, and the entry is
      dropped; otherwise nothing happens. */
  function FinishRender(reg: Registry, key: string, renderId: nat, err: Outcome): (r: (Registry, seq<Effect>))
    ensures !IsCurrent(reg, key, renderId) ==> r == (reg, [])
    ensures IsCurrent(reg, key, renderId) ==>
              && r.1 == Notify(reg[Find(reg, key).value].consumers, err)
              && Find(r.0, key).None?
              && forall p :: p in r.0 <==> p in reg && p.key != key
  {
    match Find(reg, key)
    case None => (reg, [])
    case Some(i) =>
      if reg[i].renderId != renderId then (reg, [])
      else (Delete(reg, key), Notify(reg[i].consumers, err))
  }

  /** Finishing a render twice is the same as finishing it once. */
  lemma FinishRenderIdempotent(reg: Registry, key: string, renderId: nat, err: Outcome, err': Outcome)
    ensures var (reg1, _) := FinishRender(reg, key, renderId, err);
            FinishRender(reg1, key, renderId, err') == (reg1, [])
  {
  }

  /** The position of the consumer with id `id`, as `indexOf` finds it. */
  function IndexOfConsumer(cs: seq<Consumer>, id: nat): (r: Option<nat>)
    ensures r.Some? ==> r.value < |cs| && cs[r.value].id == id
                        && forall k :: 0 <= k < r.value ==> cs[k].id != id
    ensures r.None? <==> forall k :: 0 <= k < |cs| ==> cs[k].id != id
  {
    if |cs| == 0 then None
    else if cs[0].id == id then Some(0)
    else match IndexOfConsumer(cs[1..], id)
      case None => None
      case Some(i) => Some(i + 1)
  }

  /** `idx !== -1 && consumers.splice(idx, 1)` */
  function RemoveConsumer(cs: seq<Consumer>, id: nat): (r: seq<Consumer>)
    ensures (forall k :: 0 <= k < |cs| ==> cs[k].id != id) ==> r == cs
    ensures (exists k :: 0 <= k < |cs| && cs[k].id == id) ==> |r| == |cs| - 1
    ensures forall c :: c in r ==> c in cs
    ensures forall c :: c in cs && c.id != id ==> c in r
  {
    match IndexOfConsumer(cs, id)
    case None => cs
    case Some(i) => cs[..i] + cs[i + 1..]
  }

  /** `renderRef.tiles.forEach(t => t.cache.releaseTile(t))` */
  function ReleaseAll(ts: seq<TileHandle>): (r: seq<Effect>)
    ensures |r| == |ts|
    ensures forall k :: 0 <= k < |ts| ==> r[k] == Released(ts[k])
  {
    seq(|ts|, k requires 0 <= k < |ts| => Released(ts[k]))
  }

  /** `releaseRender(token)` */
  function ReleaseRender(reg: Registry, tok: RenderToken): (r: (Registry, seq<Effect>))
    ensures |r.1| >= |tok.tiles| && r.1[..|tok.tiles|] == ReleaseAll(tok.tiles)
    ensures !IsCurrent(reg, tok.key, tok.renderId) ==> r == (reg, ReleaseAll(tok.tiles))
    ensures IsCurrent(reg, tok.key, tok.renderId) ==>
              |r.1| > |tok.tiles| && r.1[|tok.tiles|] == Notified(tok.consumer.id, Canceled)
    ensures forall p :: p in r.0 && p.key != tok.key ==> p in reg
  {
    var released := ReleaseAll(tok.tiles);
    match Find(reg, tok.key)
    case None => (reg, released)
    case Some(i) =>
      if reg[i].renderId != tok.renderId then (reg, released)
      else
        var st := reg[i].(consumers := RemoveConsumer(reg[i].consumers, tok.consumer.id));
        var notified := released + [Notified(tok.consumer.id, Canceled)];
        if |st.consumers| == 0 then
          var (reg', fin) := FinishRender(reg[i := st], tok.key, tok.renderId, FullyCanceled);
          (reg', notified + fin)
        else (reg[i := st], notified)
  }

  /** The token's tiles are released once each whatever the registry holds. A
      stale token changes nothing else. A current one tells its consumer
      "canceled" and removes it; if that was the last consumer the render is
      dropped (its remaining consumer list being empty, nobody else hears of
      it), otherwise the render stays with the other consumers in their order. */
  lemma ReleaseRenderEffect(reg: Registry, tok: RenderToken)
    ensures var (reg', eff) := ReleaseRender(reg, tok);
            && |eff| >= |tok.tiles|
            && eff[..|tok.tiles|] == ReleaseAll(tok.tiles)
            && (!IsCurrent(reg, tok.key, tok.renderId) ==> reg' == reg && eff == ReleaseAll(tok.tiles))
            && (IsCurrent(reg, tok.key, tok.renderId) ==>
                  var i := Find(reg, tok.key).value;
                  var rest := RemoveConsumer(reg[i].consumers, tok.consumer.id);
                  && eff == ReleaseAll(tok.tiles) + [Notified(tok.consumer.id, Canceled)]
                  && (|rest| == 0 ==> reg' == Delete(reg[i := reg[i].(consumers := rest)], tok.key))
                  && (|rest| > 0 ==> reg' == reg[i := reg[i].(consumers := rest)]))
  {
    var (reg', eff) := ReleaseRender(reg, tok);
    if IsCurrent(reg, tok.key, tok.renderId) {
      var i := Find(reg, tok.key).value;
      var rest := RemoveConsumer(reg[i].consumers, tok.consumer.id);
      if |rest| == 0 {
        var reg1 := reg[i := reg[i].(consumers := rest)];
        FindAfterUpdate(reg, i, reg[i].(consumers := rest));
        assert Notify(reg1[i].consumers, FullyCanceled) == [];
      }
    }
  }

  /** Replacing an entry by one with the same key and number keeps it findable. */
  lemma FindAfterUpdate(reg: Registry, i: nat, p: PendingRender)
    requires i < |reg| && p.key == reg[i].key && Find(reg, p.key) == Some(i)
    ensures Find(reg[i := p], p.key) == Some(i)
  {
    FindFirst(reg[i := p], p.key, i);
  }

  /** The first entry with the key is the one `get` finds. */
  lemma FindFirst(reg: Registry, key: string, i: nat)
    requires i < |reg| && reg[i].key == key
    requires forall k :: 0 <= k < i ==> reg[k].key != key
    ensures Find(reg, key) == Some(i)
  {
    var j := Find(reg, key).value;
    assert !(j < i) && !(i < j);
  }

  /** `consumers.splice(indexOf(c), 1)` removes just that consumer, or nothing
      when it is not there. */
  lemma RemoveConsumerSpec(cs: seq<Consumer>, id: nat)
    ensures IndexOfConsumer(cs, id).None? ==> RemoveConsumer(cs, id) == cs
    ensures IndexOfConsumer(cs, id).Some? ==>
              |RemoveConsumer(cs, id)| == |cs| - 1
              && multiset(RemoveConsumer(cs, id)) == multiset(cs) - multiset{cs[IndexOfConsumer(cs, id).value]}
              && (forall j :: 0 <= j < IndexOfConsumer(cs, id).value ==> RemoveConsumer(cs, id)[j] == cs[j])
              && (forall j :: IndexOfConsumer(cs, id).value <= j < |cs| - 1 ==> RemoveConsumer(cs, id)[j] == cs[j + 1])
  {
    match IndexOfConsumer(cs, id)
    case None =>
    case Some(i) =>
      MultisetRemoveAt(cs, i);
  }

  /** `_pendingRenders.forEach(s => _finishRender(s.tileSetID, s.renderId,
      "canceled"))`: each entry present when the walk starts is finished against
      the registry as the earlier steps left it. */
  function CancelEach(reg: Registry, todo: seq<PendingRender>): (r: (Registry, seq<Effect>))
    ensures |r.0| <= |reg|
    ensures forall p :: p in r.0 ==> p in reg
    decreases |todo|
  {
    if |todo| == 0 then (reg, [])
    else
      var (reg1, e1) := FinishRender(reg, todo[0].key, todo[0].renderId, Canceled);
      var (reg2, e2) := CancelEach(reg1, todo[1..]);
      (reg2, e1 + e2)
  }

  /** Every consumer of every render, in registry order and attachment order,
      told `err`. */
  function NotifyAll(reg: Registry, err: Outcome): seq<Effect>
  {
    if |reg| == 0 then [] else Notify(reg[0].consumers, err) + NotifyAll(reg[1..], err)
  }

  /** With keys unique, walking the registry finishes every render in turn: each
      consumer hears "canceled" exactly once, renders in insertion order and
      consumers in attachment order, and nothing is left. */
  lemma {:induction false} CancelEachNotifiesAll(reg: Registry)
    requires KeysUnique(reg)
    ensures CancelEach(reg, reg) == ([], NotifyAll(reg, Canceled))
  {
    if |reg| != 0 {
      assert Find(reg, reg[0].key) == Some(0);
      var rest := reg[1..];
      assert forall k :: 0 <= k < |rest| ==> rest[k].key != reg[0].key;
      DeleteAbsent(rest, reg[0].key);
      assert Delete(reg, reg[0].key) == rest;
      assert KeysUnique(rest);
      CancelEachNotifiesAll(rest);
    }
  }

  /** `Object.values(_sourceCaches).forEach(s => s.invalidateAllLoadedTiles())` */
  function InvalidateAll(caches: seq<SourceCache>): (r: seq<Effect>)
    ensures |r| == |caches| && forall k :: 0 <= k < |caches| ==> r[k] == Invalidated(caches[k].id)
  {
    seq(|caches|, k requires 0 <= k < |caches| => Invalidated(caches[k].id))
  }

  /** `_cancelAllPendingRenders`: finish everything with "canceled", clear the
      registry, then invalidate the loaded tiles of every source cache. */
  function CancelAll(reg: Registry, caches: seq<SourceCache>): (r: (Registry, seq<Effect>))
    ensures r.0 == []
  {
    var (_, notified) := CancelEach(reg, reg);
    ([], notified + InvalidateAll(caches))
  }

  /** Cancelling everything tells each consumer "canceled" once, then
      invalidates every cache once. */
  lemma CancelAllNotifiesAll(reg: Registry, caches: seq<SourceCache>)
    requires KeysUnique(reg)
    ensures CancelAll(reg, caches).1 == NotifyAll(reg, Canceled) + InvalidateAll(caches)
  {
    CancelEachNotifiesAll(reg);
  }
}
