/** The style-change sequencer of the renderer (renderer.js 144-181): every
    setter queues its change and takes the next config number, and only the
    continuation holding the most recent number applies the queue, after
    cancelling every pending render. */
module Config {
  import opened Common
  import opened Styles
  import opened Registry
  import opened Renderer
  import opened Invariants

  /** What a setter hands back: with `exec` the number its promise waits on;
      without, the thunk that takes a number when it is called. */
  datatype Ticket = Call(id: nat) | Thunk

  /** `setPaintProperty`, `setLayoutProperty` or `setFilter` with its `exec` flag. */
  function Enqueue(r: Renderer, ch: ConfigChange, exec: bool): (out: (Renderer, Ticket))
    ensures out.0.queue == r.queue + [ch]
    ensures exec ==> out.0.configId == r.configId + 1 && out.1 == Call(out.0.configId)
    ensures !exec ==> out.0.configId == r.configId && out.1 == Thunk
    ensures out.0 == r.(queue := out.0.queue, configId := out.0.configId)
  {
    var queued := r.(queue := r.queue + [ch]);
    if exec then (queued.(configId := r.configId + 1), Call(r.configId + 1))
    else (queued, Thunk)
  }

  /** Calling a thunk returned for `exec = false`: only now is a number taken. */
  function InvokeThunk(r: Renderer): (out: (Renderer, nat))
    ensures out.0 == r.(configId := r.configId + 1)
    ensures out.1 == out.0.configId
  {
    (r.(configId := r.configId + 1), r.configId + 1)
  }

  /** `ConfigApplied` for each change, in queue order. */
  function AppliedAll(chs: seq<ConfigChange>): (r: seq<Effect>)
    ensures |r| == |chs| && forall k :: 0 <= k < |chs| ==> r[k] == ConfigApplied(chs[k])
  {
    seq(|chs|, k requires 0 <= k < |chs| => ConfigApplied(chs[k]))
  }

  /** The continuation of `_processConfigQueue(id)` once the style has loaded:
      a superseded number resolves to false and does nothing; the current one
      cancels every pending render, runs the queued changes first to last,
      updates the style at the camera zoom, fires "configChanged" and resolves
      to true. */
  function OnReady(r: Renderer, id: nat): (out: (Renderer, bool, seq<Effect>))
    ensures out.1 <==> id == r.configId
    ensures !out.1 ==> out.0 == r && out.2 == []
    ensures out.1 ==> && out.0 == r.(pending := [], queue := [], style := ApplyAll(r.style, r.queue))
                      && |out.2| >= |r.queue| + 2
                      && out.2[|out.2| - 2..] == [StyleUpdated(r.zoom), ConfigChangedFired]
  {
    if r.configId != id then (r, false, [])
    else
      var (reg, canceled) := CancelAll(r.pending, r.style.caches);
      (r.(pending := reg, queue := [], style := ApplyAll(r.style, r.queue)),
       true,
       canceled + AppliedAll(r.queue) + [StyleUpdated(r.zoom), ConfigChangedFired])
  }

  /** The effects of the winning continuation: every pending render canceled,
      then the queued changes in order, then the style update and the event. */
  lemma OnReadyEffects(r: Renderer, id: nat)
    requires id == r.configId && KeysUnique(r.pending)
    ensures OnReady(r, id).2
            == NotifyAll(r.pending, Canceled) + InvalidateAll(r.style.caches) + AppliedAll(r.queue)
               + [StyleUpdated(r.zoom), ConfigChangedFired]
  {
    CancelAllNotifiesAll(r.pending, r.style.caches);
  }

  /** A run of setters called with `exec = true`: the renderer afterwards and
      the number each promise waits on. */
  function EnqueueAll(r: Renderer, chs: seq<ConfigChange>): (out: (Renderer, seq<nat>))
    ensures |out.1| == |chs|
    ensures out.0 == r.(queue := r.queue + chs, configId := r.configId + |chs|)
    ensures forall k :: 0 <= k < |chs| ==> out.1[k] == r.configId + k + 1
    decreases |chs|
  {
    if |chs| == 0 then (r, [])
    else
      var (r1, t) := Enqueue(r, chs[0], true);
      var (r2, ids) := EnqueueAll(r1, chs[1..]);
      assert r.queue + chs == r.queue + [chs[0]] + chs[1..];
      (r2, [t.id] + ids)
  }

  /** The continuations run in the order the promises were made (they all wait
      on the same `loadedPromise`): the run up to the last number, then the
      last. */
  function ResolveAll(r: Renderer, ids: seq<nat>): (out: (Renderer, seq<bool>, seq<Effect>))
    ensures |out.1| == |ids|
    ensures out.0.configId == r.configId
    ensures forall k :: 0 <= k < |ids| ==> (out.1[k] <==> ids[k] == r.configId)
    decreases |ids|
  {
    if |ids| == 0 then (r, [], [])
    else
      var (r1, bs, es) := ResolveAll(r, ids[..|ids| - 1]);
      var (r2, b, e) := OnReady(r1, ids[|ids| - 1]);
      (r2, bs + [b], es + e)
  }

  /** The numbers handed to a run of setters, below the current one, resolve to
      false and change nothing. */
  lemma {:induction false} SupersededResolveFalse(r: Renderer, ids: seq<nat>)
    requires forall k :: 0 <= k < |ids| ==> ids[k] < r.configId
    ensures var out := ResolveAll(r, ids);
            && out.0 == r && out.2 == []
            && forall k :: 0 <= k < |ids| ==> !out.1[k]
    decreases |ids|
  {
    if |ids| > 0 {
      SupersededResolveFalse(r, ids[..|ids| - 1]);
    }
  }

  /** Debouncing: after `n > 0` setters with `exec = true`, the promises resolve
      false for all but the last, which resolves true; the style ends up with
      every queued change applied once, first to last, and the queue is empty. */
  lemma OnlyLastConfigApplies(r: Renderer, chs: seq<ConfigChange>)
    requires |chs| > 0
    ensures var (r1, ids) := EnqueueAll(r, chs);
            var (r2, results, _) := ResolveAll(r1, ids);
            && |results| == |chs|
            && (forall k :: 0 <= k < |chs| - 1 ==> !results[k])
            && results[|chs| - 1]
            && r2.style == ApplyAll(r.style, r.queue + chs)
            && r2.queue == [] && r2.pending == []
  {
    var (r1, ids) := EnqueueAll(r, chs);
    LastNumberWins(r1, ids);
  }

  /** Resolving numbers of which only the last is current. */
  lemma LastNumberWins(r: Renderer, ids: seq<nat>)
    requires |ids| > 0 && ids[|ids| - 1] == r.configId
    requires forall k :: 0 <= k < |ids| - 1 ==> ids[k] < r.configId
    ensures var (r2, results, _) := ResolveAll(r, ids);
            && (forall k :: 0 <= k < |ids| - 1 ==> !results[k])
            && results[|ids| - 1]
            && r2.style == ApplyAll(r.style, r.queue)
            && r2.queue == [] && r2.pending == []
  {
    var early := ids[..|ids| - 1];
    SupersededResolveFalse(r, early);
  }

  /** A deferred change takes its number only when the thunk is called: calling
      it after an immediate setter makes the thunk's continuation the winner. */
  lemma ThunkCalledLastWins(r: Renderer, deferred: ConfigChange, immediate: ConfigChange)
    ensures var (r1, t1) := Enqueue(r, deferred, false);
            var (r2, t2) := Enqueue(r1, immediate, true);
            var (r3, id) := InvokeThunk(r2);
            && t1 == Thunk
            && !OnReady(r3, t2.id).1
            && OnReady(r3, id).1
            && OnReady(r3, id).0.style == ApplyAll(r.style, r.queue + [deferred, immediate])
  {
    var (r1, _) := Enqueue(r, deferred, false);
    assert r1.queue + [immediate] == r.queue + [deferred, immediate];
  }

  /** The winning continuation keeps the renderer valid. */
  lemma ValidOnReady(r: Renderer, id: nat)
    requires Valid(r)
    ensures Valid(OnReady(r, id).0)
  {
  }

  /** After the winning continuation, no handle issued so far can act. */
  lemma OnReadyRetiresAll(r: Renderer, h: SettleHandle, id: nat)
    requires h.renderId <= r.nextRenderId && id == r.configId
    ensures Retired(OnReady(r, id).0, h)
  {
  }
}
