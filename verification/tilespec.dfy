/** Render requests: tile placements in the composition plane, the draw spec that
    maps a rectangle of that plane onto a caller's target, their translation-free
    canonical form, and the tile-set identity key (renderer.js `_canonicalizeSpec`
    and `_tileSpecToString`). Coordinates are integers. */
module TileSpec {
  import opened Common
  import opened Text

  /** One source tile and its placement: `{source, z, x, y, left, top, size}`. */
  datatype TileSpecEntry = TileSpecEntry(source: string, z: int, x: int, y: int, left: int, top: int, size: int)

  /** `{srcLeft, srcTop, width, height, destLeft, destTop}` */
  datatype DrawSpec = DrawSpec(srcLeft: int, srcTop: int, width: int, height: int, destLeft: int, destTop: int)

  /** A caller's request as stored in a pending render: `{ctx, drawSpec, tilesSpec, next}`.
      `id` stands for the object identity the source compares with `indexOf`;
      `target` names the caller's 2D context; `next` is the notification effect. */
  datatype Consumer = Consumer(id: nat, target: nat, draw: DrawSpec, tiles: seq<TileSpecEntry>)

  datatype Canonical = Canonical(tiles: seq<TileSpecEntry>, draw: DrawSpec)

  function Left(e: TileSpecEntry): int { e.left }
  function Top(e: TileSpecEntry): int { e.top }

  function Lefts(ts: seq<TileSpecEntry>): seq<int> { MapSeq(Left, ts) }
  function Tops(ts: seq<TileSpecEntry>): seq<int> { MapSeq(Top, ts) }

  function ShiftEntry(e: TileSpecEntry, dl: int, dt: int): TileSpecEntry
  {
    e.(left := e.left - dl, top := e.top - dt)
  }

  function Shift(ts: seq<TileSpecEntry>, dl: int, dt: int): (r: seq<TileSpecEntry>)
    ensures |r| == |ts|
    ensures forall i :: 0 <= i < |ts| ==> r[i] == ShiftEntry(ts[i], dl, dt)
  {
    seq(|ts|, i requires 0 <= i < |ts| => ShiftEntry(ts[i], dl, dt))
  }

  /** The same placements moved by `(dx, dy)`, and a draw spec moved with them. */
  function Translate(ts: seq<TileSpecEntry>, dx: int, dy: int): seq<TileSpecEntry>
  {
    Shift(ts, -dx, -dy)
  }

  function TranslateDraw(ds: DrawSpec, dx: int, dy: int): DrawSpec
  {
    ds.(srcLeft := ds.srcLeft + dx, srcTop := ds.srcTop + dy)
  }

  /** Moves the origin to the smallest `left` and smallest `top` among the entries
      and moves `srcLeft`/`srcTop` of the draw spec by the same amounts. For an
      empty list the source subtracts `Infinity`; the model then keeps the draw
      spec as it is. */
  function Canonicalize(ts: seq<TileSpecEntry>, ds: DrawSpec): (c: Canonical)
    ensures c.tiles == Shift(ts, ds.srcLeft - c.draw.srcLeft, ds.srcTop - c.draw.srcTop)
    ensures c.draw.(srcLeft := ds.srcLeft, srcTop := ds.srcTop) == ds
    ensures |ts| == 0 ==> c.draw == ds
  {
    match (MinOf(Lefts(ts)), MinOf(Tops(ts)))
    case (Some(minLeft), Some(minTop)) =>
      Canonical(Shift(ts, minLeft, minTop), ds.(srcLeft := ds.srcLeft - minLeft, srcTop := ds.srcTop - minTop))
    case _ =>
      Canonical(ts, ds)
  }

  lemma ShiftByMinimumIsZero(ts: seq<TileSpecEntry>, l: int, t: int)
    requires MinOf(Lefts(ts)) == Some(l) && MinOf(Tops(ts)) == Some(t)
    ensures forall i :: 0 <= i < |ts| ==> Shift(ts, l, t)[i].left >= 0 && Shift(ts, l, t)[i].top >= 0
    ensures exists i :: 0 <= i < |ts| && Shift(ts, l, t)[i].left == 0
    ensures exists j :: 0 <= j < |ts| && Shift(ts, l, t)[j].top == 0
  {
    var tiles := Shift(ts, l, t);
    var i :| 0 <= i < |ts| && Lefts(ts)[i] == l;
    var j :| 0 <= j < |ts| && Tops(ts)[j] == t;
    assert tiles[i].left == 0;
    assert tiles[j].top == 0;
    forall k | 0 <= k < |ts|
      ensures tiles[k].left >= 0 && tiles[k].top >= 0
    {
      assert Lefts(ts)[k] >= l && Tops(ts)[k] >= t;
    }
  }

  /** After canonicalization the smallest `left` and the smallest `top` are 0. */
  lemma CanonicalMinimaAreZero(ts: seq<TileSpecEntry>, ds: DrawSpec)
    requires |ts| > 0
    ensures MinOf(Lefts(Canonicalize(ts, ds).tiles)) == Some(0)
    ensures MinOf(Tops(Canonicalize(ts, ds).tiles)) == Some(0)
  {
    CanonicalizeIsCanonical(ts, ds);
    var tiles := Canonicalize(ts, ds).tiles;
    var i :| 0 <= i < |ts| && tiles[i].left == 0;
    var j :| 0 <= j < |ts| && tiles[j].top == 0;
    LeftsMinimumZero(tiles, i);
    TopsMinimumZero(tiles, j);
  }

  lemma LeftsMinimumZero(tiles: seq<TileSpecEntry>, i: nat)
    requires i < |tiles| && tiles[i].left == 0
    requires forall k :: 0 <= k < |tiles| ==> tiles[k].left >= 0
    ensures MinOf(Lefts(tiles)) == Some(0)
  {
    var ls := Lefts(tiles);
    assert ls[i] == 0;
    MinOfUnique(ls, 0);
  }

  lemma TopsMinimumZero(tiles: seq<TileSpecEntry>, j: nat)
    requires j < |tiles| && tiles[j].top == 0
    requires forall k :: 0 <= k < |tiles| ==> tiles[k].top >= 0
    ensures MinOf(Tops(tiles)) == Some(0)
  {
    var tps := Tops(tiles);
    assert tps[j] == 0;
    MinOfUnique(tps, 0);
  }

  /** The seven fields of an entry's string, in template order. */
  function EntryFields(e: TileSpecEntry): seq<string>
  {
    [e.source, IntToString(e.z), IntToString(e.x), IntToString(e.y),
     IntToString(e.left), IntToString(e.top), IntToString(e.size)]
  }

  /** `${source} ${z} ${x} ${y} ${left} ${top} ${size}`: the fields separated by
      single spaces. The source name comes first, followed by a space. */
  function EntryKey(e: TileSpecEntry): (k: string)
    ensures |k| > |e.source| && k[..|e.source| + 1] == e.source + " "
  {
    var f := EntryFields(e);
    assert Join(f, " ") == f[0] + " " + Join(f[1..], " ");
    Join(f, " ")
  }

  /** The numbers print without spaces, so two entries whose source names have
      no space get the same string only when they are the same entry. A source
      name with a space can make two different entries collide. */
  lemma EntryKeyInjective(e1: TileSpecEntry, e2: TileSpecEntry)
    requires ' ' !in e1.source && ' ' !in e2.source
    requires EntryKey(e1) == EntryKey(e2)
    ensures e1 == e2
  {
    var f1, f2 := EntryFields(e1), EntryFields(e2);
    EntryFieldsHaveNoSpace(e1);
    EntryFieldsHaveNoSpace(e2);
    JoinSpaceInjective(f1, f2);
    IntToStringInjective(e1.z, e2.z);
    IntToStringInjective(e1.x, e2.x);
    IntToStringInjective(e1.y, e2.y);
    IntToStringInjective(e1.left, e2.left);
    IntToStringInjective(e1.top, e2.top);
    IntToStringInjective(e1.size, e2.size);
  }

  /** With a space-free source name, none of the seven fields has a space. */
  lemma EntryFieldsHaveNoSpace(e: TileSpecEntry)
    requires ' ' !in e.source
    ensures |EntryFields(e)| == 7
    ensures forall k :: 0 <= k < 7 ==> ' ' !in EntryFields(e)[k]
  {
    var f := EntryFields(e);
    forall k | 1 <= k < 7
      ensures ' ' !in f[k]
    {
      IntegerFieldHasNoSpace(f[k]);
    }
  }

  lemma IntegerFieldHasNoSpace(s: string)
    requires |s| > 0 && forall k :: 1 <= k < |s| ==> IsDigit(s[k])
    requires s[0] == '-' || IsDigit(s[0])
    ensures ' ' !in s
  {
    if ' ' in s {
      var k :| 0 <= k < |s| && s[k] == ' ';
    }
  }

  /** The tile-set ID: entry strings, sorted, joined with a space. It is the
      join of the one sorted arrangement of the entry strings, so it depends on
      the entries and not on their order. */
  function TileSetKey(ts: seq<TileSpecEntry>): (k: string)
    ensures exists ks :: Sorted(ks) && multiset(ks) == multiset(MapSeq(EntryKey, ts)) && k == Join(ks, " ")
  {
    Join(Sort(MapSeq(EntryKey, ts)), " ")
  }

  /** Over source names without spaces, the tile-set ID determines the tile
      set: two lists with the same ID hold the same entries, each as often.
      So a request joins another's render only when it asks for the same
      tiles. */
  lemma TileSetKeyInjective(a: seq<TileSpecEntry>, b: seq<TileSpecEntry>)
    requires forall i :: 0 <= i < |a| ==> ' ' !in a[i].source
    requires forall i :: 0 <= i < |b| ==> ' ' !in b[i].source
    requires TileSetKey(a) == TileSetKey(b)
    ensures multiset(a) == multiset(b)
  {
    var ka, kb := Sort(MapSeq(EntryKey, a)), Sort(MapSeq(EntryKey, b));
    SortedKeysAreWords(a);
    SortedKeysAreWords(b);
    JoinWordsInjective(ka, kb, 7);
    EntriesFromKeys(a, b);
  }

  /** Over space-free source names, the multiset of entry strings determines
      the multiset of entries. */
  lemma EntriesFromKeys(a: seq<TileSpecEntry>, b: seq<TileSpecEntry>)
    requires forall i :: 0 <= i < |a| ==> ' ' !in a[i].source
    requires forall i :: 0 <= i < |b| ==> ' ' !in b[i].source
    requires multiset(MapSeq(EntryKey, a)) == multiset(MapSeq(EntryKey, b))
    ensures multiset(a) == multiset(b)
  {
    forall e | e in a || e in b
      ensures multiset(a)[e] == multiset(b)[e]
    {
      var i :| (0 <= i < |a| && a[i] == e) || (0 <= i < |b| && b[i] == e);
      KeyCountIsEntryCount(a, e);
      KeyCountIsEntryCount(b, e);
    }
    assert forall e :: multiset(a)[e] == multiset(b)[e];
  }

  /** Every string of the sorted list is seven space-free words: the fields of
      one of the entries. */
  lemma SortedKeysAreWords(ts: seq<TileSpecEntry>)
    requires forall i :: 0 <= i < |ts| ==> ' ' !in ts[i].source
    ensures forall m :: 0 <= m < |Sort(MapSeq(EntryKey, ts))| ==>
              |Sort(MapSeq(EntryKey, ts))[m]| > 0 && Words(Sort(MapSeq(EntryKey, ts))[m], 7)
  {
    var keys := MapSeq(EntryKey, ts);
    var ks := Sort(keys);
    forall m | 0 <= m < |ks|
      ensures |ks[m]| > 0 && Words(ks[m], 7)
    {
      assert ks[m] in multiset(ks);
      assert ks[m] in keys;
      var i :| 0 <= i < |keys| && keys[i] == ks[m];
      EntryFieldsHaveNoSpace(ts[i]);
      assert ks[m] == Join(EntryFields(ts[i]), " ");
    }
  }

  /** Counting an entry's string among the strings of space-free entries
      counts the entry itself. */
  lemma KeyCountIsEntryCount(ts: seq<TileSpecEntry>, e: TileSpecEntry)
    requires forall i :: 0 <= i < |ts| ==> ' ' !in ts[i].source
    requires ' ' !in e.source
    ensures multiset(MapSeq(EntryKey, ts))[EntryKey(e)] == multiset(ts)[e]
  {
    forall i | 0 <= i < |ts| && EntryKey(ts[i]) == EntryKey(e)
      ensures ts[i] == e
    {
      EntryKeyInjective(ts[i], e);
    }
    CountThroughMap(EntryKey, ts, e);
  }

  /** The key a request is filed under once canonicalized: the key of the
      entries moved so that their smallest `left` and `top` are 0, whatever the
      draw spec; an empty request is filed under the empty string. */
  function RequestKey(ts: seq<TileSpecEntry>, ds: DrawSpec): (k: string)
    ensures |ts| == 0 ==> k == ""
    ensures |ts| > 0 ==> k == TileSetKey(Shift(ts, MinOf(Lefts(ts)).value, MinOf(Tops(ts)).value))
  {
    TileSetKey(Canonicalize(ts, ds).tiles)
  }

  /** The key does not depend on the order of the entries. */
  lemma TileSetKeyReorderInvariant(a: seq<TileSpecEntry>, b: seq<TileSpecEntry>)
    requires multiset(a) == multiset(b)
    ensures TileSetKey(a) == TileSetKey(b)
  {
    MapSeqMultiset(EntryKey, a, b);
    SortReorderInvariant(MapSeq(EntryKey, a), MapSeq(EntryKey, b));
  }

  lemma MinOfTranslate(xs: seq<int>, ys: seq<int>, d: int)
    requires |xs| == |ys| > 0
    requires forall i :: 0 <= i < |xs| ==> ys[i] == xs[i] + d
    ensures MinOf(ys) == Some(MinOf(xs).value + d)
  {
    var m := MinOf(xs).value;
    var i :| 0 <= i < |xs| && xs[i] == m;
    assert ys[i] == m + d;
    assert m + d in ys;
    MinOfUnique(ys, m + d);
  }

  lemma ShiftCompose(ts: seq<TileSpecEntry>, a: int, b: int, c: int, d: int)
    ensures Shift(Shift(ts, a, b), c, d) == Shift(ts, a + c, b + d)
  {
  }

  /** What canonicalization promises: the entries moved by one common offset, the
      draw spec's source corner moved by the same offset, and the smallest `left`
      and `top` at 0. */
  ghost predicate IsCanonicalOf(ts: seq<TileSpecEntry>, ds: DrawSpec, c: Canonical)
  {
    && |ts| > 0
    && c.tiles == Shift(ts, ds.srcLeft - c.draw.srcLeft, ds.srcTop - c.draw.srcTop)
    && c.draw.(srcLeft := ds.srcLeft, srcTop := ds.srcTop) == ds
    && (forall i :: 0 <= i < |ts| ==> c.tiles[i].left >= 0 && c.tiles[i].top >= 0)
    && (exists i :: 0 <= i < |ts| && c.tiles[i].left == 0)
    && (exists j :: 0 <= j < |ts| && c.tiles[j].top == 0)
  }

  /** Both canonical forms put their leftmost entry at 0, so they moved the
      draw spec's `srcLeft` to the same place. */
  lemma CanonicalSrcLeftAgrees(ts: seq<TileSpecEntry>, ds: DrawSpec, dx: int, dy: int, c1: Canonical, c2: Canonical)
    requires IsCanonicalOf(Translate(ts, dx, dy), TranslateDraw(ds, dx, dy), c1)
    requires IsCanonicalOf(ts, ds, c2)
    ensures c1.draw.srcLeft == c2.draw.srcLeft
  {
    var i1 :| 0 <= i1 < |ts| && c1.tiles[i1].left == 0;
    var i2 :| 0 <= i2 < |ts| && c2.tiles[i2].left == 0;
    var moved := Translate(ts, dx, dy);
    assert c1.tiles[i1].left == moved[i1].left - (ds.srcLeft + dx - c1.draw.srcLeft) == ts[i1].left + c1.draw.srcLeft - ds.srcLeft;
    assert c1.tiles[i2].left == moved[i2].left - (ds.srcLeft + dx - c1.draw.srcLeft) == ts[i2].left + c1.draw.srcLeft - ds.srcLeft;
    assert c2.tiles[i1].left >= 0 && c1.tiles[i2].left >= 0;
  }

  lemma CanonicalSrcTopAgrees(ts: seq<TileSpecEntry>, ds: DrawSpec, dx: int, dy: int, c1: Canonical, c2: Canonical)
    requires IsCanonicalOf(Translate(ts, dx, dy), TranslateDraw(ds, dx, dy), c1)
    requires IsCanonicalOf(ts, ds, c2)
    ensures c1.draw.srcTop == c2.draw.srcTop
  {
    var j1 :| 0 <= j1 < |ts| && c1.tiles[j1].top == 0;
    var j2 :| 0 <= j2 < |ts| && c2.tiles[j2].top == 0;
    var moved := Translate(ts, dx, dy);
    assert c1.tiles[j1].top == moved[j1].top - (ds.srcTop + dy - c1.draw.srcTop) == ts[j1].top + c1.draw.srcTop - ds.srcTop;
    assert c1.tiles[j2].top == moved[j2].top - (ds.srcTop + dy - c1.draw.srcTop) == ts[j2].top + c1.draw.srcTop - ds.srcTop;
    assert c2.tiles[j1].top >= 0 && c1.tiles[j2].top >= 0;
  }

  /** Canonical forms of two requests that differ by a translation coincide. */
  lemma CanonicalFormsCoincide(ts: seq<TileSpecEntry>, ds: DrawSpec, dx: int, dy: int, c1: Canonical, c2: Canonical)
    requires IsCanonicalOf(Translate(ts, dx, dy), TranslateDraw(ds, dx, dy), c1)
    requires IsCanonicalOf(ts, ds, c2)
    ensures c1 == c2
  {
    CanonicalSrcLeftAgrees(ts, ds, dx, dy, c1, c2);
    CanonicalSrcTopAgrees(ts, ds, dx, dy, c1, c2);
    ShiftCompose(ts, -dx, -dy, ds.srcLeft + dx - c1.draw.srcLeft, ds.srcTop + dy - c1.draw.srcTop);
  }

  /** A request translated as a whole canonicalizes to exactly the same tiles and
      draw spec: the offset is absorbed. */
  lemma CanonicalizeIsCanonical(ts: seq<TileSpecEntry>, ds: DrawSpec)
    requires |ts| > 0
    ensures IsCanonicalOf(ts, ds, Canonicalize(ts, ds))
  {
    var l := MinOf(Lefts(ts)).value;
    var t := MinOf(Tops(ts)).value;
    CanonicalizeOffsets(ts, ds);
    ShiftByMinimumIsZero(ts, l, t);
  }

  lemma CanonicalizeOffsets(ts: seq<TileSpecEntry>, ds: DrawSpec)
    requires |ts| > 0
    ensures Canonicalize(ts, ds).draw.srcLeft == ds.srcLeft - MinOf(Lefts(ts)).value
    ensures Canonicalize(ts, ds).draw.srcTop == ds.srcTop - MinOf(Tops(ts)).value
  {
  }

  lemma CanonicalizeTranslationInvariant(ts: seq<TileSpecEntry>, ds: DrawSpec, dx: int, dy: int)
    requires |ts| > 0
    ensures Canonicalize(Translate(ts, dx, dy), TranslateDraw(ds, dx, dy)) == Canonicalize(ts, ds)
  {
    var moved := Translate(ts, dx, dy);
    var mds := TranslateDraw(ds, dx, dy);
    CanonicalizeIsCanonical(moved, mds);
    CanonicalizeIsCanonical(ts, ds);
    CanonicalFormsCoincide(ts, ds, dx, dy, Canonicalize(moved, mds), Canonicalize(ts, ds));
  }

  /** Reordering the entries reorders the canonical tiles and leaves the canonical
      draw spec unchanged. */
  lemma ShiftMultiset(a: seq<TileSpecEntry>, b: seq<TileSpecEntry>, dl: int, dt: int)
    requires multiset(a) == multiset(b)
    ensures multiset(Shift(a, dl, dt)) == multiset(Shift(b, dl, dt))
  {
    var f := (e: TileSpecEntry) => ShiftEntry(e, dl, dt);
    assert Shift(a, dl, dt) == MapSeq(f, a);
    assert Shift(b, dl, dt) == MapSeq(f, b);
    MapSeqMultiset(f, a, b);
  }

  /** The canonical draw spec depends on the entries only through the minima. */
  lemma CanonicalDrawFromMinima(a: seq<TileSpecEntry>, b: seq<TileSpecEntry>, ds: DrawSpec)
    requires MinOf(Lefts(a)) == MinOf(Lefts(b)) && MinOf(Tops(a)) == MinOf(Tops(b))
    ensures Canonicalize(a, ds).draw == Canonicalize(b, ds).draw
  {
  }

  lemma MinimaReorder(a: seq<TileSpecEntry>, b: seq<TileSpecEntry>)
    requires multiset(a) == multiset(b)
    ensures MinOf(Lefts(a)) == MinOf(Lefts(b)) && MinOf(Tops(a)) == MinOf(Tops(b))
  {
    MapSeqMultiset(Left, a, b);
    MapSeqMultiset(Top, a, b);
    MinOfMultiset(Lefts(a), Lefts(b));
    MinOfMultiset(Tops(a), Tops(b));
  }

  lemma CanonicalizeReorder(a: seq<TileSpecEntry>, b: seq<TileSpecEntry>, ds: DrawSpec)
    requires multiset(a) == multiset(b)
    ensures multiset(Canonicalize(a, ds).tiles) == multiset(Canonicalize(b, ds).tiles)
    ensures Canonicalize(a, ds).draw == Canonicalize(b, ds).draw
    ensures forall i, j :: 0 <= i < |a| && 0 <= j < |b| && a[i] == b[j] ==>
              Canonicalize(a, ds).tiles[i] == Canonicalize(b, ds).tiles[j]
  {
    CanonicalDrawReorder(a, b, ds);
    CanonicalTilesReorder(a, b, ds);
    CanonicalizePointwise(a, b, ds);
  }

  lemma CanonicalizePointwise(a: seq<TileSpecEntry>, b: seq<TileSpecEntry>, ds: DrawSpec)
    requires Canonicalize(a, ds).draw == Canonicalize(b, ds).draw
    ensures forall i, j :: 0 <= i < |a| && 0 <= j < |b| && a[i] == b[j] ==>
              Canonicalize(a, ds).tiles[i] == Canonicalize(b, ds).tiles[j]
  {
    var ca, cb := Canonicalize(a, ds), Canonicalize(b, ds);
    var dl, dt := ds.srcLeft - ca.draw.srcLeft, ds.srcTop - ca.draw.srcTop;
    ShiftPointwise(a, b, dl, dt);
  }

  /** One shift moves equal entries to equal places. */
  lemma ShiftPointwise(a: seq<TileSpecEntry>, b: seq<TileSpecEntry>, dl: int, dt: int)
    ensures forall i, j :: 0 <= i < |a| && 0 <= j < |b| && a[i] == b[j] ==> Shift(a, dl, dt)[i] == Shift(b, dl, dt)[j]
  {
  }


  lemma CanonicalDrawReorder(a: seq<TileSpecEntry>, b: seq<TileSpecEntry>, ds: DrawSpec)
    requires multiset(a) == multiset(b)
    ensures Canonicalize(a, ds).draw == Canonicalize(b, ds).draw
  {
    MinimaReorder(a, b);
    CanonicalDrawFromMinima(a, b, ds);
  }

  lemma CanonicalTilesReorder(a: seq<TileSpecEntry>, b: seq<TileSpecEntry>, ds: DrawSpec)
    requires multiset(a) == multiset(b)
    ensures multiset(Canonicalize(a, ds).tiles) == multiset(Canonicalize(b, ds).tiles)
  {
    MinimaReorder(a, b);
    if |a| == 0 {
      assert |b| == |multiset(b)| == 0;
    } else {
      assert |b| == |multiset(b)| == |a|;
      var l, t := MinOf(Lefts(a)).value, MinOf(Tops(a)).value;
      assert Canonicalize(a, ds).tiles == Shift(a, l, t);
      assert Canonicalize(b, ds).tiles == Shift(b, l, t);
      ShiftMultiset(a, b, l, t);
    }
  }

  /** Two requests whose tile lists differ by a uniform translation and by order
      get the same identity key, whatever their draw specs. */
  lemma RequestKeyTranslationReorderInvariant(a: seq<TileSpecEntry>, b: seq<TileSpecEntry>,
                                               da: DrawSpec, db: DrawSpec, dx: int, dy: int)
    requires multiset(b) == multiset(Translate(a, dx, dy))
    ensures RequestKey(a, da) == RequestKey(b, db)
  {
    var moved := Translate(a, dx, dy);
    if |a| > 0 {
      CanonicalizeTranslationInvariant(a, da, dx, dy);
    } else {
      assert moved == a;
    }
    assert Canonicalize(moved, TranslateDraw(da, dx, dy)).tiles == Canonicalize(a, da).tiles;
    CanonicalizeReorder(moved, b, db);
    assert Canonicalize(moved, db).tiles == Canonicalize(moved, TranslateDraw(da, dx, dy)).tiles;
    TileSetKeyReorderInvariant(Canonicalize(moved, db).tiles, Canonicalize(b, db).tiles);
  }
}
