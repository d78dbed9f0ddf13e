/** The style the renderer draws with (src/basic/style.js): layers in style order,
    the stylesheet entry each layer was built from, and the source caches that
    `addSource` registers under `other:<id>` and, for vector and GeoJSON sources,
    `symbol:<id>`. The base `Style` class is not part of this model; its layer
    setters are modelled as plain updates of the layer's properties. */
module Styles {
  import opened Common

  /** The stylesheet entry of a layer: `minzoom_`, `maxzoom_` and `source`, each
      possibly absent. */
  datatype LayerSheet = LayerSheet(minzoom: Option<real>, maxzoom: Option<real>, source: Option<string>)

  /** A style layer. `sheet` is what looking the layer up by id in the stylesheet
      yields (`None` when it is not found). */
  datatype StyleLayer = StyleLayer(
    id: string,
    ltype: string,
    layout: map<string, string>,
    paint: map<string, string>,
    filter: Option<string>,
    sheet: Option<LayerSheet>)

  /** A `BasicSourceCache`: its id in `_sourceCaches`, the source id it serves and
      whether it holds only symbol layers. */
  datatype SourceCache = SourceCache(id: string, source: string, onlySymbols: bool)

  /** The part of a source definition `addSource` reads: its `type`. */
  datatype SourceDef = SourceDef(stype: Option<string>)

  /** `layers` is `_order` (and the keys of `_layers`, in the same order);
      `caches` is `_sourceCaches` in insertion order. */
  datatype Style = Style(
    loaded: bool,
    layers: seq<StyleLayer>,
    caches: seq<SourceCache>,
    symbolCaches: map<string, SourceCache>,
    otherCaches: map<string, SourceCache>,
    changed: bool)

  datatype AddError = NotLoaded | DuplicateSource | MissingType

  /** What `addSource` does: throw, return early after reporting validation
      errors, or register the source. */
  datatype AddResult = Thrown(error: AddError) | Invalid | Added(style: Style)

  const BuiltIns: seq<string> := ["vector", "raster", "geojson", "video", "image"]

  function CacheId(onlySymbols: bool, id: string): string
  {
    (if onlySymbols then "symbol:" else "other:") + id
  }

  /** `_sourceCaches[id]` */
  function FindCache(caches: seq<SourceCache>, id: string): (r: Option<SourceCache>)
    ensures r.Some? ==> r.value in caches && r.value.id == id
    ensures r.None? ==> forall c :: c in caches ==> c.id != id
  {
    if |caches| == 0 then None
    else if caches[0].id == id then Some(caches[0])
    else FindCache(caches[1..], id)
  }

  /** `_sourceCaches[c.id] = c`: overwrites an entry with the same id in place,
      or appends one. */
  function PutCache(caches: seq<SourceCache>, c: SourceCache): (r: seq<SourceCache>)
  {
    if |caches| == 0 then [c]
    else if caches[0].id == c.id then [c] + caches[1..]
    else [caches[0]] + PutCache(caches[1..], c)
  }

  lemma {:induction false} PutCacheFound(caches: seq<SourceCache>, c: SourceCache, id: string)
    ensures FindCache(PutCache(caches, c), id) == if id == c.id then Some(c) else FindCache(caches, id)
  {
    if |caches| != 0 && caches[0].id != c.id {
      PutCacheFound(caches[1..], c, id);
    }
  }

  /** With no entry of that id present, the assignment appends. */
  lemma {:induction false} PutCacheFresh(caches: seq<SourceCache>, c: SourceCache)
    requires forall x :: x in caches ==> x.id != c.id
    ensures PutCache(caches, c) == caches + [c]
  {
    if |caches| != 0 {
      PutCacheFresh(caches[1..], c);
      assert caches == [caches[0]] + caches[1..];
    }
  }

  /** No two caches share an id. */
  ghost predicate IdsUnique(caches: seq<SourceCache>)
  {
    forall i, j :: 0 <= i < j < |caches| ==> caches[i].id != caches[j].id
  }

  /** Every cache sits in `_sourceCaches` under `symbol:` or `other:` followed by
      its source id. */
  ghost predicate Filed(caches: seq<SourceCache>)
  {
    forall c :: c in caches ==> c.id == CacheId(c.onlySymbols, c.source)
  }

  /** Every cache is the entry of its kind's map for its source, every map entry
      is a cache of that kind for that source, and a symbol cache exists only
      beside an `other:` one. */
  ghost predicate MapsAgree(st: Style)
  {
    && (forall c :: c in st.caches && c.onlySymbols ==> c.source in st.symbolCaches && st.symbolCaches[c.source] == c)
    && (forall c :: c in st.caches && !c.onlySymbols ==> c.source in st.otherCaches && st.otherCaches[c.source] == c)
    && (forall s :: s in st.otherCaches ==> st.otherCaches[s] in st.caches && !st.otherCaches[s].onlySymbols
                                             && st.otherCaches[s].source == s)
    && (forall s :: s in st.symbolCaches ==> st.symbolCaches[s] in st.caches && st.symbolCaches[s].onlySymbols
                                              && st.symbolCaches[s].source == s && s in st.otherCaches)
  }

  /** The registration invariant. */
  ghost predicate WellFormed(st: Style)
  {
    IdsUnique(st.caches) && Filed(st.caches) && MapsAgree(st)
  }

  /** `getSource(id) !== undefined` */
  predicate HasSource(st: Style, id: string)
  {
    id in st.otherCaches
  }

  function Register(st: Style, id: string, onlySymbols: bool): Style
  {
    var c := SourceCache(CacheId(onlySymbols, id), id, onlySymbols);
    if onlySymbols then st.(caches := PutCache(st.caches, c), symbolCaches := st.symbolCaches[id := c])
    else st.(caches := PutCache(st.caches, c), otherCaches := st.otherCaches[id := c])
  }

  predicate HasSymbolCaches(stype: string)
  {
    stype == "vector" || stype == "geojson"
  }

  /** `BasicStyle.addSource`. `invalid` is the verdict of the style validator on
      the definition, which is consulted only for built-in source types. */
  function AddSource(st: Style, id: string, src: SourceDef, invalid: bool): (r: AddResult)
    ensures !st.loaded ==> r == Thrown(NotLoaded)
    ensures st.loaded && HasSource(st, id) ==> r == Thrown(DuplicateSource)
    ensures st.loaded && !HasSource(st, id) && (src.stype.None? || src.stype.value == "") ==> r == Thrown(MissingType)
    ensures r == Invalid <==> st.loaded && !HasSource(st, id) && src.stype.Some? && src.stype.value in BuiltIns && invalid
    ensures r.Added? <==> && st.loaded && !HasSource(st, id) && src.stype.Some? && src.stype.value != ""
                          && !(src.stype.value in BuiltIns && invalid)
    ensures r.Added? ==>
              && r.style.otherCaches == st.otherCaches[id := SourceCache("other:" + id, id, false)]
              && r.style.symbolCaches == (if HasSymbolCaches(src.stype.value)
                                          then st.symbolCaches[id := SourceCache("symbol:" + id, id, true)]
                                          else st.symbolCaches)
              && r.style.layers == st.layers && r.style.loaded && r.style.changed
  {
    if !st.loaded then Thrown(NotLoaded)
    else if HasSource(st, id) then Thrown(DuplicateSource)
    else if src.stype.None? || src.stype.value == "" then Thrown(MissingType)
    else if src.stype.value in BuiltIns && invalid then Invalid
    else Added(RegisterBoth(st, id, HasSymbolCaches(src.stype.value)).(changed := true))
  }

  /** Registering a cache whose id is not taken yet, for a source that has no
      cache of that kind, keeps the invariant. */
  lemma WellFormedRegister(st: Style, id: string, onlySymbols: bool)
    requires WellFormed(st)
    requires forall c :: c in st.caches ==> c.id != CacheId(onlySymbols, id)
    requires onlySymbols ==> id in st.otherCaches && id !in st.symbolCaches
    requires !onlySymbols ==> id !in st.otherCaches
    ensures WellFormed(Register(st, id, onlySymbols))
    ensures Register(st, id, onlySymbols).caches == st.caches + [SourceCache(CacheId(onlySymbols, id), id, onlySymbols)]
  {
    var c := SourceCache(CacheId(onlySymbols, id), id, onlySymbols);
    PutCacheFresh(st.caches, c);
    AppendKeepsIdsUnique(st.caches, c);
    AppendKeepsFiled(st.caches, c);
    RegisterKeepsMaps(st, id, onlySymbols);
  }

  lemma AppendKeepsIdsUnique(caches: seq<SourceCache>, c: SourceCache)
    requires IdsUnique(caches) && forall x :: x in caches ==> x.id != c.id
    ensures IdsUnique(caches + [c])
  {
    var cs := caches + [c];
    forall i, j | 0 <= i < j < |cs|
      ensures cs[i].id != cs[j].id
    {
      if j == |caches| {
        assert cs[i] in caches;
      }
    }
  }

  lemma AppendKeepsFiled(caches: seq<SourceCache>, c: SourceCache)
    requires Filed(caches) && c.id == CacheId(c.onlySymbols, c.source)
    ensures Filed(caches + [c])
  {
  }

  lemma RegisterKeepsMaps(st: Style, id: string, onlySymbols: bool)
    requires MapsAgree(st)
    requires forall c :: c in st.caches ==> c.id != CacheId(onlySymbols, id)
    requires onlySymbols ==> id in st.otherCaches && id !in st.symbolCaches
    requires !onlySymbols ==> id !in st.otherCaches
    ensures MapsAgree(Register(st, id, onlySymbols))
  {
    var c := SourceCache(CacheId(onlySymbols, id), id, onlySymbols);
    PutCacheFresh(st.caches, c);
  }

  lemma CacheIdInjective(onlySymbols: bool, x: string, y: string)
    ensures CacheId(onlySymbols, x) == CacheId(onlySymbols, y) ==> x == y
  {
    var n := |CacheId(onlySymbols, "")|;
    assert CacheId(onlySymbols, x)[n..] == x && CacheId(onlySymbols, y)[n..] == y;
  }

  /** No cache is filed under `other:<id>` or `symbol:<id>` while the source is
      unknown. */
  lemma UnknownSourceHasNoCaches(st: Style, id: string, onlySymbols: bool)
    requires WellFormed(st) && !HasSource(st, id)
    ensures forall c :: c in st.caches ==> c.id != CacheId(onlySymbols, id)
    ensures id !in st.symbolCaches
  {
    forall c | c in st.caches
      ensures c.id != CacheId(onlySymbols, id)
    {
      if c.onlySymbols != onlySymbols {
        assert c.id[0] != CacheId(onlySymbols, id)[0];
      } else {
        CacheIdInjective(onlySymbols, c.source, id);
      }
    }
  }

  /** A successful add keeps the registration invariant, makes the source known,
      and leaves `_sourceCaches` holding `other:<id>` always and `symbol:<id>`
      exactly for vector and GeoJSON sources, appended after every cache
      registered before. */
  lemma AddSourceRegisters(st: Style, id: string, src: SourceDef, invalid: bool)
    requires WellFormed(st)
    requires AddSource(st, id, src, invalid).Added?
    ensures var st' := AddSource(st, id, src, invalid).style;
            && WellFormed(st')
            && HasSource(st', id)
            && st'.caches == st.caches + [SourceCache("other:" + id, id, false)]
                             + (if HasSymbolCaches(src.stype.value) then [SourceCache("symbol:" + id, id, true)] else [])
  {
    RegisterSource(st, id, HasSymbolCaches(src.stype.value));
  }

  /** `addSourceCache(false)`, then `addSourceCache(true)` when `symbols`. */
  function RegisterBoth(st: Style, id: string, symbols: bool): Style
  {
    var withOther := Register(st, id, false);
    if symbols then Register(withOther, id, true) else withOther
  }

  lemma RegisterSource(st: Style, id: string, symbols: bool)
    requires WellFormed(st) && !HasSource(st, id)
    ensures var both := RegisterBoth(st, id, symbols);
            && WellFormed(both)
            && HasSource(both, id)
            && both.caches == st.caches + [SourceCache("other:" + id, id, false)]
                              + (if symbols then [SourceCache("symbol:" + id, id, true)] else [])
  {
    UnknownSourceHasNoCaches(st, id, false);
    UnknownSourceHasNoCaches(st, id, true);
    var withOther := Register(st, id, false);
    WellFormedRegister(st, id, false);
    if symbols {
      OtherIsNotSymbol(id);
      FreshAfterAppend(st.caches, SourceCache(CacheId(false, id), id, false), CacheId(true, id));
      WellFormedRegister(withOther, id, true);
      assert RegisterBoth(st, id, symbols) == Register(withOther, id, true);
    } else {
      assert RegisterBoth(st, id, symbols) == withOther;
    }
  }

  lemma FreshAfterAppend(caches: seq<SourceCache>, c: SourceCache, id: string)
    requires forall x :: x in caches ==> x.id != id
    requires c.id != id
    ensures forall x :: x in caches + [c] ==> x.id != id
  {
  }

  lemma OtherIsNotSymbol(id: string)
    ensures "other:" + id != "symbol:" + id
  {
    assert ("other:" + id)[0] != ("symbol:" + id)[0];
  }

  /** After a successful add, looking up `other:<id>` finds the new cache, and
      `symbol:<id>` is found exactly for vector and GeoJSON sources. */
  lemma AddSourceFindsCaches(st: Style, id: string, src: SourceDef, invalid: bool)
    requires WellFormed(st)
    requires AddSource(st, id, src, invalid).Added?
    ensures var st' := AddSource(st, id, src, invalid).style;
            && FindCache(st'.caches, "other:" + id) == Some(SourceCache("other:" + id, id, false))
            && (FindCache(st'.caches, "symbol:" + id).Some? <==> HasSymbolCaches(src.stype.value))
  {
    var other := SourceCache("other:" + id, id, false);
    var symbol := SourceCache("symbol:" + id, id, true);
    UnknownSourceHasNoCaches(st, id, true);
    OtherIsNotSymbol(id);
    var withOther := Register(st, id, false);
    PutCacheFound(st.caches, other, "other:" + id);
    PutCacheFound(st.caches, other, "symbol:" + id);
    assert FindCache(st.caches, "symbol:" + id).None?;
    if HasSymbolCaches(src.stype.value) {
      PutCacheFound(withOther.caches, symbol, "other:" + id);
      PutCacheFound(withOther.caches, symbol, "symbol:" + id);
    }
  }

  /** A queued style change: `setPaintProperty`, `setLayoutProperty` or
      `setFilter` of the base style. */
  datatype ConfigChange =
    | SetPaint(layer: string, prop: string, value: string)
    | SetLayout(layer: string, prop: string, value: string)
    | SetFilter(layer: string, filter: Option<string>)

  function ChangeLayer(l: StyleLayer, ch: ConfigChange): StyleLayer
  {
    match ch
    case SetPaint(_, prop, value) => l.(paint := l.paint[prop := value])
    case SetLayout(_, prop, value) => l.(layout := l.layout[prop := value])
    case SetFilter(_, filter) => l.(filter := filter)
  }

  /** The base style's setter: changes the layer with the named id; a name that
      matches no layer changes nothing. */
  function ApplyChange(st: Style, ch: ConfigChange): (r: Style)
    ensures |r.layers| == |st.layers|
    ensures forall i :: 0 <= i < |st.layers| ==>
              r.layers[i] == if st.layers[i].id == ch.layer then ChangeLayer(st.layers[i], ch) else st.layers[i]
    ensures r.caches == st.caches && r.loaded == st.loaded
  {
    st.(layers := seq(|st.layers|, i requires 0 <= i < |st.layers| =>
           if st.layers[i].id == ch.layer then ChangeLayer(st.layers[i], ch) else st.layers[i]))
  }

  /** The changes applied one after the other, first to last. */
  function ApplyAll(st: Style, chs: seq<ConfigChange>): (r: Style)
    ensures r.caches == st.caches && r.loaded == st.loaded
    ensures |r.layers| == |st.layers|
  {
    if |chs| == 0 then st else ApplyChange(ApplyAll(st, chs[..|chs| - 1]), chs[|chs| - 1])
  }

  ghost predicate LayerIdsUnique(layers: seq<StyleLayer>)
  {
    forall i, j :: 0 <= i < j < |layers| ==> layers[i].id != layers[j].id
  }

  function Visibility(id: string, names: seq<string>): string
  {
    if id in names then "visible" else "none"
  }

  /** `BasicStyle.setLayers`: one `setLayoutProperty(name, 'visibility', …)` call
      per layer, in layer order, and the style once they have taken effect. */
  function SetLayers(st: Style, names: seq<string>): (r: (seq<ConfigChange>, Style))
    ensures |r.0| == |st.layers|
    ensures forall i :: 0 <= i < |st.layers| ==>
              && r.0[i].SetLayout? && r.0[i].layer == st.layers[i].id && r.0[i].prop == "visibility"
              && (r.0[i].value == "visible" <==> st.layers[i].id in names)
              && (r.0[i].value == "none" <==> st.layers[i].id !in names)
  {
    var calls := seq(|st.layers|, i requires 0 <= i < |st.layers| =>
                       SetLayout(st.layers[i].id, "visibility", Visibility(st.layers[i].id, names)));
    (calls, ApplyAll(st, calls))
  }

  /** Applying the first `j` visibility calls has set the visibility of exactly
      the first `j` layers. */
  lemma {:induction false} VisibilityPrefix(st: Style, names: seq<string>, j: nat)
    requires LayerIdsUnique(st.layers) && j <= |st.layers|
    ensures var r := ApplyAll(st, SetLayers(st, names).0[..j]);
            forall i :: 0 <= i < |st.layers| ==>
              r.layers[i] == if i < j then ChangeLayer(st.layers[i], SetLayers(st, names).0[i]) else st.layers[i]
  {
    var calls := SetLayers(st, names).0;
    if j > 0 {
      VisibilityPrefix(st, names, j - 1);
      var prev := ApplyAll(st, calls[..j - 1]);
      var ch := calls[j - 1];
      assert calls[..j][..j - 1] == calls[..j - 1];
      assert ApplyAll(st, calls[..j]) == ApplyChange(prev, ch);
      forall i | 0 <= i < |st.layers|
        ensures ApplyChange(prev, ch).layers[i]
                == if i < j then ChangeLayer(st.layers[i], calls[i]) else st.layers[i]
      {
        assert prev.layers[i].id == st.layers[i].id;
        assert ch.layer == st.layers[j - 1].id;
        assert prev.layers[i].id == ch.layer <==> i == j - 1;
      }
    }
  }

  /** After `setLayers`, a layer is visible exactly when its name was listed and
      hidden otherwise; its other layout properties, paint and filter, the layer
      order and the caches are untouched. */
  lemma SetLayersVisibility(st: Style, names: seq<string>)
    requires LayerIdsUnique(st.layers)
    ensures var r := SetLayers(st, names).1;
            && |r.layers| == |st.layers| && r.caches == st.caches
            && forall i :: 0 <= i < |st.layers| ==>
                 && r.layers[i].id == st.layers[i].id
                 && r.layers[i].layout == st.layers[i].layout["visibility" := Visibility(st.layers[i].id, names)]
                 && (r.layers[i].layout["visibility"] == "visible" <==> st.layers[i].id in names)
                 && r.layers[i].paint == st.layers[i].paint
                 && r.layers[i].filter == st.layers[i].filter
                 && r.layers[i].ltype == st.layers[i].ltype
                 && r.layers[i].sheet == st.layers[i].sheet
  {
    var calls := SetLayers(st, names).0;
    VisibilityPrefix(st, names, |st.layers|);
    assert calls[..|st.layers|] == calls;
  }
}
