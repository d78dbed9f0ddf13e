/** `BasicPainter` (src/basic/painter.js): the painter keeps the zoom the renderer
    filters layers for, and skips a layer whose stylesheet entry puts that zoom
    outside `[minzoom_, maxzoom_)`. A bound counts only when it is truthy, so an
    absent bound and a bound of 0 both leave that side open. */
module Painter {
  import opened Common
  import opened Styles

  datatype BasicPainter = BasicPainter(filterZoom: real)

  /** The zoom a new painter filters for. */
  const DefaultFilterZoom: real := 15.0

  function NewPainter(): (p: BasicPainter)
    ensures p.filterZoom == 15.0
  {
    BasicPainter(DefaultFilterZoom)
  }

  /** JavaScript truthiness of a numeric bound: present and not 0. */
  predicate Truthy(b: Option<real>)
  {
    b.Some? && b.value != 0.0
  }

  /** The layer is drawn at zoom `z`: below a set upper bound and not below a set
      lower bound, with no restriction when there is no stylesheet entry. */
  predicate DrawnAt(sheet: Option<LayerSheet>, z: real)
  {
    sheet.None?
    || (&& (sheet.value.minzoom.None? || sheet.value.minzoom.value == 0.0 || sheet.value.minzoom.value <= z)
        && (sheet.value.maxzoom.None? || sheet.value.maxzoom.value == 0.0 || z < sheet.value.maxzoom.value))
  }

  /** `renderLayer(painter, sourceCache, layer, coords)`: either nothing, or the
      delegation to the base painter with the same arguments and `true` added.
      `sheet` is the layer's stylesheet entry, `None` when the layer or the entry
      is missing. */
  function RenderLayer<A>(p: BasicPainter, sheet: Option<LayerSheet>, args: A): (r: Option<(A, bool)>)
    ensures r.Some? <==> DrawnAt(sheet, p.filterZoom)
    ensures r.Some? ==> r.value == (args, true)
  {
    if sheet.Some? && Truthy(sheet.value.minzoom) && p.filterZoom < sheet.value.minzoom.value then None
    else if sheet.Some? && Truthy(sheet.value.maxzoom) && p.filterZoom >= sheet.value.maxzoom.value then None
    else Some((args, true))
  }

  /** The upper bound is exclusive: at exactly `maxzoom_` the layer is skipped,
      and just below it, if `minzoom_` allows, it is drawn. */
  lemma UpperBoundExclusive<A>(p: BasicPainter, sheet: LayerSheet, args: A)
    requires Truthy(sheet.maxzoom)
    ensures p.filterZoom == sheet.maxzoom.value ==> RenderLayer(p, Some(sheet), args).None?
    ensures p.filterZoom < sheet.maxzoom.value && (!Truthy(sheet.minzoom) || sheet.minzoom.value <= p.filterZoom)
            ==> RenderLayer(p, Some(sheet), args) == Some((args, true))
  {
  }

  /** Absent bounds, bounds of 0 and a missing stylesheet entry never skip a
      layer. */
  lemma NoBoundsNoFilter<A>(p: BasicPainter, sheet: Option<LayerSheet>, args: A)
    requires sheet.Some? ==> !Truthy(sheet.value.minzoom) && !Truthy(sheet.value.maxzoom)
    ensures RenderLayer(p, sheet, args) == Some((args, true))
  {
  }
}
