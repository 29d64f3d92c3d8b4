/** What `STEP_Reader::AddColors` records for one exportable unit. The
    reader's imperative `AddColors` is proved equal to `ResolvedColors` in
    module `StepReader`. */
module ColorResolver {
  import opened Wrappers
  import opened Kernel

  /** Default colour of a face nobody coloured (grey). */
  const DefaultFaceColor: Color := Rgba(0.55, 0.55, 0.6, 1.0)

  /** Default colour of an edge nobody coloured (white). */
  const DefaultWireColor: Color := Rgba(1.0, 1.0, 1.0, 1.0)

  /** One colour recorded on a unit. */
  datatype ColorEntry = ColorEntry(entity: Handle, color: Color)

  /** An exportable unit: the shape it wraps and the colours added to it, in
      the order they were added. */
  datatype IShape = IShape(shape: Shape, colors: seq<ColorEntry>)
  {
    /** `IShape::IsFaceSet`: solids and shells as opposed to wires and edges. */
    predicate IsFaceSet()
    {
      shape.isFaceSet
    }

    /** Records one more colour; the colour store of an IShape is an
        ordered, append-only list of entries. */
    function AddColor(entity: Handle, color: Color): IShape
    {
      this.(colors := colors + [ColorEntry(entity, color)])
    }
  }

  /** `ColorTool::GetColor(entity, role, out color)`: the colour if one is set. */
  function GetColor(tool: ColorTool, entity: Handle, role: ColorRole): Option<Color>
  {
    var key := ColorKey(entity, role);
    if key in tool.colors then Some(tool.colors[key]) else None
  }

  /** The priority chain: a specific colour, else an inherited one, else the default. */
  function Pick(specific: Option<Color>, inherited: Option<Color>, default: Color): Color
  {
    if specific.Some? then specific.value else if inherited.Some? then inherited.value else default
  }

  /** Colour of a face of a face-set unit: face colour, else the unit's own
      surface colour, else grey. */
  function FaceColor(tool: ColorTool, unit: Shape, face: Handle): Color
  {
    Pick(GetColor(tool, face, ColorSurf), GetColor(tool, unit.handle, ColorSurf), DefaultFaceColor)
  }

  /** Colour of an edge inside a wire: edge colour, else wire colour, else white. */
  function WireEdgeColor(tool: ColorTool, wire: WireEntry, edge: Handle): Color
  {
    Pick(GetColor(tool, edge, ColorCurv), GetColor(tool, wire.handle, ColorCurv), DefaultWireColor)
  }

  /** Colour of a free edge: edge colour, else white; no wire level applies. */
  function FreeEdgeColor(tool: ColorTool, edge: Handle): Color
  {
    Pick(GetColor(tool, edge, ColorCurv), None, DefaultWireColor)
  }

  /** One entry per explored face, in exploration order. */
  function FaceColors(tool: ColorTool, unit: Shape): seq<ColorEntry>
  {
    seq(|unit.faces|, i requires 0 <= i < |unit.faces| =>
      ColorEntry(unit.faces[i], FaceColor(tool, unit, unit.faces[i])))
  }

  /** One entry per edge of one wire, in exploration order. */
  function EdgeColorsOfWire(tool: ColorTool, wire: WireEntry): seq<ColorEntry>
  {
    seq(|wire.edges|, i requires 0 <= i < |wire.edges| =>
      ColorEntry(wire.edges[i], WireEdgeColor(tool, wire, wire.edges[i])))
  }

  /** The entries for the edges of `wires`, wire after wire. */
  function WireColors(tool: ColorTool, wires: seq<WireEntry>): seq<ColorEntry>
    decreases |wires|
  {
    if wires == [] then []
    else WireColors(tool, wires[..|wires| - 1]) + EdgeColorsOfWire(tool, wires[|wires| - 1])
  }

  /** One entry per free edge, in exploration order. */
  function FreeEdgeColors(tool: ColorTool, unit: Shape): seq<ColorEntry>
  {
    seq(|unit.freeEdges|, i requires 0 <= i < |unit.freeEdges| =>
      ColorEntry(unit.freeEdges[i], FreeEdgeColor(tool, unit.freeEdges[i])))
  }

  /** The entities a list of entries colours, in order. */
  function Entities(cs: seq<ColorEntry>): seq<Handle>
  {
    seq(|cs|, i requires 0 <= i < |cs| => cs[i].entity)
  }

  /** The edges of `wires`, wire after wire. */
  function WireEdges(wires: seq<WireEntry>): seq<Handle>
    decreases |wires|
  {
    if wires == [] then [] else WireEdges(wires[..|wires| - 1]) + wires[|wires| - 1].edges
  }

  /** What the explorers visit: the faces of a face set; the edges of each
      wire and then the free edges of a wire set. */
  function Explored(unit: Shape): seq<Handle>
  {
    if unit.isFaceSet then unit.faces else WireEdges(unit.wires) + unit.freeEdges
  }

  /** `cs` has exactly one entry per entity the explorers visit in `unit`,
      in the order they visit them. */
  predicate CoversInOrder(cs: seq<ColorEntry>, unit: Shape)
  {
    Entities(cs) == Explored(unit)
  }

  /** Everything `AddColors` adds to a unit built on `unit` when colour is on. */
  function ResolvedColors(tool: ColorTool, unit: Shape): seq<ColorEntry>
  {
    if unit.isFaceSet then FaceColors(tool, unit)
    else WireColors(tool, unit.wires) + FreeEdgeColors(tool, unit)
  }

  /** The resolved colours cover the explored entities one for one, in
      exploration order: faces for a face set; wire edges, then free edges,
      for a wire set. */
  lemma ExploredInOrder(tool: ColorTool, unit: Shape)
    ensures CoversInOrder(ResolvedColors(tool, unit), unit)
  {
    WireEntities(tool, unit.wires);
    EntitiesAppend(WireColors(tool, unit.wires), FreeEdgeColors(tool, unit));
  }

  lemma EntitiesAppend(a: seq<ColorEntry>, b: seq<ColorEntry>)
    ensures Entities(a + b) == Entities(a) + Entities(b)
  {
  }

  lemma {:induction false} WireEntities(tool: ColorTool, wires: seq<WireEntry>)
    ensures Entities(WireColors(tool, wires)) == WireEdges(wires)
    decreases |wires|
  {
    if wires != [] {
      var init := wires[..|wires| - 1];
      WireEntities(tool, init);
      EntitiesAppend(WireColors(tool, init), EdgeColorsOfWire(tool, wires[|wires| - 1]));
    }
  }

  /** The number of edges over all of `wires`. */
  function EdgeTotal(wires: seq<WireEntry>): nat
    decreases |wires|
  {
    if wires == [] then 0 else EdgeTotal(wires[..|wires| - 1]) + |wires[|wires| - 1].edges|
  }

  /** Priority law: a colour set on the entity itself always wins; the
      inherited colour wins only when the entity has none; the default only
      when neither is set. A missing colour is never an error. This unfolds
      `Pick` and Dafny needs no proof for it; the proved facts are
      `FaceSetColors`, `WireColorsAt`, `WireSetColors` and the equality of
      the reader's `AddColors` with `ResolvedColors`. */
  lemma PickPriority(specific: Option<Color>, inherited: Option<Color>, default: Color)
    ensures specific.Some? ==> Pick(specific, inherited, default) == specific.value
    ensures specific.None? && inherited.Some? ==> Pick(specific, inherited, default) == inherited.value
    ensures specific.None? && inherited.None? ==> Pick(specific, inherited, default) == default
  {
  }

  /** A face set gets exactly one entry per explored face: entry `j` is for
      face `j` and carries face colour over solid colour over grey. */
  lemma FaceSetColors(tool: ColorTool, unit: Shape, j: nat)
    requires unit.isFaceSet && j < |unit.faces|
    ensures |ResolvedColors(tool, unit)| == |unit.faces|
    ensures ResolvedColors(tool, unit)[j].entity == unit.faces[j]
    ensures var face := unit.faces[j];
      ResolvedColors(tool, unit)[j].color ==
        if ColorKey(face, ColorSurf) in tool.colors then tool.colors[ColorKey(face, ColorSurf)]
        else if ColorKey(unit.handle, ColorSurf) in tool.colors then tool.colors[ColorKey(unit.handle, ColorSurf)]
        else DefaultFaceColor
  {
  }

  /** The wire entries: exactly one per edge of each wire, laid out wire
      after wire; the entry for edge `k` of wire `w` carries edge colour over
      that wire's colour over white. */
  lemma {:induction false} WireColorsAt(tool: ColorTool, wires: seq<WireEntry>, w: nat, k: nat)
    requires w < |wires| && k < |wires[w].edges|
    ensures |WireColors(tool, wires)| == EdgeTotal(wires)
    ensures EdgeTotal(wires[..w]) + k < EdgeTotal(wires)
    ensures WireColors(tool, wires)[EdgeTotal(wires[..w]) + k]
      == ColorEntry(wires[w].edges[k], WireEdgeColor(tool, wires[w], wires[w].edges[k]))
    decreases |wires|
  {
    var n := |wires| - 1;
    var init := wires[..n];
    WireColorsLength(tool, init);
    if w < n {
      assert init[..w] == wires[..w];
      WireColorsAt(tool, init, w, k);
    } else {
      assert wires[..w] == init;
    }
  }

  lemma {:induction false} WireColorsLength(tool: ColorTool, wires: seq<WireEntry>)
    ensures |WireColors(tool, wires)| == EdgeTotal(wires)
    decreases |wires|
  {
    if wires != [] {
      WireColorsLength(tool, wires[..|wires| - 1]);
    }
  }

  /** A wire set gets the wire entries first and then exactly one entry per
      free edge, carrying edge colour over white. */
  lemma WireSetColors(tool: ColorTool, unit: Shape, j: nat)
    requires !unit.isFaceSet && j < |unit.freeEdges|
    ensures |ResolvedColors(tool, unit)| == EdgeTotal(unit.wires) + |unit.freeEdges|
    ensures var e := unit.freeEdges[j];
      ResolvedColors(tool, unit)[EdgeTotal(unit.wires) + j] ==
        ColorEntry(e, if ColorKey(e, ColorCurv) in tool.colors then tool.colors[ColorKey(e, ColorCurv)]
                      else DefaultWireColor)
  {
    WireColorsLength(tool, unit.wires);
  }
}
