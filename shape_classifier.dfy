/** How `STEP_Reader` decides which shapes to skip (`IsEmpty`) and how it
    flattens a shape into exportable units (`GetSubShapes`). The reader's
    imperative `GetSubShapes` is proved equal to `SubShapes` in module
    `StepReader`. */
module ShapeClassifier {
  import opened Kernel

  /** `STEP_Reader::IsEmpty`: a shape is skipped when its handle is null, or
      when it lacks the entities the current mode exports (edges in sketch
      mode, faces otherwise). */
  predicate IsEmpty(s: Shape, sketch: bool)
  {
    s.isNull || (sketch && !s.hasEdge) || (!sketch && !s.hasFace)
  }

  /** What may come out of the classifier: an atomic comp-solid, solid or
      shell, a free-edge compound in sketch mode, or a compound the STEP data
      marks as a solid or surface model (and that is not a free-edge group). */
  predicate IsExportUnit(u: Shape, sketch: bool)
  {
    || u.kind.CompSolid? || u.kind.Solid? || u.kind.Shell?
    || (u.kind.Compound? && u.isFreeEdge && sketch)
    || (u.kind.Compound? && !u.isFreeEdge && (u.isSolidModel || u.isSurfaceModel))
  }

  /** Every shape of `units` is an export unit. */
  predicate AllExportUnits(units: seq<Shape>, sketch: bool)
  {
    forall k :: 0 <= k < |units| ==> IsExportUnit(units[k], sketch)
  }

  /** The exportable units of `s`, in the order `GetSubShapes` pushes them.
      Every unit yielded at any depth is an export unit; in particular no
      free-edge compound survives outside sketch mode. */
  function SubShapes(s: Shape, sketch: bool): (units: seq<Shape>)
    ensures AllExportUnits(units, sketch)
    decreases s, 1, 0
  {
    match s.kind
    case Compound =>
      if s.isFreeEdge then (if sketch then [s] else [])
      else if s.isSolidModel || s.isSurfaceModel then [s]
      else if s.isMappedItem then []
      else ChildUnits(s, sketch, |s.children|)
    case CompSolid => [s]
    case Solid => [s]
    case Shell => [s]
    case _ => []
  }

  /** The units of the first `n` children of `s`, concatenated in order;
      each is an export unit. */
  function ChildUnits(s: Shape, sketch: bool, n: nat): (units: seq<Shape>)
    requires n <= |s.children|
    ensures AllExportUnits(units, sketch)
    decreases s, 0, n
  {
    if n == 0 then [] else ChildUnits(s, sketch, n - 1) + SubShapes(s.children[n - 1], sketch)
  }

  /** Emptiness by mode: a null shape is always skipped; otherwise a shape is
      kept in sketch mode exactly when it has an edge, and outside sketch
      mode exactly when it has a face, whatever it has of the other. */
  lemma EmptinessByMode(s: Shape)
    ensures s.isNull ==> IsEmpty(s, true) && IsEmpty(s, false)
    ensures !s.isNull ==> (!IsEmpty(s, true) <==> s.hasEdge) && (!IsEmpty(s, false) <==> s.hasFace)
    ensures !s.isNull && s.hasEdge && !s.hasFace ==> !IsEmpty(s, true) && IsEmpty(s, false)
  {
  }

  /** The order of the compound checks: a free-edge compound is kept whole in
      sketch mode and dropped otherwise, whatever the STEP data says; then a
      solid- or surface-model compound is one unit and is not descended into,
      whatever its children are; then a mapped item contributes nothing; only
      then are the children classified, their units concatenated in order.
      This unfolds `SubShapes` and Dafny needs no proof for it; the proved
      facts about the classifier are its contract above and the equality of
      the reader's `GetSubShapes` with it. */
  lemma CompoundPrecedence(s: Shape, sketch: bool)
    requires s.kind.Compound?
    ensures s.isFreeEdge ==> SubShapes(s, sketch) == (if sketch then [s] else [])
    ensures !s.isFreeEdge && (s.isSolidModel || s.isSurfaceModel) ==> SubShapes(s, sketch) == [s]
    ensures !s.isFreeEdge && !s.isSolidModel && !s.isSurfaceModel && s.isMappedItem ==>
      SubShapes(s, sketch) == []
    ensures !s.isFreeEdge && !s.isSolidModel && !s.isSurfaceModel && !s.isMappedItem ==>
      SubShapes(s, sketch) == ChildUnits(s, sketch, |s.children|)
  {
  }

  /** Comp-solids, solids and shells are atomic; any other kind that is not
      a compound yields nothing. Like `CompoundPrecedence`, an unfolding of
      `SubShapes` kept as documentation. */
  lemma AtomicKinds(s: Shape, sketch: bool)
    ensures s.kind.CompSolid? || s.kind.Solid? || s.kind.Shell? ==> SubShapes(s, sketch) == [s]
    ensures !(s.kind.Compound? || s.kind.CompSolid? || s.kind.Solid? || s.kind.Shell?) ==>
      SubShapes(s, sketch) == []
  {
  }

  /** `IsEmpty` is asked only of a label's own shape, not of the units the
      classifier takes from it: a non-empty compound of a solid with faces
      and a shell without any yields both, the face-less shell included,
      outside sketch mode. */
  lemma FacelessUnitKept(a: Shape, b: Shape, c: Shape)
    requires a.kind.Solid? && !a.isNull && a.hasFace
    requires b.kind.Shell? && !b.isNull && !b.hasFace
    requires c.kind.Compound? && !c.isNull && c.hasFace && c.children == [a, b]
    requires !c.isFreeEdge && !c.isSolidModel && !c.isSurfaceModel && !c.isMappedItem
    ensures !IsEmpty(c, false) && IsEmpty(b, false)
    ensures SubShapes(c, false) == [a, b]
  {
    assert SubShapes(a, false) == [a] && SubShapes(b, false) == [b];
    assert ChildUnits(c, false, 0) == [];
    assert ChildUnits(c, false, 1) == [a];
    assert ChildUnits(c, false, 2) == [a, b];
  }
}
