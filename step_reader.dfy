/** `STEP_Reader`: the options it reads and updates, the model it fills,
    and its methods, each proved equal to the functions of modules
    `ShapeClassifier`, `ColorResolver` and `Assembly`. */
module StepReader {
  import opened Wrappers
  import opened Kernel
  import opened ShapeClassifier
  import opened ColorResolver
  import opened Names
  import opened Assembly

  /** The four messages `CheckReturnStatus` prints for a failed read. */
  datatype Diagnostic = NotValidStep | ReadingFailed | NothingToTranslate | ReadingStopped

  /** Whether the status means success, and the message printed otherwise. */
  datatype StatusCheck = StatusCheck(done: bool, message: Option<Diagnostic>)

  /** `STEP_Reader::CheckReturnStatus`: only `RetDone` is success; each of
      the four other statuses has its own message. */
  function CheckReturnStatus(status: ReturnStatus): (r: StatusCheck)
    ensures r.done <==> status == RetDone
    ensures r.done <==> r.message.None?
  {
    match status
    case RetDone => StatusCheck(true, None)
    case RetError => StatusCheck(false, Some(NotValidStep))
    case RetFail => StatusCheck(false, Some(ReadingFailed))
    case RetVoid => StatusCheck(false, Some(NothingToTranslate))
    case RetStop => StatusCheck(false, Some(ReadingStopped))
  }

  /** The four failure causes stay distinguishable. */
  lemma DiagnosticsDistinct(a: ReturnStatus, b: ReturnStatus)
    requires a != b && a != RetDone && b != RetDone
    ensures CheckReturnStatus(a).message != CheckReturnStatus(b).message
  {
  }

  /** The kernel stages before the traversal raise this fault, if any: a
      fault of `ReadFile`, or of `Transfer` after a `RetDone` read. */
  function CafFault(file: StepFile): Option<Fault>
  {
    match file.cafRead
    case Raised(f) => Some(f)
    case Completed(status) =>
      if status != RetDone then None
      else match file.cafTransfer
        case Raised(f) => Some(f)
        case Completed(_) => None
  }

  /** What `ReadSTEP` hands back: its boolean result, or a fault that escapes
      it (one raised inside the `Standard_NumericError` handler, which the
      `catch (...)` of the same `try` does not see). */
  datatype ReadResult = Returned(ok: bool) | Propagated(fault: Fault)

  /** `S2X_Option`: the two options this core reads; the reader may switch
      Color off. */
  class Options {
    var sketch: bool
    var color: bool

    constructor(sketch: bool, color: bool)
      ensures this.sketch == sketch && this.color == color
    {
      this.sketch := sketch;
      this.color := color;
    }
  }

  /** The contents of a `Model` as its `IsEmpty` sees them. */
  datatype ModelView = ModelView(comps: seq<Component>, roots: seq<nat>)

  /** `Model`: it owns every component (the arena) and lists the roots. */
  class Model {
    var comps: seq<Component>
    var roots: seq<nat>

    constructor()
      ensures comps == [] && roots == []
    {
      comps := [];
      roots := [];
    }

    function View(): ModelView
      reads this
    {
      ModelView(comps, roots)
    }

    method AddRootComponent(root: nat)
      modifies this
      ensures roots == old(roots) + [root] && comps == old(comps)
    {
      roots := roots + [root];
    }

    /** `Model::Clear`: releases every component. */
    method Clear()
      modifies this
      ensures comps == [] && roots == []
    {
      comps := [];
      roots := [];
    }
  }

  class Reader {
    const opt: Options
    var idMap: map<int, nat>           // m_idComponentMap
    var colorTool: Option<ColorTool>   // m_colorTool, None while null

    constructor(opt: Options)
      ensures this.opt == opt && idMap == map[] && colorTool == None
    {
      this.opt := opt;
      idMap := map[];
      colorTool := None;
    }

    function CurrentEnv(): Env
      reads this`colorTool, opt
    {
      Env(opt.sketch, opt.color, colorTool)
    }

    function State(model: Model): BuildState
      reads this, model
    {
      BuildState(model.comps, idMap)
    }

    /** `STEP_Reader::Clear`. */
    method Clear()
      modifies this`idMap
      ensures idMap == map[]
    {
      idMap := map[];
    }

    /** `STEP_Reader::UpdateColorOption`: Color goes off when there is no
      colour tool or the document defines no colour; it is never switched on. */
    method UpdateColorOption()
      modifies opt
      ensures opt.sketch == old(opt.sketch)
      ensures opt.color == (old(opt.color) && colorTool.Some? && colorTool.value.colorLabelCount > 0)
    {
      if !opt.color {
        return;
      }
      if colorTool.None? {
        opt.color := false;
      } else {
        var colorSize := colorTool.value.colorLabelCount;
        if colorSize == 0 {
          opt.color := false;
        }
      }
    }

    /** `STEP_Reader::GetSubShapes`: pushes the units of `shape` after those
      already in `subShapes`. */
    method GetSubShapes(shape: Shape, subShapes: seq<Shape>) returns (result: seq<Shape>)
      ensures result == subShapes + SubShapes(shape, opt.sketch)
      decreases shape
    {
      result := subShapes;
      match shape.kind {
        case Compound =>
          if shape.isFreeEdge {
            if opt.sketch {
              result := result + [shape];
            }
            return;
          }
          if shape.isSolidModel || shape.isSurfaceModel {
            result := result + [shape];
            return;
          }
          if shape.isMappedItem {
            return;
          }
          var i := 0;
          while i < |shape.children|
            invariant 0 <= i <= |shape.children|
            invariant result == subShapes + ChildUnits(shape, opt.sketch, i)
          {
            result := GetSubShapes(shape.children[i], result);
            i := i + 1;
          }
        case CompSolid =>
          result := result + [shape];
        case Solid =>
          result := result + [shape];
        case Shell =>
          result := result + [shape];
        case _ =>
      }
    }

    /** `STEP_Reader::AddColors`: with Color on, one colour per explored face
      of a face set, or per edge of each wire and then per free edge of a
      wire set; with Color off, nothing. */
    method AddColors(iShape: IShape) returns (r: IShape)
      requires opt.color ==> colorTool.Some?
      ensures r == iShape.(colors := iShape.colors + ExpectedColors(CurrentEnv(), iShape.shape))
    {
      r := iShape;
      if !opt.color {
        return;
      }
      var tool := colorTool.value;
      var shape := iShape.shape;
      if iShape.IsFaceSet() {
        var solidColor := GetColor(tool, shape.handle, ColorSurf);
        var i := 0;
        while i < |shape.faces|
          invariant 0 <= i <= |shape.faces|
          invariant r == iShape.(colors := iShape.colors + FaceColors(tool, shape)[..i])
        {
          var face := shape.faces[i];
          var faceColor := GetColor(tool, face, ColorSurf);
          if faceColor.Some? {
            r := r.AddColor(face, faceColor.value);
          } else if solidColor.Some? {
            r := r.AddColor(face, solidColor.value);
          } else {
            r := r.AddColor(face, DefaultFaceColor);
          }
          assert FaceColors(tool, shape)[..i + 1] == FaceColors(tool, shape)[..i] + [FaceColors(tool, shape)[i]];
          i := i + 1;
        }
        assert FaceColors(tool, shape)[..i] == FaceColors(tool, shape);
      } else {
        var w := 0;
        while w < |shape.wires|
          invariant 0 <= w <= |shape.wires|
          invariant r == iShape.(colors := iShape.colors + WireColors(tool, shape.wires[..w]))
        {
          var wire := shape.wires[w];
          var wireColor := GetColor(tool, wire.handle, ColorCurv);
          var e := 0;
          while e < |wire.edges|
            invariant 0 <= e <= |wire.edges|
            invariant r == iShape.(colors := iShape.colors + WireColors(tool, shape.wires[..w])
                                               + EdgeColorsOfWire(tool, wire)[..e])
          {
            var edge := wire.edges[e];
            var edgeColor := GetColor(tool, edge, ColorCurv);
            if edgeColor.Some? {
              r := r.AddColor(edge, edgeColor.value);
            } else if wireColor.Some? {
              r := r.AddColor(edge, wireColor.value);
            } else {
              r := r.AddColor(edge, DefaultWireColor);
            }
            assert EdgeColorsOfWire(tool, wire)[..e + 1]
              == EdgeColorsOfWire(tool, wire)[..e] + [EdgeColorsOfWire(tool, wire)[e]];
            e := e + 1;
          }
          assert EdgeColorsOfWire(tool, wire)[..e] == EdgeColorsOfWire(tool, wire);
          assert shape.wires[..w + 1][..w] == shape.wires[..w];
          w := w + 1;
        }
        assert shape.wires[..w] == shape.wires;
        var k := 0;
        while k < |shape.freeEdges|
          invariant 0 <= k <= |shape.freeEdges|
          invariant r == iShape.(colors := iShape.colors + WireColors(tool, shape.wires)
                                             + FreeEdgeColors(tool, shape)[..k])
        {
          var edge := shape.freeEdges[k];
          var edgeColor := GetColor(tool, edge, ColorCurv);
          if edgeColor.Some? {
            r := r.AddColor(edge, edgeColor.value);
          } else {
            r := r.AddColor(edge, DefaultWireColor);
          }
          assert FreeEdgeColors(tool, shape)[..k + 1] == FreeEdgeColors(tool, shape)[..k] + [FreeEdgeColors(tool, shape)[k]];
          k := k + 1;
        }
        assert FreeEdgeColors(tool, shape)[..k] == FreeEdgeColors(tool, shape);
      }
    }

    /** `STEP_Reader::IsCopy`. */
    method IsCopy(model: Model, comp: nat) returns (copy: bool)
      requires comp < |model.comps|
      modifies this`idMap, model
      ensures (copy, State(model)) == CopyCheck(old(State(model)), comp)
      ensures model.roots == old(model.roots)
    {
      var shapeID := model.comps[comp].shape.id;
      if shapeID !in idMap {
        idMap := idMap[shapeID := comp];
        copy := false;
      } else {
        var originalComp := idMap[shapeID];
        model.comps := model.comps[comp := model.comps[comp].(original := Some(originalComp))];
        copy := true;
      }
    }

    /** The loop of `AddSubComponents` over the units of a simple shape:
      one IShape per unit, in order, each coloured by `AddColors`. */
    method AddIShapes(model: Model, comp: nat, subShapes: seq<Shape>)
      requires comp < |model.comps|
      requires opt.color ==> colorTool.Some?
      modifies model
      ensures model.comps == old(model.comps[comp := model.comps[comp].(ishapes := model.comps[comp].ishapes
                                                      + MakeIShapes(CurrentEnv(), subShapes))])
      ensures model.roots == old(model.roots)
    {
      ghost var before := model.comps;
      assert MakeIShapes(CurrentEnv(), subShapes[..0]) == [];
      assert before[comp].ishapes + [] == before[comp].ishapes;
      assert before[comp := before[comp].(ishapes := before[comp].ishapes)] == before;
      var k := 0;
      while k < |subShapes|
        invariant 0 <= k <= |subShapes|
        invariant |model.comps| == |before|
        invariant model.comps == before[comp := before[comp].(ishapes := before[comp].ishapes
                                               + MakeIShapes(CurrentEnv(), subShapes[..k]))]
        invariant model.roots == old(model.roots)
      {
        var iShape := IShape(subShapes[k], []);
        iShape := AddColors(iShape);
        assert iShape == IShape(subShapes[k], ExpectedColors(CurrentEnv(), subShapes[k]));
        assert MakeIShapes(CurrentEnv(), subShapes[..k + 1]) == MakeIShapes(CurrentEnv(), subShapes[..k]) + [iShape];
        assert before[comp].ishapes + MakeIShapes(CurrentEnv(), subShapes[..k + 1])
          == (before[comp].ishapes + MakeIShapes(CurrentEnv(), subShapes[..k])) + [iShape];
        model.comps := model.comps[comp := model.comps[comp].(ishapes := model.comps[comp].ishapes + [iShape])];
        k := k + 1;
      }
      assert subShapes[..k] == subShapes;
    }

    /** `STEP_Reader::AddSubComponents`. */
    method AddSubComponents(model: Model, comp: nat, lbl: Label)
      requires comp < |model.comps|
      requires opt.color ==> colorTool.Some?
      modifies this`idMap, model
      ensures State(model) == Build(CurrentEnv(), old(State(model)), comp, lbl)
      ensures model.roots == old(model.roots)
      decreases lbl
    {
      match lbl.kind {
        case Assembly(parts) =>
          model.comps := model.comps[comp := model.comps[comp].(name := GetName(lbl))];
          ghost var named := State(model);
          var i := 0;
          while i < |parts|
            invariant 0 <= i <= |parts|
            invariant comp < |named.comps| <= |model.comps|
            invariant State(model) == BuildParts(CurrentEnv(), named, comp, lbl, i)
            invariant model.roots == old(model.roots)
          {
            AddSubComponents(model, comp, parts[i]);
            i := i + 1;
          }
        case Reference(ref, location) =>
          var refShape := ref.shape;
          if IsEmpty(refShape, opt.sketch) {
            return;
          }
          var subComp := NewComponent(refShape);
          subComp := subComp.(name := GetName(ref));
          subComp := subComp.(transform := Some(location));
          var sub := |model.comps|;
          model.comps := model.comps + [subComp];
          model.comps := model.comps[comp := model.comps[comp].(children := model.comps[comp].children + [sub])];
          var copy := IsCopy(model, sub);
          if copy {
            return;
          }
          AddSubComponents(model, sub, ref);
        case SimpleShape =>
          var shape := lbl.shape;
          if IsEmpty(shape, opt.sketch) {
            return;
          }
          var subShapes := GetSubShapes(shape, []);
          assert subShapes == SubShapes(shape, opt.sketch);
          AddIShapes(model, comp, subShapes);
        case OtherLabel =>
      }
    }

    /** The loop of `ReadSTEP` over the free shapes: per label, a root
      component named from it, recorded as a root, then built. */
    method AddFreeShapes(model: Model, labels: seq<Label>)
      requires opt.color ==> colorTool.Some?
      modifies this`idMap, model
      ensures (State(model), model.roots) == AddRoots(CurrentEnv(), old(State(model)), old(model.roots), labels)
    {
      ghost var env := CurrentEnv();
      ghost var st0 := State(model);
      ghost var roots0 := model.roots;
      var i := 0;
      while i < |labels|
        invariant 0 <= i <= |labels|
        invariant CurrentEnv() == env
        invariant (State(model), model.roots) == AddRoots(env, st0, roots0, labels[..i])
      {
        var lbl := labels[i];
        var rootComp := NewComponent(lbl.shape);
        rootComp := rootComp.(name := GetName(lbl));
        var root := |model.comps|;
        model.comps := model.comps + [rootComp];
        ghost var created := State(model);
        ghost var roots := model.roots + [root];
        model.AddRootComponent(root);
        AddSubComponents(model, root, lbl);
        assert labels[..i + 1][..i] == labels[..i];
        assert AddRoots(env, st0, roots0, labels[..i + 1]) == (Build(env, created, root, lbl), roots);
        i := i + 1;
      }
      assert labels[..i] == labels;
    }

    /** The `Standard_NumericError` handler of `ReadSTEP`: clear the model,
      update Color, then read without colour. `early` is the value returned
      or the fault that escapes from the handler; `None` when reading goes on
      to the emptiness test. */
    method ReadWithoutColor(model: Model, file: StepFile) returns (early: Option<ReadResult>)
      modifies opt, model
      ensures opt.sketch == old(opt.sketch)
      ensures opt.color == (old(opt.color) && colorTool.Some? && colorTool.value.colorLabelCount > 0)
      ensures file.plainRead.Raised? ==> early == Some(Propagated(file.plainRead.fault))
      ensures file.plainRead.Completed? && file.plainRead.value != RetDone ==> early == Some(Returned(false))
      ensures file.plainRead == Completed(RetDone) && file.plainTransfer.Raised? ==>
        early == Some(Propagated(file.plainTransfer.fault))
      ensures early.None? <==> file.plainRead == Completed(RetDone) && file.plainTransfer.Completed?
      ensures file.plainRead == Completed(RetDone) && file.plainTransfer.Completed? && file.plainTransfer.value.Some? ==>
        var shape := file.plainTransfer.value.value;
        model.comps == [NewComponent(shape).(ishapes := [IShape(shape, [])])] && model.roots == [0]
      ensures !(file.plainRead == Completed(RetDone) && file.plainTransfer.Completed? && file.plainTransfer.value.Some?) ==>
        model.comps == [] && model.roots == []
    {
      model.Clear();
      UpdateColorOption();
      early := None;
      match file.plainRead {
        case Raised(f) =>
          early := Some(Propagated(f));
        case Completed(status) =>
          if !CheckReturnStatus(status).done {
            early := Some(Returned(false));
            return;
          }
          match file.plainTransfer {
            case Raised(f) =>
              early := Some(Propagated(f));
            case Completed(transferred) =>
              if transferred.Some? {
                var shape := transferred.value;
                var iShape := IShape(shape, []);
                var rootComp := NewComponent(shape);
                rootComp := rootComp.(ishapes := rootComp.ishapes + [iShape]);
                assert rootComp == NewComponent(shape).(ishapes := [IShape(shape, [])]);
                var root := |model.comps|;
                model.comps := model.comps + [rootComp];
                model.AddRootComponent(root);
              }
          }
      }
    }

    /** `STEP_Reader::ReadSTEP`. The kernel's answers for the file come in
      `file`; `modelIsEmpty` is `Model::IsEmpty` after `Model::Update`. */
    method ReadSTEP(model: Model, file: StepFile, modelIsEmpty: ModelView -> bool) returns (result: ReadResult)
      modifies this, opt, model
      ensures opt.sketch == old(opt.sketch)
      ensures opt.color ==> old(opt.color)
      ensures file.cafRead.Completed? && file.cafRead.value != RetDone ==>
        && result == Returned(false) && model.comps == old(model.comps) && model.roots == old(model.roots)
        && opt.color == old(opt.color) && colorTool == old(colorTool)
      ensures CafFault(file) == Some(OtherFault) ==>
        && result == Returned(false) && model.comps == old(model.comps) && model.roots == old(model.roots)
        && opt.color == old(opt.color) && colorTool == old(colorTool)
      ensures file.cafRead == Completed(RetDone) && file.cafTransfer == Completed(None) ==>
        && model.comps == old(model.comps) && model.roots == old(model.roots)
        && opt.color == old(opt.color) && colorTool == old(colorTool)
        && result == Returned(!modelIsEmpty(model.View()))
      ensures file.cafRead == Completed(RetDone) && file.cafTransfer.Completed? && file.cafTransfer.value.Some? ==>
        var doc := file.cafTransfer.value.value;
        && colorTool == Some(doc.colorTool)
        && opt.color == (old(opt.color) && doc.colorTool.colorLabelCount > 0)
        && (State(model), model.roots)
           == AddRoots(CurrentEnv(), old(State(model)), old(model.roots), doc.freeLabels)
        && result == Returned(!modelIsEmpty(model.View()))
      ensures CafFault(file) == Some(NumericError) ==>
        && colorTool == old(colorTool)
        && opt.color == (old(opt.color) && colorTool.Some? && colorTool.value.colorLabelCount > 0)
        && (file.plainRead.Raised? ==> result == Propagated(file.plainRead.fault))
        && (file.plainRead.Completed? && file.plainRead.value != RetDone ==> result == Returned(false))
        && (file.plainRead == Completed(RetDone) && file.plainTransfer.Raised? ==>
              result == Propagated(file.plainTransfer.fault))
        && (file.plainRead == Completed(RetDone) && file.plainTransfer.Completed? ==>
              result == Returned(!modelIsEmpty(model.View())))
        && (file.plainRead == Completed(RetDone) && file.plainTransfer.Completed? && file.plainTransfer.value.Some? ==>
              var shape := file.plainTransfer.value.value;
              model.comps == [NewComponent(shape).(ishapes := [IShape(shape, [])])] && model.roots == [0])
        && (!(file.plainRead == Completed(RetDone) && file.plainTransfer.Completed? && file.plainTransfer.value.Some?) ==>
              model.comps == [] && model.roots == [])
      ensures !(file.cafRead == Completed(RetDone) && file.cafTransfer.Completed? && file.cafTransfer.value.Some?) ==>
        idMap == old(idMap)
      ensures result.Propagated? ==> CafFault(file) == Some(NumericError)
      ensures result == Returned(true) ==> !modelIsEmpty(model.View())
    {
      var fault: Option<Fault> := None;
      match file.cafRead {
        case Raised(f) =>
          fault := Some(f);
        case Completed(status) =>
          if !CheckReturnStatus(status).done {
            return Returned(false);
          }
          match file.cafTransfer {
            case Raised(f) =>
              fault := Some(f);
            case Completed(transferred) =>
              if transferred.Some? {
                var doc := transferred.value;
                colorTool := Some(doc.colorTool);
                UpdateColorOption();
                AddFreeShapes(model, doc.freeLabels);
              }
          }
      }
      if fault == Some(NumericError) {
        var early := ReadWithoutColor(model, file);
        if early.Some? {
          return early.value;
        }
      } else if fault == Some(OtherFault) {
        return Returned(CheckReturnStatus(RetFail).done);
      }
      if modelIsEmpty(model.View()) {
        return Returned(CheckReturnStatus(RetVoid).done);
      }
      return Returned(true);
    }
  }
}
