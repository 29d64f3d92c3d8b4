/** The geometry kernel as the reader sees it. OpenCASCADE's shapes, labels,
    explorers, colour tool and readers are replaced by plain values that hold
    the answers the kernel would give; predicates the reader only calls
    (`IsFreeEdge`, `IsSolidModel`, `HasFace`, `GetID`, ...) are fields whose
    values are arbitrary. */
module Kernel {
  import opened Wrappers

  /** Kernel identity of a topological entity, used as the key of colour lookups. */
  type Handle = nat

  /** `TopAbs_ShapeEnum`. */
  datatype ShapeKind = Compound | CompSolid | Solid | Shell | Face | Wire | Edge | Vertex | AnyShape

  /** A wire met by the `TopAbs_WIRE` explorer, with the edges its own
      `TopAbs_EDGE` explorer visits, in exploration order. */
  datatype WireEntry = WireEntry(handle: Handle, edges: seq<Handle>)

  /** A shape handle together with what the kernel reports about it. */
  datatype Shape = Shape(
    handle: Handle,
    id: int,                 // OCCUtil::GetID
    kind: ShapeKind,         // ShapeType()
    isNull: bool,            // IsNull()
    children: seq<Shape>,    // TopoDS_Iterator, in iteration order
    faces: seq<Handle>,      // TopExp_Explorer(shape, TopAbs_FACE)
    wires: seq<WireEntry>,   // TopExp_Explorer(shape, TopAbs_WIRE)
    freeEdges: seq<Handle>,  // TopExp_Explorer(shape, TopAbs_EDGE, TopAbs_WIRE)
    isFreeEdge: bool,        // OCCUtil::IsFreeEdge
    isSolidModel: bool,      // STEP_Data::IsSolidModel
    isSurfaceModel: bool,    // STEP_Data::IsSurfaceModel
    isMappedItem: bool,      // STEP_Data::IsMappedItem
    hasEdge: bool,           // OCCUtil::HasEdge
    hasFace: bool,           // OCCUtil::HasFace
    isFaceSet: bool)         // IShape::IsFaceSet of a unit built on this shape

  /** `Quantity_ColorRGBA`, kept as opaque data. */
  datatype Color = Rgba(r: real, g: real, b: real, a: real)

  /** `gp_Trsf`, kept as opaque data. */
  datatype Transform = Trsf(values: seq<real>)

  /** `XCAFDoc_ColorType`: the two roles the reader asks for. */
  datatype ColorRole = ColorSurf | ColorCurv

  datatype ColorKey = ColorKey(entity: Handle, role: ColorRole)

  /** `XCAFDoc_ColorTool`: the colours `GetColor` finds, and the number of
      colour labels `GetColors` lists. */
  datatype ColorTool = ColorTool(colors: map<ColorKey, Color>, colorLabelCount: nat)

  /** The shape tool's classification of a label. */
  datatype LabelKind =
    | Assembly(components: seq<Label>)              // IsAssembly, GetComponents
    | Reference(referred: Label, location: Transform) // IsReference, GetReferredShape, GetLocation
    | SimpleShape                                    // IsSimpleShape
    | OtherLabel

  /** A document label: its `TDataStd_Name` attribute if it has one, the shape
      `GetShape` returns for it, and its kind. The datatype is inductive, so
      the label graph is finite and acyclic. */
  datatype Label = Label(name: Option<string>, shape: Shape, kind: LabelKind)

  /** `IFSelect_ReturnStatus`. */
  datatype ReturnStatus = RetVoid | RetDone | RetError | RetFail | RetStop

  /** The exceptions the reader distinguishes: `Standard_NumericError` and
      everything else. */
  datatype Fault = NumericError | OtherFault

  /** The outcome of one kernel call that may throw. */
  datatype Stage<T> = Completed(value: T) | Raised(fault: Fault)

  /** The parts of the XCAF document the reader uses after a successful transfer. */
  datatype CafDocument = CafDocument(colorTool: ColorTool, freeLabels: seq<Label>)

  /** What each kernel stage of reading one STEP file yields:
      the colour-aware reader's `ReadFile` and `Transfer` (`None` when
      `Transfer` returns false), and the plain reader's `ReadFile` and
      `TransferRoot` (`None` when it returns false, else the `Shape()`). */
  datatype StepFile = StepFile(
    cafRead: Stage<ReturnStatus>,
    cafTransfer: Stage<Option<CafDocument>>,
    plainRead: Stage<ReturnStatus>,
    plainTransfer: Stage<Option<Shape>>)
}
