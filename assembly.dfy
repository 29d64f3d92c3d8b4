/** The assembly tree `STEP_Reader::AddSubComponents` builds, stated as a
    function of the state it changes. Components live in an arena: a
    component's children and its "original" are indices into `comps`, and
    the duplicate-instance index `idMap` maps a shape id to the index of the
    first component seen with it. The reader's imperative methods are proved
    equal to `Build` and `AddRoots` in module `StepReader`. */
module Assembly {
  import opened Wrappers
  import opened Kernel
  import opened ShapeClassifier
  import opened ColorResolver
  import opened Names

  /** A `Component`: its shape, its name, the transform set on it (`None`
      until `SetTransformation`), its children and IShapes in insertion order
      and, for a detected duplicate, the index of the original. */
  datatype Component = Component(
    shape: Shape,
    name: string,
    transform: Option<Transform>,
    children: seq<nat>,
    ishapes: seq<IShape>,
    original: Option<nat>)

  /** `new Component(shape)`. */
  function NewComponent(shape: Shape): Component
  {
    Component(shape, "", None, [], [], None)
  }

  /** What the traversal reads from the reader: the Sketch and Color options
      and the colour tool. */
  datatype Env = Env(sketch: bool, color: bool, tool: Option<ColorTool>)

  /** What the traversal changes: the component arena and the duplicate-instance index. */
  datatype BuildState = BuildState(comps: seq<Component>, idMap: map<int, nat>)

  /** The colours `AddColors` gives a fresh unit: none when Color is off. */
  function ExpectedColors(env: Env, unit: Shape): seq<ColorEntry>
  {
    if env.color && env.tool.Some? then ResolvedColors(env.tool.value, unit) else []
  }

  /** One IShape per unit, in order, each coloured by `AddColors`. */
  function MakeIShapes(env: Env, units: seq<Shape>): (r: seq<IShape>)
    ensures |r| == |units|
    ensures forall k :: 0 <= k < |r| ==> r[k].shape == units[k]
  {
    seq(|units|, k requires 0 <= k < |units| => IShape(units[k], ExpectedColors(env, units[k])))
  }

  /** `STEP_Reader::IsCopy` on component `c`: the first sighting of its shape
      id records `c` and answers false; a later one points `c` at the
      recorded component, leaves the index alone and answers true. */
  function CopyCheck(st: BuildState, c: nat): (r: (bool, BuildState))
    requires c < |st.comps|
    ensures |r.1.comps| == |st.comps|
  {
    var id := st.comps[c].shape.id;
    if id !in st.idMap then (false, st.(idMap := st.idMap[id := c]))
    else (true, st.(comps := st.comps[c := st.comps[c].(original := Some(st.idMap[id]))]))
  }

  /** `AddSubComponents(comp, lbl)` as a function of the state. */
  function Build(env: Env, st: BuildState, comp: nat, lbl: Label): (r: BuildState)
    requires comp < |st.comps|
    ensures |st.comps| <= |r.comps|
    decreases lbl, 1, 0
  {
    match lbl.kind
    case Assembly(parts) =>
      var named := st.(comps := st.comps[comp := st.comps[comp].(name := GetName(lbl))]);
      BuildParts(env, named, comp, lbl, |parts|)
    case Reference(ref, location) =>
      if IsEmpty(ref.shape, env.sketch) then st
      else
        var sub := |st.comps|;
        var child := NewComponent(ref.shape).(name := GetName(ref), transform := Some(location));
        var grown := st.comps + [child];
        var attached := st.(comps := grown[comp := grown[comp].(children := grown[comp].children + [sub])]);
        var checked := CopyCheck(attached, sub);
        if checked.0 then checked.1 else Build(env, checked.1, sub, ref)
    case SimpleShape =>
      if IsEmpty(lbl.shape, env.sketch) then st
      else
        var units := MakeIShapes(env, SubShapes(lbl.shape, env.sketch));
        st.(comps := st.comps[comp := st.comps[comp].(ishapes := st.comps[comp].ishapes + units)])
    case OtherLabel => st
  }

  /** The first `n` components of assembly `lbl`, built one after the other
      into the same `comp`. */
  function BuildParts(env: Env, st: BuildState, comp: nat, lbl: Label, n: nat): (r: BuildState)
    requires lbl.kind.Assembly? && n <= |lbl.kind.components|
    requires comp < |st.comps|
    ensures |st.comps| <= |r.comps|
    decreases lbl, 0, n
  {
    if n == 0 then st
    else Build(env, BuildParts(env, st, comp, lbl, n - 1), comp, lbl.kind.components[n - 1])
  }

  /** The loop of `ReadSTEP` over the first `n` free labels: a root component
      per label, named from it, recorded as a root, then built. */
  function AddRoots(env: Env, st: BuildState, roots: seq<nat>, labels: seq<Label>): (r: (BuildState, seq<nat>))
    ensures |st.comps| <= |r.0.comps|
    ensures |r.1| == |roots| + |labels| && r.1[..|roots|] == roots
    decreases |labels|
  {
    if labels == [] then (st, roots)
    else
      var prev := AddRoots(env, st, roots, labels[..|labels| - 1]);
      var lbl := labels[|labels| - 1];
      var root := |prev.0.comps|;
      var created := prev.0.(comps := prev.0.comps + [NewComponent(lbl.shape).(name := GetName(lbl))]);
      (Build(env, created, root, lbl), prev.1 + [root])
  }

  // ---------------------------------------------------------------------
  // What a traversal leaves alone

  /** `b` is `a` with more children or units appended and perhaps a new name. */
  predicate Extends(a: Component, b: Component)
  {
    b.shape == a.shape && b.transform == a.transform && b.original == a.original
    && a.children <= b.children && a.ishapes <= b.ishapes
  }

  /** From `st` to `r` the arena only grew, only component `comp` among the
      old ones changed, and only by `Extends`, and no recorded id changed. */
  ghost predicate Grows(st: BuildState, r: BuildState, comp: nat)
  {
    && comp < |st.comps| <= |r.comps|
    && (forall j :: 0 <= j < |st.comps| && j != comp ==> r.comps[j] == st.comps[j])
    && Extends(st.comps[comp], r.comps[comp])
    && (forall id :: id in st.idMap ==> id in r.idMap && r.idMap[id] == st.idMap[id])
  }

  lemma GrowsTrans(a: BuildState, b: BuildState, c: BuildState, comp: nat)
    requires Grows(a, b, comp) && Grows(b, c, comp)
    ensures Grows(a, c, comp)
  {
  }

  /** A traversal never touches a component other than the one it extends
      and the ones it creates, and the first-wins index only gains entries. */
  lemma {:induction false} BuildFrame(env: Env, st: BuildState, comp: nat, lbl: Label)
    requires comp < |st.comps|
    ensures Grows(st, Build(env, st, comp, lbl), comp)
    decreases lbl, 1, 0
  {
    match lbl.kind
    case Assembly(parts) =>
      var named := st.(comps := st.comps[comp := st.comps[comp].(name := GetName(lbl))]);
      assert Grows(st, named, comp);
      BuildPartsFrame(env, named, comp, lbl, |parts|);
    case Reference(ref, location) =>
      if !IsEmpty(ref.shape, env.sketch) {
        var sub := |st.comps|;
        var child := NewComponent(ref.shape).(name := GetName(ref), transform := Some(location));
        var checked := AttachGrows(st, comp, child);
        if !checked.0 {
          BuildFrame(env, checked.1, sub, ref);
          GrowsThroughChild(st, checked.1, Build(env, checked.1, sub, ref), comp, sub);
        }
      }
    case SimpleShape =>
    case OtherLabel =>
  }

  /** Appending `child` under `comp` and checking it for a duplicate only
      grows the state. */
  lemma AttachGrows(st: BuildState, comp: nat, child: Component) returns (checked: (bool, BuildState))
    requires comp < |st.comps|
    ensures var sub := |st.comps|;
      var grown := st.comps + [child];
      checked == CopyCheck(st.(comps := grown[comp := grown[comp].(children := grown[comp].children + [sub])]), sub)
    ensures Grows(st, checked.1, comp) && |checked.1.comps| == |st.comps| + 1
  {
    var sub := |st.comps|;
    var grown := st.comps + [child];
    var attached := st.(comps := grown[comp := grown[comp].(children := grown[comp].children + [sub])]);
    assert Grows(st, attached, comp);
    checked := CopyCheck(attached, sub);
  }

  /** Growth of a new component `sub` leaves the growth of `comp` intact. */
  lemma GrowsThroughChild(st: BuildState, mid: BuildState, r: BuildState, comp: nat, sub: nat)
    requires Grows(st, mid, comp) && Grows(mid, r, sub) && |st.comps| <= sub
    ensures Grows(st, r, comp)
  {
  }

  lemma {:induction false} BuildPartsFrame(env: Env, st: BuildState, comp: nat, lbl: Label, n: nat)
    requires lbl.kind.Assembly? && n <= |lbl.kind.components|
    requires comp < |st.comps|
    ensures Grows(st, BuildParts(env, st, comp, lbl, n), comp)
    decreases lbl, 0, n
  {
    if n > 0 {
      var prev := BuildParts(env, st, comp, lbl, n - 1);
      BuildPartsFrame(env, st, comp, lbl, n - 1);
      BuildFrame(env, prev, comp, lbl.kind.components[n - 1]);
      GrowsTrans(st, prev, BuildParts(env, st, comp, lbl, n), comp);
    }
  }

  // ---------------------------------------------------------------------
  // The invariant of the arena

  ghost predicate ChildrenInArena(st: BuildState)
  {
    forall i, k :: 0 <= i < |st.comps| && 0 <= k < |st.comps[i].children| ==> st.comps[i].children[k] < |st.comps|
  }

  /** Every recorded id names a component with that shape id that is not
      itself a duplicate. */
  ghost predicate IdMapSound(st: BuildState)
  {
    forall id :: id in st.idMap ==>
      st.idMap[id] < |st.comps| && st.comps[st.idMap[id]].shape.id == id && st.comps[st.idMap[id]].original.None?
  }

  /** A duplicate is a pure placeholder: it has no children and no units of
      its own, and its original is an earlier, non-duplicate component with
      the same shape id. */
  ghost predicate PlaceholdersSound(st: BuildState)
  {
    forall i :: 0 <= i < |st.comps| && st.comps[i].original.Some? ==>
      var o := st.comps[i].original.value;
      && o < i && st.comps[o].original.None? && st.comps[o].shape.id == st.comps[i].shape.id
      && st.comps[i].children == [] && st.comps[i].ishapes == []
  }

  /** Every IShape wraps an export unit and is fully coloured. */
  ghost predicate UnitsSound(env: Env, st: BuildState)
  {
    forall i, k :: 0 <= i < |st.comps| && 0 <= k < |st.comps[i].ishapes| ==>
      IsExportUnit(st.comps[i].ishapes[k].shape, env.sketch)
      && st.comps[i].ishapes[k].colors == ExpectedColors(env, st.comps[i].ishapes[k].shape)
  }

  ghost predicate Valid(env: Env, st: BuildState)
  {
    ChildrenInArena(st) && IdMapSound(st) && PlaceholdersSound(st) && UnitsSound(env, st)
  }

  /** Replacing a non-duplicate component by another non-duplicate with the
      same shape, whose children are in the arena and whose units are sound,
      keeps the invariant. */
  lemma ReplaceKeepsValid(env: Env, st: BuildState, comp: nat, c: Component)
    requires Valid(env, st) && comp < |st.comps|
    requires st.comps[comp].original.None? && c.original.None? && c.shape == st.comps[comp].shape
    requires forall k :: 0 <= k < |c.children| ==> c.children[k] < |st.comps|
    requires forall k :: 0 <= k < |c.ishapes| ==>
      IsExportUnit(c.ishapes[k].shape, env.sketch) && c.ishapes[k].colors == ExpectedColors(env, c.ishapes[k].shape)
    ensures Valid(env, st.(comps := st.comps[comp := c]))
  {
    var r := st.(comps := st.comps[comp := c]);
    assert forall i :: 0 <= i < |r.comps| && i != comp ==> r.comps[i] == st.comps[i];
    assert IdMapSound(r) by {
      forall id | id in r.idMap
        ensures r.idMap[id] < |r.comps| && r.comps[r.idMap[id]].shape.id == id && r.comps[r.idMap[id]].original.None?
      {
        assert st.idMap[id] < |st.comps|;
      }
    }
    assert PlaceholdersSound(r) by {
      forall i | 0 <= i < |r.comps| && r.comps[i].original.Some?
        ensures var o := r.comps[i].original.value;
          && o < i && r.comps[o].original.None? && r.comps[o].shape.id == r.comps[i].shape.id
          && r.comps[i].children == [] && r.comps[i].ishapes == []
      {
        assert i != comp;
      }
    }
  }

  /** Appending a fresh, empty, non-duplicate component keeps the invariant. */
  lemma AppendKeepsValid(env: Env, st: BuildState, c: Component)
    requires Valid(env, st)
    requires c.original.None? && c.children == [] && c.ishapes == []
    ensures Valid(env, st.(comps := st.comps + [c]))
  {
    var r := st.(comps := st.comps + [c]);
    assert forall i :: 0 <= i < |st.comps| ==> r.comps[i] == st.comps[i];
  }

  /** `IsCopy` on the newest component keeps the invariant; a component that
      is not a copy stays a non-duplicate. */
  lemma CopyCheckKeepsValid(env: Env, st: BuildState, c: nat)
    requires Valid(env, st) && c == |st.comps| - 1
    requires forall id :: id in st.idMap ==> st.idMap[id] < c
    requires st.comps[c].original.None? && st.comps[c].children == [] && st.comps[c].ishapes == []
    ensures Valid(env, CopyCheck(st, c).1)
    ensures !CopyCheck(st, c).0 ==> CopyCheck(st, c).1.comps[c].original.None?
  {
    var id := st.comps[c].shape.id;
    var r := CopyCheck(st, c).1;
    if id in st.idMap {
      assert forall i :: 0 <= i < |r.comps| && i != c ==> r.comps[i] == st.comps[i];
      assert st.idMap[id] < c;
      assert IdMapSound(r) by {
        forall k | k in r.idMap
          ensures r.idMap[k] < |r.comps| && r.comps[r.idMap[k]].shape.id == k && r.comps[r.idMap[k]].original.None?
        {
          assert st.idMap[k] != c;
        }
      }
    }
  }

  /** The traversal keeps the arena invariant, provided it extends a
      component that is not a duplicate (the reader only ever does: roots and
      components that `IsCopy` rejected), and that component stays so. */
  lemma {:induction false} BuildKeepsValid(env: Env, st: BuildState, comp: nat, lbl: Label)
    requires comp < |st.comps| && Valid(env, st) && st.comps[comp].original.None?
    ensures Valid(env, Build(env, st, comp, lbl))
    ensures Build(env, st, comp, lbl).comps[comp].original.None?
    decreases lbl, 1, 0
  {
    BuildFrame(env, st, comp, lbl);
    match lbl.kind
    case Assembly(parts) =>
      ReplaceKeepsValid(env, st, comp, st.comps[comp].(name := GetName(lbl)));
      var named := st.(comps := st.comps[comp := st.comps[comp].(name := GetName(lbl))]);
      BuildPartsKeepsValid(env, named, comp, lbl, |parts|);
    case Reference(ref, location) =>
      if !IsEmpty(ref.shape, env.sketch) {
        var child := NewComponent(ref.shape).(name := GetName(ref), transform := Some(location));
        var checked := AttachKeepsValid(env, st, comp, child);
        if !checked.0 {
          BuildKeepsValid(env, checked.1, |st.comps|, ref);
        }
      }
    case SimpleShape =>
      if !IsEmpty(lbl.shape, env.sketch) {
        var subShapes := SubShapes(lbl.shape, env.sketch);
        var units := MakeIShapes(env, subShapes);
        assert forall k :: 0 <= k < |units| ==> units[k].shape in subShapes;
        ReplaceKeepsValid(env, st, comp, st.comps[comp].(ishapes := st.comps[comp].ishapes + units));
      }
    case OtherLabel =>
  }

  /** Attaching a fresh, empty child to a non-duplicate `comp` and running
      the duplicate check on it keeps the invariant; a child that is not a
      copy is a non-duplicate. */
  lemma AttachKeepsValid(env: Env, st: BuildState, comp: nat, child: Component) returns (checked: (bool, BuildState))
    requires comp < |st.comps| && Valid(env, st) && st.comps[comp].original.None?
    requires child.original.None? && child.children == [] && child.ishapes == []
    ensures var sub := |st.comps|;
      var grown := st.comps + [child];
      checked == CopyCheck(st.(comps := grown[comp := grown[comp].(children := grown[comp].children + [sub])]), sub)
    ensures Valid(env, checked.1) && |checked.1.comps| == |st.comps| + 1
    ensures !checked.0 ==> checked.1.comps[|st.comps|].original.None?
  {
    var sub := |st.comps|;
    var grown := st.(comps := st.comps + [child]);
    AppendKeepsValid(env, st, child);
    var c := grown.comps[comp].(children := grown.comps[comp].children + [sub]);
    ReplaceKeepsValid(env, grown, comp, c);
    var attached := grown.(comps := grown.comps[comp := c]);
    CopyCheckKeepsValid(env, attached, sub);
    checked := CopyCheck(attached, sub);
  }

  lemma {:induction false} BuildPartsKeepsValid(env: Env, st: BuildState, comp: nat, lbl: Label, n: nat)
    requires lbl.kind.Assembly? && n <= |lbl.kind.components|
    requires comp < |st.comps| && Valid(env, st) && st.comps[comp].original.None?
    ensures Valid(env, BuildParts(env, st, comp, lbl, n))
    ensures BuildParts(env, st, comp, lbl, n).comps[comp].original.None?
    decreases lbl, 0, n
  {
    if n > 0 {
      BuildPartsKeepsValid(env, st, comp, lbl, n - 1);
      BuildKeepsValid(env, BuildParts(env, st, comp, lbl, n - 1), comp, lbl.kind.components[n - 1]);
    }
  }

  /** Every root is a component of the arena and is not a duplicate. */
  ghost predicate RootsSound(st: BuildState, roots: seq<nat>)
  {
    forall k :: 0 <= k < |roots| ==> roots[k] < |st.comps| && st.comps[roots[k]].original.None?
  }

  /** The whole colour-aware read keeps the arena invariant and leaves every
      root a non-duplicate component of the arena. */
  lemma {:induction false} AddRootsKeepsValid(env: Env, st: BuildState, roots: seq<nat>, labels: seq<Label>)
    requires Valid(env, st) && RootsSound(st, roots)
    ensures Valid(env, AddRoots(env, st, roots, labels).0)
    ensures RootsSound(AddRoots(env, st, roots, labels).0, AddRoots(env, st, roots, labels).1)
    decreases |labels|
  {
    if labels != [] {
      var prev := AddRoots(env, st, roots, labels[..|labels| - 1]);
      AddRootsKeepsValid(env, st, roots, labels[..|labels| - 1]);
      var lbl := labels[|labels| - 1];
      var root := |prev.0.comps|;
      var c := NewComponent(lbl.shape).(name := GetName(lbl));
      var created := prev.0.(comps := prev.0.comps + [c]);
      AppendKeepsValid(env, prev.0, c);
      BuildKeepsValid(env, created, root, lbl);
      BuildFrame(env, created, root, lbl);
      var r := AddRoots(env, st, roots, labels);
      assert r.1 == prev.1 + [root];
      forall k | 0 <= k < |r.1| ensures r.1[k] < |r.0.comps| && r.0.comps[r.1[k]].original.None? {
        if k < |prev.1| {
          assert r.1[k] == prev.1[k];
          assert created.comps[prev.1[k]] == prev.0.comps[prev.1[k]];
        }
      }
    }
  }

  /** Root `|roots| + k` of `r` is a component created after `st` and holds
      the shape of free label `k`; the new roots are strictly increasing. */
  predicate RootsWrapLabels(st: BuildState, r: (BuildState, seq<nat>), roots: seq<nat>, labels: seq<Label>)
    requires |r.1| == |roots| + |labels|
  {
    && (forall i :: |roots| <= i < |r.1| ==>
          |st.comps| <= r.1[i] < |r.0.comps| && r.0.comps[r.1[i]].shape == labels[i - |roots|].shape)
    && (forall i, j :: |roots| <= i < j < |r.1| ==> r.1[i] < r.1[j])
  }

  /** One new root per free label: each is a fresh component wrapping that
      label's shape, and the roots appear in label order. */
  lemma {:induction false} AddRootsShapes(env: Env, st: BuildState, roots: seq<nat>, labels: seq<Label>)
    ensures RootsWrapLabels(st, AddRoots(env, st, roots, labels), roots, labels)
    decreases |labels|
  {
    if labels != [] {
      AddRootsShapes(env, st, roots, labels[..|labels| - 1]);
      NewRootWraps(env, st, roots, labels);
    }
  }

  /** The step of `AddRootsShapes`: the law carries over to one more label. */
  lemma NewRootWraps(env: Env, st: BuildState, roots: seq<nat>, labels: seq<Label>)
    requires labels != []
    requires RootsWrapLabels(st, AddRoots(env, st, roots, labels[..|labels| - 1]), roots, labels[..|labels| - 1])
    ensures RootsWrapLabels(st, AddRoots(env, st, roots, labels), roots, labels)
  {
    AddRootsLast(env, st, roots, labels);
    PrefixAndLast(labels);
    RootStep(st, AddRoots(env, st, roots, labels[..|labels| - 1]), roots, labels[..|labels| - 1],
             labels[|labels| - 1], AddRoots(env, st, roots, labels));
  }

  /** `AddRoots` on one more label: the previous roots and then a new one,
      a component named after the last label and grown by its traversal. */
  lemma AddRootsLast(env: Env, st: BuildState, roots: seq<nat>, labels: seq<Label>)
    requires labels != []
    ensures var prev := AddRoots(env, st, roots, labels[..|labels| - 1]);
      var lbl := labels[|labels| - 1];
      var r := AddRoots(env, st, roots, labels);
      && r.1 == prev.1 + [|prev.0.comps|]
      && Grows(prev.0.(comps := prev.0.comps + [NewComponent(lbl.shape).(name := GetName(lbl))]), r.0, |prev.0.comps|)
  {
    var prev := AddRoots(env, st, roots, labels[..|labels| - 1]);
    var lbl := labels[|labels| - 1];
    BuildFrame(env, prev.0.(comps := prev.0.comps + [NewComponent(lbl.shape).(name := GetName(lbl))]), |prev.0.comps|, lbl);
  }

  lemma PrefixAndLast<T>(s: seq<T>)
    requires s != []
    ensures s[..|s| - 1] + [s[|s| - 1]] == s
  {
  }

  /** The root created for `lbl` and then grown by its traversal keeps the
      law for all labels so far. */
  lemma RootStep(st: BuildState, prev: (BuildState, seq<nat>), roots: seq<nat>, labels: seq<Label>,
                 lbl: Label, r: (BuildState, seq<nat>))
    requires |prev.1| == |roots| + |labels| && |st.comps| <= |prev.0.comps|
    requires RootsWrapLabels(st, prev, roots, labels)
    requires r.1 == prev.1 + [|prev.0.comps|]
    requires Grows(prev.0.(comps := prev.0.comps + [NewComponent(lbl.shape).(name := GetName(lbl))]), r.0, |prev.0.comps|)
    ensures RootsWrapLabels(st, r, roots, labels + [lbl])
  {
    var root := |prev.0.comps|;
    var created := prev.0.(comps := prev.0.comps + [NewComponent(lbl.shape).(name := GetName(lbl))]);
    var all := labels + [lbl];
    forall i | |roots| <= i < |r.1|
      ensures |st.comps| <= r.1[i] < |r.0.comps| && r.0.comps[r.1[i]].shape == all[i - |roots|].shape
    {
      if i < |prev.1| {
        assert all[i - |roots|] == labels[i - |roots|];
        assert |st.comps| <= prev.1[i] < |prev.0.comps|;
        assert r.1[i] == prev.1[i];
        assert created.comps[prev.1[i]] == prev.0.comps[prev.1[i]];
      } else {
        assert r.1[i] == root;
        assert created.comps[root].shape == lbl.shape;
      }
    }
    forall i, j | |roots| <= i < j < |r.1|
      ensures r.1[i] < r.1[j]
    {
      assert r.1[i] == prev.1[i] < |prev.0.comps|;
      if j < |prev.1| {
        assert r.1[j] == prev.1[j];
      }
    }
  }

  // ---------------------------------------------------------------------
  // One step of the traversal

  /** A reference to an empty shape, and a simple shape that is empty,
      contribute nothing; so does a label of any other kind. An unfolding of
      `Build` kept as documentation: the proved facts about the traversal are
      `BuildFrame`, `BuildKeepsValid` and the reader's equality with `Build`. */
  lemma EmptySkipped(env: Env, st: BuildState, comp: nat, lbl: Label)
    requires comp < |st.comps|
    requires lbl.kind.OtherLabel?
      || (lbl.kind.Reference? && IsEmpty(lbl.kind.referred.shape, env.sketch))
      || (lbl.kind.SimpleShape? && IsEmpty(lbl.shape, env.sketch))
    ensures Build(env, st, comp, lbl) == st
  {
  }

  /** A simple shape that is not empty appends one IShape per classifier
      unit, in order, each fully coloured, and changes nothing else. */
  lemma SimpleShapeUnits(env: Env, st: BuildState, comp: nat, lbl: Label)
    requires comp < |st.comps| && lbl.kind.SimpleShape? && !IsEmpty(lbl.shape, env.sketch)
    ensures var r := Build(env, st, comp, lbl);
      var units := SubShapes(lbl.shape, env.sketch);
      var added := r.comps[comp].ishapes[|st.comps[comp].ishapes|..];
      && |r.comps| == |st.comps| && r.idMap == st.idMap
      && (forall j :: 0 <= j < |st.comps| && j != comp ==> r.comps[j] == st.comps[j])
      && r.comps[comp].shape == st.comps[comp].shape && r.comps[comp].name == st.comps[comp].name
      && r.comps[comp].transform == st.comps[comp].transform && r.comps[comp].original == st.comps[comp].original
      && r.comps[comp].children == st.comps[comp].children
      && st.comps[comp].ishapes <= r.comps[comp].ishapes
      && |added| == |units|
      && (forall k :: 0 <= k < |units| ==> added[k] == IShape(units[k], ExpectedColors(env, units[k])))
  {
  }

  /** A reference whose shape is not empty appends exactly one new child to
      `comp`, and changes nothing else about `comp`; the child is appended
      before the duplicate check and carries the reference's transform.
      When the shape id was seen before, the child keeps the referred label's
      name, points at the first component with it, gets nothing else, and
      the index is unchanged; otherwise the index now records the child (whose
      name an assembly label inside may overwrite). */
  lemma ReferenceStep(env: Env, st: BuildState, comp: nat, lbl: Label)
    requires comp < |st.comps| && lbl.kind.Reference? && !IsEmpty(lbl.kind.referred.shape, env.sketch)
    ensures var r := Build(env, st, comp, lbl);
      var ref := lbl.kind.referred;
      var sub := |st.comps|;
      && sub < |r.comps|
      && r.comps[comp] == st.comps[comp].(children := st.comps[comp].children + [sub])
      && r.comps[sub].shape == ref.shape
      && r.comps[sub].transform == Some(lbl.kind.location)
      && (ref.shape.id in st.idMap ==>
            && r.comps[sub].name == GetName(ref)
            && r.comps[sub].original == Some(st.idMap[ref.shape.id])
            && r.comps[sub].children == [] && r.comps[sub].ishapes == []
            && r.idMap == st.idMap && |r.comps| == sub + 1)
      && (ref.shape.id !in st.idMap ==>
            ref.shape.id in r.idMap && r.idMap[ref.shape.id] == sub && r.comps[sub].original.None?)
  {
    var ref := lbl.kind.referred;
    var sub := |st.comps|;
    var child := NewComponent(ref.shape).(name := GetName(ref), transform := Some(lbl.kind.location));
    var grown := st.comps + [child];
    var attached := st.(comps := grown[comp := grown[comp].(children := grown[comp].children + [sub])]);
    var checked := CopyCheck(attached, sub);
    assert checked.1.comps[comp].children == st.comps[comp].children + [sub];
    if !checked.0 {
      BuildFrame(env, checked.1, sub, ref);
    }
  }

  /** The IShapes that simple-shape parts contribute, part after part. */
  function PartUnits(env: Env, parts: seq<Label>): seq<IShape>
    decreases |parts|
  {
    if parts == [] then []
    else
      var last := parts[|parts| - 1];
      PartUnits(env, parts[..|parts| - 1]) + UnitsOf(env, last)
  }

  /** The IShapes one simple-shape part contributes: none for an empty shape. */
  function UnitsOf(env: Env, part: Label): seq<IShape>
  {
    if IsEmpty(part.shape, env.sketch) then [] else MakeIShapes(env, SubShapes(part.shape, env.sketch))
  }

  /** `st` with `xs` appended to the units of component `comp`. */
  function WithUnits(st: BuildState, comp: nat, xs: seq<IShape>): (r: BuildState)
    requires comp < |st.comps|
    ensures |r.comps| == |st.comps| && r.comps[comp].ishapes == st.comps[comp].ishapes + xs
  {
    st.(comps := st.comps[comp := st.comps[comp].(ishapes := st.comps[comp].ishapes + xs)])
  }

  /** Appending twice to the same component appends the concatenation. */
  lemma WithUnitsTwice(st: BuildState, comp: nat, xs: seq<IShape>, ys: seq<IShape>)
    requires comp < |st.comps|
    ensures WithUnits(WithUnits(st, comp, xs), comp, ys) == WithUnits(st, comp, xs + ys)
  {
    var c := st.comps[comp];
    assert (c.ishapes + xs) + ys == c.ishapes + (xs + ys);
    assert st.comps[comp := c.(ishapes := c.ishapes + xs)][comp := c.(ishapes := c.ishapes + (xs + ys))]
      == st.comps[comp := c.(ishapes := c.ishapes + (xs + ys))];
  }

  /** Building one simple-shape part on `comp` appends its units to `comp`. */
  lemma OnePartOfShape(env: Env, st: BuildState, comp: nat, part: Label)
    requires comp < |st.comps| && part.kind.SimpleShape?
    ensures Build(env, st, comp, part) == WithUnits(st, comp, UnitsOf(env, part))
  {
    var c := st.comps[comp];
    if IsEmpty(part.shape, env.sketch) {
      assert c.(ishapes := c.ishapes + []) == c;
      assert st.comps[comp := c] == st.comps;
    }
  }

  /** An assembly of simple shapes adds no component: it renames `comp` and
      appends the units of its parts to `comp` itself, in part order. */
  lemma AssemblyOfShapes(env: Env, st: BuildState, comp: nat, lbl: Label)
    requires comp < |st.comps| && lbl.kind.Assembly?
    requires forall k :: 0 <= k < |lbl.kind.components| ==> lbl.kind.components[k].kind.SimpleShape?
    ensures var c := st.comps[comp];
      Build(env, st, comp, lbl) == st.(comps := st.comps[comp := c.(name := GetName(lbl),
                                                 ishapes := c.ishapes + PartUnits(env, lbl.kind.components))])
  {
    var named := st.(comps := st.comps[comp := st.comps[comp].(name := GetName(lbl))]);
    PartsOfShapes(env, named, comp, lbl, |lbl.kind.components|);
    assert lbl.kind.components[..|lbl.kind.components|] == lbl.kind.components;
  }

  lemma {:induction false} PartsOfShapes(env: Env, st: BuildState, comp: nat, lbl: Label, n: nat)
    requires comp < |st.comps| && lbl.kind.Assembly? && n <= |lbl.kind.components|
    requires forall k :: 0 <= k < |lbl.kind.components| ==> lbl.kind.components[k].kind.SimpleShape?
    ensures BuildParts(env, st, comp, lbl, n) == WithUnits(st, comp, PartUnits(env, lbl.kind.components[..n]))
    decreases n
  {
    var parts := lbl.kind.components;
    if n == 0 {
      var c := st.comps[comp];
      assert parts[..0] == [];
      assert c.(ishapes := c.ishapes + []) == c;
      assert st.comps[comp := c] == st.comps;
    } else {
      PartsOfShapes(env, st, comp, lbl, n - 1);
      assert parts[..n][..n - 1] == parts[..n - 1];
      var before := PartUnits(env, parts[..n - 1]);
      var last := parts[n - 1];
      assert parts[..n][n - 1] == last;
      assert PartUnits(env, parts[..n]) == before + UnitsOf(env, last);
      assert BuildParts(env, st, comp, lbl, n) == Build(env, WithUnits(st, comp, before), comp, last);
      OnePartOfShape(env, WithUnits(st, comp, before), comp, last);
      WithUnitsTwice(st, comp, before, UnitsOf(env, parts[n - 1]));
    }
  }

  /** Duplicate law: two components with the same shape id checked one after
      the other; the first is recorded, the second becomes its placeholder. */
  lemma SecondSightingIsCopy(st: BuildState, a: nat, b: nat)
    requires a < |st.comps| && b < |st.comps| && a != b
    requires st.comps[a].shape.id == st.comps[b].shape.id && st.comps[a].shape.id !in st.idMap
    ensures var first := CopyCheck(st, a);
      var second := CopyCheck(first.1, b);
      && !first.0 && second.0
      && second.1.comps[b].original == Some(a)
      && second.1.idMap == st.idMap[st.comps[a].shape.id := a]
  {
  }
}
