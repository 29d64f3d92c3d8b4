# STP2X3D STEP reader — a Dafny model

STP2X3D converts STEP (ISO 10303) CAD files to X3D. Its reader,
`STEP_Reader`, first asks the OpenCASCADE kernel to read and transfer the
file. It then rebuilds the product structure as a tree of `Component`s,
each holding `IShape`s ("exportable units") coloured from the document's
colour tool. It cleans label names with the `StrTool` string helpers.

This project models that reader and those helpers, and proves what they
promise:

- `StrTool` models the find-and-replace loop of `ReplaceCharacter` as a
  method. The method is proved equal to a left-to-right, non-overlapping
  reference replacement. The module also proves the length law, the laws of
  single-character removal, and the narrow/wide conversions with the MSVC
  widths: `char` is a signed 8-bit integer and `wchar_t` an unsigned 16-bit
  one.
- `Kernel` holds the kernel's answers as data:
  - a shape is a tree that carries the flags the reader asks for (free edge,
    solid or surface model, mapped item, has edge, has face, face set, id);
  - a label is an inductive assembly / reference / simple shape / other
    variant, so the label graph is finite and acyclic by construction;
  - the colour tool is a partial map from (entity, role) to colour;
  - each kernel stage of `ReadSTEP` has an outcome: it completes, or it
    raises a numeric fault or some other fault.
- `ShapeClassifier` holds `IsEmpty` and the unit classifier `SubShapes`,
  which `GetSubShapes` computes.
- `ColorResolver` holds the colour priority chains and `ResolvedColors`,
  which `AddColors` computes.
- `Names` models `GetName`: the name is streamed with a line end, carriage
  returns and line feeds are removed, and structural words and `=>[...]`
  placeholders are blanked.
- `Assembly` states `AddSubComponents` as a function `Build` on an arena of
  components plus the first-wins duplicate index. It proves the frame, the
  arena invariant and the effect of each label kind.
- `StepReader` has the classes `Options`, `Model` and `Reader`. Their
  methods change state in place and are proved equal to the functions
  above. `ReadSTEP` also gets its outcome laws: the colour-aware path, the
  numeric-fault colourless fallback, and the failure returns.

Pointers become indices into the arena `Model.comps`. A component's
children and its "original component" are indices.

## Model

| member | source | states |
|---|---|---|
| StrTool.Find | STP2X3D/StrTool.h:9-14 | `find(pat, pos)` yields the first index at or after `pos` where `pat` occurs, and `None` (npos) exactly when there is none |
| StrTool.ReplaceCharacter | STP2X3D/StrTool.h:7-31 | with `from` non-empty, the loop terminates; its result is the reference left-to-right, non-overlapping replacement; a string without `from` comes back unchanged; the length law holds |
| StrTool.ReplacedTextNotRescanned | STP2X3D/StrTool.h:13-14 | after a replacement, scanning resumes after the inserted `to`, so `to` is emitted verbatim even when it contains `from` |
| StrTool.ReplaceAllAtFirst | STP2X3D/StrTool.h:9-14 | text before the first occurrence is copied, `to` is written in place of that occurrence, and the rest is processed after it |
| StrTool.ReplaceAllNoMatch | STP2X3D/StrTool.h:9-11 | where `from` never occurs, nothing changes |
| StrTool.ReplaceAllLength | STP2X3D/StrTool.h:13-14 | the result length is `|str| + k * (|to| - |from|)`, where k is the number of replacements |
| StrTool.RemoveCharacterLaws | STP2X3D/StrTool.h:33-38 | each removal shortens the string by the target's length; without the target the string comes back as it is; a one-character target is filtered out, order kept |
| StrTool.RemoveOneIsFilter | STP2X3D/StrTool.h:33-38 | replacing a one-character pattern by nothing equals the independent filter `Without` |
| StrTool.RemoveSingle | STP2X3D/StrTool.h:33-38 | after removal no occurrence of the character is left and every other character keeps its multiplicity; removal is idempotent |
| StrTool.RemoveCanCreateOccurrence | STP2X3D/StrTool.h:33-38 | with a two-character target, removal can create a new occurrence ("aabb" without "ab" is "ab") |
| StrTool.Str2WStr | STP2X3D/StrTool.h:46-50 | the wide string has the narrow string's length |
| StrTool.WStr2Str | STP2X3D/StrTool.h:40-44 | the narrow string has the wide string's length |
| StrTool.RoundTrip | STP2X3D/StrTool.h:40-50 | widening then narrowing gives back every narrow string, including negative `char`s |
| StrTool.NarrowWiden | STP2X3D/StrTool.h:40-50 | a single `char` survives the widening and narrowing conversions |
| StrTool.LoopTurn | STP2X3D/StrTool.h:11-15 | one turn of the loop as written, for any `from`, changes the length by `|to| - |from|` |
| StrTool.EmptyFromNeverEnds | STP2X3D/StrTool.h:9-15 | with an empty `from`, `find` always matches at the search position and each turn leaves the same distance to the end, so the loop never exits |
| StrTool.NarrowingIsLossy | STP2X3D/StrTool.h:40-50 | the other direction is lossy: a wide character above 0xFF does not survive |
| ShapeClassifier.CompoundPrecedence | STP2X3D/STEP_Reader.cpp:181-210 | compound checks in order: a free-edge compound is `[s]` in sketch mode and `[]` otherwise; then a solid or surface model is `[s]` and is not descended into; then a mapped item is `[]`; otherwise the children's units are concatenated in order |
| ShapeClassifier.AtomicKinds | STP2X3D/STEP_Reader.cpp:211-218 | comp-solids, solids and shells are `[s]`; every other non-compound kind is `[]` |
| ShapeClassifier.SubShapes | STP2X3D/STEP_Reader.cpp:177-218 | every unit produced at any depth is an export unit, so no free-edge compound appears outside sketch mode; proved through the contracts of the recursive calls |
| ShapeClassifier.ChildUnits | STP2X3D/STEP_Reader.cpp:204-209 | the concatenated units of the first `n` children are all export units |
| ShapeClassifier.EmptinessByMode | STP2X3D/STEP_Reader.cpp:271-279 | `IsEmpty`: a null shape is always skipped; otherwise the shape is kept in sketch mode exactly when it has an edge, and outside it exactly when it has a face; a shape with edges but no faces is kept only in sketch mode |
| ShapeClassifier.FacelessUnitKept | STP2X3D/STEP_Reader.cpp:137-218 | emptiness is tested on the label's shape only: a non-empty compound of a solid with faces and a shell without any yields both, the face-less shell included, outside sketch mode |
| ColorResolver.PickPriority | STP2X3D/STEP_Reader.cpp:310-316 | a specific colour wins; an inherited colour wins only without one; the default applies only when neither is set; a missing colour is never an error |
| ColorResolver.FaceSetColors | STP2X3D/STEP_Reader.cpp:289-318 | a face set gets exactly one entry per explored face, in order, coloured face over solid over grey (0.55, 0.55, 0.6, 1) |
| ColorResolver.WireColorsAt | STP2X3D/STEP_Reader.cpp:321-354 | wire after wire, each edge of each wire gets exactly one entry, coloured edge over wire over white |
| ColorResolver.ExploredInOrder | STP2X3D/STEP_Reader.cpp:281-376 | `ResolvedColors` has exactly one entry per explored entity, in exploration order: the faces of a face set; each wire's edges and then the free edges of a wire set |
| ColorResolver.WireColorsLength | STP2X3D/STEP_Reader.cpp:321-354 | the wire entries number exactly the total edge count over all wires |
| ColorResolver.WireSetColors | STP2X3D/STEP_Reader.cpp:319-375 | a wire set gets the wire entries and then exactly one entry per free edge, coloured edge over white, with no wire level |
| Names.StreamedAndCleaned | STP2X3D/STEP_Reader.cpp:228-238 | the streamed name (text plus the line end `endl` adds) with `\r` and `\n` removed is the text with its line-end characters dropped, and holds neither |
| Names.GetName | STP2X3D/STEP_Reader.cpp:220-250 | the name has no `\r` or `\n`; it is blank when the stripped name is COMPOUND, COMPSOLID, SOLID or SHELL or a placeholder; otherwise it is the stripped name |
| Names.PlaceholderTestMeaning | STP2X3D/STEP_Reader.cpp:245-246 | the test `find("=>[") == 0 && find("]") == length - 1` holds exactly when the name starts with `=>[`, ends with `]` and has no other `]` |
| Names.RemoveLineEnds | STP2X3D/STEP_Reader.cpp:236-238 | removing `\r` and then `\n` is filtering out both line-end characters |
| Names.LineEndsStrippedAppend | STP2X3D/STEP_Reader.cpp:228-238 | stripping distributes over concatenation, so the line end the stream appends is gone |
| Names.LineEndsStrippedHasNone | STP2X3D/STEP_Reader.cpp:236-238 | a stripped string contains neither line-end character |
| Assembly.MakeIShapes | STP2X3D/STEP_Reader.cpp:165-171 | one IShape per unit, in order, each on its unit |
| Assembly.CopyCheck | STP2X3D/STEP_Reader.cpp:252-269 | the duplicate check never adds or removes a component |
| Assembly.SecondSightingIsCopy | STP2X3D/STEP_Reader.cpp:252-269 | first-wins: the first sighting of an id records its component and answers false; the next answers true, points at the first and leaves the index as the first left it |
| Assembly.Build | STP2X3D/STEP_Reader.cpp:114-175 | the traversal never removes a component |
| Assembly.BuildParts | STP2X3D/STEP_Reader.cpp:121-130 | the parts of an assembly are built one after another into the same component; the arena never shrinks |
| Assembly.BuildPartsFrame | STP2X3D/STEP_Reader.cpp:121-130 | building the parts changes, among the old components, only `comp`, and only by appending; the index only gains entries |
| Assembly.BuildFrame | STP2X3D/STEP_Reader.cpp:114-175 | besides appending new components, the traversal changes only `comp`, and only by a new name and appended children and IShapes; the index only gains entries |
| Assembly.BuildKeepsValid | STP2X3D/STEP_Reader.cpp:114-175 | the arena invariant is kept: children are in the arena; the index points at non-duplicates with that id; a duplicate is an empty placeholder for an earlier original; every IShape is an export unit, fully coloured |
| Assembly.AddRoots | STP2X3D/STEP_Reader.cpp:58-68 | one root per free label, appended after the existing roots, which are kept as they were |
| Assembly.AddRootsShapes | STP2X3D/STEP_Reader.cpp:58-68 | the root for free label `k` is a component created by the loop, holds that label's shape, and the new roots are strictly increasing in label order |
| Assembly.AddRootsKeepsValid | STP2X3D/STEP_Reader.cpp:50-68 | the whole colour-aware read keeps the arena invariant, and every root is a non-duplicate component |
| Assembly.EmptySkipped | STP2X3D/STEP_Reader.cpp:137-159 | a reference to an empty shape, an empty simple shape and a label of any other kind leave the state unchanged; `IsEmpty` is null-or-no-edge in sketch mode, null-or-no-face otherwise (STEP_Reader.cpp:271-279) |
| Assembly.AssemblyOfShapes | STP2X3D/STEP_Reader.cpp:117-131 | an assembly adds no component of its own: it renames `comp` and adds its parts' units to `comp`, in part order |
| Assembly.PartsOfShapes | STP2X3D/STEP_Reader.cpp:124-130 | building the first `n` simple-shape parts of an assembly appends their units, part after part, to `comp` and to nothing else |
| Assembly.SimpleShapeUnits | STP2X3D/STEP_Reader.cpp:154-174 | a non-empty simple shape appends exactly one IShape per classifier unit to `comp`, in order and fully coloured, after the IShapes it had; `comp`'s shape, name, transform, original and children, every other component, the arena size and the index are unchanged |
| Assembly.ReferenceStep | STP2X3D/STEP_Reader.cpp:132-153 | a non-empty reference appends exactly one child to `comp`, changing nothing else about `comp`, before the duplicate check; the child has the referred shape and the reference's transform; a copy keeps the referred name, points at the first component and stays empty, and the index does not change; otherwise the index records the child |
| StepReader.CheckReturnStatus | STP2X3D/STEP_Reader.cpp:378-404 | success exactly for `RetDone`; a diagnostic exactly otherwise |
| StepReader.DiagnosticsDistinct | STP2X3D/STEP_Reader.cpp:386-400 | the four failure statuses print four different messages |
| StepReader.Model.AddRootComponent | STP2X3D/STEP_Reader.cpp:65 | appends one root and leaves the arena alone |
| StepReader.Model.Clear | STP2X3D/STEP_Reader.cpp:73 | afterwards there are no components and no roots |
| StepReader.Reader.constructor | STP2X3D/STEP_Reader.cpp:7-13 | starts with the given options, an empty index and no colour tool |
| StepReader.Reader.Clear | STP2X3D/STEP_Reader.cpp:426-430 | empties the duplicate index |
| StepReader.Reader.UpdateColorOption | STP2X3D/STEP_Reader.cpp:406-424 | Color stays on exactly when it was on, a colour tool exists and it defines at least one colour; it is never switched on; Sketch is untouched |
| StepReader.Reader.GetSubShapes | STP2X3D/STEP_Reader.cpp:177-218 | pushes exactly the classifier's units after the existing entries |
| StepReader.Reader.AddColors | STP2X3D/STEP_Reader.cpp:281-376 | with Color off the IShape is unchanged; otherwise exactly the resolved colours are appended, in exploration order |
| StepReader.Reader.IsCopy | STP2X3D/STEP_Reader.cpp:252-269 | answer and new state are those of the first-wins duplicate check; roots are untouched |
| StepReader.Reader.AddIShapes | STP2X3D/STEP_Reader.cpp:165-171 | appends one IShape per unit, in unit order and coloured from the colour tool, to `comp` and changes no other component nor the roots |
| StepReader.Reader.AddSubComponents | STP2X3D/STEP_Reader.cpp:114-175 | the new arena and index are exactly `Build` of the old ones; roots are untouched |
| StepReader.Reader.AddFreeShapes | STP2X3D/STEP_Reader.cpp:50-68 | the loop over the free labels builds exactly `AddRoots` |
| StepReader.Reader.ReadWithoutColor | STP2X3D/STEP_Reader.cpp:71-97 | the numeric-fault handler clears the model and updates Color; a fault in it escapes; a non-Done status gives false; a transferred shape becomes the only root, holding one uncoloured IShape; otherwise the model stays empty |
| StepReader.Reader.ReadSTEP | STP2X3D/STEP_Reader.cpp:20-112 | a non-Done status, and a fault other than a numeric one in the colour-aware stages, give false and leave the model, Color and the colour tool untouched; a transfer that yields no document leaves the model, Color and the colour tool untouched; the colour-aware path builds exactly `AddRoots` over the free labels, and on every other path the duplicate index is unchanged; a numeric fault clears the model, updates Color and adds at most one root holding one uncoloured IShape, and a fault in that fallback escapes; true only for a non-empty model; Color is never switched on |

## Left out

- OpenCASCADE itself: the STEP readers, the XDE document, the shape and colour tools and the topology explorers. The model holds their answers as data (shape flags, face, wire and edge lists, label variants, colour map, stage outcomes).
- `STEP_Data`, `OCCUtil`, `Component`, `IShape` and `Model` are not part of this model beyond the calls the reader makes. Their predicates are fields of the shape. `Model::Update` is not modelled. `Model::IsEmpty` is a parameter of `ReadSTEP`.
- `Component::SetUniqueName` is not part of this model; the name is stored as given.
- `IShape::AddColor` is an append to an ordered list of entries. No map or idempotence semantics are claimed for it.
- Colours and transforms are opaque real values that the reader never computes on.
- `StrTool::s2ws` depends on the process locale (`setlocale`, `mbstowcs`). `GetName` treats the name as a character sequence passed through unchanged.
- Formatting the name into a `stringstream` is modelled as appending one `"\n"` for `endl`.
- The `printf`/`cout` diagnostics are reduced to the distinct `Diagnostic` values; the fault message text is dropped.
- `new`/`delete`, pointer ownership and the `m_stepData` lifetime are out of scope: components live in an arena and the reader's `Clear` only empties the index.
- The IShape is coloured before it is stored in its component. The source stores the pointer and then colours it; nothing reads it in between.
- ShapeClassifier.SubShapes: the classifier does not test `IsEmpty` on the units it yields, as the source does not (STEP_Reader.cpp:181-218). A face-less solid or shell nested in a kept compound is exported outside sketch mode (`FacelessUnitKept`); no law says that every unit has a face.
- Faults are modelled only for the four kernel stages (read and transfer, for both readers), not inside the traversal. A fault while the free labels are processed (STEP_Reader.cpp:58-68) would come after `UpdateColorOption` and after some roots were added; in the source it then returns false over a partly built model, or runs the numeric fallback with the colour tool already set. What `StepReader.Reader.ReadSTEP` promises about untouched state holds for faults in the modelled stages only.
- StrTool.ReplaceCharacter: requires a non-empty `from`, because with an empty one the source loop never terminates (see "## Findings").
- StrTool.RemoveCharacter: requires a non-empty target, for the same reason.
- StrTool.RemoveCharacter carries no contract of its own: its laws are the lemma `RemoveCharacterLaws`, because `GetName` calls it twice and cannot afford to carry them along.
- Assembly.ReferenceStep: in the non-copy case, the claim about the child's name is left out, because an assembly label reached below the reference renames that child.
- StrTool.Str2WStr, StrTool.WStr2Str: `char` is taken as a signed 8-bit and `wchar_t` as an unsigned 16-bit integer, as with MSVC. The build's compiler is not fixed here; with a 32-bit `wchar_t` the round trip still holds but the widths differ.
- ColorResolver.ResolvedColors carries no contract of its own: its order law is the lemma `ExploredInOrder`. The reader's methods mention the function everywhere and cannot afford to carry that law along.
- Assembly.AssemblyOfShapes: stated only for assemblies whose parts are all simple shapes; for nested parts the order law is `BuildParts` with `BuildFrame`.
- The numeric-fault fallback calls `UpdateColorOption`, so Color goes off there only when there is no colour tool or it defines no colour. The model follows the code in this, not a description of the fallback as always colourless.

## Findings

| source | as written | input that shows it | evidently intended | confidence | as-written member | corrected member |
|---|---|---|---|---|---|---|
| STP2X3D/StrTool.h:7-31 | `ReplaceCharacter` loops while `find(from, loc + to.length())` matches, and accepts any `from` | `from` empty, any `str`, any `to`: `find("")` matches at every position up to the end, so the loop never exits; with a non-empty `to` the string grows by `to` on every turn | `from` is non-empty, as at every call in the reader (STP2X3D/STEP_Reader.cpp:237-238) | not executed | StrTool.EmptyFromNeverEnds | StrTool.ReplaceCharacter |
