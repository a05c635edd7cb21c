# Rubik's cube scanner: validation and facelet-string conversion

The scanner photographs the six faces of a Rubik's cube, labels each of the nine facelets of a
face with a colour letter (`W`, `R`, `O`, `Y`, `G`, `B`, or `?` when no colour range matched),
and keeps the result in a dictionary `scanned_faces` from face key (`U`, `R`, `F`, `D`, `L`, `B`)
to the list of nine labels. Before the Kociemba solver can be called, two things happen to that
dictionary:

- `validate_cube_state` checks it: six faces, exactly the six required keys, nine labels per face,
  only the six colour labels, nine facelets of each colour, and six different centres. The first
  failed check wins.
- `save_cube_state` converts it. It maps each face's centre colour to that face's letter, then
  walks the faces in the solver's order `U, R, F, D, L, B` and the facelets of each face in stored
  order. It writes the owning face letter of every facelet into a 54-character string.
  `is_valid_cube_string` checks that string: length 54, only face letters, and each letter nine
  times.

This project models those three operations, the development fixture `load_test_cube`, and the
manual-entry check for one face. It proves:

- the validators accept exactly the well-formed inputs, and every rejection reason is truthful;
- the conversion loops compute a specified string with a fixed layout;
- every state the state validator accepts converts, without raising, into a string that the
  string validator accepts;
- the scan's final step, which converts before it validates, raises on states that validating
  first would simply have rejected.

Modules:

- `collections.dfy`, module `Collections`: `Option`, `Verdict` (pass, or fail with a reason) and
  facts about distinct elements and counting.
- `cube.dfy`, module `Cube`: the state dictionary, the constants shared by both Python files, and
  gathering facelets face by face.
- `validate_input.dfy`, module `ValidateInput`: `validate_cube_state` as a method with loops,
  proved against the first-failure specification `StateVerdict`; `is_valid_cube_string` as a
  function.
- `capture_faces.dfy`, module `CaptureFaces`: the conversion in `save_cube_state` as methods with
  loops, proved against `CenterMap` and `CubeString`; the fixture, the manual-entry check, and the
  end of a scan.

The dictionary is modelled as its entries in insertion order (`seq<Face>`). `Lookup` reads the
last entry with a key, which is what a dictionary with distinct keys returns. A sequence that
repeats a key corresponds to no dictionary and is outside the program's domain; the lemmas hold
for it too, so they do not depend on that restriction. A validator's
`False` plus its printed message becomes `Fail(reason)`; `True` becomes `Pass`. A conversion that
would raise `KeyError` or `IndexError` is a state outside `Canonicalizable`.

## Model

| member | source | states |
|---|---|---|
| ValidateInput.ValidateCubeState | validate_input.py:1-36 | The loop over faces, the colour counter and the early returns compute exactly `StateVerdict`: the checks in source order, the first failure winning. It returns that value and changes nothing, so two calls on one state agree. |
| ValidateInput.TallyFace | validate_input.py:14-23 | The inner loop over one face's labels stops at the first label outside the counter. Otherwise it leaves the counter holding each colour's count over all facelets seen so far. |
| ValidateInput.StateVerdictPassIff | validate_input.py:1-36 | `validate_cube_state` accepts a state exactly when it is well formed: six faces, the six required keys, nine valid labels per face, nine facelets of each colour, pairwise different centres. |
| ValidateInput.ShapeReasons | validate_input.py:3-10 | The verdict is a wrong face count exactly when there are not six entries. It is a wrong face set exactly when there are six entries but the key set differs from `{U,R,F,D,L,B}`. |
| ValidateInput.NoLaterWrongShape | validate_input.py:12-34 | Once the shape checks pass, no later check reports a shape error, and a centre rejection means every face passed the per-face checks. |
| ValidateInput.FaceReasons | validate_input.py:14-22 | A face-length rejection names a face whose entry does not have nine labels. An invalid-colour rejection names a label outside the six colours that occurs on the named face. |
| ValidateInput.CountReason | validate_input.py:12-28 | A count rejection names one of the six colours together with its true total over all faces, which is not nine. It is the first colour in the counter's order `W, R, O, Y, G, B` with a wrong total. |
| ValidateInput.CentersReason | validate_input.py:30-34 | A centre rejection happens only for six faces of nine labels in which two entries share their index-4 label. |
| ValidateInput.FacesPassIff | validate_input.py:14-22 | The per-face checks pass exactly when every face has nine labels, all of them among the six colours. |
| ValidateInput.CountsPassIff | validate_input.py:25-28 | The counter check passes exactly when each of the six colours occurs nine times over all faces. |
| ValidateInput.CentersPassIff | validate_input.py:31-32 | With six faces of nine labels, `len(set(centers)) == 6` holds exactly when the six centres are pairwise different. |
| ValidateInput.FirstInvalidColorSpec | validate_input.py:19-22 | Scanning a face's labels finds nothing exactly when all are valid colours. Otherwise it finds the first invalid label. |
| ValidateInput.FaceErrorSpec | validate_input.py:15-22 | One face has no error exactly when it has nine valid labels, and each error it reports is accurate. |
| ValidateInput.FirstFaceErrorSpec | validate_input.py:14-22 | Walking the faces in insertion order finds nothing exactly when every face passes. Otherwise it finds the error of the first failing face. |
| ValidateInput.FaceErrorVerdict | validate_input.py:14-22 | When entry `i` is the first face to fail its checks, its error is the validator's verdict. |
| ValidateInput.FirstCountError | validate_input.py:25-28 | The count loop finds nothing exactly when every colour has count nine. Otherwise it reports a colour of the list and its wrong count. |
| ValidateInput.FirstCountErrorIsFirst | validate_input.py:25-28 | The colour the count loop reports is the first one, in the counter's order, whose count is not nine. |
| ValidateInput.IsValidCubeString | validate_input.py:38-56 | Accepts exactly the 54-letter strings over `{U,R,F,D,L,B}` with nine of each letter. The verdict is a wrong length exactly when the length is not 54. An invalid-characters rejection happens exactly when the length is right and some character is not a face letter. A count rejection names a face letter with its wrong count. |
| ValidateInput.FirstLetterCountError | validate_input.py:50-54 | The per-letter loop finds nothing exactly when every letter occurs nine times. Otherwise it reports a letter and its wrong count. |
| CaptureFaces.BuildCenterMapping | capture_faces.py:116-119 | The loop over `face_order` builds `CenterMap`: each face's index-4 colour mapped to the face, later faces overwriting earlier ones. |
| CaptureFaces.AppendFace | capture_faces.py:123-124 | Appending the mapped letter of each label of one face adds exactly that face's relabelled labels to the string. |
| CaptureFaces.CanonicalCubeString | capture_faces.py:116-124 | The two loops produce `CubeString`: the relabelled facelets of `U, R, F, D, L, B`, face after face. |
| CaptureFaces.CenterMapUpToKeys | capture_faces.py:116-119 | After `n` faces, the map's keys are the centres seen so far and its values are faces seen so far, whatever the centres. |
| CaptureFaces.CenterMapBijection | capture_faces.py:116-119 | With different centres, `center_mapping` sends each face's centre to that face. It has six entries, its values are the six faces, and it is injective. |
| CaptureFaces.Relabel | capture_faces.py:123-124 | Relabelling keeps the length, and letter `k` is the mapped letter of label `k`. |
| CaptureFaces.CubeStringLayout | capture_faces.py:121-124 | With nine labels per face, the string has 54 letters. Position `9*i + j` is the mapped letter of label `j` of face `face_order[i]`. |
| CaptureFaces.CubeStringCenters | capture_faces.py:118-124 | With different centres, position `9*i + 4` holds the face's own letter `face_order[i]`. |
| CaptureFaces.CubeStringOrderFree | capture_faces.py:117-122 | The string depends only on what each face key looks up to, not on the insertion order of the dictionary. |
| CaptureFaces.WellFormedCanonicalizable | capture_faces.py:116-124 | A well-formed state converts without raising, and its centre map's keys are the six colours. |
| CaptureFaces.WellFormedLetterCounts | capture_faces.py:116-124 | In the string of a well-formed state, each face letter occurs nine times. |
| CaptureFaces.ValidatedStateCanonicalizes | capture_faces.py:116-124 | Every state `validate_cube_state` accepts converts without raising, into a string `is_valid_cube_string` accepts. |
| CaptureFaces.RelabelCount | capture_faces.py:123-124 | Through a map that is injective at colour `c`, the letter of `c` occurs in the string as often as `c` occurs among the labels. |
| Cube.GatherPermutes | capture_faces.py:121-123 | Gathering the faces in the solver's order yields the same labels, with multiplicity, as walking the dictionary in insertion order. |
| Cube.GatherLayout | capture_faces.py:121-123 | With nine labels per face, label `j` of the `i`-th gathered face sits at position `9*i + j`. |
| CaptureFaces.SolvedStateValid | validate_input.py:1-36 | Any state whose faces are solid, in solver order, in six different colours passes `validate_cube_state`. |
| CaptureFaces.SolvedStateString | capture_faces.py:116-124 | Such a solved state converts to nine `U`, then nine `R`, `F`, `D`, `L` and `B`. |
| CaptureFaces.TestCube | capture_faces.py:131-141 | The fixture passes `validate_cube_state` and converts to `UUUUUUUUURRRRRRRRRFFFFFFFFFDDDDDDDDDLLLLLLLLLBBBBBBBBB`. |
| CaptureFaces.ManualFaceSpec | capture_faces.py:215-217 | A typed face is accepted exactly when it has nine characters, each a colour letter in either case. An accepted face is stored upper-cased and passes the per-face checks of `validate_cube_state`; a refused one would fail them. |
| CaptureFaces.FinishScanSpec | capture_faces.py:227-237 | Validating before converting never raises. It rejects exactly the invalid states, with the validator's reason. The string of an accepted state passes `is_valid_cube_string`. |
| CaptureFaces.FinishScanAsWrittenSpec | capture_faces.py:227-237 | Converting first raises only on states the validator rejects, and otherwise agrees with validating first. |
| CaptureFaces.UncenteredFaceletCrashes | capture_faces.py:122-124 | A facelet whose colour is no face's centre makes the conversion raise at the lookup in `center_mapping`. |
| CaptureFaces.UnknownFaceletCrashes | capture_faces.py:227-233 | The fixture with one `?` facelet on U makes the scan as written raise. Validating first rejects it as an invalid colour `?` on face U. |

## Left out

- Camera capture, colour calibration, grid drawing and the key-driven scanning loop (`calibrate_colors`, `draw_grid`, `main`): window and video I/O with no logic to verify. Only the manual-entry acceptance test inside the loop is modelled, as `ManualFace`.
- HSV colour classification (`classify_color`, `detect_colors`): floating-point means and OpenCV range tests. Its one visible effect, the label `?`, appears in `ScanWithUnknownFacelet`.
- The JSON and text file writes of `save_cube_state`, and everything in `solve_cube.py`: file I/O and the external Kociemba solver, whose code is not available. The string validator that guards the solver is modelled.
- Physical legality of the cube (permutation and orientation parity): the code never checks it.
- The printed diagnostics: each one becomes an error-reason value.
- UpperAll: models `str.upper` for ASCII letters only. Characters whose Unicode upper case differs in other ways are not modelled, because Dafny has no Unicode case mapping.
- IsValidCubeString: the per-letter loop iterates a Python set, whose order is unspecified. The model checks the letters in the order `U, R, F, D, L, B`. So when several letters have wrong counts, the letter named in the reason may differ from the one the program prints. Whether the string is accepted is the same.
- Face keys and colour labels are modelled as single characters. The program only ever stores one-letter strings there, but a dictionary loaded from elsewhere could hold longer ones.
- The loops of `validate_cube_state` and `save_cube_state` are split into helper methods (`TallyFace`, `BuildCenterMapping`, `AppendFace`). The statements and their order are those of the source.
- The `--test` branch of `main` (capture_faces.py:150-154) converts before validating, like the end of a scan. The fixture it uses is valid, so it cannot raise there; `TestCube` covers it.

## Findings

| source | as written | input that shows it | evidently intended | confidence | as-written member | corrected member |
|---|---|---|---|---|---|---|
| capture_faces.py:227-233 | After the last face is scanned, `save_cube_state` runs before `validate_cube_state`. A facelet whose label is no face's centre, such as `?` from `classify_color`, raises `KeyError` at line 124, so the check that would report it never runs. | The solved fixture with the first facelet of U replaced by `?` | Validate first: reject the state with "Invalid color '?' in face U" and write a cube string only for a valid state | not executed | CaptureFaces.UnknownFaceletCrashes | CaptureFaces.FinishScanSpec |
