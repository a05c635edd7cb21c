/**
 * The two validators: `validate_cube_state`, which checks a scanned colour-keyed state, and
 * `is_valid_cube_string`, which checks a 54-letter facelet string before it reaches the solver.
 * Each returns `Pass` or `Fail` with the rule that failed, in place of the printed diagnostics.
 */
module ValidateInput {
  import opened Collections
  import opened Cube

  /** Why `validate_cube_state` rejected a state, one constructor per check. */
  datatype StateError =
    | WrongFaceCount(faces: nat)
    | WrongFaceSet
    | WrongFaceletCount(face: FaceKey, facelets: nat)
    | InvalidColor(face: FaceKey, color: Color)
    | WrongColorCount(color: Color, count: nat)
    | CentersNotUnique

  // ---------------------------------------------------------------------------------------------
  // The state validator, as a specification
  // ---------------------------------------------------------------------------------------------

  /** The first colour of `colors`, in order, that is not a valid label. */
  function FirstInvalidColor(colors: seq<Color>): Option<Color>
  {
    if colors == [] then None
    else
      var n := |colors| - 1;
      var prior := FirstInvalidColor(colors[..n]);
      if prior.Some? then prior
      else if colors[n] !in ValidColors then Some(colors[n])
      else None
  }

  /** The per-face checks of the validator's main loop: nine entries, then each a valid colour. */
  function FaceError(face: Face): Option<StateError>
  {
    if |face.colors| != FaceletsPerFace then Some(WrongFaceletCount(face.key, |face.colors|))
    else match FirstInvalidColor(face.colors)
      case Some(color) => Some(InvalidColor(face.key, color))
      case None => None
  }

  /** The error of the first entry, in insertion order, that fails the per-face checks. */
  function FirstFaceError(state: State): Option<StateError>
  {
    if state == [] then None
    else
      var n := |state| - 1;
      var prior := FirstFaceError(state[..n]);
      if prior.Some? then prior else FaceError(state[n])
  }

  /** A face that passes the per-face checks. */
  predicate FaceOk(face: Face)
  {
    |face.colors| == FaceletsPerFace && forall k :: 0 <= k < |face.colors| ==> face.colors[k] in ValidColors
  }

  /** The search finds nothing exactly when every colour is valid, and otherwise finds the first invalid one. */
  lemma {:induction false} FirstInvalidColorSpec(colors: seq<Color>)
    ensures FirstInvalidColor(colors).None? <==> forall k :: 0 <= k < |colors| ==> colors[k] in ValidColors
    ensures FirstInvalidColor(colors).Some? ==>
      exists k :: 0 <= k < |colors| && colors[k] == FirstInvalidColor(colors).value
                  && colors[k] !in ValidColors && forall k' :: 0 <= k' < k ==> colors[k'] in ValidColors
  {
    if colors != [] {
      var n := |colors| - 1;
      FirstInvalidColorSpec(colors[..n]);
      assert forall k :: 0 <= k < n ==> colors[..n][k] == colors[k];
    }
  }

  /** A face error names the face and what is wrong with it. */
  lemma FaceErrorSpec(face: Face)
    ensures FaceError(face).None? <==> FaceOk(face)
    ensures FaceError(face).Some? && FaceError(face).value.WrongFaceletCount? ==>
      FaceError(face).value == WrongFaceletCount(face.key, |face.colors|) && |face.colors| != FaceletsPerFace
    ensures FaceError(face).Some? && FaceError(face).value.InvalidColor? ==>
      && FaceError(face).value.face == face.key
      && FaceError(face).value.color in face.colors
      && FaceError(face).value.color !in ValidColors
    ensures FaceError(face).Some? ==> FaceError(face).value.WrongFaceletCount? || FaceError(face).value.InvalidColor?
  {
    FirstInvalidColorSpec(face.colors);
  }

  /** The search finds nothing exactly when every face is fine, and otherwise reports the first bad face. */
  lemma {:induction false} FirstFaceErrorSpec(state: State)
    ensures FirstFaceError(state).None? <==> forall p :: 0 <= p < |state| ==> FaceOk(state[p])
    ensures FirstFaceError(state).Some? ==>
      exists p :: 0 <= p < |state| && FaceError(state[p]) == FirstFaceError(state)
                  && forall q :: 0 <= q < p ==> FaceOk(state[q])
  {
    if state != [] {
      var n := |state| - 1;
      FirstFaceErrorSpec(state[..n]);
      assert forall p :: 0 <= p < n ==> state[..n][p] == state[p];
      forall p | 0 <= p < |state| ensures FaceError(state[p]).None? <==> FaceOk(state[p]) {
        FaceErrorSpec(state[p]);
      }
    }
  }

  /** Once a prefix of the colours holds an invalid one, later colours do not change the answer. */
  lemma {:induction false} FirstInvalidColorPrefix(colors: seq<Color>, m: nat)
    requires m <= |colors| && FirstInvalidColor(colors[..m]).Some?
    ensures FirstInvalidColor(colors) == FirstInvalidColor(colors[..m])
    decreases |colors|
  {
    if m < |colors| {
      var n := |colors| - 1;
      assert colors[..n][..m] == colors[..m];
      FirstInvalidColorPrefix(colors[..n], m);
    } else {
      assert colors[..m] == colors;
    }
  }

  /** Once a prefix of the entries holds a bad face, later entries do not change the answer. */
  lemma {:induction false} FirstFaceErrorPrefix(state: State, m: nat)
    requires m <= |state| && FirstFaceError(state[..m]).Some?
    ensures FirstFaceError(state) == FirstFaceError(state[..m])
    decreases |state|
  {
    if m < |state| {
      var n := |state| - 1;
      assert state[..n][..m] == state[..m];
      FirstFaceErrorPrefix(state[..n], m);
    } else {
      assert state[..m] == state;
    }
  }

  /** How often a colour occurs over all faces of the state. */
  function ColorCount(state: State, color: Color): nat
  {
    multiset(Flatten(state))[color]
  }

  /** The per-colour counter of the validator over the facelets seen so far. */
  function Tally(colors: seq<Color>): map<Color, nat>
  {
    map c | c in ValidColors :: multiset(colors)[c]
  }

  lemma TallyEmpty()
    ensures Tally([]) == map['W' := 0, 'R' := 0, 'O' := 0, 'Y' := 0, 'G' := 0, 'B' := 0]
  {
  }

  /** Counting one more valid facelet bumps that colour's counter and no other. */
  lemma TallySnoc(colors: seq<Color>, color: Color)
    requires color in ValidColors
    ensures Tally(colors + [color]) == Tally(colors)[color := Tally(colors)[color] + 1]
  {
    assert multiset(colors + [color]) == multiset(colors) + multiset{color};
  }

  /** The first colour of `colors`, in order, that does not occur exactly nine times. */
  function FirstCountError(state: State, colors: seq<Color>): (r: Option<StateError>)
    ensures r.None? <==> forall k :: 0 <= k < |colors| ==> ColorCount(state, colors[k]) == FaceletsPerFace
    ensures r.Some? ==> r.value.WrongColorCount? && r.value.color in colors
                         && r.value.count == ColorCount(state, r.value.color) != FaceletsPerFace
  {
    if colors == [] then None
    else
      var n := |colors| - 1;
      var prior := FirstCountError(state, colors[..n]);
      assert forall k :: 0 <= k < n ==> colors[..n][k] == colors[k];
      if prior.Some? then prior
      else if ColorCount(state, colors[n]) != FaceletsPerFace then Some(WrongColorCount(colors[n], ColorCount(state, colors[n])))
      else None
  }

  /** The colour reported is the first one, in the order of `colors`, whose count is not nine. */
  lemma {:induction false} FirstCountErrorIsFirst(state: State, colors: seq<Color>)
    requires FirstCountError(state, colors).Some?
    ensures exists k :: 0 <= k < |colors| && colors[k] == FirstCountError(state, colors).value.color
                        && forall k' :: 0 <= k' < k ==> ColorCount(state, colors[k']) == FaceletsPerFace
  {
    var n := |colors| - 1;
    var init := colors[..n];
    assert forall k :: 0 <= k < n ==> init[k] == colors[k];
    if FirstCountError(state, init).Some? {
      FirstCountErrorIsFirst(state, init);
    } else {
      assert colors[n] == FirstCountError(state, colors).value.color;
    }
  }

  /** Once a prefix of the colours has a wrong count, later colours do not change the answer. */
  lemma {:induction false} FirstCountErrorPrefix(state: State, colors: seq<Color>, m: nat)
    requires m <= |colors| && FirstCountError(state, colors[..m]).Some?
    ensures FirstCountError(state, colors) == FirstCountError(state, colors[..m])
    decreases |colors|
  {
    if m < |colors| {
      var n := |colors| - 1;
      assert colors[..n][..m] == colors[..m];
      FirstCountErrorPrefix(state, colors[..n], m);
    } else {
      assert colors[..m] == colors;
    }
  }

  /** The centre label (index 4) of every entry, in insertion order. */
  function Centers(state: State): seq<Color>
    requires forall p :: 0 <= p < |state| ==> |state[p].colors| > CenterIndex
  {
    seq(|state|, p requires 0 <= p < |state| => state[p].colors[CenterIndex])
  }

  /** What `validate_cube_state` returns: the checks in source order, the first failure winning. */
  function StateVerdict(state: State): Verdict<StateError>
  {
    if |state| != 6 then Fail(WrongFaceCount(|state|))
    else if KeySet(state) != RequiredFaces then Fail(WrongFaceSet)
    else if FirstFaceError(state).Some? then Fail(FirstFaceError(state).value)
    else if FirstCountError(state, ColorOrder).Some? then Fail(FirstCountError(state, ColorOrder).value)
    else
      FirstFaceErrorSpec(state);
      if |Elements(Centers(state))| != 6 then Fail(CentersNotUnique) else Pass
  }

  /**
   * A well-formed cube state, stated declaratively: six faces with exactly the required keys,
   * nine valid colours per face, every colour nine times in all, and six different centres.
   */
  predicate WellFormedState(state: State)
  {
    && |state| == 6
    && KeySet(state) == RequiredFaces
    && (forall p :: 0 <= p < |state| ==> |state[p].colors| == FaceletsPerFace)
    && (forall p, k :: 0 <= p < |state| && 0 <= k < |state[p].colors| ==> state[p].colors[k] in ValidColors)
    && (forall c :: c in ValidColors ==> ColorCount(state, c) == FaceletsPerFace)
    && (forall p, q :: 0 <= p < q < |state| ==> state[p].colors[CenterIndex] != state[q].colors[CenterIndex])
  }

  lemma ColorOrderFacts()
    ensures Elements(ColorOrder) == ValidColors
    ensures Distinct(ColorOrder) && |ValidColors| == |ColorOrder|
  {
    assert ColorOrder[0] == 'W' && ColorOrder[1] == 'R' && ColorOrder[2] == 'O';
    assert ColorOrder[3] == 'Y' && ColorOrder[4] == 'G' && ColorOrder[5] == 'B';
    assert Elements(ColorOrder) == ValidColors;
    DistinctIffFullSet(ColorOrder);
  }

  lemma FacesPassIff(state: State)
    ensures FirstFaceError(state).None? <==>
      && (forall p :: 0 <= p < |state| ==> |state[p].colors| == FaceletsPerFace)
      && (forall p, k :: 0 <= p < |state| && 0 <= k < |state[p].colors| ==> state[p].colors[k] in ValidColors)
  {
    FirstFaceErrorSpec(state);
  }

  lemma CountsPassIff(state: State)
    ensures FirstCountError(state, ColorOrder).None? <==>
      forall c :: c in ValidColors ==> ColorCount(state, c) == FaceletsPerFace
  {
    ColorOrderFacts();
    if FirstCountError(state, ColorOrder).None? {
      forall c | c in ValidColors ensures ColorCount(state, c) == FaceletsPerFace {
        var k :| 0 <= k < |ColorOrder| && ColorOrder[k] == c;
      }
    }
  }

  lemma CentersPassIff(state: State)
    requires forall p :: 0 <= p < |state| ==> |state[p].colors| == FaceletsPerFace
    requires |state| == 6
    ensures |Elements(Centers(state))| == 6 <==>
      forall p, q :: 0 <= p < q < |state| ==> state[p].colors[CenterIndex] != state[q].colors[CenterIndex]
  {
    var centers := Centers(state);
    DistinctIffFullSet(centers);
    assert forall p :: 0 <= p < |state| ==> centers[p] == state[p].colors[CenterIndex];
  }

  /** The validator accepts a state exactly when it is well formed. */
  lemma StateVerdictPassIff(state: State)
    ensures StateVerdict(state) == Pass <==> WellFormedState(state)
  {
    FacesPassIff(state);
    CountsPassIff(state);
    if |state| == 6 && FirstFaceError(state).None? {
      CentersPassIff(state);
    }
  }

  /** The first two checks: the number of entries, then the key set. */
  lemma ShapeReasons(state: State)
    ensures |state| != 6 <==> StateVerdict(state) == Fail(WrongFaceCount(|state|))
    ensures StateVerdict(state) == Fail(WrongFaceSet) <==> |state| == 6 && KeySet(state) != RequiredFaces
  {
    if |state| == 6 && KeySet(state) == RequiredFaces {
      NoLaterWrongShape(state);
    }
  }

  /** The per-face and per-colour checks never report a wrong number of entries or a wrong key set. */
  lemma NoLaterWrongShape(state: State)
    requires |state| == 6 && KeySet(state) == RequiredFaces
    ensures StateVerdict(state).Fail? ==>
      !StateVerdict(state).reason.WrongFaceCount? && !StateVerdict(state).reason.WrongFaceSet?
    ensures StateVerdict(state) == Fail(CentersNotUnique) ==> FirstFaceError(state).None?
  {
    if FirstFaceError(state).Some? {
      FirstFaceErrorSpec(state);
      var p :| 0 <= p < |state| && FaceError(state[p]) == FirstFaceError(state);
      FaceErrorSpec(state[p]);
    }
  }

  /** A per-face rejection names a face whose entry has the wrong length or holds a label outside the six colours. */
  lemma FaceReasons(state: State)
    requires StateVerdict(state).Fail?
    ensures StateVerdict(state).reason.WrongFaceletCount? ==>
      exists p :: 0 <= p < |state| && state[p].key == StateVerdict(state).reason.face
                  && |state[p].colors| == StateVerdict(state).reason.facelets != FaceletsPerFace
    ensures StateVerdict(state).reason.InvalidColor? ==>
      && StateVerdict(state).reason.color !in ValidColors
      && exists p :: 0 <= p < |state| && state[p].key == StateVerdict(state).reason.face
                     && StateVerdict(state).reason.color in state[p].colors
  {
    if |state| == 6 && KeySet(state) == RequiredFaces && FirstFaceError(state).Some? {
      FirstFaceErrorSpec(state);
      var p :| 0 <= p < |state| && FaceError(state[p]) == FirstFaceError(state);
      FaceErrorSpec(state[p]);
    }
  }

  /** A count rejection names one of the six colours together with its true, wrong, count. */
  lemma CountReason(state: State)
    requires StateVerdict(state).Fail? && StateVerdict(state).reason.WrongColorCount?
    ensures StateVerdict(state).reason.color in ValidColors
    ensures StateVerdict(state).reason.count == ColorCount(state, StateVerdict(state).reason.color) != FaceletsPerFace
    ensures exists k :: 0 <= k < |ColorOrder| && ColorOrder[k] == StateVerdict(state).reason.color
                        && forall k' :: 0 <= k' < k ==> ColorCount(state, ColorOrder[k']) == FaceletsPerFace
  {
    if FirstCountError(state, ColorOrder).Some? {
      FirstCountErrorIsFirst(state, ColorOrder);
    }
    if |state| == 6 && KeySet(state) == RequiredFaces && FirstFaceError(state).Some? {
      FirstFaceErrorSpec(state);
      var p :| 0 <= p < |state| && FaceError(state[p]) == FirstFaceError(state);
      FaceErrorSpec(state[p]);
    }
    ColorOrderFacts();
  }

  /** A centre rejection means two entries share their centre colour. */
  lemma CentersReason(state: State)
    requires StateVerdict(state) == Fail(CentersNotUnique)
    ensures |state| == 6 && forall p :: 0 <= p < |state| ==> |state[p].colors| == FaceletsPerFace
    ensures exists p, q :: 0 <= p < q < |state| && state[p].colors[CenterIndex] == state[q].colors[CenterIndex]
  {
    ShapeReasons(state);
    NoLaterWrongShape(state);
    FacesPassIff(state);
    CentersPassIff(state);
  }

  /** Entry `i` passing the per-face checks extends the passing prefix by one entry. */
  lemma FaceChecked(state: State, i: nat)
    requires i < |state| && FirstFaceError(state[..i]).None? && FaceError(state[i]).None?
    ensures FirstFaceError(state[..i + 1]).None?
    ensures Flatten(state[..i + 1]) == Flatten(state[..i]) + state[i].colors
  {
    assert state[..i + 1][..i] == state[..i];
  }

  /** When entry `i` is the first to fail the per-face checks, its error is the verdict. */
  lemma FaceErrorVerdict(state: State, i: nat)
    requires |state| == 6 && KeySet(state) == RequiredFaces
    requires i < |state| && FirstFaceError(state[..i]).None? && FaceError(state[i]).Some?
    ensures StateVerdict(state) == Fail(FaceError(state[i]).value)
  {
    assert state[..i + 1][..i] == state[..i];
    FirstFaceErrorPrefix(state, i + 1);
  }

  // ---------------------------------------------------------------------------------------------
  // The state validator, as the source runs it
  // ---------------------------------------------------------------------------------------------

  lemma SnocSlice(before: seq<Color>, colors: seq<Color>, j: nat)
    requires j < |colors|
    ensures before + colors[..j + 1] == (before + colors[..j]) + [colors[j]]
  {
    assert colors[..j + 1] == colors[..j] + [colors[j]];
  }

  /**
   * The body of the validator's loop for one face: walk its colours, stop at the first one the
   * counter has no entry for, and otherwise bump that colour's counter.
   */
  method TallyFace(colors: seq<Color>, counts: map<Color, nat>, ghost before: seq<Color>)
    returns (invalid: Option<Color>, counts': map<Color, nat>)
    requires counts == Tally(before)
    ensures invalid == FirstInvalidColor(colors)
    ensures invalid.None? ==> counts' == Tally(before + colors)
  {
    counts' := counts;
    var j := 0;
    while j < |colors|
      invariant 0 <= j <= |colors|
      invariant FirstInvalidColor(colors[..j]).None?
      invariant counts' == Tally(before + colors[..j])
    {
      var color := colors[j];
      assert colors[..j + 1][..j] == colors[..j];
      if color !in counts' {
        FirstInvalidColorPrefix(colors, j + 1);
        return Some(color), counts';
      }
      TallySnoc(before + colors[..j], color);
      counts' := counts'[color := counts'[color] + 1];
      SnocSlice(before, colors, j);
      j := j + 1;
    }
    assert colors[..j] == colors;
    return None, counts';
  }

  /**
   * `validate_cube_state`: the ordered checks, a colour counter filled in a loop over every
   * facelet of every face, and early returns. It returns what the specification says, so it is
   * deterministic and leaves its input alone.
   */
  method ValidateCubeState(state: State) returns (r: Verdict<StateError>)
    ensures r == StateVerdict(state)
  {
    if |state| != 6 {
      return Fail(WrongFaceCount(|state|));
    }
    if KeySet(state) != RequiredFaces {
      return Fail(WrongFaceSet);
    }
    var colorCounts: map<Color, nat> := map['W' := 0, 'R' := 0, 'O' := 0, 'Y' := 0, 'G' := 0, 'B' := 0];
    TallyEmpty();
    var i := 0;
    while i < |state|
      invariant 0 <= i <= |state|
      invariant FirstFaceError(state[..i]).None?
      invariant colorCounts == Tally(Flatten(state[..i]))
    {
      var face := state[i];
      if |face.colors| != FaceletsPerFace {
        FaceErrorVerdict(state, i);
        return Fail(WrongFaceletCount(face.key, |face.colors|));
      }
      var invalid;
      invalid, colorCounts := TallyFace(face.colors, colorCounts, Flatten(state[..i]));
      if invalid.Some? {
        FaceErrorVerdict(state, i);
        return Fail(InvalidColor(face.key, invalid.value));
      }
      FaceChecked(state, i);
      i := i + 1;
    }
    assert state[..i] == state;
    var k := 0;
    while k < |ColorOrder|
      invariant 0 <= k <= |ColorOrder|
      invariant FirstCountError(state, ColorOrder[..k]).None?
    {
      var color := ColorOrder[k];
      assert ColorOrder[..k + 1][..k] == ColorOrder[..k];
      if colorCounts[color] != FaceletsPerFace {
        assert FirstCountError(state, ColorOrder[..k + 1]) == Some(WrongColorCount(color, colorCounts[color]));
        FirstCountErrorPrefix(state, ColorOrder, k + 1);
        return Fail(WrongColorCount(color, colorCounts[color]));
      }
      k := k + 1;
    }
    assert ColorOrder[..k] == ColorOrder;
    FirstFaceErrorSpec(state);
    var centers := Centers(state);
    if |Elements(centers)| != 6 {
      return Fail(CentersNotUnique);
    }
    return Pass;
  }

  // ---------------------------------------------------------------------------------------------
  // The cube-string validator
  // ---------------------------------------------------------------------------------------------

  /** Why `is_valid_cube_string` rejected a string. */
  datatype StringError =
    | WrongLength(length: nat)
    | InvalidCharacters
    | WrongLetterCount(letter: char, count: nat)

  /** `valid_chars`: the face letters the solver accepts. */
  const CubeLetters: set<char> := {'U', 'R', 'F', 'D', 'L', 'B'}

  const CubeStringLength: nat := 54

  /** The first letter of `letters`, in order, that does not occur exactly nine times in `s`. */
  function FirstLetterCountError(s: string, letters: seq<char>): (r: Option<StringError>)
    ensures r.None? <==> forall k :: 0 <= k < |letters| ==> multiset(s)[letters[k]] == FaceletsPerFace
    ensures r.Some? ==> r.value.WrongLetterCount? && r.value.letter in letters
                         && r.value.count == multiset(s)[r.value.letter] != FaceletsPerFace
  {
    if letters == [] then None
    else
      var n := |letters| - 1;
      var prior := FirstLetterCountError(s, letters[..n]);
      assert forall k :: 0 <= k < n ==> letters[..n][k] == letters[k];
      if prior.Some? then prior
      else if multiset(s)[letters[n]] != FaceletsPerFace then Some(WrongLetterCount(letters[n], multiset(s)[letters[n]]))
      else None
  }

  /** A string the solver may be given: 54 face letters, each letter nine times. */
  predicate WellFormedCubeString(s: string)
  {
    && |s| == CubeStringLength
    && (forall k :: 0 <= k < |s| ==> s[k] in CubeLetters)
    && (forall letter :: letter in CubeLetters ==> multiset(s)[letter] == FaceletsPerFace)
  }

  /**
   * `is_valid_cube_string`: length, then alphabet, then per-letter counts. It accepts exactly the
   * well-formed strings; it does not look at where the centres are or whether the cube can be
   * solved.
   */
  function IsValidCubeString(s: string): (r: Verdict<StringError>)
    ensures r == Pass <==> WellFormedCubeString(s)
    ensures |s| != CubeStringLength ==> r == Fail(WrongLength(|s|))
    ensures r.Fail? && r.reason.WrongLength? ==> |s| != CubeStringLength
    ensures r == Fail(InvalidCharacters) <==>
      |s| == CubeStringLength && exists k :: 0 <= k < |s| && s[k] !in CubeLetters
    ensures r.Fail? && r.reason.WrongLetterCount? ==>
      && |s| == CubeStringLength
      && (forall k :: 0 <= k < |s| ==> s[k] in CubeLetters)
      && r.reason.letter in CubeLetters
      && r.reason.count == multiset(s)[r.reason.letter] != FaceletsPerFace
  {
    FaceOrderLetters();
    if |s| != CubeStringLength then Fail(WrongLength(|s|))
    else if exists k :: 0 <= k < |s| && s[k] !in CubeLetters then Fail(InvalidCharacters)
    else match FirstLetterCountError(s, FaceOrder)
      case Some(e) => Fail(e)
      case None => Pass
  }

  lemma FaceOrderLetters()
    ensures Elements(FaceOrder) == CubeLetters
  {
    assert FaceOrder[0] == 'U' && FaceOrder[1] == 'R' && FaceOrder[2] == 'F';
    assert FaceOrder[3] == 'D' && FaceOrder[4] == 'L' && FaceOrder[5] == 'B';
  }
}
