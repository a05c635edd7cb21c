/**
 * The part of the scanner that turns a scanned state into the solver's facelet string
 * (`save_cube_state` without its file writes), the development fixture, the manual-entry check,
 * and what the scan's last step does with a finished state.
 */
module CaptureFaces {
  import opened Collections
  import opened Cube
  import opened ValidateInput

  // ---------------------------------------------------------------------------------------------
  // The centre map
  // ---------------------------------------------------------------------------------------------

  /**
   * Every face of the solver's order is in the dictionary and has an entry at the centre index,
   * so reading `scanned_faces[face][4]` raises neither KeyError nor IndexError.
   */
  predicate CentersReadable(state: State)
  {
    && HasAllFaces(state)
    && forall i :: 0 <= i < |FaceOrder| ==> |Lookup(state, FaceOrder[i])| > CenterIndex
  }

  /** The centre colour of the `i`-th face of the solver's order. */
  function CenterOf(state: State, i: nat): Color
    requires CentersReadable(state) && i < |FaceOrder|
  {
    Lookup(state, FaceOrder[i])[CenterIndex]
  }

  /** The centre colours, face by face in the solver's order. */
  function OrderedCenters(state: State): seq<Color>
    requires CentersReadable(state)
  {
    seq(|FaceOrder|, i requires 0 <= i < |FaceOrder| => CenterOf(state, i))
  }

  /** `center_mapping` after the loop has visited the first `n` faces of the solver's order. */
  function CenterMapUpTo(state: State, n: nat): map<Color, FaceKey>
    requires CentersReadable(state) && n <= |FaceOrder|
  {
    if n == 0 then map[]
    else CenterMapUpTo(state, n - 1)[CenterOf(state, n - 1) := FaceOrder[n - 1]]
  }

  /** `center_mapping`: each centre colour to the face it is the centre of, later faces overwriting. */
  function CenterMap(state: State): map<Color, FaceKey>
    requires CentersReadable(state)
  {
    CenterMapUpTo(state, |FaceOrder|)
  }

  /**
   * Whatever the centres, the map's keys are the centre colours seen so far and every value is
   * one of the face letters seen so far.
   */
  lemma {:induction false} CenterMapUpToKeys(state: State, n: nat)
    requires CentersReadable(state) && n <= |FaceOrder|
    ensures CenterMapUpTo(state, n).Keys == Elements(OrderedCenters(state)[..n])
    ensures forall c :: c in CenterMapUpTo(state, n) ==> CenterMapUpTo(state, n)[c] in FaceOrder[..n]
  {
    if n > 0 {
      CenterMapUpToKeys(state, n - 1);
      var centers := OrderedCenters(state);
      assert centers[..n] == centers[..n - 1] + [CenterOf(state, n - 1)];
      ElementsOfSnoc(centers[..n - 1], CenterOf(state, n - 1));
      assert forall c :: c in FaceOrder[..n - 1] ==> c in FaceOrder[..n];
    }
  }

  /** With pairwise different centres, each face's centre colour maps to that face. */
  lemma {:induction false} CenterMapUpToOwns(state: State, n: nat)
    requires CentersReadable(state) && n <= |FaceOrder| && Distinct(OrderedCenters(state))
    ensures forall i :: 0 <= i < n ==>
      CenterOf(state, i) in CenterMapUpTo(state, n) && CenterMapUpTo(state, n)[CenterOf(state, i)] == FaceOrder[i]
  {
    if n > 0 {
      CenterMapUpToOwns(state, n - 1);
      var centers := OrderedCenters(state);
      forall i | 0 <= i < n - 1 ensures CenterOf(state, i) != CenterOf(state, n - 1) {
        assert centers[i] != centers[n - 1];
      }
    }
  }

  /**
   * When the six centres differ, `center_mapping` is a bijection from the six centre colours onto
   * the six face letters that sends each face's centre to that face.
   */
  lemma CenterMapBijection(state: State)
    requires CentersReadable(state) && Distinct(OrderedCenters(state))
    ensures forall i :: 0 <= i < |FaceOrder| ==>
      CenterOf(state, i) in CenterMap(state) && CenterMap(state)[CenterOf(state, i)] == FaceOrder[i]
    ensures CenterMap(state).Keys == Elements(OrderedCenters(state))
    ensures |CenterMap(state).Keys| == |FaceOrder|
    ensures CenterMap(state).Values == RequiredFaces
    ensures forall c, c' :: c in CenterMap(state) && c' in CenterMap(state) && c != c' ==>
      CenterMap(state)[c] != CenterMap(state)[c']
  {
    var centers := OrderedCenters(state);
    CenterMapUpToKeys(state, |FaceOrder|);
    CenterMapUpToOwns(state, |FaceOrder|);
    assert centers[..|FaceOrder|] == centers;
    LabelsBijection(CenterMap(state), centers);
  }

  /**
   * A map whose keys are six different colours and which sends the `i`-th of them to the `i`-th
   * face letter is a bijection onto the six face letters.
   */
  lemma LabelsBijection(m: map<Color, FaceKey>, centers: seq<Color>)
    requires |centers| == |FaceOrder| && Distinct(centers) && m.Keys == Elements(centers)
    requires forall i :: 0 <= i < |centers| ==> centers[i] in m && m[centers[i]] == FaceOrder[i]
    ensures |m.Keys| == |FaceOrder|
    ensures m.Values == RequiredFaces
    ensures forall c, c' :: c in m && c' in m && c != c' ==> m[c] != m[c']
  {
    DistinctIffFullSet(centers);
    LabelsOnto(m, centers);
    LabelsOneToOne(m, centers);
  }

  lemma LabelsOnto(m: map<Color, FaceKey>, centers: seq<Color>)
    requires |centers| == |FaceOrder| && m.Keys == Elements(centers)
    requires forall i :: 0 <= i < |centers| ==> centers[i] in m && m[centers[i]] == FaceOrder[i]
    ensures m.Values == RequiredFaces
  {
    FaceOrderFacts();
    forall f ensures f in m.Values <==> f in RequiredFaces {
      if f in RequiredFaces {
        var i :| 0 <= i < |FaceOrder| && FaceOrder[i] == f;
        assert m[centers[i]] == f;
      }
      if f in m.Values {
        var c :| c in m && m[c] == f;
        var i :| 0 <= i < |centers| && centers[i] == c;
        assert FaceOrder[i] in Elements(FaceOrder);
      }
    }
  }

  lemma LabelsOneToOne(m: map<Color, FaceKey>, centers: seq<Color>)
    requires |centers| == |FaceOrder| && m.Keys == Elements(centers)
    requires forall i :: 0 <= i < |centers| ==> centers[i] in m && m[centers[i]] == FaceOrder[i]
    ensures forall c, c' :: c in m && c' in m && c != c' ==> m[c] != m[c']
  {
    FaceOrderFacts();
    forall c, c' | c in m && c' in m && c != c' ensures m[c] != m[c'] {
      var i :| 0 <= i < |centers| && centers[i] == c;
      var i' :| 0 <= i' < |centers| && centers[i'] == c';
    }
  }

  // ---------------------------------------------------------------------------------------------
  // The cube string
  // ---------------------------------------------------------------------------------------------

  /** Every colour of `colors` has an entry in the map, so looking each one up raises no KeyError. */
  predicate Covered(m: map<Color, FaceKey>, colors: seq<Color>)
  {
    forall k :: 0 <= k < |colors| ==> colors[k] in m
  }

  /** Each colour replaced by the face letter the map gives it. */
  function Relabel(m: map<Color, FaceKey>, colors: seq<Color>): (letters: seq<FaceKey>)
    requires Covered(m, colors)
    ensures |letters| == |colors|
    ensures forall k :: 0 <= k < |colors| ==> letters[k] == m[colors[k]]
  {
    if colors == [] then []
    else
      var n := |colors| - 1;
      assert forall k :: 0 <= k < n ==> colors[..n][k] == colors[k];
      Relabel(m, colors[..n]) + [m[colors[n]]]
  }

  /** Relabelling a concatenation relabels each part. */
  lemma RelabelAppend(m: map<Color, FaceKey>, a: seq<Color>, b: seq<Color>)
    requires Covered(m, a) && Covered(m, b)
    ensures Covered(m, a + b)
    ensures Relabel(m, a + b) == Relabel(m, a) + Relabel(m, b)
  {
    assert forall k :: 0 <= k < |b| ==> (a + b)[|a| + k] == b[k];
  }

  /** A prefix of a covered sequence is covered. */
  lemma CoveredPrefix(m: map<Color, FaceKey>, a: seq<Color>, b: seq<Color>)
    requires a <= b && Covered(m, b)
    ensures Covered(m, a)
  {
    assert forall k :: 0 <= k < |a| ==> a[k] == b[k];
  }

  /**
   * `save_cube_state` gets through lines 116-124 without raising: every face of the solver's
   * order is present, has a centre, and every facelet colour is some face's centre colour.
   */
  predicate Canonicalizable(state: State)
  {
    CentersReadable(state) && Covered(CenterMap(state), Gather(state, FaceOrder))
  }

  /** The string `save_cube_state` builds: the faces in solver order, each facelet as its owning face's letter. */
  function CubeString(state: State): string
    requires Canonicalizable(state)
  {
    Relabel(CenterMap(state), Gather(state, FaceOrder))
  }

  /** Gathering the first `i + 1` faces is gathering the first `i` and then face `i`; all are a prefix of the whole. */
  lemma GatherStep(state: State, i: nat)
    requires HasAllFaces(state) && i < |FaceOrder|
    ensures Gather(state, FaceOrder[..i + 1]) == Gather(state, FaceOrder[..i]) + Lookup(state, FaceOrder[i])
    ensures Gather(state, FaceOrder[..i + 1]) <= Gather(state, FaceOrder)
  {
    var prefix, suffix := FaceOrder[..i + 1], FaceOrder[i + 1..];
    assert FaceOrder == prefix + suffix;
    PresentParts(state, prefix, suffix, FaceOrder);
    GatherSnoc(state, prefix, FaceOrder[..i]);
    GatherAppend(state, prefix, suffix, FaceOrder);
  }

  /**
   * One step of the outer loop of lines 122-124: when the map covers every gathered facelet, it
   * covers face `i`, and appending face `i`'s letters to those of the faces before it gives those
   * of the first `i + 1` faces.
   */
  lemma FaceStep(state: State, m: map<Color, FaceKey>, i: nat)
    requires HasAllFaces(state) && i < |FaceOrder| && Covered(m, Gather(state, FaceOrder))
    ensures Covered(m, Gather(state, FaceOrder[..i])) && Covered(m, Lookup(state, FaceOrder[i]))
    ensures Covered(m, Gather(state, FaceOrder[..i + 1]))
    ensures Relabel(m, Gather(state, FaceOrder[..i + 1]))
         == Relabel(m, Gather(state, FaceOrder[..i])) + Relabel(m, Lookup(state, FaceOrder[i]))
  {
    GatherStep(state, i);
    var before, colors := Gather(state, FaceOrder[..i]), Lookup(state, FaceOrder[i]);
    CoveredPrefix(m, before + colors, Gather(state, FaceOrder));
    forall k | 0 <= k < |colors| ensures colors[k] in m {
      assert colors[k] == (before + colors)[|before| + k];
    }
    forall k | 0 <= k < |before| ensures before[k] in m {
      assert before[k] == (before + colors)[k];
    }
    RelabelAppend(m, before, colors);
  }

  /** Lines 116-119 of `save_cube_state`: fill `center_mapping` from the centres in solver order. */
  method BuildCenterMapping(state: State) returns (centerMapping: map<Color, FaceKey>)
    requires CentersReadable(state)
    ensures centerMapping == CenterMap(state)
  {
    centerMapping := map[];
    var i := 0;
    while i < |FaceOrder|
      invariant 0 <= i <= |FaceOrder|
      invariant centerMapping == CenterMapUpTo(state, i)
    {
      var face := FaceOrder[i];
      var centerColor := Lookup(state, face)[CenterIndex];
      centerMapping := centerMapping[centerColor := face];
      i := i + 1;
    }
  }

  /** The inner loop of lines 123-124: append the mapped letter of each facelet of one face. */
  method AppendFace(prefix: string, centerMapping: map<Color, FaceKey>, colors: seq<Color>)
    returns (cubeString: string)
    requires Covered(centerMapping, colors)
    ensures cubeString == prefix + Relabel(centerMapping, colors)
  {
    cubeString := prefix;
    var j := 0;
    while j < |colors|
      invariant 0 <= j <= |colors|
      invariant cubeString == prefix + Relabel(centerMapping, colors[..j])
    {
      TakeSnoc(colors, j);
      RelabelAppend(centerMapping, colors[..j], [colors[j]]);
      cubeString := cubeString + [centerMapping[colors[j]]];
      j := j + 1;
    }
    assert colors[..j] == colors;
  }

  /**
   * Lines 116-124 of `save_cube_state`: build `center_mapping`, then append the mapped letter of
   * every facelet, face after face in solver order.
   */
  method CanonicalCubeString(state: State) returns (cubeString: string)
    requires Canonicalizable(state)
    ensures cubeString == CubeString(state)
  {
    var centerMapping := BuildCenterMapping(state);
    var i := 0;
    cubeString := [];
    while i < |FaceOrder|
      invariant 0 <= i <= |FaceOrder|
      invariant Covered(centerMapping, Gather(state, FaceOrder[..i]))
      invariant cubeString == Relabel(centerMapping, Gather(state, FaceOrder[..i]))
    {
      var colors := Lookup(state, FaceOrder[i]);
      FaceStep(state, centerMapping, i);
      cubeString := AppendFace(cubeString, centerMapping, colors);
      i := i + 1;
    }
    TakeAll(FaceOrder);
  }

  /**
   * With nine facelets per face the string has 54 letters, face-major in the solver's order and
   * row-major within a face: position `9 * i + j` is the letter of facelet `j` of face `i`.
   */
  lemma CubeStringLayout(state: State)
    requires Canonicalizable(state)
    requires forall i :: 0 <= i < |FaceOrder| ==> |Lookup(state, FaceOrder[i])| == FaceletsPerFace
    ensures |CubeString(state)| == CubeStringLength
    ensures forall i, j :: 0 <= i < |FaceOrder| && 0 <= j < FaceletsPerFace ==>
      Lookup(state, FaceOrder[i])[j] in CenterMap(state)
      && CubeString(state)[FaceletsPerFace * i + j] == CenterMap(state)[Lookup(state, FaceOrder[i])[j]]
  {
    GatherLayout(state, FaceOrder);
  }

  /** With different centres, the centre of each face in the string is that face's own letter. */
  lemma CubeStringCenters(state: State)
    requires Canonicalizable(state) && Distinct(OrderedCenters(state))
    requires forall i :: 0 <= i < |FaceOrder| ==> |Lookup(state, FaceOrder[i])| == FaceletsPerFace
    ensures |CubeString(state)| == CubeStringLength
    ensures forall i :: 0 <= i < |FaceOrder| ==> CubeString(state)[FaceletsPerFace * i + CenterIndex] == FaceOrder[i]
  {
    CubeStringLayout(state);
    CenterMapBijection(state);
  }

  /**
   * The string depends only on what each face key looks up to, not on the order in which the
   * faces were inserted into the dictionary.
   */
  lemma CubeStringOrderFree(s1: State, s2: State)
    requires Canonicalizable(s1) && Canonicalizable(s2)
    requires forall i :: 0 <= i < |FaceOrder| ==> Lookup(s1, FaceOrder[i]) == Lookup(s2, FaceOrder[i])
    ensures CubeString(s1) == CubeString(s2)
  {
    GatherAgree(s1, s2, FaceOrder);
    CenterMapAgree(s1, s2, |FaceOrder|);
  }

  lemma {:induction false} CenterMapAgree(s1: State, s2: State, n: nat)
    requires CentersReadable(s1) && CentersReadable(s2) && n <= |FaceOrder|
    requires forall i :: 0 <= i < |FaceOrder| ==> Lookup(s1, FaceOrder[i]) == Lookup(s2, FaceOrder[i])
    ensures CenterMapUpTo(s1, n) == CenterMapUpTo(s2, n)
  {
    if n > 0 {
      CenterMapAgree(s1, s2, n - 1);
    }
  }

  // ---------------------------------------------------------------------------------------------
  // Validated states canonicalise to valid strings
  // ---------------------------------------------------------------------------------------------

  /** Every gathered colour comes from one of the gathered faces. */
  lemma {:induction false} GatherWithin(state: State, faces: seq<FaceKey>, allowed: set<Color>)
    requires forall i :: 0 <= i < |faces| ==>
      HasFace(state, faces[i]) && forall j :: 0 <= j < |Lookup(state, faces[i])| ==> Lookup(state, faces[i])[j] in allowed
    ensures forall k :: 0 <= k < |Gather(state, faces)| ==> Gather(state, faces)[k] in allowed
  {
    if faces != [] {
      var n := |faces| - 1;
      assert forall i :: 0 <= i < n ==> faces[..n][i] == faces[i];
      GatherWithin(state, faces[..n], allowed);
    }
  }

  /** Relabelling through a map that gives letter `m[c]` to `c` alone counts the occurrences of `c`. */
  lemma {:induction false} RelabelCount(m: map<Color, FaceKey>, colors: seq<Color>, c: Color)
    requires forall k :: 0 <= k < |colors| ==> colors[k] in m
    requires c in m && forall c' :: c' in m && m[c'] == m[c] ==> c' == c
    ensures multiset(Relabel(m, colors))[m[c]] == multiset(colors)[c]
  {
    if colors != [] {
      var n := |colors| - 1;
      var init, last := colors[..n], colors[n];
      RelabelSnoc(m, colors, init, last);
      RelabelCount(m, init, c);
      CountSnoc(Relabel(m, init), m[last], m[c]);
      CountSnoc(init, last, c);
      assert m[last] == m[c] <==> last == c;
    }
  }

  /** Relabelling one more colour appends its letter. */
  lemma RelabelSnoc(m: map<Color, FaceKey>, colors: seq<Color>, init: seq<Color>, last: Color)
    requires Covered(m, colors) && colors == init + [last]
    ensures Covered(m, init) && last in m
    ensures Relabel(m, colors) == Relabel(m, init) + [m[last]]
  {
    assert forall k :: 0 <= k < |init| ==> init[k] == colors[k];
    assert colors[..|colors| - 1] == init && colors[|colors| - 1] == last;
  }

  /** In a well-formed state the six keys are pairwise different and every face of the solver's order is present. */
  lemma WellFormedKeys(state: State)
    requires WellFormedState(state)
    ensures Distinct(Keys(state)) && HasAllFaces(state)
    ensures forall i :: 0 <= i < |FaceOrder| ==>
      (HasFace(state, FaceOrder[i]) &&
       exists p :: 0 <= p < |state| && state[p] == Face(FaceOrder[i], Lookup(state, FaceOrder[i])))
  {
    FaceOrderFacts();
    DistinctIffFullSet(Keys(state));
    forall i | 0 <= i < |FaceOrder| ensures HasFace(state, FaceOrder[i]) {
      assert FaceOrder[i] in Elements(FaceOrder);
    }
  }

  /** The dictionary entry a lookup reads. */
  lemma EntryOf(state: State, key: FaceKey) returns (p: nat)
    requires HasFace(state, key)
    ensures p < |state| && state[p] == Face(key, Lookup(state, key))
  {
    p :| 0 <= p < |state| && state[p] == Face(key, Lookup(state, key));
  }

  /** In a well-formed state every face of the solver's order holds nine valid colours. */
  lemma WellFormedFace(state: State, i: nat)
    requires WellFormedState(state) && i < |FaceOrder| && HasFace(state, FaceOrder[i])
    ensures |Lookup(state, FaceOrder[i])| == FaceletsPerFace
    ensures forall j :: 0 <= j < FaceletsPerFace ==> Lookup(state, FaceOrder[i])[j] in ValidColors
  {
    var p := EntryOf(state, FaceOrder[i]);
    assert state[p].colors == Lookup(state, FaceOrder[i]);
  }

  /** In a well-formed state two different faces of the solver's order have different centres. */
  lemma WellFormedCentersDiffer(state: State, i: nat, j: nat)
    requires WellFormedState(state) && i < j < |FaceOrder|
    ensures HasFace(state, FaceOrder[i]) && HasFace(state, FaceOrder[j])
    ensures |Lookup(state, FaceOrder[i])| > CenterIndex && |Lookup(state, FaceOrder[j])| > CenterIndex
    ensures Lookup(state, FaceOrder[i])[CenterIndex] != Lookup(state, FaceOrder[j])[CenterIndex]
  {
    WellFormedFace(state, i);
    WellFormedFace(state, j);
    FaceOrderFacts();
    var p := EntryOf(state, FaceOrder[i]);
    var q := EntryOf(state, FaceOrder[j]);
    assert FaceOrder[i] != FaceOrder[j];
    assert p != q;
    if p < q {
      assert state[p].colors[CenterIndex] != state[q].colors[CenterIndex];
    } else {
      assert state[q].colors[CenterIndex] != state[p].colors[CenterIndex];
    }
  }

  /** In a well-formed state the faces of the solver's order can be read, and hold nine valid colours each. */
  lemma WellFormedReadable(state: State)
    requires WellFormedState(state)
    ensures CentersReadable(state)
    ensures forall i :: 0 <= i < |FaceOrder| ==> |Lookup(state, FaceOrder[i])| == FaceletsPerFace
    ensures forall i, j :: 0 <= i < |FaceOrder| && 0 <= j < |Lookup(state, FaceOrder[i])| ==>
      Lookup(state, FaceOrder[i])[j] in ValidColors
  {
    WellFormedKeys(state);
    forall i | 0 <= i < |FaceOrder|
      ensures |Lookup(state, FaceOrder[i])| == FaceletsPerFace
      ensures forall j :: 0 <= j < FaceletsPerFace ==> Lookup(state, FaceOrder[i])[j] in ValidColors
    {
      WellFormedFace(state, i);
    }
  }

  /** In a well-formed state the centres, read in the solver's order, are pairwise different. */
  lemma WellFormedCentersDistinct(state: State)
    requires WellFormedState(state)
    ensures CentersReadable(state) && Distinct(OrderedCenters(state))
  {
    assert CentersReadable(state) by {
      WellFormedReadable(state);
    }
    var centers := OrderedCenters(state);
    forall i, j | 0 <= i < j < |centers| ensures centers[i] != centers[j] {
      WellFormedCentersDiffer(state, i, j);
      assert centers[i] == Lookup(state, FaceOrder[i])[CenterIndex];
    }
  }

  /** In a well-formed state the centres, read in the solver's order, are the six colours, once each. */
  lemma WellFormedCenters(state: State)
    requires WellFormedState(state)
    ensures CentersReadable(state)
    ensures Distinct(OrderedCenters(state)) && Elements(OrderedCenters(state)) == ValidColors
  {
    WellFormedCentersDistinct(state);
    WellFormedReadable(state);
    var centers := OrderedCenters(state);
    forall k | 0 <= k < |centers| ensures centers[k] in ValidColors {
      assert centers[k] == Lookup(state, FaceOrder[k])[CenterIndex];
    }
    SixDistinctColors(centers);
  }

  /** Six pairwise different colour labels are the six colours. */
  lemma SixDistinctColors(colors: seq<Color>)
    requires |colors| == |ColorOrder| && Distinct(colors)
    requires forall k :: 0 <= k < |colors| ==> colors[k] in ValidColors
    ensures Elements(colors) == ValidColors
  {
    DistinctIffFullSet(colors);
    ColorOrderFacts();
    SubsetOfSameSize(Elements(colors), ValidColors);
  }

  /** A well-formed state goes through `save_cube_state` without raising: every facelet colour is some face's centre. */
  lemma WellFormedCanonicalizable(state: State)
    requires WellFormedState(state)
    ensures Canonicalizable(state)
    ensures CenterMap(state).Keys == ValidColors
  {
    WellFormedReadable(state);
    WellFormedCenters(state);
    CenterMapBijection(state);
    GatherWithin(state, FaceOrder, ValidColors);
  }

  /** Relabelling through a map whose values all lie in `letters` yields only letters of `letters`. */
  lemma RelabelWithin(m: map<Color, FaceKey>, colors: seq<Color>, letters: set<FaceKey>)
    requires Covered(m, colors) && m.Values <= letters
    ensures forall k :: 0 <= k < |colors| ==> Relabel(m, colors)[k] in letters
  {
    forall k | 0 <= k < |colors| ensures Relabel(m, colors)[k] in letters {
      assert m[colors[k]] in m.Values;
    }
  }

  /** The string of a well-formed state is made of face letters only. */
  lemma WellFormedLetters(state: State)
    requires WellFormedState(state)
    ensures Canonicalizable(state)
    ensures forall k :: 0 <= k < |CubeString(state)| ==> CubeString(state)[k] in CubeLetters
  {
    WellFormedCanonicalizable(state);
    WellFormedCenters(state);
    CenterMapBijection(state);
    assert RequiredFaces == CubeLetters;
    RelabelWithin(CenterMap(state), Gather(state, FaceOrder), CubeLetters);
  }

  /** In the string of a well-formed state each face letter occurs as often as that face's centre colour, nine times. */
  lemma WellFormedLetterCounts(state: State)
    requires WellFormedState(state)
    ensures Canonicalizable(state)
    ensures forall letter :: letter in CubeLetters ==> multiset(CubeString(state))[letter] == FaceletsPerFace
  {
    WellFormedCanonicalizable(state);
    WellFormedKeys(state);
    WellFormedCenters(state);
    CenterMapBijection(state);
    FaceOrderFacts();
    FaceOrderLetters();
    GatherPermutes(state, FaceOrder);
    var m, all := CenterMap(state), Gather(state, FaceOrder);
    forall letter | letter in CubeLetters ensures multiset(Relabel(m, all))[letter] == FaceletsPerFace {
      var i :| 0 <= i < |FaceOrder| && FaceOrder[i] == letter;
      var c := CenterOf(state, i);
      assert c in Elements(OrderedCenters(state));
      RelabelCount(m, all, c);
      assert multiset(all)[c] == ColorCount(state, c);
    }
  }

  /**
   * Any state `validate_cube_state` accepts goes through `save_cube_state` without raising, and the
   * string it produces is accepted by `is_valid_cube_string`: the centre map is a bijection from
   * the six colours to the six faces, so nine of each colour become nine of each letter.
   */
  lemma ValidatedStateCanonicalizes(state: State)
    requires StateVerdict(state) == Pass
    ensures Canonicalizable(state)
    ensures IsValidCubeString(CubeString(state)) == Pass
  {
    StateVerdictPassIff(state);
    WellFormedReadable(state);
    WellFormedLetters(state);
    WellFormedLetterCounts(state);
    CubeStringLayout(state);
  }

  // ---------------------------------------------------------------------------------------------
  // The development fixture
  // ---------------------------------------------------------------------------------------------

  /** `load_test_cube`: a solved cube, white up, red right, green front, yellow down, orange left, blue back. */
  function LoadTestCube(): State
  {
    [ Face('U', ['W', 'W', 'W', 'W', 'W', 'W', 'W', 'W', 'W']),
      Face('R', ['R', 'R', 'R', 'R', 'R', 'R', 'R', 'R', 'R']),
      Face('F', ['G', 'G', 'G', 'G', 'G', 'G', 'G', 'G', 'G']),
      Face('D', ['Y', 'Y', 'Y', 'Y', 'Y', 'Y', 'Y', 'Y', 'Y']),
      Face('L', ['O', 'O', 'O', 'O', 'O', 'O', 'O', 'O', 'O']),
      Face('B', ['B', 'B', 'B', 'B', 'B', 'B', 'B', 'B', 'B']) ]
  }

  /** Face `p` of the state is face `p` of the solver's order, solid in colour `colors[p]`. */
  predicate SolvedState(state: State, colors: seq<Color>)
  {
    && |state| == |FaceOrder| && |colors| == |FaceOrder|
    && forall p :: 0 <= p < |state| ==>
         && state[p].key == FaceOrder[p]
         && |state[p].colors| == FaceletsPerFace
         && forall j :: 0 <= j < FaceletsPerFace ==> state[p].colors[j] == colors[p]
  }

  /** The facelet string of a solved cube: nine of each face letter, in the solver's order. */
  function SolvedString(): string
  {
    seq(CubeStringLength, k requires 0 <= k < CubeStringLength => FaceOrder[k / FaceletsPerFace])
  }

  /** A sequence of one repeated colour holds that colour as many times as its length, and no other. */
  lemma {:induction false} SolidCount(s: seq<Color>, x: Color, c: Color)
    requires forall j :: 0 <= j < |s| ==> s[j] == x
    ensures multiset(s)[c] == if c == x then |s| else 0
  {
    if s != [] {
      var n := |s| - 1;
      assert s == s[..n] + [s[n]];
      SolidCount(s[..n], x, c);
    }
  }

  /** In a solved state with different face colours, the first `n` faces hold nine facelets of each of their colours. */
  lemma {:induction false} SolvedPrefixCount(state: State, colors: seq<Color>, n: nat, c: Color)
    requires SolvedState(state, colors) && Distinct(colors) && n <= |state|
    ensures multiset(Flatten(state[..n]))[c] == if c in colors[..n] then FaceletsPerFace else 0
  {
    if n > 0 {
      SolvedPrefixCount(state, colors, n - 1, c);
      FlattenPrefixSnoc(state, n - 1);
      SolidCount(state[n - 1].colors, colors[n - 1], c);
      assert colors[..n] == colors[..n - 1] + [colors[n - 1]];
      if c == colors[n - 1] {
        assert c !in colors[..n - 1] by {
          assert forall k :: 0 <= k < n - 1 ==> colors[..n - 1][k] == colors[k];
        }
      }
    }
  }

  /** A solved state has exactly the required face keys. */
  lemma SolvedKeys(state: State, colors: seq<Color>)
    requires SolvedState(state, colors)
    ensures KeySet(state) == RequiredFaces
  {
    assert Keys(state) == FaceOrder;
    FaceOrderFacts();
  }

  /** In a solved state whose faces have the six colours, once each, every colour occurs nine times. */
  lemma SolvedCounts(state: State, colors: seq<Color>)
    requires SolvedState(state, colors) && Distinct(colors)
    requires forall k :: 0 <= k < |colors| ==> colors[k] in ValidColors
    ensures forall c :: c in ValidColors ==> ColorCount(state, c) == FaceletsPerFace
  {
    SixDistinctColors(colors);
    forall c | c in ValidColors ensures ColorCount(state, c) == FaceletsPerFace {
      SolvedPrefixCount(state, colors, |state|, c);
      assert state[..|state|] == state;
      assert colors[..|state|] == colors;
    }
  }

  /** A solved state whose faces have the six colours, once each, passes `validate_cube_state`. */
  lemma SolvedStateValid(state: State, colors: seq<Color>)
    requires SolvedState(state, colors) && Distinct(colors)
    requires forall k :: 0 <= k < |colors| ==> colors[k] in ValidColors
    ensures StateVerdict(state) == Pass
  {
    SolvedKeys(state, colors);
    SolvedCounts(state, colors);
    assert forall p, q :: 0 <= p < q < |state| ==> state[p].colors[CenterIndex] != state[q].colors[CenterIndex];
    StateVerdictPassIff(state);
  }

  /** The entries are the faces of the solver's order, in that order. */
  predicate KeysInFaceOrder(state: State)
  {
    |state| == |FaceOrder| && forall p :: 0 <= p < |state| ==> state[p].key == FaceOrder[p]
  }

  /** When the entries follow the solver's order, looking a face up reads the entry at its position. */
  lemma FaceOrderLookup(state: State, i: nat)
    requires KeysInFaceOrder(state) && i < |FaceOrder|
    ensures HasFace(state, FaceOrder[i]) && Lookup(state, FaceOrder[i]) == state[i].colors
  {
    FaceOrderFacts();
    assert Keys(state)[i] == FaceOrder[i];
    var p :| 0 <= p < |state| && state[p] == Face(FaceOrder[i], Lookup(state, FaceOrder[i]));
    assert FaceOrder[p] == FaceOrder[i];
  }

  /** A 54-letter string whose face `i` holds nine letters `FaceOrder[i]` is the solved string. */
  lemma SolvedLayout(s: string)
    requires |s| == CubeStringLength
    requires forall i, j :: 0 <= i < |FaceOrder| && 0 <= j < FaceletsPerFace ==> s[FaceletsPerFace * i + j] == Run(FaceOrder[i])[j]
    ensures s == SolvedString()
  {
    forall k | 0 <= k < CubeStringLength ensures s[k] == SolvedString()[k] {
      var i, j := k / FaceletsPerFace, k % FaceletsPerFace;
      assert k == FaceletsPerFace * i + j;
      assert Run(FaceOrder[i])[j] == FaceOrder[i];
    }
  }

  /** In a solved state with different face colours, `center_mapping` sends face `i`'s colour to face `i`. */
  lemma SolvedCenterMap(state: State, colors: seq<Color>)
    requires SolvedState(state, colors) && Distinct(colors) && CentersReadable(state)
    ensures forall i :: 0 <= i < |FaceOrder| ==>
      HasFace(state, FaceOrder[i]) && Lookup(state, FaceOrder[i]) == state[i].colors
    ensures forall i :: 0 <= i < |FaceOrder| ==>
      colors[i] in CenterMap(state) && CenterMap(state)[colors[i]] == FaceOrder[i]
  {
    forall i | 0 <= i < |FaceOrder| ensures HasFace(state, FaceOrder[i]) && Lookup(state, FaceOrder[i]) == state[i].colors {
      FaceOrderLookup(state, i);
    }
    var centers := OrderedCenters(state);
    assert forall i :: 0 <= i < |FaceOrder| ==> centers[i] == colors[i];
    assert Distinct(centers);
    CenterMapUpToOwns(state, |FaceOrder|);
  }

  /** In the string of a solved state, face `i` is nine letters `FaceOrder[i]`. */
  lemma SolvedFaceLetters(state: State, colors: seq<Color>)
    requires SolvedState(state, colors) && Distinct(colors) && Canonicalizable(state)
    ensures |CubeString(state)| == CubeStringLength
    ensures forall i, j :: 0 <= i < |FaceOrder| && 0 <= j < FaceletsPerFace ==>
      CubeString(state)[FaceletsPerFace * i + j] == Run(FaceOrder[i])[j]
  {
    SolvedCenterMap(state, colors);
    CubeStringLayout(state);
    var m, s := CenterMap(state), CubeString(state);
    forall i, j | 0 <= i < |FaceOrder| && 0 <= j < FaceletsPerFace
      ensures s[FaceletsPerFace * i + j] == Run(FaceOrder[i])[j]
    {
      assert Lookup(state, FaceOrder[i])[j] == colors[i];
    }
  }

  /** A solved state whose faces have the six colours, once each, canonicalises to the solved facelet string. */
  lemma SolvedStateString(state: State, colors: seq<Color>)
    requires SolvedState(state, colors) && Distinct(colors)
    requires forall k :: 0 <= k < |colors| ==> colors[k] in ValidColors
    ensures Canonicalizable(state) && CubeString(state) == SolvedString()
  {
    SolvedStateValid(state, colors);
    ValidatedStateCanonicalizes(state);
    SolvedFaceLetters(state, colors);
    SolvedLayout(CubeString(state));
  }

  /** Nine copies of a letter: one face of a solved cube in the facelet string. */
  function Run(letter: char): string
  {
    seq(FaceletsPerFace, _ => letter)
  }

  /** The fixture is a solved state: white, red, green, yellow, orange and blue on U, R, F, D, L, B. */
  lemma TestCubeSolved()
    ensures SolvedState(LoadTestCube(), ['W', 'R', 'G', 'Y', 'O', 'B'])
    ensures Distinct(['W', 'R', 'G', 'Y', 'O', 'B'])
  {
  }

  /** The solved string is nine U, then nine R, F, D, L and B. */
  lemma SolvedStringRuns()
    ensures SolvedString() == "UUUUUUUUU" + "RRRRRRRRR" + "FFFFFFFFF" + "DDDDDDDDD" + "LLLLLLLLL" + "BBBBBBBBB"
  {
    var runs := Run('U') + Run('R') + Run('F') + Run('D') + Run('L') + Run('B');
    forall k | 0 <= k < CubeStringLength ensures SolvedString()[k] == runs[k] {
      if k < 9 {} else if k < 18 {} else if k < 27 {} else if k < 36 {} else if k < 45 {} else {}
    }
    assert Run('U') == "UUUUUUUUU" && Run('R') == "RRRRRRRRR" && Run('F') == "FFFFFFFFF";
    assert Run('D') == "DDDDDDDDD" && Run('L') == "LLLLLLLLL" && Run('B') == "BBBBBBBBB";
  }

  /**
   * The fixture passes `validate_cube_state` and canonicalises to the solved cube's facelet string
   * UUUUUUUUURRRRRRRRRFFFFFFFFFDDDDDDDDDLLLLLLLLLBBBBBBBBB, written here as its six runs.
   */
  lemma TestCube()
    ensures StateVerdict(LoadTestCube()) == Pass
    ensures Canonicalizable(LoadTestCube())
    ensures CubeString(LoadTestCube()) == "UUUUUUUUU" + "RRRRRRRRR" + "FFFFFFFFF" + "DDDDDDDDD" + "LLLLLLLLL" + "BBBBBBBBB"
  {
    var colors := ['W', 'R', 'G', 'Y', 'O', 'B'];
    TestCubeSolved();
    SolvedStateValid(LoadTestCube(), colors);
    SolvedStateString(LoadTestCube(), colors);
    SolvedStringRuns();
  }

  // ---------------------------------------------------------------------------------------------
  // Manual entry of a face
  // ---------------------------------------------------------------------------------------------

  /** `str.upper` on one character, for the ASCII letters. */
  function Upper(c: char): char
  {
    if 'a' <= c <= 'z' then (c as int - 32) as char else c
  }

  function UpperAll(raw: string): string
  {
    seq(|raw|, k requires 0 <= k < |raw| => Upper(raw[k]))
  }

  /** The letters the manual prompt accepts, `'WROYGB'`. */
  const ManualLetters: set<char> := {'W', 'R', 'O', 'Y', 'G', 'B'}

  /** The same letters in lower case, which the prompt accepts because it upper-cases the input first. */
  const LowerColorLetters: set<char> := {'w', 'r', 'o', 'y', 'g', 'b'}

  /**
   * The manual-input branch: the typed text, upper-cased, is stored as the face when it has nine
   * characters all drawn from `WROYGB`; otherwise the input is refused and nothing is stored.
   */
  function ManualFace(raw: string): Option<seq<Color>>
  {
    var text := UpperAll(raw);
    if |text| == FaceletsPerFace && forall k :: 0 <= k < |text| ==> text[k] in ManualLetters then Some(text)
    else None
  }

  /**
   * A typed face is accepted exactly when it is nine colour letters in either case; an accepted
   * face is stored upper-cased and passes every per-face check of `validate_cube_state`, and a
   * refused one would fail them.
   */
  lemma ManualFaceSpec(key: FaceKey, raw: string)
    ensures ManualFace(raw).Some? <==>
      |raw| == FaceletsPerFace && forall k :: 0 <= k < |raw| ==> raw[k] in ValidColors || raw[k] in LowerColorLetters
    ensures ManualFace(raw).Some? ==>
      ManualFace(raw).value == UpperAll(raw) && FaceError(Face(key, ManualFace(raw).value)).None?
    ensures ManualFace(raw).None? ==> FaceError(Face(key, UpperAll(raw))).Some?
  {
    var text := UpperAll(raw);
    assert ManualLetters == ValidColors;
    forall k | 0 <= k < |raw| ensures text[k] in ValidColors <==> raw[k] in ValidColors || raw[k] in LowerColorLetters {
    }
    FaceErrorSpec(Face(key, text));
  }

  // ---------------------------------------------------------------------------------------------
  // The end of a scan: saving before validating
  // ---------------------------------------------------------------------------------------------

  /**
   * What the end of a scan comes to: `save_cube_state` raised (a missing face, a face too short
   * to have a centre, or a facelet colour that is no face's centre), `validate_cube_state`
   * rejected the state for a reason, or the state is valid and its facelet string is reported.
   */
  datatype ScanOutcome = SaveCrashed | Rejected(reason: StateError) | Ready(cubeString: string)

  /** The end of a scan as written: canonicalise first, validate second. */
  function FinishScanAsWritten(state: State): ScanOutcome
  {
    if !Canonicalizable(state) then SaveCrashed
    else match StateVerdict(state)
      case Fail(reason) => Rejected(reason)
      case Pass => Ready(CubeString(state))
  }

  /** The end of a scan with the two steps swapped: validate first, canonicalise only a valid state. */
  function FinishScan(state: State): ScanOutcome
  {
    match StateVerdict(state)
    case Fail(reason) => Rejected(reason)
    case Pass =>
      ValidatedStateCanonicalizes(state);
      Ready(CubeString(state))
  }

  /**
   * Validating first never raises: an invalid state is rejected with the validator's reason, and
   * a valid one yields a facelet string that `is_valid_cube_string` accepts.
   */
  lemma FinishScanSpec(state: State)
    ensures FinishScan(state) != SaveCrashed
    ensures FinishScan(state).Rejected? <==> StateVerdict(state).Fail?
    ensures FinishScan(state).Rejected? ==> StateVerdict(state) == Fail(FinishScan(state).reason)
    ensures FinishScan(state).Ready? ==>
      && Canonicalizable(state)
      && FinishScan(state).cubeString == CubeString(state)
      && IsValidCubeString(FinishScan(state).cubeString) == Pass
  {
    if StateVerdict(state).Pass? {
      ValidatedStateCanonicalizes(state);
    }
  }

  /**
   * The order as written only ever differs by raising, and it raises only on states the validator
   * would have rejected.
   */
  lemma FinishScanAsWrittenSpec(state: State)
    ensures FinishScanAsWritten(state) == SaveCrashed ==> StateVerdict(state).Fail?
    ensures FinishScanAsWritten(state) != SaveCrashed ==> FinishScanAsWritten(state) == FinishScan(state)
  {
    if StateVerdict(state).Pass? {
      ValidatedStateCanonicalizes(state);
    }
  }

  /** The fixture with the first facelet of U unrecognised: `classify_color` returns '?' for it. */
  function ScanWithUnknownFacelet(): State
  {
    [ Face('U', ['?', 'W', 'W', 'W', 'W', 'W', 'W', 'W', 'W']),
      Face('R', ['R', 'R', 'R', 'R', 'R', 'R', 'R', 'R', 'R']),
      Face('F', ['G', 'G', 'G', 'G', 'G', 'G', 'G', 'G', 'G']),
      Face('D', ['Y', 'Y', 'Y', 'Y', 'Y', 'Y', 'Y', 'Y', 'Y']),
      Face('L', ['O', 'O', 'O', 'O', 'O', 'O', 'O', 'O', 'O']),
      Face('B', ['B', 'B', 'B', 'B', 'B', 'B', 'B', 'B', 'B']) ]
  }

  /**
   * A facelet whose colour is the centre of no face has no entry in `center_mapping`, so the
   * cube-string loop raises KeyError on it.
   */
  lemma UncenteredFaceletCrashes(state: State, p: nat, j: nat)
    requires KeysInFaceOrder(state)
    requires forall q :: 0 <= q < |state| ==> |state[q].colors| == FaceletsPerFace
    requires p < |state| && j < FaceletsPerFace
    requires forall q :: 0 <= q < |state| ==> state[q].colors[CenterIndex] != state[p].colors[j]
    ensures !Canonicalizable(state)
  {
    forall i | 0 <= i < |FaceOrder| ensures HasFace(state, FaceOrder[i]) && Lookup(state, FaceOrder[i]) == state[i].colors {
      FaceOrderLookup(state, i);
    }
    var c := state[p].colors[j];
    CenterMapUpToKeys(state, |FaceOrder|);
    var centers := OrderedCenters(state);
    assert centers[..|FaceOrder|] == centers;
    assert c !in CenterMap(state) by {
      assert forall i :: 0 <= i < |FaceOrder| ==> centers[i] != c;
    }
    GatherLayout(state, FaceOrder);
    assert Gather(state, FaceOrder)[FaceletsPerFace * p + j] == c;
  }

  /** A state whose first facelet, on a face of the right size, is no colour fails validation on that colour. */
  lemma FirstFaceletInvalid(state: State)
    requires |state| == 6 && KeySet(state) == RequiredFaces
    requires |state[0].colors| == FaceletsPerFace && state[0].colors[0] !in ValidColors
    ensures StateVerdict(state) == Fail(InvalidColor(state[0].key, state[0].colors[0]))
  {
    var colors := state[0].colors;
    assert colors[..1] == [colors[0]];
    FirstInvalidColorPrefix(colors, 1);
    assert state[..0] == [];
    FaceErrorVerdict(state, 0);
  }

  /**
   * One unrecognised facelet makes the scan as written raise KeyError at the cube-string loop,
   * where validating first reports it as an invalid colour on face U.
   */
  lemma UnknownFaceletCrashes()
    ensures FinishScanAsWritten(ScanWithUnknownFacelet()) == SaveCrashed
    ensures FinishScan(ScanWithUnknownFacelet()) == Rejected(InvalidColor('U', '?'))
  {
    var state := ScanWithUnknownFacelet();
    assert KeysInFaceOrder(state);
    assert forall q :: 0 <= q < |state| ==> |state[q].colors| == FaceletsPerFace;
    assert forall q :: 0 <= q < |state| ==> state[q].colors[CenterIndex] in ValidColors;
    UncenteredFaceletCrashes(state, 0, 0);
    assert Keys(state) == FaceOrder;
    FaceOrderFacts();
    FirstFaceletInvalid(state);
  }
}
