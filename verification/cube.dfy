/**
 * The scanned cube state shared by the validator and the canonicaliser: a dictionary from
 * face key ("U", "R", ...) to the nine colour labels of that face, and the fixed constants
 * the two Python files agree on.
 */
module Cube {
  import opened Collections

  /**
   * A key of the state dictionary. Every key the program stores is one of the one-letter strings
   * of the face order, so a key is modelled as that letter.
   */
  type FaceKey = char

  /**
   * A colour label. The scanner, the manual entry and the test fixture all store one-letter
   * labels ('W', 'R', 'O', 'Y', 'G', 'B', or '?' for an unrecognised colour), so a label is
   * modelled as that letter.
   */
  type Color = char

  /** One dictionary entry: a face key and the colours of its facelets in row-major order. */
  datatype Face = Face(key: FaceKey, colors: seq<Color>)

  /** The state dictionary, as its entries in insertion order. */
  type State = seq<Face>

  /** The solver's face order, U, R, F, D, L, B (capture_faces.py:17). */
  const FaceOrder: seq<FaceKey> := ['U', 'R', 'F', 'D', 'L', 'B']

  /** The face keys the validator requires. */
  const RequiredFaces: set<FaceKey> := {'U', 'R', 'F', 'D', 'L', 'B'}

  /** The colour labels, in the insertion order of the validator's counter. */
  const ColorOrder: seq<Color> := ['W', 'R', 'O', 'Y', 'G', 'B']

  const ValidColors: set<Color> := {'W', 'R', 'O', 'Y', 'G', 'B'}

  const FaceletsPerFace: nat := 9
  const CenterIndex: nat := 4

  function Keys(state: State): seq<FaceKey>
  {
    seq(|state|, p requires 0 <= p < |state| => state[p].key)
  }

  /** The set of face keys present in the dictionary. */
  function KeySet(state: State): set<FaceKey>
  {
    Elements(Keys(state))
  }

  /** `cube_state[key]`: the colours stored under a key present in the dictionary. */
  function Lookup(state: State, key: FaceKey): (colors: seq<Color>)
    requires key in KeySet(state)
    ensures exists p :: 0 <= p < |state| && state[p] == Face(key, colors)
    decreases |state|
  {
    var n := |state| - 1;
    if state[n].key == key then state[n].colors
    else
      assert key in KeySet(state[..n]) by {
        var p :| 0 <= p < |state| && Keys(state)[p] == key;
        assert Keys(state[..n])[p] == key;
      }
      Lookup(state[..n], key)
  }

  /** The face named by `face` is in the dictionary. */
  predicate HasFace(state: State, face: FaceKey)
  {
    face in KeySet(state)
  }

  predicate HasAllFaces(state: State)
  {
    forall i :: 0 <= i < |FaceOrder| ==> HasFace(state, FaceOrder[i])
  }

  /** Every facelet of every entry, entry after entry in insertion order. */
  function Flatten(state: State): seq<Color>
  {
    if state == [] then [] else Flatten(state[..|state| - 1]) + state[|state| - 1].colors
  }

  lemma FlattenPrefixSnoc(state: State, i: nat)
    requires i < |state|
    ensures Flatten(state[..i + 1]) == Flatten(state[..i]) + state[i].colors
  {
    assert state[..i + 1][..i] == state[..i];
  }

  /** The facelets of the faces `faces`, face after face in that order, looked up by key. */
  function Gather(state: State, faces: seq<FaceKey>): seq<Color>
    requires forall i :: 0 <= i < |faces| ==> HasFace(state, faces[i])
  {
    if faces == [] then []
    else
      assert HasFace(state, faces[|faces| - 1]);
      Gather(state, faces[..|faces| - 1]) + Lookup(state, faces[|faces| - 1])
  }

  /** Gathering depends only on what each face key looks up to, not on the entries' order. */
  lemma {:induction false} GatherAgree(s1: State, s2: State, faces: seq<FaceKey>)
    requires forall i :: 0 <= i < |faces| ==>
      HasFace(s1, faces[i]) && HasFace(s2, faces[i]) && Lookup(s1, faces[i]) == Lookup(s2, faces[i])
    ensures Gather(s1, faces) == Gather(s2, faces)
  {
    if faces != [] {
      GatherAgree(s1, s2, faces[..|faces| - 1]);
    }
  }

  /** Gathering one more face appends that face's facelets. */
  lemma GatherSnoc(state: State, faces: seq<FaceKey>, init: seq<FaceKey>)
    requires faces != [] && init == faces[..|faces| - 1]
    requires forall i :: 0 <= i < |faces| ==> HasFace(state, faces[i])
    ensures forall i :: 0 <= i < |init| ==> HasFace(state, init[i])
    ensures Gather(state, faces) == Gather(state, init) + Lookup(state, faces[|faces| - 1])
  {
  }

  /** Gathering the faces `a` and then the faces `b` is gathering `a + b`. */
  lemma {:induction false} GatherAppend(state: State, a: seq<FaceKey>, b: seq<FaceKey>, ab: seq<FaceKey>)
    requires ab == a + b
    requires forall i :: 0 <= i < |a| ==> HasFace(state, a[i])
    requires forall i :: 0 <= i < |b| ==> HasFace(state, b[i])
    ensures forall i :: 0 <= i < |ab| ==> HasFace(state, ab[i])
    ensures Gather(state, ab) == Gather(state, a) + Gather(state, b)
  {
    if b == [] {
      assert ab == a;
    } else {
      var n := |b| - 1;
      var init, abInit := b[..n], ab[..|ab| - 1];
      assert abInit == a + init;
      GatherSnoc(state, b, init);
      GatherAppend(state, a, init, abInit);
      assert ab[|ab| - 1] == b[n];
      GatherSnoc(state, ab, abInit);
    }
  }

  /** Facelet `j` of face `i` is at `9 * i + j`, before the start `9 * n` of any later face `n`. */
  lemma FaceletOffset(i: nat, j: nat, n: nat)
    requires i < n && j < FaceletsPerFace
    ensures FaceletsPerFace * i + j < FaceletsPerFace * n
  {
  }

  /** With nine facelets per face, facelet `j` of the `i`-th gathered face sits at `9 * i + j`. */
  lemma {:induction false} GatherLayout(state: State, faces: seq<FaceKey>)
    requires forall i :: 0 <= i < |faces| ==>
      HasFace(state, faces[i]) && |Lookup(state, faces[i])| == FaceletsPerFace
    ensures |Gather(state, faces)| == FaceletsPerFace * |faces|
    ensures forall i, j :: 0 <= i < |faces| && 0 <= j < FaceletsPerFace ==>
      Gather(state, faces)[FaceletsPerFace * i + j] == Lookup(state, faces[i])[j]
  {
    if faces != [] {
      var n := |faces| - 1;
      var init := faces[..n];
      GatherSnoc(state, faces, init);
      GatherLayout(state, init);
      var prefix, last := Gather(state, init), Lookup(state, faces[n]);
      assert |last| == FaceletsPerFace;
      forall i, j | 0 <= i < |faces| && 0 <= j < FaceletsPerFace
        ensures Gather(state, faces)[FaceletsPerFace * i + j] == Lookup(state, faces[i])[j]
      {
        if i < n {
          FaceletOffset(i, j, n);
          assert prefix[FaceletsPerFace * i + j] == Lookup(state, init[i])[j];
        } else {
          assert FaceletsPerFace * i + j == |prefix| + j;
        }
      }
    }
  }

  /** Dropping the last entry of a dictionary with distinct keys drops exactly its key. */
  lemma KeySetOfInit(state: State)
    requires state != [] && Distinct(Keys(state))
    ensures KeySet(state[..|state| - 1]) == KeySet(state) - {state[|state| - 1].key}
  {
    var n := |state| - 1;
    var rest := state[..n];
    assert Keys(rest) == Keys(state)[..n];
    assert Keys(state)[n] == state[n].key;
    forall k ensures k in KeySet(rest) <==> k in KeySet(state) && k != state[n].key {
      if k in KeySet(rest) {
        var q :| 0 <= q < n && Keys(rest)[q] == k;
        assert Keys(state)[q] == k;
      }
      if k in KeySet(state) && k != state[n].key {
        var q :| 0 <= q <= n && Keys(state)[q] == k;
        assert Keys(rest)[q] == k;
      }
    }
  }

  /** Removing one face from a duplicate-free face list removes exactly its key. */
  lemma RemoveFace(faces: seq<FaceKey>, p: nat)
    requires Distinct(faces) && p < |faces|
    ensures Distinct(faces[..p] + faces[p + 1..])
    ensures Elements(faces[..p] + faces[p + 1..]) == Elements(faces) - {faces[p]}
  {
    var others := faces[..p] + faces[p + 1..];
    forall i | 0 <= i < |others| ensures others[i] == faces[if i < p then i else i + 1] {
    }
    forall i, j | 0 <= i < j < |others| ensures others[i] != others[j] {
      assert others[i] == faces[if i < p then i else i + 1];
    }
    forall k ensures k in Elements(others) <==> k in Elements(faces) && k != faces[p] {
      if k in Elements(others) {
        var q :| 0 <= q < |others| && others[q] == k;
        var r := if q < p then q else q + 1;
        assert others[q] == faces[r] && r != p;
      }
      if k in Elements(faces) && k != faces[p] {
        var q :| 0 <= q < |faces| && faces[q] == k;
        assert others[if q < p then q else q - 1] == k;
      }
    }
  }

  /**
   * When the dictionary's keys are exactly the keys of `faces`, gathering in the order `faces`
   * yields the same facelets, counted with multiplicity, as walking the entries in insertion order.
   */
  lemma {:induction false} GatherPermutes(state: State, faces: seq<FaceKey>)
    requires Distinct(Keys(state)) && Distinct(faces)
    requires KeySet(state) == Elements(faces)
    ensures forall i :: 0 <= i < |faces| ==> HasFace(state, faces[i])
    ensures multiset(Gather(state, faces)) == multiset(Flatten(state))
    decreases |state|
  {
    forall i | 0 <= i < |faces| ensures HasFace(state, faces[i]) {
      assert faces[i] in Elements(faces);
    }
    if state != [] {
      var n := |state| - 1;
      var rest := state[..n];
      var p, others := DropLastEntry(state, faces);
      GatherPermutes(rest, others);
      GatherAgree(state, rest, others);
      GatherWithout(state, faces, p, others);
      assert Flatten(state) == Flatten(rest) + state[n].colors;
    }
  }

  /**
   * Dropping the last entry of the dictionary and its key from `faces` leaves a smaller instance
   * of the same situation, in which every remaining key looks up as before.
   */
  lemma DropLastEntry(state: State, faces: seq<FaceKey>) returns (p: nat, others: seq<FaceKey>)
    requires Distinct(Keys(state)) && Distinct(faces) && state != []
    requires KeySet(state) == Elements(faces)
    ensures p < |faces| && faces[p] == state[|state| - 1].key && others == faces[..p] + faces[p + 1..]
    ensures Distinct(Keys(state[..|state| - 1])) && Distinct(others)
    ensures KeySet(state[..|state| - 1]) == Elements(others)
    ensures forall i :: 0 <= i < |faces| ==> HasFace(state, faces[i])
    ensures forall i :: 0 <= i < |others| ==>
      && HasFace(state, others[i]) && HasFace(state[..|state| - 1], others[i])
      && Lookup(state, others[i]) == Lookup(state[..|state| - 1], others[i])
    ensures Lookup(state, faces[p]) == state[|state| - 1].colors
  {
    var n := |state| - 1;
    var rest, last := state[..n], state[n];
    assert last.key == Keys(state)[n];
    assert last.key in Elements(faces);
    p :| 0 <= p < |faces| && faces[p] == last.key;
    others := faces[..p] + faces[p + 1..];
    KeySetOfInit(state);
    RemoveFace(faces, p);
    assert Keys(rest) == Keys(state)[..n];
    forall i | 0 <= i < |faces| ensures HasFace(state, faces[i]) {
      assert faces[i] in Elements(faces);
    }
    forall i | 0 <= i < |others|
      ensures HasFace(state, others[i]) && HasFace(rest, others[i]) && Lookup(state, others[i]) == Lookup(rest, others[i])
    {
      assert others[i] in Elements(others);
    }
  }

  /** Gathering `faces` is gathering them without face `p`, plus face `p`'s facelets. */
  lemma GatherWithout(state: State, faces: seq<FaceKey>, p: nat, others: seq<FaceKey>)
    requires p < |faces| && others == faces[..p] + faces[p + 1..]
    requires forall i :: 0 <= i < |faces| ==> HasFace(state, faces[i])
    requires forall i :: 0 <= i < |others| ==> HasFace(state, others[i])
    ensures multiset(Gather(state, faces))
         == multiset(Gather(state, others)) + multiset(Lookup(state, faces[p]))
  {
    var before, after := faces[..p], faces[p + 1..];
    var mid := [faces[p]] + after;
    assert faces == before + mid;
    PresentParts(state, before, mid, faces);
    PresentParts(state, [faces[p]], after, mid);
    GatherAppend(state, before, mid, faces);
    GatherAppend(state, [faces[p]], after, mid);
    GatherAppend(state, before, after, others);
    assert Gather(state, [faces[p]]) == Lookup(state, faces[p]);
  }

  /** The faces of both parts of a face list are in the dictionary when those of the whole are. */
  lemma PresentParts(state: State, a: seq<FaceKey>, b: seq<FaceKey>, ab: seq<FaceKey>)
    requires ab == a + b
    requires forall i :: 0 <= i < |ab| ==> HasFace(state, ab[i])
    ensures forall i :: 0 <= i < |a| ==> HasFace(state, a[i])
    ensures forall i :: 0 <= i < |b| ==> HasFace(state, b[i])
  {
    assert forall i :: 0 <= i < |a| ==> a[i] == ab[i];
    assert forall i :: 0 <= i < |b| ==> b[i] == ab[|a| + i];
  }

  lemma FaceOrderFacts()
    ensures Distinct(FaceOrder)
    ensures Elements(FaceOrder) == RequiredFaces
    ensures |RequiredFaces| == |FaceOrder|
  {
    assert FaceOrder[0] == 'U' && FaceOrder[1] == 'R' && FaceOrder[2] == 'F';
    assert FaceOrder[3] == 'D' && FaceOrder[4] == 'L' && FaceOrder[5] == 'B';
    assert Elements(FaceOrder) == RequiredFaces;
    DistinctIffFullSet(FaceOrder);
  }
}
