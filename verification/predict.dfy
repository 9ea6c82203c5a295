/**
  Location-consistency post-processing of the tagger's output (predict.py).

  Per sentence the model predicts one of six state tags and one raw location
  string. Boundary `b` of a paragraph is the point before sentence `b + 1`
  (boundary 0 is before the first sentence, boundary `n` after the last), so
  `n` sentences have `n + 1` boundaries. The post-processor rewrites the raw
  locations into boundary locations that agree with the tags, and the
  formatter turns tags and boundaries into `(state, before, after)` triples.
*/
module Predict {
  import opened PyText

  /** The six state tags. */
  datatype Tag =
    | O_C  // does not exist yet (before creation)
    | O_D  // does not exist any more (after destruction)
    | C    // created in this sentence
    | E    // exists, location unchanged
    | M    // moved in this sentence
    | D    // destroyed in this sentence

  /** The four states of the output format. */
  datatype State = NoChange | Create | Move | Destroy {
    /** The state as written to the prediction file. */
    function Name(): (s: string)
      ensures s in {"NONE", "CREATE", "MOVE", "DESTROY"}
    {
      match this
      case NoChange => "NONE"
      case Create => "CREATE"
      case Move => "MOVE"
      case Destroy => "DESTROY"
    }
  }

  /** Different states are written differently. */
  lemma StateNamesDistinct(a: State, b: State)
    requires a.Name() == b.Name()
    ensures a == b
  {
  }

  /** `tag2state`. */
  function TagToState(t: Tag): (s: State)
    ensures s == Create <==> t == C
    ensures s == Move <==> t == M
    ensures s == Destroy <==> t == D
    ensures s == NoChange <==> t in {O_C, O_D, E}
  {
    match t
    case O_C | O_D | E => NoChange
    case C => Create
    case M => Move
    case D => Destroy
  }

  /** Tags after which the entity has no location. */
  predicate Absent(t: Tag) {
    t == O_C || t == O_D || t == D
  }

  /** Tags after which the model's raw location is kept. */
  predicate Trusted(t: Tag) {
    t == C || t == M
  }

  /** Tags under which the entity already existed before the sentence. */
  predicate ExistedBefore(t: Tag) {
    t == E || t == M || t == D
  }

  /** `predict_loc0`: the location before the first sentence, `"?"` (exists,
      location unknown) or `"-"` (does not exist yet). */
  function PredictLoc0(first: Tag): (loc: string)
    ensures loc == "?" <==> ExistedBefore(first)
    ensures loc == "-" <==> !ExistedBefore(first)
  {
    if first in {E, M, D} then "?" else "-"
  }

  /** The consistency rules tying resolved boundary locations `locs` to the
      tags and the raw locations. */
  ghost predicate ResolvedLocations(tags: seq<Tag>, raw: seq<string>, locs: seq<string>)
    requires |tags| == |raw| >= 1
  {
    && |locs| == |tags| + 1
    && locs[0] == PredictLoc0(tags[0])
    && (forall i :: 0 <= i < |tags| && Absent(tags[i]) ==> locs[i + 1] == "-")
    && (forall i :: 0 <= i < |tags| && tags[i] == E ==> locs[i + 1] == locs[i])
    && (forall i :: 0 <= i < |tags| && Trusted(tags[i]) ==> locs[i + 1] == raw[i])
  }

  /** `predict_consistent_loc`: one left-to-right pass; the location after an
      `E` sentence is the resolved location before it, not the raw one. */
  method PredictConsistentLoc(tags: seq<Tag>, raw: seq<string>) returns (locs: seq<string>)
    requires |tags| == |raw|
    requires |tags| >= 1
    ensures |locs| == |tags| + 1
    ensures locs[0] == PredictLoc0(tags[0])
    ensures forall i :: 0 <= i < |tags| && Absent(tags[i]) ==> locs[i + 1] == "-"
    ensures forall i :: 0 <= i < |tags| && tags[i] == E ==> locs[i + 1] == locs[i]
    ensures forall i :: 0 <= i < |tags| && Trusted(tags[i]) ==> locs[i + 1] == raw[i]
  {
    locs := [];
    for i := 0 to |tags|
      invariant i == 0 ==> locs == []
      invariant i > 0 ==> |locs| == i + 1 && locs[0] == PredictLoc0(tags[0])
      invariant forall j :: 0 <= j < i && Absent(tags[j]) ==> locs[j + 1] == "-"
      invariant forall j :: 0 <= j < i && tags[j] == E ==> locs[j + 1] == locs[j]
      invariant forall j :: 0 <= j < i && Trusted(tags[j]) ==> locs[j + 1] == raw[j]
    {
      var state := tags[i];
      var location := raw[i];
      if i == 0 {
        locs := locs + [PredictLoc0(state)];
      }
      var current: string;
      if state in {O_C, O_D, D} {
        current := "-";
      } else if state == E {
        current := locs[i];
      } else {
        current := location;
      }
      locs := locs + [current];
    }
  }

  /** The rules leave no choice: at most one boundary sequence satisfies them. */
  lemma {:induction false} ResolvedLocationsUnique(tags: seq<Tag>, raw: seq<string>, a: seq<string>, b: seq<string>)
    requires |tags| == |raw| >= 1
    requires ResolvedLocations(tags, raw, a) && ResolvedLocations(tags, raw, b)
    ensures a == b
  {
    forall k | 0 <= k <= |tags| ensures a[k] == b[k] {
      ResolvedAgree(tags, raw, a, b, k);
    }
  }

  lemma {:induction false} ResolvedAgree(tags: seq<Tag>, raw: seq<string>, a: seq<string>, b: seq<string>, k: nat)
    requires |tags| == |raw| >= 1
    requires ResolvedLocations(tags, raw, a) && ResolvedLocations(tags, raw, b)
    requires k <= |tags|
    ensures a[k] == b[k]
    decreases k
  {
    if k > 0 {
      ResolvedAgree(tags, raw, a, b, k - 1);
      var t := tags[k - 1];
      assert Absent(t) || t == E || Trusted(t);
    }
  }

  /** The last sentence before boundary `b` whose tag is not `E`, if any. */
  function LastAnchor(tags: seq<Tag>, b: nat): (k: Option<nat>)
    requires b <= |tags|
    ensures k.Some? ==> k.value < b && tags[k.value] != E
    ensures k.Some? ==> forall j :: k.value < j < b ==> tags[j] == E
    ensures k.None? ==> forall j :: 0 <= j < b ==> tags[j] == E
    decreases b
  {
    if b == 0 then None
    else if tags[b - 1] != E then Some(b - 1)
    else LastAnchor(tags, b - 1)
  }

  /** A reference definition of the boundary locations that looks back to the
      latest sentence that is not `E`: its raw location if it was `C` or `M`,
      `"-"` if it was `O_C`, `O_D` or `D`; with no such sentence the entity
      existed from the start at an unknown place. */
  function AnchoredLocation(tags: seq<Tag>, raw: seq<string>, b: nat): string
    requires |tags| == |raw| >= 1 && b <= |tags|
  {
    if b == 0 then PredictLoc0(tags[0])
    else match LastAnchor(tags, b)
      case None => "?"
      case Some(k) => if Trusted(tags[k]) then raw[k] else "-"
  }

  /** Carry-forward: every resolved boundary is the location fixed by the
      latest non-`E` sentence before it. */
  lemma {:induction false} ResolvedIsAnchored(tags: seq<Tag>, raw: seq<string>, locs: seq<string>, b: nat)
    requires |tags| == |raw| >= 1
    requires ResolvedLocations(tags, raw, locs)
    requires b <= |tags|
    ensures locs[b] == AnchoredLocation(tags, raw, b)
    decreases b
  {
    if b > 0 {
      var t := tags[b - 1];
      if t == E {
        ResolvedIsAnchored(tags, raw, locs, b - 1);
        if b - 1 == 0 {
          assert LastAnchor(tags, b) == None;
        }
      }
    }
  }

  /** Every resolved location is a sentinel or a raw location the model
      predicted for a `C` or `M` sentence before it. */
  lemma ResolvedComesFromTrusted(tags: seq<Tag>, raw: seq<string>, locs: seq<string>, b: nat)
    requires |tags| == |raw| >= 1
    requires ResolvedLocations(tags, raw, locs)
    requires b <= |tags|
    ensures locs[b] in {"?", "-"} || exists k :: 0 <= k < b && Trusted(tags[k]) && locs[b] == raw[k]
  {
    ResolvedIsAnchored(tags, raw, locs, b);
  }

  /** The run `C, E, D` over raw locations `x, y, z` resolves to `-, x, x, -`:
      the `E` sentence carries `x` forward and its raw `y` is dropped. */
  lemma CreateExistDestroyExample(x: string, y: string, z: string, locs: seq<string>)
    requires ResolvedLocations([C, E, D], [x, y, z], locs)
    ensures locs == ["-", x, x, "-"]
  {
    assert Trusted([C, E, D][0]) && [C, E, D][1] == E && Absent([C, E, D][2]);
  }

  /** One line of the final prediction: state, location before, location after. */
  datatype Triple = Triple(state: State, before: string, after: string)

  /** `format_final_prediction`. */
  method FormatFinalPrediction(tags: seq<Tag>, locs: seq<string>) returns (prediction: seq<Triple>)
    requires |tags| + 1 == |locs|
    ensures |prediction| == |tags|
    ensures forall i :: 0 <= i < |tags| ==>
      prediction[i] == Triple(TagToState(tags[i]), locs[i], locs[i + 1])
  {
    prediction := [];
    for i := 0 to |tags|
      invariant |prediction| == i
      invariant forall j :: 0 <= j < i ==>
        prediction[j] == Triple(TagToState(tags[j]), locs[j], locs[j + 1])
    {
      prediction := prediction + [Triple(TagToState(tags[i]), locs[i], locs[i + 1])];
    }
  }

  /** The boundary locations a non-empty prediction describes. */
  function Boundaries(prediction: seq<Triple>): (locs: seq<string>)
    requires |prediction| >= 1
    ensures |locs| == |prediction| + 1
  {
    [prediction[0].before] + seq(|prediction|, i requires 0 <= i < |prediction| => prediction[i].after)
  }

  /** The end-to-end rules a final prediction obeys. */
  ghost predicate ConsistentPrediction(tags: seq<Tag>, raw: seq<string>, prediction: seq<Triple>)
    requires |tags| == |raw| >= 1
  {
    && |prediction| == |tags|
    && prediction[0].before == PredictLoc0(tags[0])
    && (forall i :: 0 <= i < |tags| ==> prediction[i].state == TagToState(tags[i]))
    && (forall i :: 0 <= i < |tags| - 1 ==> prediction[i].after == prediction[i + 1].before)
    && (forall i :: 0 <= i < |tags| && Absent(tags[i]) ==> prediction[i].after == "-")
    && (forall i :: 0 <= i < |tags| && tags[i] == E ==> prediction[i].after == prediction[i].before)
    && (forall i :: 0 <= i < |tags| && Trusted(tags[i]) ==> prediction[i].after == raw[i])
  }

  /** Formatting resolved boundaries keeps the consistency rules: consecutive
      triples share their boundary and each triple obeys its tag's rule. */
  lemma FormattedIsConsistent(tags: seq<Tag>, raw: seq<string>, locs: seq<string>, prediction: seq<Triple>)
    requires |tags| == |raw| >= 1
    requires ResolvedLocations(tags, raw, locs)
    requires |prediction| == |tags|
    requires forall i :: 0 <= i < |tags| ==> prediction[i] == Triple(TagToState(tags[i]), locs[i], locs[i + 1])
    ensures ConsistentPrediction(tags, raw, prediction)
  {
    forall i | 0 <= i < |tags| ensures prediction[i].state == TagToState(tags[i]) {
      assert prediction[i] == Triple(TagToState(tags[i]), locs[i], locs[i + 1]);
    }
    forall i | 0 <= i < |tags| - 1 ensures prediction[i].after == prediction[i + 1].before {
      assert prediction[i + 1] == Triple(TagToState(tags[i + 1]), locs[i + 1], locs[i + 2]);
    }
    forall i | 0 <= i < |tags| && tags[i] == E ensures prediction[i].after == prediction[i].before {
      assert prediction[i].after == locs[i + 1] == locs[i];
    }
    forall i | 0 <= i < |tags| && Trusted(tags[i]) ensures prediction[i].after == raw[i] {
      assert prediction[i].after == locs[i + 1];
    }
    forall i | 0 <= i < |tags| && Absent(tags[i]) ensures prediction[i].after == "-" {
      assert prediction[i].after == locs[i + 1];
    }
  }

  /** Formatting loses nothing: the boundaries can be read back from the triples. */
  lemma FormattedBoundaries(locs: seq<string>, prediction: seq<Triple>)
    requires |locs| >= 2 && |prediction| + 1 == |locs|
    requires forall i :: 0 <= i < |prediction| ==> prediction[i].before == locs[i] && prediction[i].after == locs[i + 1]
    ensures Boundaries(prediction) == locs
  {
    var bs := Boundaries(prediction);
    forall k | 0 <= k < |bs| ensures bs[k] == locs[k] {
      if k > 0 {
        assert bs[k] == prediction[k - 1].after;
      }
    }
  }

  /** A `NONE` state never moves the entity: either it stays where it was or
      it has no location. */
  lemma NoChangeKeepsLocation(tags: seq<Tag>, raw: seq<string>, prediction: seq<Triple>, i: nat)
    requires |tags| == |raw| >= 1
    requires ConsistentPrediction(tags, raw, prediction)
    requires i < |tags| && prediction[i].state == NoChange
    ensures prediction[i].after == prediction[i].before || prediction[i].after == "-"
  {
  }

  /** A `DESTROY` state leaves the entity without a location. */
  lemma DestroyLeavesNoLocation(tags: seq<Tag>, raw: seq<string>, prediction: seq<Triple>, i: nat)
    requires |tags| == |raw| >= 1
    requires ConsistentPrediction(tags, raw, prediction)
    requires i < |tags| && prediction[i].state == Destroy
    ensures prediction[i].after == "-"
  {
    assert tags[i] == D;
  }

  /** Metadata of one (paragraph, entity) instance. */
  datatype Metadata = Metadata(paraId: int, entity: string, locCandidates: seq<string>, totalSents: int)

  /** The record `get_output` returns for one instance. */
  datatype Instance = Instance(id: int, entity: string, totalSents: int, prediction: seq<Triple>)

  /** `[idx2state[idx] for idx in pred_state_seq]`; a missing key raises KeyError. */
  function DecodeTags(stateIdx: seq<int>, idx2state: map<int, Tag>): (r: Result<seq<Tag>>)
    ensures r.Ok? <==> forall i :: 0 <= i < |stateIdx| ==> stateIdx[i] in idx2state
    ensures r.Err? ==> r.failure == KeyError
    ensures r.Ok? ==> (|r.value| == |stateIdx|
      && forall i :: 0 <= i < |stateIdx| ==> r.value[i] == idx2state[stateIdx[i]])
  {
    if forall i :: 0 <= i < |stateIdx| ==> stateIdx[i] in idx2state then
      Ok(seq(|stateIdx|, i requires 0 <= i < |stateIdx| => idx2state[stateIdx[i]]))
    else
      Err(KeyError)
  }

  /** `[loc_cand_list[idx] for idx in pred_loc_seq]`; an index out of range
      raises IndexError, a negative one counts from the end. */
  function DecodeLocations(locIdx: seq<int>, candidates: seq<string>): (r: Result<seq<string>>)
    ensures r.Ok? <==> forall i :: 0 <= i < |locIdx| ==> -|candidates| <= locIdx[i] < |candidates|
    ensures r.Err? ==> r.failure == IndexError
    ensures r.Ok? ==> (|r.value| == |locIdx|
      && forall i :: 0 <= i < |locIdx| ==> Some(r.value[i]) == PyIndex(candidates, locIdx[i]))
  {
    if forall i :: 0 <= i < |locIdx| ==> -|candidates| <= locIdx[i] < |candidates| then
      Ok(seq(|locIdx|, i requires 0 <= i < |locIdx| && -|candidates| <= locIdx[i] < |candidates| =>
        PyIndex(candidates, locIdx[i]).value))
    else
      Err(IndexError)
  }

  /** `get_output`: decode the indices, resolve the locations, format the
      triples and check that there is one per sentence of the paragraph. */
  method GetOutput(meta: Metadata, stateIdx: seq<int>, locIdx: seq<int>, idx2state: map<int, Tag>)
    returns (r: Result<Instance>)
    ensures DecodeTags(stateIdx, idx2state).Err? ==> r == Err(KeyError)
    ensures DecodeTags(stateIdx, idx2state).Ok? && DecodeLocations(locIdx, meta.locCandidates).Err? ==>
      r == Err(IndexError)
    ensures DecodeTags(stateIdx, idx2state).Ok? && DecodeLocations(locIdx, meta.locCandidates).Ok? ==>
      (r.Ok? <==> |stateIdx| == |locIdx| && |stateIdx| >= 1 && |stateIdx| == meta.totalSents)
    ensures DecodeTags(stateIdx, idx2state).Ok? && DecodeLocations(locIdx, meta.locCandidates).Ok? && r.Err? ==>
      r.failure == AssertionError
    ensures r.Ok? ==>
      var tags := DecodeTags(stateIdx, idx2state).value;
      var raw := DecodeLocations(locIdx, meta.locCandidates).value;
      && r.value.id == meta.paraId && r.value.entity == meta.entity && r.value.totalSents == meta.totalSents
      && |tags| == |raw| >= 1
      && ConsistentPrediction(tags, raw, r.value.prediction)
  {
    var decodedTags := DecodeTags(stateIdx, idx2state);
    if decodedTags.Err? {
      return Err(decodedTags.failure);
    }
    var decodedLocs := DecodeLocations(locIdx, meta.locCandidates);
    if decodedLocs.Err? {
      return Err(decodedLocs.failure);
    }
    var tags, raw := decodedTags.value, decodedLocs.value;
    if |tags| != |raw| || |tags| == 0 {
      // the length assertion of predict_consistent_loc, or its final one for an empty paragraph
      return Err(AssertionError);
    }
    var locs := PredictConsistentLoc(tags, raw);
    var prediction := FormatFinalPrediction(tags, locs);
    FormattedIsConsistent(tags, raw, locs, prediction);
    if |prediction| != meta.totalSents {
      return Err(AssertionError);
    }
    r := Ok(Instance(meta.paraId, meta.entity, meta.totalSents, prediction));
  }
}
