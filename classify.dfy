/**
 The `classify` command: every face detected in the input image is ranked
 against the average faceprint of every label, and the best label is
 reported, for the first face only in plaintext mode and for every face in
 the JSON response.

 The detected faces, the embedding of each cropped face and the label to
 average-faceprint map are inputs: `detected` is what face detection
 returned or threw, `faceEmbedding` is cropping the face and extracting its
 embedding (either of which may throw), and `faceprints` is what was loaded
 from the index. The order in which a Swift dictionary is iterated is not
 specified, so the loops over a map pick their next key with `:|`, and every
 result below holds for every iteration order.
 */
module Classify {
  import opened Wrappers
  import opened VectorMath

  /** What `run` catches: the index's own errors, and whatever Vision or
      CoreImage throw. */
  datatype Error =
    | InvalidURL
    | NoFaceFound
    | MultipleFacesFound
    | NoFeaturePrintFound
    | FaceAlreadySaved
    | Framework(message: string)

  /** A normalized bounding box. */
  datatype Rect = Rect(x: real, y: real, width: real, height: real)

  /** A detected face: its bounding box and Vision's confidence in it. */
  datatype Face = Face(boundingBox: Rect, confidence: real)

  /** One face's ranking: label to cosine similarity. */
  type Ranks = map<string, Score>

  /** The JSON object printed for one face. */
  datatype FaceReport = FaceReport(
    boundingBox: Rect,
    faceConfidence: real,
    topLabel: string,
    topConfidence: Score,
    ranks: Ranks)

  /** What `run` prints on success. */
  datatype Output =
    | Plaintext(closestLabel: string, closestDistance: Score)
    | Json(operation: string, input: string, faces: seq<FaceReport>)

  /** How `run` ends: it prints its output, it prints a caught error, or a
      force-unwrap of a `nil` maximum stops the program. */
  datatype RunResult = Printed(output: Output) | Caught(error: Error) | Trapped

  /** The ranking of one face: one entry per label of `faceprints`, holding
      the similarity of the face's embedding to that label's average. */
  function FaceRanks(sqrt: real -> real, faceprint: seq<real>, faceprints: map<string, seq<real>>): Ranks {
    map l | l in faceprints :: CosineSimilarity(sqrt, faceprint, faceprints[l])
  }

  /** `k` is a result `max { $0.value < $1.value }` may return: a key none of
      whose rivals compares greater under IEEE `<`. */
  predicate IsTop(m: Ranks, k: string) {
    k in m && forall l :: l in m ==> !Less(m[k], m[l])
  }

  predicate NoNaN(m: Ranks) {
    forall l :: l in m ==> !m[l].NaN?
  }

  /** The inner loop of `run`: `faceRanks[label] = cosineSimilarity(faceprint,
      labelFaceprint)` for every label, in whatever order the dictionary
      yields them. */
  method BuildFaceRanks(sqrt: real -> real, faceprint: seq<real>, faceprints: map<string, seq<real>>)
    returns (faceRanks: Ranks)
    ensures faceRanks.Keys == faceprints.Keys
    ensures forall l :: l in faceRanks ==> faceRanks[l] == CosineSimilarity(sqrt, faceprint, faceprints[l])
    ensures faceRanks == FaceRanks(sqrt, faceprint, faceprints)
  {
    faceRanks := map[];
    var todo := faceprints.Keys;
    while todo != {}
      invariant todo <= faceprints.Keys
      invariant faceRanks.Keys == faceprints.Keys - todo
      invariant forall l :: l in faceRanks ==> faceRanks[l] == CosineSimilarity(sqrt, faceprint, faceprints[l])
      decreases todo
    {
      var key :| key in todo;
      faceRanks := faceRanks[key := CosineSimilarity(sqrt, faceprint, faceprints[key])];
      todo := todo - {key};
    }
  }

  /** Every face's embedding is obtained without an error. */
  predicate AllEmbedded(faces: seq<Face>, faceEmbedding: Face -> Result<seq<real>, Error>) {
    forall i :: 0 <= i < |faces| ==> faceEmbedding(faces[i]).Success?
  }

  /** `e` is the error of the first face whose cropping or embedding throws. */
  predicate FirstFailure(faces: seq<Face>, faceEmbedding: Face -> Result<seq<real>, Error>, e: Error) {
    exists i :: 0 <= i < |faces| && faceEmbedding(faces[i]) == Failure(e) &&
      forall j :: 0 <= j < i ==> faceEmbedding(faces[j]).Success?
  }

  /** The outer loop of `run`: one ranking per face, appended in face order;
      the first face whose embedding throws ends the loop with its error. */
  method RankFaces(
    sqrt: real -> real,
    faces: seq<Face>,
    faceEmbedding: Face -> Result<seq<real>, Error>,
    faceprints: map<string, seq<real>>)
    returns (r: Result<seq<Ranks>, Error>)
    ensures r.Success? <==> AllEmbedded(faces, faceEmbedding)
    ensures r.Success? ==> |r.value| == |faces|
    ensures r.Success? ==> forall i :: 0 <= i < |faces| ==>
      r.value[i] == FaceRanks(sqrt, faceEmbedding(faces[i]).value, faceprints)
    ensures r.Failure? ==> FirstFailure(faces, faceEmbedding, r.error)
  {
    var ranks: seq<Ranks> := [];
    var i := 0;
    while i < |faces|
      invariant 0 <= i <= |faces|
      invariant |ranks| == i
      invariant forall j :: 0 <= j < i ==>
        faceEmbedding(faces[j]).Success? &&
        ranks[j] == FaceRanks(sqrt, faceEmbedding(faces[j]).value, faceprints)
    {
      var faceprint := faceEmbedding(faces[i]);
      if faceprint.Failure? {
        return Failure(faceprint.error);
      }
      var faceRanks := BuildFaceRanks(sqrt, faceprint.value, faceprints);
      ranks := ranks + [faceRanks];
      i := i + 1;
    }
    return Success(ranks);
  }

  /** `m.max { $0.value < $1.value }?.key`: the first entry is the running
      maximum, and a later entry replaces it when the running maximum's score
      is `<` the entry's. The result is `nil` exactly for an empty map, and
      otherwise a key no other score exceeds, whatever the iteration order and
      even when some scores are NaN. */
  method TopLabel(m: Ranks) returns (top: Option<string>)
    ensures top.None? <==> m == map[]
    ensures top.Some? ==> IsTop(m, top.value)
  {
    top := None;
    var todo := m.Keys;
    while todo != {}
      invariant todo <= m.Keys
      invariant top.None? <==> todo == m.Keys
      invariant top.Some? ==> top.value in m
      invariant top.Some? ==> forall l :: l in m && l !in todo ==> !Less(m[top.value], m[l])
      decreases todo
    {
      var key :| key in todo;
      if top.None? {
        top := Some(key);
      } else if Less(m[top.value], m[key]) {
        forall l | l in m && l !in todo ensures !Less(m[key], m[l]) {
          ReplacedMaximumStaysMaximal(m[top.value], m[key], m[l]);
        }
        top := Some(key);
      }
      todo := todo - {key};
    }
    assert m.Keys == {} ==> m == map[];
  }

  /** When the running maximum `best` is replaced by `next`, every score that
      `best` was not below is not above `next` either, NaN included. */
  lemma ReplacedMaximumStaysMaximal(best: Score, next: Score, seen: Score)
    requires Less(best, next) && !Less(best, seen)
    ensures !Less(next, seen)
  {
    if !seen.NaN? {
      LessIsStrictTotalOrder(best, next, seen);
      LessIsStrictTotalOrder(seen, best, next);
    }
  }

  /** Without NaN scores every top key carries the same score: the reported
      distance does not depend on the iteration order, only the label can
      differ on a tie. */
  lemma TopScoreIsUnique(m: Ranks, k1: string, k2: string)
    requires NoNaN(m)
    requires IsTop(m, k1) && IsTop(m, k2)
    ensures m[k1] == m[k2]
  {
    LessIsStrictTotalOrder(m[k1], m[k2], m[k2]);
  }

  /** When every score is finite the top score is the numeric maximum. */
  lemma TopIsMaximum(m: Ranks, k: string)
    requires forall l :: l in m ==> m[l].Finite?
    requires IsTop(m, k)
    ensures forall l :: l in m ==> m[l].value <= m[k].value
  {
    forall l | l in m ensures m[l].value <= m[k].value {
      assert !Less(m[k], m[l]);
    }
  }

  /** A face whose embedding is a label's average faceprint scores exactly 1
      against that label, given a square root exact at its squared magnitude. */
  lemma MatchingFaceScoresOne(sqrt: real -> real, faceprints: map<string, seq<real>>, key: string)
    requires key in faceprints
    requires SumSquares(faceprints[key]) != 0.0
    requires sqrt(SumSquares(faceprints[key])) * sqrt(SumSquares(faceprints[key])) == SumSquares(faceprints[key])
    ensures FaceRanks(sqrt, faceprints[key], faceprints)[key] == Finite(1.0)
  {
    SelfSimilarity(sqrt, faceprints[key]);
  }

  /** `report` is the JSON object printed for `face` when it is ranked as
      `ranks`: the face's box and confidence, the whole ranking, a top label
      of it and that label's score. */
  predicate IsReportOf(report: FaceReport, face: Face, ranks: Ranks) {
    && report.boundingBox == face.boundingBox
    && report.faceConfidence == face.confidence
    && report.ranks == ranks
    && IsTop(ranks, report.topLabel)
    && report.topConfidence == ranks[report.topLabel]
  }

  /** `faces.enumerated().map { ... }` of the JSON response: one report per
      face, in face order, taking `ranks[index].max { ... }!` for each; the
      force-unwrap traps (`None`) on the first empty ranking. */
  method BuildReports(faces: seq<Face>, ranks: seq<Ranks>) returns (reports: Option<seq<FaceReport>>)
    requires |ranks| == |faces|
    ensures reports.None? <==> exists i :: 0 <= i < |faces| && ranks[i] == map[]
    ensures reports.Some? ==> |reports.value| == |faces|
    ensures reports.Some? ==> forall i :: 0 <= i < |faces| ==> IsReportOf(reports.value[i], faces[i], ranks[i])
  {
    var done: seq<FaceReport> := [];
    var i := 0;
    while i < |faces|
      invariant 0 <= i <= |faces|
      invariant |done| == i
      invariant forall j :: 0 <= j < i ==> ranks[j] != map[]
      invariant forall j :: 0 <= j < i ==> IsReportOf(done[j], faces[j], ranks[j])
    {
      var topLabel := TopLabel(ranks[i]);
      if topLabel.None? {
        return None;
      }
      var face := faces[i];
      done := done + [FaceReport(face.boundingBox, face.confidence, topLabel.value, ranks[i][topLabel.value], ranks[i])];
      i := i + 1;
    }
    return Some(done);
  }

  /** `Classify.run`. Faces are detected first; none is `noFaceFound`; then
      each face is ranked against every label; then the top label is chosen
      for the first face (plaintext) or for each face (JSON). An error thrown
      on the way is caught and printed. */
  method Run(
    sqrt: real -> real,
    plaintext: bool,
    input: string,
    faceprints: map<string, seq<real>>,
    detected: Result<seq<Face>, Error>,
    faceEmbedding: Face -> Result<seq<real>, Error>)
    returns (out: RunResult)
    ensures detected.Failure? ==> out == Caught(detected.error)
    ensures detected == Success([]) ==> out == Caught(NoFaceFound)
    ensures detected.Success? && detected.value != [] ==>
      (out.Caught? <==> !AllEmbedded(detected.value, faceEmbedding))
    ensures detected.Success? && detected.value != [] && out.Caught? ==>
      FirstFailure(detected.value, faceEmbedding, out.error)
    ensures out.Trapped? <==>
      detected.Success? && detected.value != [] && AllEmbedded(detected.value, faceEmbedding) && faceprints == map[]
    ensures out.Printed? ==>
      detected.Success? && detected.value != [] && AllEmbedded(detected.value, faceEmbedding) &&
      (out.output.Plaintext? <==> plaintext)
    ensures out.Printed? && plaintext ==>
      var faceprint := faceEmbedding(detected.value[0]).value;
      var closest := out.output.closestLabel;
      && closest in faceprints
      && IsTop(FaceRanks(sqrt, faceprint, faceprints), closest)
      && out.output.closestDistance == CosineSimilarity(sqrt, faceprint, faceprints[closest])
    ensures out.Printed? && !plaintext ==>
      var faces := detected.value;
      && out.output == Json("classify", input, out.output.faces)
      && |out.output.faces| == |faces|
      && forall i :: 0 <= i < |faces| ==>
        IsReportOf(out.output.faces[i], faces[i], FaceRanks(sqrt, faceEmbedding(faces[i]).value, faceprints))
  {
    if detected.Failure? {
      return Caught(detected.error);
    }
    var faces := detected.value;
    if faces == [] {
      return Caught(NoFaceFound);
    }
    var ranked := RankFaces(sqrt, faces, faceEmbedding, faceprints);
    if ranked.Failure? {
      return Caught(ranked.error);
    }
    var ranks := ranked.value;
    assert ranks[0] == map[] <==> faceprints == map[] by {
      assert ranks[0].Keys == faceprints.Keys;
    }
    if plaintext {
      var closestLabel := TopLabel(ranks[0]);
      if closestLabel.None? {
        return Trapped;
      }
      return Printed(Plaintext(closestLabel.value, ranks[0][closestLabel.value]));
    }
    var reports := BuildReports(faces, ranks);
    if reports.None? {
      forall i | 0 <= i < |faces| ensures ranks[i] == map[] <==> faceprints == map[] {
        assert ranks[i].Keys == faceprints.Keys;
      }
      return Trapped;
    }
    return Printed(Json("classify", input, reports.value));
  }

  /** The unit vectors of the plane: each has similarity 1 with itself and
      0 with the other, given `sqrt(1) == 1`. */
  lemma UnitVectorScores(sqrt: real -> real)
    requires sqrt(1.0) == 1.0
    ensures CosineSimilarity(sqrt, [1.0, 0.0], [1.0, 0.0]) == Finite(1.0)
    ensures CosineSimilarity(sqrt, [1.0, 0.0], [0.0, 1.0]) == Finite(0.0)
  {
    var alice, bob := [1.0, 0.0], [0.0, 1.0];
    assert Squares(alice) == [1.0, 0.0];
    assert Squares(bob) == [0.0, 1.0];
    assert ZipMul(alice, alice) == [1.0, 0.0];
    assert ZipMul(alice, bob) == [0.0, 0.0];
    SumOfPair(1.0, 0.0);
    SumOfPair(0.0, 1.0);
    SumOfPair(0.0, 0.0);
  }

  /** The two labels of the example below, with orthogonal average faceprints. */
  function ExampleFaceprints(): map<string, seq<real>> {
    map["alice" := [1.0, 0.0], "bob" := [0.0, 1.0]]
  }

  /** A face whose embedding is alice's average faceprint has alice as its
      only top label, with score 1. */
  lemma ExampleTopLabel(sqrt: real -> real, k: string)
    requires sqrt(1.0) == 1.0
    requires IsTop(FaceRanks(sqrt, [1.0, 0.0], ExampleFaceprints()), k)
    ensures k == "alice"
    ensures CosineSimilarity(sqrt, [1.0, 0.0], ExampleFaceprints()[k]) == Finite(1.0)
  {
    UnitVectorScores(sqrt);
    var ranks := FaceRanks(sqrt, [1.0, 0.0], ExampleFaceprints());
    assert ranks["alice"] == Finite(1.0) && ranks["bob"] == Finite(0.0);
    assert k == "alice" || k == "bob";
    assert !Less(ranks[k], ranks["alice"]);
  }

  /** An image whose one face matches alice's average exactly: plaintext mode
      prints alice with similarity 1. */
  method ClassifyExample(sqrt: real -> real) returns (out: RunResult)
    requires sqrt(1.0) == 1.0
    ensures out == Printed(Plaintext("alice", Finite(1.0)))
  {
    var face := Face(Rect(0.25, 0.25, 0.5, 0.5), 0.99);
    var faceEmbedding := (f: Face) => Success([1.0, 0.0]);
    assert AllEmbedded([face], faceEmbedding);
    assert "alice" in ExampleFaceprints();
    out := Run(sqrt, true, "face.jpg", ExampleFaceprints(), Success([face]), faceEmbedding);
    ExampleTopLabel(sqrt, out.output.closestLabel);
  }
}
