/**
 The placement selector: six fixed candidate centres, a score per candidate
 that favours mid-gray, textured regions, and the selection of the first
 candidate with the highest score.
 */
module Placement {
  import opened Numeric
  import opened Gray
  import opened Region

  /** Top-left, top-centre, top-right, bottom-left, bottom-centre, bottom-right. */
  const Candidates: seq<Centre> := [
    Centre(0.1, 0.1), Centre(0.5, 0.1), Centre(0.9, 0.1),
    Centre(0.1, 0.9), Centre(0.5, 0.9), Centre(0.9, 0.9)
  ]

  /** Six distinct centres strictly inside the unit square: three on the top band, then three on the bottom band, each band left to right. */
  lemma CandidateLayout()
    ensures |Candidates| == 6
    ensures forall i :: 0 <= i < |Candidates| ==> 0.0 < Candidates[i].x < 1.0 && 0.0 < Candidates[i].y < 1.0
    ensures forall i :: 0 <= i < 3 ==> Candidates[i].y < 0.5
    ensures forall i :: 3 <= i < 6 ==> 0.5 < Candidates[i].y
    ensures forall i, j :: 0 <= i < j < 3 ==> Candidates[i].x < Candidates[j].x
    ensures forall i, j :: 3 <= i < j < 6 ==> Candidates[i].x < Candidates[j].x
    ensures forall i, j :: 0 <= i < j < |Candidates| ==> Candidates[i] != Candidates[j]
  {
  }

  /** Size of each sampled region as a fraction of the image's sides. */
  const RegionSizeRatio: real := 0.2

  /** Peaks at mid-gray 128 and falls linearly on both sides. */
  function BrightnessScore(brightness: real): (r: real)
    ensures r <= 1.0
    ensures r == 1.0 <==> brightness == 128.0
    ensures 0.0 <= brightness <= 256.0 ==> 0.0 <= r
    ensures 0.0 < brightness < 256.0 ==> 0.0 < r
  {
    1.0 - AbsReal(brightness - 128.0) / 128.0
  }

  /** A brightness nearer to mid-gray scores strictly higher, whichever side of 128 it lies on. */
  lemma BrightnessScoreCloserIsBetter(a: real, b: real)
    requires AbsReal(a - 128.0) < AbsReal(b - 128.0)
    ensures BrightnessScore(b) < BrightnessScore(a)
  {
  }

  /** Contrast normalised by 64, saturating at 1. */
  function ContrastScore(contrast: real): (r: real)
    ensures r <= 1.0
    ensures 0.0 <= contrast ==> 0.0 <= r
    ensures r == 1.0 <==> 64.0 <= contrast
    ensures contrast == 0.0 ==> r == 0.0
  {
    MinReal(contrast / 64.0, 1.0)
  }

  /** More contrast never scores lower, and below the saturation point of 64 it scores strictly higher. */
  lemma ContrastScoreMonotone(a: real, b: real)
    requires 0.0 <= a <= b
    ensures ContrastScore(a) <= ContrastScore(b)
    ensures a < 64.0 && a < b ==> ContrastScore(a) < ContrastScore(b)
  {
  }

  /** The weighted combination: 60% brightness, 40% contrast. */
  function Score(s: Stats): (r: real)
    ensures 0.0 <= s.brightness <= 255.0 && 0.0 <= s.contrast ==> 0.0 <= r <= 1.0
    ensures r == 1.0 <==> s.brightness == 128.0 && 64.0 <= s.contrast
  {
    BrightnessScore(s.brightness) * 0.6 + ContrastScore(s.contrast) * 0.4
  }

  /** Of two regions equally bright, the more textured one never scores lower, and scores strictly higher while its rival is below contrast 64. */
  lemma MoreContrastScoresHigher(s: Stats, t: Stats)
    requires s.brightness == t.brightness && 0.0 <= s.contrast <= t.contrast
    ensures Score(s) <= Score(t)
    ensures s.contrast < 64.0 && s.contrast < t.contrast ==> Score(s) < Score(t)
  {
  }

  /** The region statistics of every candidate, in table order. */
  function CandidateStats(img: GrayImage, root: real -> real): (stats: seq<Stats>)
    requires img.Valid() && IsRoot(root)
    ensures |stats| == |Candidates|
    ensures forall i :: 0 <= i < |stats| ==> 0.0 <= stats[i].brightness <= 255.0 && 0.0 <= stats[i].contrast
  {
    seq(|Candidates|, i requires 0 <= i < |Candidates| => RegionBrightness(img, Candidates[i], RegionSizeRatio, root))
  }

  /** The score of every candidate, in table order. */
  function CandidateScores(img: GrayImage, root: real -> real): (scores: seq<real>)
    requires img.Valid() && IsRoot(root)
    ensures |scores| == |Candidates|
    ensures forall i :: 0 <= i < |scores| ==>
      (scores[i] == 1.0 <==> CandidateStats(img, root)[i].brightness == 128.0 && 64.0 <= CandidateStats(img, root)[i].contrast)
  {
    var stats := CandidateStats(img, root);
    seq(|stats|, i requires 0 <= i < |stats| => Score(stats[i]))
  }

  /** Every candidate's score lies in `[0, 1]`, so the first one always beats the initial best of -1. */
  lemma CandidateScoresInRange(img: GrayImage, root: real -> real)
    requires img.Valid() && IsRoot(root)
    ensures forall i :: 0 <= i < |Candidates| ==> -1.0 < 0.0 <= CandidateScores(img, root)[i] <= 1.0
  {
  }

  /** `k` holds a highest score, and every earlier index a strictly lower one. */
  predicate IsFirstMax(scores: seq<real>, k: int) {
    && 0 <= k < |scores|
    && (forall j :: 0 <= j < |scores| ==> scores[j] <= scores[k])
    && (forall j :: 0 <= j < k ==> scores[j] < scores[k])
  }

  /** One entry per candidate, as the selector records it: index, score, brightness of the region. */
  datatype ScoreEntry = ScoreEntry(index: nat, score: real, brightness: real)

  /**
   The selection loop: walks the scores in order and keeps the first one
   strictly above the best so far, which starts at -1 with index 0. Once
   any score exceeds -1 the result is the first maximum; otherwise it is 0.
   */
  method SelectFirstMax(scores: seq<real>) returns (index: nat)
    ensures (forall j :: 0 <= j < |scores| ==> scores[j] <= -1.0) ==> index == 0
    ensures (exists j :: 0 <= j < |scores| && -1.0 < scores[j]) ==> IsFirstMax(scores, index)
  {
    var bestScore := -1.0;
    index := 0;
    var i := 0;
    while i < |scores|
      invariant 0 <= i <= |scores|
      invariant bestScore == -1.0 ==> index == 0
      invariant bestScore != -1.0 ==> index < i && bestScore == scores[index]
      invariant -1.0 <= bestScore
      invariant forall j :: 0 <= j < i ==> scores[j] <= bestScore
      invariant forall j :: 0 <= j < index ==> scores[j] < bestScore
    {
      if scores[i] > bestScore {
        bestScore := scores[i];
        index := i;
      }
      i := i + 1;
    }
  }

  /**
   Scores every candidate in order, selects the first with the highest
   score, and returns its index with the brightness of its own region (not
   its score).
   */
  method FindBestPosition(img: GrayImage, root: real -> real) returns (index: nat, brightness: real)
    requires img.Valid() && IsRoot(root)
    ensures IsFirstMax(CandidateScores(img, root), index)
    ensures brightness == CandidateStats(img, root)[index].brightness
  {
    var stats := CandidateStats(img, root);
    var scores := CandidateScores(img, root);
    var positionScores := seq(|stats|, i requires 0 <= i < |stats| => ScoreEntry(i, scores[i], stats[i].brightness));
    assert -1.0 < scores[0];
    index := SelectFirstMax(scores);
    brightness := positionScores[index].brightness;
  }

  /** At most one index is a first maximum: the selection is fully determined by the scores. */
  lemma FirstMaxUnique(scores: seq<real>, a: int, b: int)
    requires IsFirstMax(scores, a) && IsFirstMax(scores, b)
    ensures a == b
  {
    assert scores[a] <= scores[b] && scores[b] <= scores[a];
  }

  /** When every score is the same, the first candidate wins. */
  lemma TieGoesToFirst(scores: seq<real>, k: int)
    requires IsFirstMax(scores, k)
    requires forall j :: 0 <= j < |scores| ==> scores[j] == scores[0]
    ensures k == 0
  {
    assert scores[k] == scores[0];
  }
}
