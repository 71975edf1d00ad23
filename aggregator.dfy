/**
 * `final_verdict` of backend/aggregator.py: fuse the deepfake branch and
 * the AI-image branch by taking the larger probability, call the media
 * FAKE above one half, and report every probability as a percentage.
 */
module Aggregator {
  import opened PyNum

  const DeepfakeKey: string := "deepfake_prob"
  const AiImageKey: string := "ai_img_prob"
  const FakeThreshold: real := 0.5

  datatype Label = Fake | Real

  function Name(l: Label): (s: string)
    ensures l.Fake? <==> s == "FAKE"
    ensures l.Real? <==> s == "REAL"
  {
    match l
    case Fake => "FAKE"
    case Real => "REAL"
  }

  /** The returned dictionary: verdict, confidence and the two details entries. */
  datatype Report = Report(verdict: Label, confidence: real, deepfakeBranch: real, aiImageBranch: real)

  /** `scores.get(key, 0)` */
  function Get(scores: map<string, real>, key: string): (p: real)
    ensures key in scores ==> p == scores[key]
    ensures key !in scores ==> p == 0.0
  {
    if key in scores then scores[key] else 0.0
  }

  function Larger(a: real, b: real): (m: real)
    ensures m >= a && m >= b
    ensures m == a || m == b
  {
    if a >= b then a else b
  }

  /**
   * `final_verdict(scores)`: FAKE exactly when some branch is above one
   * half; each details entry is that branch's probability as a percentage.
   */
  function FinalVerdict(scores: map<string, real>): (r: Report)
    ensures r.verdict == Fake <==> Get(scores, DeepfakeKey) > FakeThreshold || Get(scores, AiImageKey) > FakeThreshold
    ensures r.deepfakeBranch == Percent(Get(scores, DeepfakeKey))
    ensures r.aiImageBranch == Percent(Get(scores, AiImageKey))
    ensures r.confidence == Percent(Larger(Get(scores, DeepfakeKey), Get(scores, AiImageKey)))
  {
    var deepfake := Get(scores, DeepfakeKey);
    var aiImage := Get(scores, AiImageKey);
    var final := Larger(deepfake, aiImage);
    Report(if final > FakeThreshold then Fake else Real, Percent(final), Percent(deepfake), Percent(aiImage))
  }

  /** The confidence is the larger of the two rounded branch percentages. */
  lemma ConfidenceIsLargerBranch(scores: map<string, real>)
    ensures var r := FinalVerdict(scores);
      r.confidence == Larger(r.deepfakeBranch, r.aiImageBranch)
  {
    var d, a := Get(scores, DeepfakeKey), Get(scores, AiImageKey);
    if d >= a {
      PercentMonotone(a, d);
    } else {
      PercentMonotone(d, a);
    }
  }

  /** Swapping the two branch scores changes neither the verdict nor the confidence. */
  lemma BranchesSymmetric(d: real, a: real)
    ensures var r1 := FinalVerdict(map[DeepfakeKey := d, AiImageKey := a]);
      var r2 := FinalVerdict(map[DeepfakeKey := a, AiImageKey := d]);
      r1.verdict == r2.verdict && r1.confidence == r2.confidence
  {
    var m1 := map[DeepfakeKey := d, AiImageKey := a];
    var m2 := map[DeepfakeKey := a, AiImageKey := d];
    assert DeepfakeKey != AiImageKey;
    assert Get(m1, DeepfakeKey) == d && Get(m1, AiImageKey) == a;
    assert Get(m2, DeepfakeKey) == a && Get(m2, AiImageKey) == d;
  }

  /** Raising either branch never turns a FAKE verdict into REAL nor lowers the confidence. */
  lemma VerdictMonotone(s1: map<string, real>, s2: map<string, real>)
    requires Get(s1, DeepfakeKey) <= Get(s2, DeepfakeKey)
    requires Get(s1, AiImageKey) <= Get(s2, AiImageKey)
    ensures FinalVerdict(s1).verdict == Fake ==> FinalVerdict(s2).verdict == Fake
    ensures FinalVerdict(s1).confidence <= FinalVerdict(s2).confidence
  {
    PercentMonotone(Larger(Get(s1, DeepfakeKey), Get(s1, AiImageKey)), Larger(Get(s2, DeepfakeKey), Get(s2, AiImageKey)));
  }

  /** No branch scores at all: REAL with zero confidence. */
  lemma EmptyScoresAreReal()
    ensures FinalVerdict(map[]) == Report(Real, 0.0, 0.0, 0.0)
  {
    assert RoundHalfEven(0.0) == 0;
  }

  /** The threshold is strict: exactly one half is still REAL, at 50.0 percent. */
  lemma HalfIsReal()
    ensures FinalVerdict(map[DeepfakeKey := 0.5, AiImageKey := 0.5]) == Report(Real, 50.0, 50.0, 50.0)
  {
    var m := map[DeepfakeKey := 0.5, AiImageKey := 0.5];
    assert Get(m, DeepfakeKey) == 0.5 && Get(m, AiImageKey) == 0.5;
    assert RoundHalfEven(5000.0) == 5000;
  }

  /** One confident branch decides: 0.87 on the AI-image branch gives FAKE at 87.0. */
  lemma OneBranchDecides()
    ensures FinalVerdict(map[DeepfakeKey := 0.12, AiImageKey := 0.87]) == Report(Fake, 87.0, 12.0, 87.0)
  {
    var m := map[DeepfakeKey := 0.12, AiImageKey := 0.87];
    assert DeepfakeKey != AiImageKey;
    assert Get(m, DeepfakeKey) == 0.12 && Get(m, AiImageKey) == 0.87;
    assert RoundHalfEven(1200.0) == 1200;
    assert RoundHalfEven(8700.0) == 8700;
  }
}
