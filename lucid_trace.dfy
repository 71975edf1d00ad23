/**
 * `analyze_media_data` of backend/lucid_trace.py: hash the file, extract
 * evidence, cap it, score it, clean up, and fuse the scores into a verdict.
 */
module LucidTrace {
  import opened Wrappers
  import opened Text
  import opened PyNum
  import opened Stats
  import opened Extraction
  import opened Custody
  import opened Budget
  import opened Scoring
  import opened Verdict

  const NoFramesMessage: string := "No frames extracted"
  const AnalysisFailedMessage: string := "Analysis failed (API errors or no scores)."

  /** The dictionary returned: `{"status": "error", ...}` or `{"status": "success", ...}`. */
  datatype Analysis =
    | Error(message: string)
    | Success(filename: string, fileHash: Digest, verdict: string, riskLevel: string,
              colorCode: string, confidenceAvg: real, confidenceMax: real, framesAnalyzed: nat)

  /**
   * Steps 5 onward: no scores is the "Analysis failed" error; otherwise the
   * rounded mean and maximum, the ladder's risk, and the count of scores.
   */
  function Conclude(filename: string, fileHash: Digest, scores: seq<real>): (a: Analysis)
    ensures a.Error? <==> |scores| == 0
    ensures a.Error? ==> a.message == AnalysisFailedMessage
    ensures a.Success? ==>
      a.filename == filename && a.fileHash == fileHash && a.framesAnalyzed == |scores| &&
      a.confidenceAvg == Percent(Mean(scores)) && a.confidenceMax == Percent(Max(scores))
    ensures a.Success? ==> Percent(Min(scores)) <= a.confidenceAvg <= a.confidenceMax
    ensures a.Success? ==> exists k :: 0 <= k < |scores| && a.confidenceMax == Percent(scores[k])
    ensures a.Success? ==>
      var risk := RiskOf(a.confidenceAvg, a.confidenceMax);
      a.verdict == VerdictLabel(risk) && a.riskLevel == RiskLevel(risk) && a.colorCode == ColorCode(risk)
  {
    if |scores| == 0 then Error(AnalysisFailedMessage)
    else
      var avg, peak := Mean(scores), Max(scores);
      MeanBetween(scores);
      PercentMonotone(Min(scores), avg);
      PercentMonotone(avg, peak);
      var avgPercent, maxPercent := Percent(avg), Percent(peak);
      var risk := RiskOf(avgPercent, maxPercent);
      Success(filename, fileHash, VerdictLabel(risk), RiskLevel(risk), ColorCode(risk),
              avgPercent, maxPercent, |scores|)
  }

  /**
   * `analyze_media_data(file_path)` with the file's bytes, the decoders, the
   * scorer and SHA-256 as parameters. None is the ZeroDivisionError that
   * extraction raises (after hashing, before any scan or cleanup).
   * `cleanedUp` records whether `shutil.rmtree(OUTPUT_DIR)` ran.
   */
  method AnalyzeMediaData(path: string, content: seq<byte>, dec: Decoders,
                          scorer: Sample -> Option<real>, sha: seq<byte> -> Digest)
    returns (result: Option<Analysis>, ghost evidence: seq<Sample>, ghost toScan: seq<Sample>,
             ghost positions: seq<nat>, ghost scores: seq<real>, ghost cleanedUp: bool)
    ensures result.None? <==> RaisesOnFps(path, dec)
    ensures result.None? ==> !cleanedUp
    ensures result.Some? ==> evidence == ExpectedSamples(path, dec)
    ensures result.Some? && |evidence| == 0 ==> result == Some(Error(NoFramesMessage)) && !cleanedUp
    ensures result.Some? && |evidence| > 0 ==>
      && cleanedUp
      && DrawnFrom(toScan, evidence, positions)
      && |toScan| == (if |evidence| > MaxApiCalls then MaxApiCalls else |evidence|)
      && (|evidence| <= MaxApiCalls ==> toScan == evidence)
      && scores == Surviving(Responses(toScan, scorer))
      && result == Some(Conclude(Basename(path), sha(content), scores))
    ensures result.Some? && result.value.Success? ==> result.value.framesAnalyzed <= |toScan| <= MaxApiCalls
    ensures !RaisesOnFps(path, dec) && ExpectedSamples(path, dec) == [] ==> result == Some(Error(NoFramesMessage))
    ensures result.Some? && result.value.Error? ==>
      result.value.message == NoFramesMessage || result.value.message == AnalysisFailedMessage
    ensures result.Some? && result.value.Success? ==>
      var a := result.value;
      a.filename == Basename(path) && a.fileHash == sha(content) && 0 < a.framesAnalyzed <= MaxApiCalls
  {
    evidence, toScan, positions, scores, cleanedUp := [], [], [], [], false;
    // 0. chain of custody
    var fileHash, _ := GetFileHash(content, sha);
    // 1. extraction
    var extracted := ExtractImagesFromMedia(path, dec);
    if extracted.None? {
      return None, evidence, toScan, positions, scores, cleanedUp;
    }
    var evidenceFiles := extracted.value;
    evidence := evidenceFiles;
    if |evidenceFiles| == 0 {
      return Some(Error(NoFramesMessage)), evidence, toScan, positions, scores, cleanedUp;
    }
    // 2. budget
    var filesToScan, picked := SelectFilesToScan(evidenceFiles);
    toScan, positions := filesToScan, picked;
    // 3. detection
    var kept := CollectScores(filesToScan, scorer);
    scores := kept;
    // 4. cleanup
    cleanedUp := true;
    // 5. results
    result := Some(Conclude(Basename(path), fileHash, kept));
  }

  /** Five scores with one spike: mean 30%, max 90%, so HIGH risk. */
  lemma SpikeIsSuspicious(filename: string, fileHash: Digest)
    ensures var a := Conclude(filename, fileHash, [0.1, 0.2, 0.1, 0.9, 0.2]);
      a.Success? && a.confidenceAvg == 30.0 && a.confidenceMax == 90.0 &&
      a.riskLevel == "HIGH" && a.colorCode == "orange" && a.framesAnalyzed == 5
  {
    var s := [0.1, 0.2, 0.1, 0.9, 0.2];
    assert Sum(s) == 1.5 by {
      assert Sum(s[4..]) == 0.2;
      assert s[3..][1..] == s[4..];
      assert s[2..][1..] == s[3..];
      assert s[1..][1..] == s[2..];
    }
    assert Mean(s) == 0.3;
    assert Max(s) == 0.9;
    assert Percent(0.3) == 30.0 by { assert (0.3 * 10000.0).Floor == 3000; }
    assert Percent(0.9) == 90.0 by { assert (0.9 * 10000.0).Floor == 9000; }
  }

  /** Three mostly high scores: mean 61.67%, so CRITICAL risk. */
  lemma HighAverageIsCritical(filename: string, fileHash: Digest)
    ensures var a := Conclude(filename, fileHash, [0.6, 0.7, 0.55]);
      a.Success? && a.confidenceAvg == 61.67 && a.confidenceMax == 70.0 && a.riskLevel == "CRITICAL"
  {
    var s := [0.6, 0.7, 0.55];
    assert Sum(s) == 1.85 by {
      assert Sum(s[2..]) == 0.55;
      assert s[1..][1..] == s[2..];
    }
    assert Mean(s) * 10000.0 == 18500.0 / 3.0;
    assert (18500.0 / 3.0).Floor == 6166;
    assert Percent(Mean(s)) == 61.67;
    assert Max(s) == 0.7;
    assert Percent(0.7) == 70.0 by { assert (0.7 * 10000.0).Floor == 7000; }
  }
}
