/**
 * `analyze_media` of main.py: the same extraction, budget, scan and ladder
 * as analyze_media_data, but the result is a text report, the HIGH verdict
 * reads "SUSPICIOUS (Potential Tampering)", and the file is hashed only
 * while the success report is assembled.
 */
module CliReport {
  import opened Wrappers
  import opened Text
  import opened PyNum
  import opened Stats
  import opened Extraction
  import opened Custody
  import opened Budget
  import opened Scoring
  import opened Verdict
  import LucidTrace

  const NoEvidenceMessage: string := "No evidence extracted. Check file path or format."

  /** `verdict` of analyze_media */
  function CliVerdictLabel(r: Risk): (s: string)
    ensures r == Critical <==> s == "\U{1F534} AI GENERATED"
    ensures r == High <==> s == "\U{26A0}\U{FE0F} SUSPICIOUS (Potential Tampering)"
    ensures r == Moderate <==> s == "\U{1F7E0} UNCERTAIN"
    ensures r == Low <==> s == "\U{1F7E2} AUTHENTIC MEDIA"
  {
    match r
    case Critical => "\U{1F534} AI GENERATED"
    case High => "\U{26A0}\U{FE0F} SUSPICIOUS (Potential Tampering)"
    case Moderate => "\U{1F7E0} UNCERTAIN"
    case Low => "\U{1F7E2} AUTHENTIC MEDIA"
  }

  /** The two entry points label every rung alike except HIGH. */
  lemma LabelsDifferOnlyOnHigh(r: Risk)
    ensures CliVerdictLabel(r) == VerdictLabel(r) <==> r != High
  {
  }

  /** The fraction digits Python prints for `h` hundredths (0 <= h < 100): no trailing zero, at least one digit. */
  function FractionDigits(h: nat): (s: string)
    requires h < 100
    ensures 1 <= |s| <= 2 && forall i :: 0 <= i < |s| ==> '0' <= s[i] <= '9'
  {
    if h % 10 == 0 then [DigitChar(h / 10)] else [DigitChar(h / 10), DigitChar(h % 10)]
  }

  /**
   * `str(x)` of a float x holding `h` hundredths, as the f-string prints
   * the rounded percentages ("30.0", "61.67", "0.05").
   */
  function FormatHundredths(h: int): string
  {
    var m := if h < 0 then -h else h;
    (if h < 0 then "-" else "") + NatToString(m / 100) + "." + FractionDigits(m % 100)
  }

  /** Different non-negative percentages print differently. */
  lemma FormatHundredthsInjective(a: int, b: int)
    requires 0 <= a && 0 <= b
    requires FormatHundredths(a) == FormatHundredths(b)
    ensures a == b
  {
    var wa, wb := NatToString(a / 100), NatToString(b / 100);
    var fa, fb := FractionDigits(a % 100), FractionDigits(b % 100);
    var s := FormatHundredths(a);
    assert s == wa + "." + fa && s == wb + "." + fb;
    assert s[|wa|] == '.' && s[|wb|] == '.';
    assert forall i :: 0 <= i < |wa| ==> s[i] == wa[i];
    assert forall i :: 0 <= i < |wb| ==> s[i] == wb[i];
    assert |wa| == |wb|;
    assert wa == s[..|wa|] == wb;
    assert fa == s[|wa| + 1..] == fb;
    NatToStringInjective(a / 100, b / 100);
  }

  lemma FormatExamples()
    ensures FormatHundredths(3000) == "30.0"
    ensures FormatHundredths(6167) == "61.67"
    ensures FormatHundredths(9050) == "90.5"
    ensures FormatHundredths(5) == "0.05"
  {
    assert NatToString(30) == "30" by { assert NatToString(3) == "3"; }
    assert NatToString(61) == "61" by { assert NatToString(6) == "6"; }
    assert NatToString(90) == "90" by { assert NatToString(9) == "9"; }
  }

  /** The first three lines of the success report. */
  const ReportHeader: string :=
    "\n========================================\n" +
    "       LUCID TRACE - FORENSIC REPORT    \n" +
    "========================================\n"

  /** The success report, line for line. */
  function Render(filename: string, framesScanned: nat, avgHundredths: int, maxHundredths: int,
                  risk: Risk, fileHash: Digest): (r: string)
    ensures |ReportHeader| < |r| && r[..|ReportHeader|] == ReportHeader
  {
    ReportHeader + (
    "File Analyzed : " + filename + "\n" +
    "Frames Scanned: " + NatToString(framesScanned) + "\n" +
    "----------------------------------------\n" +
    "Average AI Score : " + FormatHundredths(avgHundredths) + "%\n" +
    "Max Frame Score  : " + FormatHundredths(maxHundredths) + "% (Highest Spike)\n" +
    "----------------------------------------\n" +
    "Risk Level    : " + RiskLevel(risk) + "\n" +
    "Final Verdict : " + CliVerdictLabel(risk) + "\n" +
    "----------------------------------------\n" +
    "Evidence Digital Fingerprint (SHA-256): " + fileHash + "\n" +
    "========================================")
  }

  /**
   * The report for a non-empty list of scores: it renders the same file
   * name, count, percentages and risk as analyze_media_data's result.
   */
  function SuccessReport(filename: string, scores: seq<real>, fileHash: Digest): (r: string)
    requires |scores| > 0
    ensures var a := LucidTrace.Conclude(filename, fileHash, scores);
      && a.Success?
      && r == Render(a.filename, a.framesAnalyzed, PercentHundredths(Mean(scores)), PercentHundredths(Max(scores)),
                     RiskOf(a.confidenceAvg, a.confidenceMax), a.fileHash)
      && a.riskLevel == RiskLevel(RiskOf(a.confidenceAvg, a.confidenceMax))
  {
    var avg, peak := Mean(scores), Max(scores);
    Render(filename, |scores|, PercentHundredths(avg), PercentHundredths(peak),
           RiskOf(Percent(avg), Percent(peak)), fileHash)
  }

  /** A caller can tell the success report from both error strings. */
  lemma ReportIsNotAnError(filename: string, scores: seq<real>, fileHash: Digest)
    requires |scores| > 0
    ensures SuccessReport(filename, scores, fileHash) != NoEvidenceMessage
    ensures SuccessReport(filename, scores, fileHash) != LucidTrace.AnalysisFailedMessage
  {
    var r := SuccessReport(filename, scores, fileHash);
    assert ReportHeader[0] == '\n';
    assert r[0] == '\n';
  }

  /**
   * `analyze_media(file_path)`. None is the ZeroDivisionError that
   * extraction raises, before any scan, cleanup or hash. `cleanedUp` records
   * whether `rmtree` ran, `hashed` whether `get_file_hash` was called.
   */
  method AnalyzeMedia(path: string, content: seq<byte>, dec: Decoders,
                      scorer: Sample -> Option<real>, sha: seq<byte> -> Digest)
    returns (report: Option<string>, ghost evidence: seq<Sample>, ghost toScan: seq<Sample>,
             ghost positions: seq<nat>, ghost scores: seq<real>,
             ghost cleanedUp: bool, ghost hashed: bool)
    ensures report.None? <==> RaisesOnFps(path, dec)
    ensures report.None? ==> !cleanedUp && !hashed
    ensures report.Some? ==> evidence == ExpectedSamples(path, dec)
    ensures report.Some? && |evidence| == 0 ==>
      report == Some(NoEvidenceMessage) && !cleanedUp && !hashed && toScan == []
    ensures report.Some? && |evidence| > 0 ==>
      && cleanedUp
      && DrawnFrom(toScan, evidence, positions)
      && |toScan| == (if |evidence| > MaxApiCalls then MaxApiCalls else |evidence|)
      && (|evidence| <= MaxApiCalls ==> toScan == evidence)
      && scores == Surviving(Responses(toScan, scorer))
    ensures report.Some? && |evidence| > 0 && |scores| == 0 ==>
      report == Some(LucidTrace.AnalysisFailedMessage) && !hashed
    ensures report.Some? && |evidence| > 0 && |scores| > 0 ==>
      hashed && report == Some(SuccessReport(Basename(path), scores, sha(content)))
    ensures report == Some(NoEvidenceMessage) <==> !RaisesOnFps(path, dec) && ExpectedSamples(path, dec) == []
  {
    evidence, toScan, positions, scores, cleanedUp, hashed := [], [], [], [], false, false;
    // 1. extraction
    var extracted := ExtractImagesFromMedia(path, dec);
    if extracted.None? {
      return None, evidence, toScan, positions, scores, cleanedUp, hashed;
    }
    var evidenceFiles := extracted.value;
    evidence := evidenceFiles;
    if |evidenceFiles| == 0 {
      return Some(NoEvidenceMessage), evidence, toScan, positions, scores, cleanedUp, hashed;
    }
    // 2. budget
    var filesToScan, picked := SelectFilesToScan(evidenceFiles);
    toScan, positions := filesToScan, picked;
    // 3. detection
    var kept := CollectScores(filesToScan, scorer);
    scores := kept;
    // 4. cleanup
    cleanedUp := true;
    // 5. results
    if |kept| == 0 {
      return Some(LucidTrace.AnalysisFailedMessage), evidence, toScan, positions, scores, cleanedUp, hashed;
    }
    var avg, peak := Mean(kept), Max(kept);
    var avgPercent, maxPercent := Percent(avg), Percent(peak);
    var risk := RiskOf(avgPercent, maxPercent);
    var fileHash, _ := GetFileHash(content, sha);
    hashed := true;
    ReportIsNotAnError(Basename(path), kept, fileHash);
    report := Some(Render(Basename(path), |kept|, PercentHundredths(avg), PercentHundredths(peak), risk, fileHash));
  }
}
