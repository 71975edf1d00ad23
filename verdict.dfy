/** The verdict ladder of analyze_media_data and analyze_media, on the rounded percentages. */
module Verdict {

  datatype Risk = Low | Moderate | High | Critical

  /**
   * avg > 50 is CRITICAL; otherwise max > 80 is HIGH; otherwise max > 50
   * is MODERATE; otherwise LOW. Every comparison is strict.
   */
  function RiskOf(avgPercent: real, maxPercent: real): (r: Risk)
    ensures r == Critical <==> avgPercent > 50.0
    ensures r == High <==> avgPercent <= 50.0 && maxPercent > 80.0
    ensures r == Moderate <==> avgPercent <= 50.0 && 50.0 < maxPercent <= 80.0
    ensures r == Low <==> avgPercent <= 50.0 && maxPercent <= 50.0
  {
    if avgPercent > 50.0 then Critical
    else if maxPercent > 80.0 then High
    else if maxPercent > 50.0 then Moderate
    else Low
  }

  function Severity(r: Risk): nat
  {
    match r
    case Low => 0
    case Moderate => 1
    case High => 2
    case Critical => 3
  }

  /** Higher scores never lower the risk. */
  lemma RiskMonotone(avg1: real, max1: real, avg2: real, max2: real)
    requires avg1 <= avg2 && max1 <= max2
    ensures Severity(RiskOf(avg1, max1)) <= Severity(RiskOf(avg2, max2))
  {
  }

  /** 50 and 80 fall through to the next rung. */
  lemma BoundariesFallThrough()
    ensures RiskOf(50.0, 50.0) == Low
    ensures RiskOf(50.0, 80.0) == Moderate
    ensures RiskOf(50.0, 80.01) == High
    ensures RiskOf(50.01, 0.0) == Critical
  {
  }

  /** `risk_level` */
  function RiskLevel(r: Risk): (s: string)
    ensures r == Critical <==> s == "CRITICAL"
    ensures r == High <==> s == "HIGH"
    ensures r == Moderate <==> s == "MODERATE"
    ensures r == Low <==> s == "LOW"
  {
    match r
    case Critical => "CRITICAL"
    case High => "HIGH"
    case Moderate => "MODERATE"
    case Low => "LOW"
  }

  /** `color_code` of analyze_media_data */
  function ColorCode(r: Risk): (s: string)
    ensures r == Critical <==> s == "red"
    ensures r == High || r == Moderate <==> s == "orange"
    ensures r == Low <==> s == "green"
  {
    match r
    case Critical => "red"
    case High => "orange"
    case Moderate => "orange"
    case Low => "green"
  }

  /** `verdict` of analyze_media_data */
  function VerdictLabel(r: Risk): (s: string)
    ensures r == Critical <==> s == "\U{1F534} AI GENERATED"
    ensures r == High <==> s == "\U{26A0}\U{FE0F} SUSPICIOUS (Tampering)"
    ensures r == Moderate <==> s == "\U{1F7E0} UNCERTAIN"
    ensures r == Low <==> s == "\U{1F7E2} AUTHENTIC MEDIA"
  {
    match r
    case Critical => "\U{1F534} AI GENERATED"
    case High => "\U{26A0}\U{FE0F} SUSPICIOUS (Tampering)"
    case Moderate => "\U{1F7E0} UNCERTAIN"
    case Low => "\U{1F7E2} AUTHENTIC MEDIA"
  }
}
