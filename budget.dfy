/**
 * The cost cap of lucid_trace.py: at most MaxApiCalls files go to the
 * scoring service; a larger set is cut down by `random.sample`.
 */
module Budget {
  import opened Sampling

  const MaxApiCalls: nat := 10

  /** toScan[k] is evidence[positions[k]], the positions pairwise distinct. */
  ghost predicate DrawnFrom<T>(toScan: seq<T>, evidence: seq<T>, positions: seq<nat>)
  {
    |positions| == |toScan| && Distinct(positions) &&
    forall k :: 0 <= k < |positions| ==> positions[k] < |evidence| && toScan[k] == evidence[positions[k]]
  }

  /** `files_to_scan`: a random sample of MaxApiCalls files when there are more, else the list itself. */
  method SelectFilesToScan<T>(evidence: seq<T>) returns (toScan: seq<T>, ghost positions: seq<nat>)
    ensures DrawnFrom(toScan, evidence, positions)
    ensures |toScan| == if |evidence| > MaxApiCalls then MaxApiCalls else |evidence|
    ensures |evidence| <= MaxApiCalls ==> toScan == evidence
  {
    if |evidence| > MaxApiCalls {
      var picks := RandomSample(|evidence|, MaxApiCalls);
      toScan := seq(MaxApiCalls, k requires 0 <= k < MaxApiCalls => evidence[picks[k]]);
      positions := picks;
    } else {
      toScan := evidence;
      positions := seq(|evidence|, k requires 0 <= k => k as nat);
    }
  }

  /**
   * Every file scanned is an extracted file, and when the extracted names
   * are unique (uuid names) no file is scanned twice.
   */
  lemma DrawnFromNoDuplicates<T>(toScan: seq<T>, evidence: seq<T>, positions: seq<nat>)
    requires DrawnFrom(toScan, evidence, positions)
    requires forall i, j :: 0 <= i < j < |evidence| ==> evidence[i] != evidence[j]
    ensures forall x :: x in toScan ==> x in evidence
    ensures forall i, j :: 0 <= i < j < |toScan| ==> toScan[i] != toScan[j]
  {
    forall i, j | 0 <= i < j < |toScan|
      ensures toScan[i] != toScan[j]
    {
      var a, b := positions[i], positions[j];
      assert a != b;
      if a < b {
        assert evidence[a] != evidence[b];
      } else {
        assert evidence[b] != evidence[a];
      }
    }
  }
}
