/**
 * The scan loop of analyze_media_data / analyze_media: every budgeted file
 * goes to the scorer (the remote service, here a function returning a
 * probability or None on any failure), and only the scores that came back are kept.
 */
module Scoring {
  import opened Wrappers

  /** The scorer's answer for each file, in scan order. */
  function Responses<S>(files: seq<S>, scorer: S -> Option<real>): (rs: seq<Option<real>>)
    ensures |rs| == |files|
  {
    seq(|files|, i requires 0 <= i < |files| => scorer(files[i]))
  }

  /** The present answers, in order. */
  function Surviving(rs: seq<Option<real>>): (scores: seq<real>)
    ensures |scores| <= |rs|
  {
    if |rs| == 0 then []
    else
      var last := rs[|rs| - 1];
      Surviving(rs[..|rs| - 1]) + (if last.Some? then [last.value] else [])
  }

  /** The positions of the present answers, in increasing order. */
  function PresentPositions(rs: seq<Option<real>>): (ps: seq<nat>)
    ensures forall k :: 0 <= k < |ps| ==> ps[k] < |rs| && rs[ps[k]].Some?
    ensures forall k, l :: 0 <= k < l < |ps| ==> ps[k] < ps[l]
    ensures forall i :: 0 <= i < |rs| && rs[i].Some? ==> i in ps
  {
    if |rs| == 0 then []
    else
      var n := |rs| - 1;
      PresentPositions(rs[..n]) + (if rs[n].Some? then [n] else [])
  }

  /** Surviving keeps exactly the present answers, in scan order. */
  lemma {:induction false} SurvivingInOrder(rs: seq<Option<real>>)
    ensures |Surviving(rs)| == |PresentPositions(rs)|
    ensures forall k :: 0 <= k < |Surviving(rs)| ==> Surviving(rs)[k] == rs[PresentPositions(rs)[k]].value
  {
    if |rs| > 0 {
      SurvivingInOrder(rs[..|rs| - 1]);
    }
  }

  /** A value is kept iff some call returned it. */
  lemma {:induction false} SurvivingMembers(rs: seq<Option<real>>, x: real)
    ensures x in Surviving(rs) <==> Some(x) in rs
  {
    if |rs| > 0 {
      var n := |rs| - 1;
      SurvivingMembers(rs[..n], x);
      assert rs == rs[..n] + [rs[n]];
    }
  }

  /** Nothing is kept iff every call failed. */
  lemma {:induction false} SurvivingEmpty(rs: seq<Option<real>>)
    ensures Surviving(rs) == [] <==> forall i :: 0 <= i < |rs| ==> rs[i].None?
  {
    if |rs| > 0 {
      var n := |rs| - 1;
      SurvivingEmpty(rs[..n]);
      assert forall i :: 0 <= i < n ==> rs[..n][i] == rs[i];
    }
  }

  /** `for img_path in files_to_scan: ... if score is not None: scores.append(score)` */
  method CollectScores<S>(toScan: seq<S>, scorer: S -> Option<real>) returns (scores: seq<real>)
    ensures scores == Surviving(Responses(toScan, scorer))
  {
    ghost var rs := Responses(toScan, scorer);
    scores := [];
    for i := 0 to |toScan|
      invariant scores == Surviving(rs[..i])
    {
      var score := scorer(toScan[i]);
      assert rs[..i + 1][..i] == rs[..i];
      if score.Some? {
        scores := scores + [score.value];
      }
    }
    assert rs[..|toScan|] == rs;
  }
}
