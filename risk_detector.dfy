/**
 * `analyze_clauses_for_risk` of the risk detector: one record per clause, holding its
 * position, its text, its keyword matches and whether it has any. The keyword table is
 * a parameter.
 */
module RiskDetector {
  import opened Strings
  import opened RiskRules

  /** The record built for one clause. */
  datatype ClauseRisk = ClauseRisk(index: nat, clause: string, matches: seq<Match>, isRisky: bool)

  /**
   * `analyze_clauses_for_risk(clauses)`: record `i` is about clause `i`, carries that
   * clause's matches alone, and is risky exactly when it has a match.
   */
  method AnalyzeClausesForRisk(clauses: seq<string>, keywords: seq<(string, seq<string>)>)
    returns (results: seq<ClauseRisk>)
    ensures |results| == |clauses|
    ensures forall i :: 0 <= i < |results| ==>
      && results[i].index == i
      && results[i].clause == clauses[i]
      && results[i].matches == DetectRisk(clauses[i], keywords)
      && (results[i].isRisky <==> results[i].matches != [])
  {
    results := [];
    for i := 0 to |clauses|
      invariant |results| == i
      invariant forall k :: 0 <= k < i ==>
        && results[k].index == k
        && results[k].clause == clauses[k]
        && results[k].matches == DetectRisk(clauses[k], keywords)
        && (results[k].isRisky <==> results[k].matches != [])
    {
      var matches := DetectRiskInClause(clauses[i], keywords);
      results := results + [ClauseRisk(i, clauses[i], matches, |matches| > 0)];
    }
  }

  /**
   * A clause is risky exactly when some keyword of the table occurs in its lower-cased
   * text.
   */
  lemma RiskyIff(clause: string, keywords: seq<(string, seq<string>)>)
    ensures DetectRisk(clause, keywords) != [] <==>
      exists i, j :: 0 <= i < |keywords| && 0 <= j < |keywords[i].1| && Contains(Lower(clause), keywords[i].1[j])
  {
    var r := DetectRisk(clause, keywords);
    if r != [] {
      var m := r[0];
      DetectRiskIff(clause, keywords, m);
      var i :| 0 <= i < |keywords| && keywords[i].0 == m.severity && m.keyword in keywords[i].1;
      var j :| 0 <= j < |keywords[i].1| && keywords[i].1[j] == m.keyword;
    }
    if exists i, j :: 0 <= i < |keywords| && 0 <= j < |keywords[i].1| && Contains(Lower(clause), keywords[i].1[j]) {
      var i, j :| 0 <= i < |keywords| && 0 <= j < |keywords[i].1| && Contains(Lower(clause), keywords[i].1[j]);
      DetectRiskIff(clause, keywords, Match(keywords[i].0, keywords[i].1[j]));
    }
  }
}
