/**
 * `detect_risk_in_clause` of the risk rules: substring matching of a clause, lower-cased,
 * against a table that maps each severity to its keywords. The table is an ordered
 * list of `(severity, keywords)` pairs, in the dictionary's iteration order.
 */
module RiskRules {
  import opened Strings

  /** One match: the severity and the keyword that matched. */
  datatype Match = Match(severity: string, keyword: string)

  /** The keywords of one severity that occur in `lowered`, as matches, in list order. */
  function WordMatches(lowered: string, severity: string, words: seq<string>): seq<Match> {
    if words == [] then []
    else
      var w := words[|words| - 1];
      WordMatches(lowered, severity, words[..|words| - 1])
      + (if Contains(lowered, w) then [Match(severity, w)] else [])
  }

  /** The matches of every severity of `table`, in table order. */
  function TableMatches(lowered: string, table: seq<(string, seq<string>)>): seq<Match> {
    if table == [] then []
    else
      var last := table[|table| - 1];
      TableMatches(lowered, table[..|table| - 1]) + WordMatches(lowered, last.0, last.1)
  }

  /** The matches of `clause`: only the clause is lower-cased, never the keywords. */
  function DetectRisk(clause: string, table: seq<(string, seq<string>)>): (r: seq<Match>)
    ensures table == [] ==> r == []
  {
    TableMatches(Lower(clause), table)
  }

  /** `detect_risk_in_clause(clause, keywords)`: two nested loops over the table. */
  method DetectRiskInClause(clause: string, keywords: seq<(string, seq<string>)>) returns (matches: seq<Match>)
    ensures matches == DetectRisk(clause, keywords)
  {
    var clauseLower := Lower(clause);
    matches := [];
    for i := 0 to |keywords|
      invariant matches == TableMatches(clauseLower, keywords[..i])
    {
      assert keywords[..i + 1][..i] == keywords[..i];
      var (severity, words) := keywords[i];
      ghost var before := matches;
      for j := 0 to |words|
        invariant matches == before + WordMatches(clauseLower, severity, words[..j])
      {
        assert words[..j + 1][..j] == words[..j];
        var w := words[j];
        if Contains(clauseLower, w) {
          matches := matches + [Match(severity, w)];
        }
      }
      assert words[..|words|] == words;
    }
    assert keywords[..|keywords|] == keywords;
  }

  /** `(severity, keyword)` is an entry of the table. */
  predicate InTable(table: seq<(string, seq<string>)>, severity: string, keyword: string) {
    exists i :: 0 <= i < |table| && table[i].0 == severity && keyword in table[i].1
  }

  /** The matches of one severity are exactly its keywords that occur in `lowered`. */
  lemma {:induction false} WordMatchesIff(lowered: string, severity: string, words: seq<string>)
    ensures forall m :: m in WordMatches(lowered, severity, words) <==>
      m.severity == severity && m.keyword in words && Contains(lowered, m.keyword)
    decreases |words|
  {
    if words != [] {
      var init := words[..|words| - 1];
      WordMatchesIff(lowered, severity, init);
      assert words == init + [words[|words| - 1]];
    }
  }

  /** The matches are exactly the table entries whose keyword occurs in `lowered`. */
  lemma {:induction false} TableMatchesIff(lowered: string, table: seq<(string, seq<string>)>)
    ensures forall m :: m in TableMatches(lowered, table) <==>
      InTable(table, m.severity, m.keyword) && Contains(lowered, m.keyword)
    decreases |table|
  {
    if table != [] {
      var init, last := table[..|table| - 1], table[|table| - 1];
      TableMatchesIff(lowered, init);
      WordMatchesIff(lowered, last.0, last.1);
      forall m: Match ensures InTable(table, m.severity, m.keyword) <==>
        InTable(init, m.severity, m.keyword) || (m.severity == last.0 && m.keyword in last.1)
      {
        if InTable(table, m.severity, m.keyword) {
          var i :| 0 <= i < |table| && table[i].0 == m.severity && m.keyword in table[i].1;
          if i < |init| {
            assert init[i] == table[i];
          }
        }
        if InTable(init, m.severity, m.keyword) {
          var i :| 0 <= i < |init| && init[i].0 == m.severity && m.keyword in init[i].1;
          assert table[i] == init[i];
        }
      }
    }
  }

  /**
   * Soundness and completeness: a pair is a match exactly when it is an entry of the
   * table whose keyword occurs in the lower-cased clause.
   */
  lemma DetectRiskIff(clause: string, table: seq<(string, seq<string>)>, m: Match)
    ensures m in DetectRisk(clause, table) <==>
      InTable(table, m.severity, m.keyword) && Contains(Lower(clause), m.keyword)
  {
    TableMatchesIff(Lower(clause), table);
  }

  /** A keyword with an upper-case letter never matches, since the clause is lower-cased. */
  lemma UpperKeywordNeverMatches(clause: string, table: seq<(string, seq<string>)>, w: string, j: nat)
    requires j < |w| && IsUpper(w[j])
    ensures forall m :: m in DetectRisk(clause, table) ==> m.keyword != w
  {
    TableMatchesIff(Lower(clause), table);
    LowerHasNoUpper(clause);
    NoUpperExcludes(Lower(clause), w, j);
  }

  // ---------------------------------------------------------------------------------
  // An independent reading: list every `(severity, keyword)` entry, then keep the hits.

  /** The entries of one severity, one per keyword, in list order. */
  function Pairs(severity: string, words: seq<string>): (r: seq<Match>)
    ensures |r| == |words|
  {
    seq(|words|, k requires 0 <= k < |words| => Match(severity, words[k]))
  }

  /** The entries of the table, severity by severity and keyword by keyword. */
  function Entries(table: seq<(string, seq<string>)>): seq<Match> {
    if table == [] then []
    else
      var last := table[|table| - 1];
      Entries(table[..|table| - 1]) + Pairs(last.0, last.1)
  }

  /** The entries whose keyword occurs in `lowered`, in order. */
  function Hits(lowered: string, entries: seq<Match>): seq<Match> {
    if entries == [] then []
    else (if Contains(lowered, entries[0].keyword) then [entries[0]] else []) + Hits(lowered, entries[1..])
  }

  lemma {:induction false} HitsAppend(lowered: string, a: seq<Match>, b: seq<Match>)
    ensures Hits(lowered, a + b) == Hits(lowered, a) + Hits(lowered, b)
    decreases |a|
  {
    if a != [] {
      TailOfAppend(a, b);
      HitsAppend(lowered, a[1..], b);
    } else {
      assert a + b == b;
    }
  }

  lemma TailOfAppend<T>(a: seq<T>, b: seq<T>)
    requires a != []
    ensures (a + b)[0] == a[0] && (a + b)[1..] == a[1..] + b
  {
  }

  /** The matches of one severity are the hits among its entries. */
  lemma {:induction false} WordMatchesAreHits(lowered: string, severity: string, words: seq<string>)
    ensures WordMatches(lowered, severity, words) == Hits(lowered, Pairs(severity, words))
    decreases |words|
  {
    if words != [] {
      var init := words[..|words| - 1];
      var w := words[|words| - 1];
      WordMatchesAreHits(lowered, severity, init);
      assert Pairs(severity, words) == Pairs(severity, init) + [Match(severity, w)];
      HitsAppend(lowered, Pairs(severity, init), [Match(severity, w)]);
    }
  }

  /**
   * The matches are the hits among all table entries, listed severity by severity and,
   * within a severity, in keyword order: matches appear in table order, and there are as
   * many as there are entries whose keyword occurs in the lower-cased clause.
   */
  lemma {:induction false} DetectRiskInTableOrder(clause: string, table: seq<(string, seq<string>)>)
    ensures DetectRisk(clause, table) == Hits(Lower(clause), Entries(table))
    decreases |table|
  {
    var lowered := Lower(clause);
    if table != [] {
      var init, last := table[..|table| - 1], table[|table| - 1];
      DetectRiskInTableOrder(clause, init);
      WordMatchesAreHits(lowered, last.0, last.1);
      HitsAppend(lowered, Entries(init), Pairs(last.0, last.1));
    }
  }

  /** Appending keyword `w` to entry `i` adds one match exactly when `w` occurs. */
  lemma {:induction false} AppendKeywordCount(lowered: string, table: seq<(string, seq<string>)>, i: nat, w: string)
    requires i < |table|
    ensures |TableMatches(lowered, table[i := (table[i].0, table[i].1 + [w])])|
      == |TableMatches(lowered, table)| + (if Contains(lowered, w) then 1 else 0)
    decreases |table|
  {
    var bigger := table[i := (table[i].0, table[i].1 + [w])];
    var n := |table|;
    if i == n - 1 {
      assert bigger[..n - 1] == table[..n - 1];
      assert (table[i].1 + [w])[..|table[i].1|] == table[i].1;
    } else {
      var init := table[..n - 1];
      AppendKeywordCount(lowered, init, i, w);
      assert bigger[..n - 1] == init[i := (init[i].0, init[i].1 + [w])];
    }
  }

  /**
   * Appending a keyword to one severity's list never removes a match: the old matches
   * are all still there, and there is one more exactly when the new keyword occurs.
   */
  lemma AppendKeywordKeepsMatches(clause: string, table: seq<(string, seq<string>)>, i: nat, w: string)
    requires i < |table|
    ensures var bigger := table[i := (table[i].0, table[i].1 + [w])];
      && (forall m :: m in DetectRisk(clause, table) ==> m in DetectRisk(clause, bigger))
      && |DetectRisk(clause, bigger)| == |DetectRisk(clause, table)| + (if Contains(Lower(clause), w) then 1 else 0)
  {
    var bigger := table[i := (table[i].0, table[i].1 + [w])];
    var lowered := Lower(clause);
    TableMatchesIff(lowered, table);
    TableMatchesIff(lowered, bigger);
    forall m: Match | InTable(table, m.severity, m.keyword) ensures InTable(bigger, m.severity, m.keyword) {
      var k :| 0 <= k < |table| && table[k].0 == m.severity && m.keyword in table[k].1;
      assert bigger[k].0 == m.severity && m.keyword in bigger[k].1;
    }
    AppendKeywordCount(lowered, table, i, w);
  }
}
