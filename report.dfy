/** The analysis as a whole: the rows of the uploaded file become the table
    with the columns "Keyword", "Search Volume", "Similar Keywords",
    "Duplicate with 's'" and "Misspelling or special character". */
module Report {
  import opened Text
  import opened Grouping
  import opened Matching
  import DuplicateFlag
  import Misspelling

  /** One row of the finished table. */
  datatype AnalysisRow = AnalysisRow(keyword: string, volume: string, similar: string,
                                     duplicateWithS: bool, misspelling: string)

  /** The "Keyword" column. */
  function Keywords(rows: seq<Row>): (keywords: seq<string>)
    requires WellFormed(rows)
    ensures |keywords| == |rows|
    ensures forall i :: 0 <= i < |rows| ==> keywords[i] == rows[i][0]
  {
    seq(|rows|, i requires 0 <= i < |rows| => rows[i][0])
  }

  /** The keywords the matching loops collect for `k` over the file's rows. */
  function SimilarOf(rows: seq<Row>, k: string, score: Scorer, t: int): seq<string>
    requires WellFormed(rows)
  {
    GroupsKeyed(rows);
    Matches(Volumes(rows), GroupMap(rows), k, score, t)
  }

  /** Every volume in the key order has a group. */
  lemma GroupsKeyed(rows: seq<Row>)
    requires WellFormed(rows)
    ensures Keyed(Volumes(rows), GroupMap(rows))
  {
    GroupMapSpec(rows);
  }

  /** Two rows of the file, one with keyword `k` and one with keyword `x`,
      carry the same search-volume string. */
  predicate SameVolume(rows: seq<Row>, k: string, x: string)
    requires WellFormed(rows)
  {
    exists i, j :: 0 <= i < |rows| && 0 <= j < |rows|
                   && rows[i][0] == k && rows[j][0] == x && rows[i][1] == rows[j][1]
  }

  /** Lines 141-153: one output row per input row, in input order, holding its
      keyword, its volume and its similar keywords joined with ", " (the
      empty string when the keyword has none). */
  method AssembleRows(rows: seq<Row>, results: map<string, seq<string>>)
    returns (data: seq<Row>)
    requires WellFormed(rows)
    ensures |data| == |rows|
    ensures forall i :: 0 <= i < |rows| ==>
              data[i] == [rows[i][0], rows[i][1], Join(", ", Lookup(results, rows[i][0]))]
  {
    data := [];
    for i := 0 to |rows|
      invariant |data| == i
      invariant forall r :: 0 <= r < i ==>
                  data[r] == [rows[r][0], rows[r][1], Join(", ", Lookup(results, rows[r][0]))]
    {
      var keyword := rows[i][0];
      var searchVolume := rows[i][1];
      var similarKeywords := Lookup(results, keyword);
      data := data + [[keyword, searchVolume, Join(", ", similarKeywords)]];
    }
  }

  /** Lines 94-153: grouping, matching and row assembly. Each output row
      holds its input row's keyword and volume and the matches of its keyword
      joined with ", ". */
  method SimilarTable(rows: seq<Row>, score: Scorer, simScore: int) returns (data: seq<Row>)
    requires WellFormed(rows)
    ensures |data| == |rows|
    ensures forall i :: 0 <= i < |rows| ==>
              data[i] == [rows[i][0], rows[i][1], Join(", ", SimilarOf(rows, rows[i][0], score, simScore))]
  {
    var order, groups := GroupByVolume(rows);
    var results := FindMatches(order, groups, score, simScore);
    data := AssembleRows(rows, results);
  }

  /** Lines 94-205 end to end: grouping, matching, row assembly, the
      duplicate flag and the misspelling label. Every input row gives one
      output row that keeps its keyword and volume, lists what the matching
      loops found for its keyword, is flagged exactly when its keyword plus
      "s" is another keyword of the file, and is labelled exactly when one of
      its words is offending. */
  method Analyze(rows: seq<Row>, ignoreWords: string, simScore: int, score: Scorer,
                 isKnown: string -> bool)
    returns (table: seq<AnalysisRow>)
    requires WellFormed(rows)
    ensures |table| == |rows|
    ensures forall i :: 0 <= i < |rows| ==>
              table[i].keyword == rows[i][0] && table[i].volume == rows[i][1]
    ensures forall i :: 0 <= i < |rows| ==>
              table[i].similar == Join(", ", SimilarOf(rows, rows[i][0], score, simScore))
    ensures forall i :: 0 <= i < |rows| ==>
              (table[i].duplicateWithS <==> DuplicateFlag.PluralPresent(Keywords(rows), rows[i][0]))
    ensures forall i :: 0 <= i < |rows| ==>
              table[i].misspelling
              == if Misspelling.Misspelled(rows[i][0], Misspelling.IgnoreList(ignoreWords), isKnown)
                 then Misspelling.Label else ""
  {
    var data := SimilarTable(rows, score, simScore);
    var keywords := Keywords(rows);
    var duplicate := DuplicateFlag.FlagDuplicateWithS(keywords);
    var ignoreList := Misspelling.IgnoreList(ignoreWords);
    var labels := Misspelling.CheckMisspellings(keywords, ignoreList, isKnown);
    table := seq(|data|, i requires 0 <= i < |data| =>
                 AnalysisRow(data[i][0], data[i][1], data[i][2], duplicate[i], labels[i]));
  }

  /** A keyword's "Similar Keywords" cell names `x` exactly when `x` is a
      different keyword that scores at least the threshold against it and
      some row of `x` has the same search-volume string as some row of the
      keyword. */
  lemma {:induction false} SimilarMeaning(rows: seq<Row>, k: string, x: string, score: Scorer, t: int)
    requires WellFormed(rows)
    ensures x in SimilarOf(rows, k, score, t)
            <==> x != k && score(k, x) >= t && SameVolume(rows, k, x)
  {
    GroupsKeyed(rows);
    MatchesMember(Volumes(rows), GroupMap(rows), k, x, score, t);
    ShareGroupIffSameVolume(rows, k, x);
  }

  /** Two keywords share one of the built groups exactly when a row of each
      carries the same volume string. */
  lemma ShareGroupIffSameVolume(rows: seq<Row>, k: string, x: string)
    requires WellFormed(rows)
    ensures Keyed(Volumes(rows), GroupMap(rows))
    ensures ShareGroup(Volumes(rows), GroupMap(rows), |Volumes(rows)|, k, x) <==> SameVolume(rows, k, x)
  {
    var order, groups := Volumes(rows), GroupMap(rows);
    GroupMapSpec(rows);
    if ShareGroup(order, groups, |order|, k, x) {
      var m :| 0 <= m < |order| && k in groups[order[m]] && x in groups[order[m]];
      MembersSpec(rows, order[m]);
    }
    if SameVolume(rows, k, x) {
      var i, j :| 0 <= i < |rows| && 0 <= j < |rows|
                  && rows[i][0] == k && rows[j][0] == x && rows[i][1] == rows[j][1];
      var v := rows[i][1];
      VolumesSpec(rows);
      assert v in order;
      var m :| 0 <= m < |order| && order[m] == v;
      MembersSpec(rows, v);
      assert k in groups[order[m]] && x in groups[order[m]];
    }
  }

  /** A "Similar Keywords" cell is empty exactly when the keyword has no
      match, or its only match is the empty keyword. */
  lemma SimilarCellEmpty(rows: seq<Row>, k: string, score: Scorer, t: int)
    requires WellFormed(rows)
    ensures Join(", ", SimilarOf(rows, k, score, t)) == ""
            <==> SimilarOf(rows, k, score, t) == [] || SimilarOf(rows, k, score, t) == [""]
  {
    JoinEmpty(", ", SimilarOf(rows, k, score, t));
  }
}
