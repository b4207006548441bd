/** The "Duplicate with 's'" column: a row is flagged when its keyword with a
    literal "s" appended is the keyword of some row of the whole table,
    whatever the search volumes. */
module DuplicateFlag {

  /** Line 159: the keyword with "s" appended (the `Keyword_modified` column). */
  function WithS(keyword: string): string {
    keyword + "s"
  }

  /** Some row of the table has `keyword + "s"` as its keyword. */
  predicate PluralPresent(keywords: seq<string>, keyword: string) {
    exists j :: 0 <= j < |keywords| && keywords[j] == WithS(keyword)
  }

  /** Lines 158-172: the column starts all false; for each keyword of the table,
      the rows whose modified keyword equals it are set to true. */
  method FlagDuplicateWithS(keywords: seq<string>) returns (flags: seq<bool>)
    ensures |flags| == |keywords|
    ensures forall r :: 0 <= r < |keywords| ==> (flags[r] <==> PluralPresent(keywords, keywords[r]))
  {
    var modified := seq(|keywords|, r requires 0 <= r < |keywords| => WithS(keywords[r]));
    flags := seq(|keywords|, r => false);
    for i := 0 to |keywords|
      invariant |flags| == |keywords|
      invariant forall q :: 0 <= q < |keywords| ==>
                  (flags[q] <==> exists j :: 0 <= j < i && keywords[j] == modified[q])
    {
      var keyword := keywords[i];
      // df.loc[df["Keyword_modified"].isin([keyword]), "Duplicate with 's'"] = True
      for r := 0 to |keywords|
        invariant |flags| == |keywords|
        invariant forall q :: 0 <= q < |keywords| ==>
                    (flags[q] <==> (exists j :: 0 <= j < i && keywords[j] == modified[q])
                                   || (q < r && modified[q] == keyword))
      {
        if modified[r] == keyword {
          flags := flags[r := true];
        }
      }
    }
  }

  /** The position of a longest keyword. */
  function Longest(keywords: seq<string>): (r: nat)
    requires keywords != []
    ensures r < |keywords|
    ensures forall j :: 0 <= j < |keywords| ==> |keywords[j]| <= |keywords[r]|
  {
    if |keywords| == 1 then 0
    else
      var r := Longest(keywords[1..]);
      if |keywords[0]| >= |keywords[r + 1]| then 0 else r + 1
  }

  /** The flag never covers the whole table: a longest keyword has no longer
      keyword "s"-variant, so at least one row stays unflagged. */
  lemma SomeRowUnflagged(keywords: seq<string>)
    requires keywords != []
    ensures exists r :: 0 <= r < |keywords| && !PluralPresent(keywords, keywords[r])
  {
    var r := Longest(keywords);
    assert !PluralPresent(keywords, keywords[r]);
  }

  /** The flag is one-directional: "shoe" is flagged beside "shoes", and
      "shoes" is not, since no "shoess" exists. */
  lemma ShoeAndShoes()
    ensures PluralPresent(["shoe", "shoes"], "shoe")
    ensures !PluralPresent(["shoe", "shoes"], "shoes")
  {
    assert ["shoe", "shoes"][1] == WithS("shoe");
    assert |WithS("shoes")| == 6;
  }
}
