/** The "Misspelling or special character" column and the ignore list that
    exempts words from it. */
module Misspelling {
  import opened Text

  /** The label a flagged row receives; other rows keep "". */
  const Label := "Potential misspelling or error"

  /** The characters the class `[A-Za-z0-9 ]` admits. */
  predicate Plain(c: char) {
    ('A' <= c <= 'Z') || ('a' <= c <= 'z') || ('0' <= c <= '9') || c == ' '
  }

  /** `re.search(r'[^A-Za-z0-9 ]', word)` succeeds: some character of the
      word lies outside `[A-Za-z0-9 ]`. */
  function HasSpecial(word: string): (found: bool)
    ensures found <==> exists i :: 0 <= i < |word| && !Plain(word[i])
  {
    if word == [] then false
    else
      assert forall i :: 0 < i < |word| ==> word[i] == word[1..][i - 1];
      !Plain(word[0]) || HasSpecial(word[1..])
  }

  /** Line 205: `[k.strip() for k in ignore_words.split(",")]`. */
  function IgnoreList(text: string): (ignore: seq<string>)
    ensures |ignore| == |SplitOn(text, ',')| >= 1
  {
    var fields := SplitOn(text, ',');
    seq(|fields|, i requires 0 <= i < |fields| => Strip(fields[i]))
  }

  /** Each entry of the ignore list is one comma-separated field of the text
      with its surrounding whitespace removed: no entry holds a comma, and
      none begins or ends with whitespace. */
  lemma IgnoreListEntries(text: string)
    ensures forall i :: 0 <= i < |IgnoreList(text)| ==> ',' !in IgnoreList(text)[i]
    ensures forall i :: 0 <= i < |IgnoreList(text)| ==>
              var e := IgnoreList(text)[i];
              e == [] || (!IsSpace(e[0]) && !IsSpace(e[|e| - 1]))
  {
    var fields := SplitOn(text, ',');
    forall i | 0 <= i < |fields|
      ensures ',' !in IgnoreList(text)[i]
    {
      StripKeepsOut(fields[i], ',');
    }
  }

  /** Lines 194-199 for one word: it raises the label when it is not on the
      ignore list (an exact, case-sensitive list membership) and either the
      dictionary does not know it or it holds a special character. */
  predicate Offending(word: string, ignore: seq<string>, isKnown: string -> bool) {
    word !in ignore && (!isKnown(word) || HasSpecial(word))
  }

  /** Some whitespace-separated word of the keyword is offending. */
  predicate Misspelled(keyword: string, ignore: seq<string>, isKnown: string -> bool) {
    var words := Words(keyword);
    exists w :: 0 <= w < |words| && Offending(words[w], ignore, isKnown)
  }

  /** `k` is one of the first `n` keywords. */
  predicate Seen(keywords: seq<string>, n: nat, k: string)
    requires n <= |keywords|
  {
    exists q :: 0 <= q < n && keywords[q] == k
  }

  /** Lines 177 and 182-202: the column starts as ""; each keyword's words are
      scanned, ignored words skipped, and at the first offending word every row
      with that keyword gets the label and the scan of the keyword stops. */
  method CheckMisspellings(keywords: seq<string>, ignore: seq<string>, isKnown: string -> bool)
    returns (labels: seq<string>)
    ensures |labels| == |keywords|
    ensures forall r :: 0 <= r < |keywords| ==>
              labels[r] == if Misspelled(keywords[r], ignore, isKnown) then Label else ""
  {
    labels := seq(|keywords|, r => "");
    for i := 0 to |keywords|
      invariant |labels| == |keywords|
      invariant forall r :: 0 <= r < |keywords| ==>
                  labels[r] == if Seen(keywords, i, keywords[r]) && Misspelled(keywords[r], ignore, isKnown)
                               then Label else ""
    {
      SeenStep(keywords, i);
      labels := LabelKeyword(keywords, keywords[i], labels, ignore, isKnown);
    }
  }

  lemma SeenStep(keywords: seq<string>, i: nat)
    requires i < |keywords|
    ensures forall k :: Seen(keywords, i + 1, k) <==> Seen(keywords, i, k) || k == keywords[i]
  {
    forall k | Seen(keywords, i + 1, k)
      ensures Seen(keywords, i, k) || k == keywords[i]
    {
      var q :| 0 <= q < i + 1 && keywords[q] == k;
    }
  }

  /** One pass of the loop at lines 188-201: the words of `keyword` are scanned
      in order; an ignored word is skipped, and the first offending word labels
      every row holding `keyword` and ends the scan. */
  method LabelKeyword(keywords: seq<string>, keyword: string, labels: seq<string>,
                      ignore: seq<string>, isKnown: string -> bool)
    returns (updated: seq<string>)
    requires |labels| == |keywords|
    ensures |updated| == |keywords|
    ensures forall q :: 0 <= q < |keywords| ==>
              updated[q] == if keywords[q] == keyword && Misspelled(keyword, ignore, isKnown)
                            then Label else labels[q]
  {
    updated := labels;
    var words := Words(keyword);
    for w := 0 to |words|
      invariant updated == labels
      invariant forall v :: 0 <= v < w ==> !Offending(words[v], ignore, isKnown)
    {
      var word := words[w];
      if word in ignore {
        continue;
      }
      if !isKnown(word) || HasSpecial(word) {
        updated := MarkRows(keywords, keyword, labels);
        break;
      }
    }
  }

  /** Line 200, `df.loc[df['Keyword'] == keyword, column] = Label`: every row
      whose keyword equals `keyword` gets the label, the other rows keep theirs. */
  method MarkRows(keywords: seq<string>, keyword: string, labels: seq<string>)
    returns (marked: seq<string>)
    requires |labels| == |keywords|
    ensures |marked| == |keywords|
    ensures forall q :: 0 <= q < |keywords| ==>
              marked[q] == if keywords[q] == keyword then Label else labels[q]
  {
    marked := labels;
    for r := 0 to |keywords|
      invariant |marked| == |keywords|
      invariant forall q :: 0 <= q < |keywords| ==>
                  marked[q] == if q < r && keywords[q] == keyword then Label else labels[q]
    {
      if keywords[r] == keyword {
        marked := marked[r := Label];
      }
    }
  }

  /** What the user types is read entry by entry: for comma-separated entries
      holding no comma, the ignore list is each entry with its surrounding
      whitespace removed. */
  lemma IgnoreListOfTyped(entries: seq<string>)
    requires |entries| >= 1
    requires forall i :: 0 <= i < |entries| ==> ',' !in entries[i]
    ensures IgnoreList(Join([','], entries))
            == seq(|entries|, i requires 0 <= i < |entries| => Strip(entries[i]))
  {
    SplitOnJoin(entries, ',');
  }

  /** The ignore text round-trips: typing entries that hold no comma and
      carry no surrounding whitespace, separated by commas, yields exactly those
      entries. */
  lemma {:induction false} IgnoreListOfJoin(entries: seq<string>)
    requires |entries| >= 1
    requires forall i :: 0 <= i < |entries| ==> ',' !in entries[i]
    requires forall i :: 0 <= i < |entries| ==>
               entries[i] == [] || (!IsSpace(entries[i][0]) && !IsSpace(entries[i][|entries[i]| - 1]))
    ensures IgnoreList(Join([','], entries)) == entries
  {
    IgnoreListOfTyped(entries);
    forall i | 0 <= i < |entries|
      ensures IgnoreList(Join([','], entries))[i] == entries[i]
    {
      StripStripped(entries[i]);
    }
  }

  /** The usual way of typing the list, a comma and a space between entries
      ("nike, adidas"), ignores exactly the entries typed, provided none holds
      a comma or surrounding whitespace. */
  lemma IgnoreListCommaSpace(entries: seq<string>)
    requires |entries| >= 1
    requires forall i :: 0 <= i < |entries| ==> ',' !in entries[i]
    requires forall i :: 0 <= i < |entries| ==>
               entries[i] == [] || (!IsSpace(entries[i][0]) && !IsSpace(entries[i][|entries[i]| - 1]))
    ensures IgnoreList(Join(", ", entries)) == entries
  {
    var typed := Indent(' ', entries);
    assert Join(", ", entries) == Join([','], typed) by {
      assert ", " == [',', ' '];
      JoinRegroup(',', ' ', entries);
    }
    forall i | 0 <= i < |typed| ensures ',' !in typed[i] { }
    IgnoreListOfTyped(typed);
    StripIndentedAll(entries);
  }

  /** Every entry typed after a comma and a space parses back to itself. */
  lemma StripIndentedAll(entries: seq<string>)
    requires |entries| >= 1
    requires forall i :: 0 <= i < |entries| ==>
               entries[i] == [] || (!IsSpace(entries[i][0]) && !IsSpace(entries[i][|entries[i]| - 1]))
    ensures var typed := Indent(' ', entries);
            seq(|typed|, i requires 0 <= i < |typed| => Strip(typed[i])) == entries
  {
    var typed := Indent(' ', entries);
    forall i | 0 <= i < |entries| ensures Strip(typed[i]) == entries[i] {
      StripIndented(entries, i);
    }
    StripEach(typed, entries);
  }

  /** Stripping element by element gives `entries` when each element strips to
      the entry at its index. */
  lemma StripEach(typed: seq<string>, entries: seq<string>)
    requires |typed| == |entries|
    requires forall i :: 0 <= i < |typed| ==> Strip(typed[i]) == entries[i]
    ensures seq(|typed|, i requires 0 <= i < |typed| => Strip(typed[i])) == entries
  {
  }

  /** A stripped entry typed after the comma and a space parses back to itself. */
  lemma StripIndented(entries: seq<string>, i: nat)
    requires i < |entries|
    requires entries[i] == [] || (!IsSpace(entries[i][0]) && !IsSpace(entries[i][|entries[i]| - 1]))
    ensures Strip(Indent(' ', entries)[i]) == entries[i]
  {
    if i == 0 {
      StripStripped(entries[0]);
    } else {
      StripLeadingSpace(entries[i]);
    }
  }

  /** Ignored words never raise the label: when every word of a keyword is,
      once stripped, one of the comma-separated entries typed into the ignore
      box, the keyword is not flagged, whatever the dictionary says and
      whatever characters the words hold. */
  lemma IgnoredWordsNeverFlag(keyword: string, entries: seq<string>, isKnown: string -> bool)
    requires |entries| >= 1
    requires forall i :: 0 <= i < |entries| ==> ',' !in entries[i]
    requires forall w :: 0 <= w < |Words(keyword)| ==>
               exists i :: 0 <= i < |entries| && Strip(entries[i]) == Words(keyword)[w]
    ensures !Misspelled(keyword, IgnoreList(Join([','], entries)), isKnown)
  {
    var ignore := IgnoreList(Join([','], entries));
    IgnoreListOfTyped(entries);
    StrippedAmong(Words(keyword), entries, ignore);
    AllIgnoredClean(keyword, ignore, isKnown);
  }

  /** A word equal to some stripped entry is on the list of stripped entries. */
  lemma StrippedAmong(words: seq<string>, entries: seq<string>, ignore: seq<string>)
    requires ignore == seq(|entries|, i requires 0 <= i < |entries| => Strip(entries[i]))
    requires forall w :: 0 <= w < |words| ==>
               exists i :: 0 <= i < |entries| && Strip(entries[i]) == words[w]
    ensures forall w :: 0 <= w < |words| ==> words[w] in ignore
  {
    forall w | 0 <= w < |words| ensures words[w] in ignore {
      var i :| 0 <= i < |entries| && Strip(entries[i]) == words[w];
      assert ignore[i] == words[w];
    }
  }

  /** A keyword whose every word is on the ignore list is not misspelled. */
  lemma AllIgnoredClean(keyword: string, ignore: seq<string>, isKnown: string -> bool)
    requires forall w :: 0 <= w < |Words(keyword)| ==> Words(keyword)[w] in ignore
    ensures !Misspelled(keyword, ignore, isKnown)
  {
  }

  /** An empty ignore text gives the list `[""]`, which exempts nothing, since
      `split()` never yields an empty word. */
  lemma EmptyIgnoreTextExemptsNothing(keyword: string, isKnown: string -> bool)
    ensures Misspelled(keyword, IgnoreList(""), isKnown)
            <==> exists w :: 0 <= w < |Words(keyword)|
                             && (!isKnown(Words(keyword)[w]) || HasSpecial(Words(keyword)[w]))
  {
    assert IgnoreList("") == [""];
  }

  /** A special character raises the label even when the dictionary knows the
      word: a keyword made of words joined by single spaces is flagged as soon
      as one of them holds a character outside `[A-Za-z0-9 ]` and is not
      ignored. */
  lemma SpecialCharacterFlags(ws: seq<string>, j: nat, ignore: seq<string>, isKnown: string -> bool)
    requires forall i :: 0 <= i < |ws| ==> ws[i] != [] && NoSpace(ws[i])
    requires j < |ws| && HasSpecial(ws[j]) && ws[j] !in ignore
    ensures Misspelled(Join(" ", ws), ignore, isKnown)
  {
    WordsOfJoin(ws);
    assert Offending(Words(Join(" ", ws))[j], ignore, isKnown);
  }

  /** The concrete case: "running shoes!" is flagged unless "shoes!" is ignored. */
  lemma RunningShoesFlagged(ignore: seq<string>, isKnown: string -> bool)
    requires "shoes!" !in ignore
    ensures Misspelled("running shoes!", ignore, isKnown)
  {
    var ws := ["running", "shoes!"];
    assert ws[1][5] == '!';
    assert Join(" ", ws[1..]) == "shoes!";
    assert Join(" ", ws) == "running shoes!";
    SpecialCharacterFlags(ws, 1, ignore, isKnown);
  }
}
