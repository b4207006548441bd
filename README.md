# Keyword research QA: the analysis engine in Dafny

`app-st.py` is a Streamlit page for reviewing a keyword-research export: a
table of (keyword, search volume) rows. Once the upload has been read, the
page runs a small batch analysis and shows one table row per input row with
five columns:

- **Keyword** and **Search Volume**, copied from the input row.
- **Similar Keywords**: the other keywords with *exactly the same*
  search-volume string whose fuzzy similarity score against this keyword
  reaches the chosen threshold, joined with `", "`.
- **Duplicate with 's'**: true when the keyword with a trailing `"s"` is also
  a keyword somewhere in the file.
- **Misspelling or special character**: `"Potential misspelling or error"`
  when one word of the keyword is not on the user's ignore list and is
  unknown to the dictionary or holds a character outside `[A-Za-z0-9 ]`.

The model follows the script's own loops, one Dafny method per loop, each
proved against a specification function:

| file | module | what it holds |
|---|---|---|
| `text.dfy` | `Text` | Python's `str.split()`, `str.split(",")`, `str.strip()` and `", ".join`, with their round trips |
| `grouping.dfy` | `Grouping` | the `defaultdict(list)` grouping loop, with the dict's insertion order kept as a sequence of keys |
| `matching.dfy` | `Matching` | the three nested loops that fill `results`, and the match characterisation |
| `duplicate_flag.dfy` | `DuplicateFlag` | the `"Duplicate with 's'"` mask loop |
| `misspelling.dfy` | `Misspelling` | `check_misspellings`, the character test and the ignore-list parsing |
| `report.dfy` | `Report` | row assembly and the whole analysis composed |

The similarity scorer `fuzz.token_sort_ratio` is a parameter
`score: (string, string) -> int`. Nothing is assumed about it; symmetry
appears only as an explicit hypothesis of `Matching.MatchesSymmetric`. The
dictionary `spell_checker.unknown([word])` is a parameter
`isKnown: string -> bool`. A word is reported unknown exactly when
`isKnown(word)` is false.

The search volume stays an opaque string throughout, so `"1000"` and
`"1,000"` are different groups. The `results` dictionary is a
`map<string, seq<string>>` read through `Matching.Lookup`, which stands for
`results.get(k, [])`. A key is present only with a non-empty list.

## Model

| member | source | states |
|---|---|---|
| Grouping.GroupByVolume | app-st.py:94-105 | The key order is the volumes in first-occurrence order. Each group holds the keywords of the rows with exactly that volume string, in row order, duplicates kept. The groups equal `GroupMap(rows)`. |
| Grouping.GroupMapSpec | app-st.py:94-105 | The dictionary the appends build has as keys exactly the volume strings that occur in the rows. Each value is the in-order list of that volume's keywords. |
| Grouping.VolumesSpec | app-st.py:99-105 | A string is a group key iff some row carries it as its volume. No key is repeated. |
| Grouping.MembersSpec | app-st.py:99-105 | A keyword is in the group of volume `v` iff some row has volume `v` and that keyword. A group is never longer than the input. |
| Grouping.GroupSizesSum | app-st.py:99-105 | The group sizes add up to the number of input rows, so no row is lost or counted twice. |
| Matching.FindMatches | app-st.py:112-131 | The outer loop over `groups.items()` leaves, for every keyword, exactly the list `Matches` built group by group in key order. No keyword is left with an empty list. |
| Matching.MatchGroup | app-st.py:114-131 | One group's pass adds to each keyword's list what the scans of its positions contribute, in position order, and leaves the other keys alone. |
| Matching.MatchKeyword | app-st.py:116-131 | The scan for one keyword appends each group member that differs from it as a string and scores at least the threshold, in group order. A list is created only when the first match appears, and no other key changes. |
| Matching.MatchesCount | app-st.py:112-131 | Completeness with multiplicity: `x` occurs in the list of `k` as often as pairs (position of `k`, position of `x`) occur within the same group, summed over the groups. This holds when `x != k` and `score(k, x)` reaches the threshold; otherwise `x` does not occur at all. Nothing is deduplicated. |
| Matching.MatchesMember | app-st.py:112-131 | Soundness and completeness: `x` is a match of `k` iff `x != k`, `score(k, x)` reaches the threshold, and some group holds both. |
| Matching.NoSelfMatch | app-st.py:118-119 | A keyword is never among its own matches, even when its string occurs several times in a group. |
| Matching.MatchesSymmetric | app-st.py:122-131 | If the scorer is symmetric, `x` a match of `k` implies `k` a match of `x`. |
| Matching.ThresholdMonotone | app-st.py:125-131 | Raising the threshold gives, for every keyword, a subsequence of the list obtained with the lower threshold. |
| Report.AssembleRows | app-st.py:141-153 | One output row per input row, in input order. It copies keyword and volume and carries `", ".join(results.get(keyword, []))`. |
| Report.SimilarTable | app-st.py:94-153 | Grouping, matching and row assembly in sequence: output row `i` holds input row `i`'s keyword and volume and, joined with `", "`, the matches of that keyword found across all volume groups. |
| Report.SimilarMeaning | app-st.py:112-150 | The list joined into the "Similar Keywords" cell of `k` holds `x` iff `x != k`, the score reaches the threshold, and a row of `k` and a row of `x` share their volume string. |
| Report.SimilarCellEmpty | app-st.py:147-150 | The cell is `""` iff the keyword has no match, or its only match is the empty keyword. |
| Report.Analyze | app-st.py:94-206 | The whole pipeline returns one row per input row with keyword and volume copied. Each row's similar cell joins the matches of its keyword. Its flag is set iff keyword + "s" is a keyword of the file. Its label is set iff the keyword is misspelled relative to the parsed ignore list. |
| DuplicateFlag.FlagDuplicateWithS | app-st.py:158-169 | Row `r` is flagged iff `keywords[r] + "s"` equals the keyword of some row anywhere in the table, whatever the volumes. |
| DuplicateFlag.SomeRowUnflagged | app-st.py:158-169 | In a non-empty table some row is always unflagged: a longest keyword cannot have its plural present. |
| DuplicateFlag.ShoeAndShoes | app-st.py:158-169 | With "shoe" and "shoes" present, "shoe" is flagged and "shoes" is not. |
| Misspelling.HasSpecial | app-st.py:185-199 | `re.search(r'[^A-Za-z0-9 ]', word)` succeeds iff some character is not an ASCII letter, digit or space. |
| Misspelling.CheckMisspellings | app-st.py:177-202 | Row `r` carries "Potential misspelling or error" iff some word of its keyword is offending. Every other row keeps `""`. |
| Misspelling.LabelKeyword | app-st.py:188-201 | One keyword's scan labels the rows holding that keyword iff one of its words is offending, and changes nothing else. Ignored words are skipped. The scan stops at the first offending word. |
| Misspelling.MarkRows | app-st.py:200 | The mask assignment labels exactly the rows whose keyword equals the scanned one and keeps the other rows' labels. |
| Misspelling.IgnoreList | app-st.py:205 | There is one entry per comma-separated field of the text, and always at least one. |
| Misspelling.IgnoreListEntries | app-st.py:205 | No entry of the parsed ignore list holds a comma or starts or ends with whitespace. |
| Misspelling.IgnoreListOfTyped | app-st.py:205 | Comma-separated entries that hold no comma are read back one for one, each with its surrounding whitespace removed. |
| Misspelling.IgnoreListOfJoin | app-st.py:205 | Entries without commas or surrounding whitespace, typed with bare commas between them, parse back to exactly those entries. |
| Misspelling.IgnoreListCommaSpace | app-st.py:205 | The same entries typed with a comma and a space between them, as in "nike, adidas", also parse back to exactly those entries. |
| Misspelling.IgnoredWordsNeverFlag | app-st.py:194-205 | If every word of a keyword equals the stripped form of some comma-separated entry typed into the ignore box (spaces around the entries allowed, as in "nike, adidas"), the keyword is never labelled, whatever the dictionary says. |
| Misspelling.EmptyIgnoreTextExemptsNothing | app-st.py:196-205 | An empty ignore box parses to `[""]`, which exempts no word. The label then depends only on the dictionary and the character test. |
| Misspelling.SpecialCharacterFlags | app-st.py:199-200 | A keyword of space-separated words is labelled whenever one non-ignored word holds a special character, even if the dictionary knows it. |
| Misspelling.RunningShoesFlagged | app-st.py:199-200 | "running shoes!" is labelled unless "shoes!" is ignored. |
| Text.Words | app-st.py:191 | `keyword.split()` yields non-empty words without whitespace whose concatenation is the keyword minus its whitespace. Where the keyword is split is fixed by `Text.WordsOfSpaced`. |
| Text.WordsOfJoin | app-st.py:191 | Splitting words joined by single spaces gives the words back. |
| Text.WordsOfSpaced | app-st.py:191 | `split()` recovers exactly the words from any layout: whitespace runs of any kind and length before, between and after them, with at least one whitespace character between two words. |
| Text.SplitOn | app-st.py:205 | `text.split(",")` has at least one field, no field holds the comma, and joining the fields with commas restores the text. |
| Text.SplitOnJoin | app-st.py:205 | Splitting on the separator undoes joining with it when no field holds the separator. |
| Text.Strip | app-st.py:205 | `strip()` returns a string no longer than the input that neither starts nor ends with whitespace. |
| Text.StripSpec | app-st.py:205 | The result of `strip()` is a contiguous piece of the input, and only whitespace lies before and after it. |
| Text.StripKeepsOut | app-st.py:205 | A character absent from the input is absent from the stripped result. |
| Text.StripStripped | app-st.py:205 | A string with no surrounding whitespace is returned unchanged. |
| Text.JoinEmpty | app-st.py:150 | `", ".join(xs)` is empty iff `xs` is empty or is the single empty string. |

## Left out

- The Streamlit page is left out: title, help text, threshold slider, delimiter radio, file uploader, progress bar, success messages, the two filter multiselects, the table display and the CSV download (app-st.py:11-73, 81-86, 109-110, 133, 138, 207-237). They are presentation and I/O. The threshold and the ignore text enter `Report.Analyze` as parameters.
- CSV reading is left out: `csv.reader` with the chosen delimiter, the UTF-8 decoding and the header skip (app-st.py:79-92). The model starts from the data rows, each a sequence of strings.
- Short rows are a precondition, not an error path: `Grouping.WellFormed` demands at least two fields per row. The script indexes `row[1]` unguarded and fails on such a row (app-st.py:102, 144), so no substitution of empty fields is modelled.
- `fuzz.token_sort_ratio` is a foreign function and is left abstract. Its tokenising, Levenshtein ratio and rounding are not modelled. Only `MatchesSymmetric` assumes anything about it, and it states symmetry as a hypothesis.
- `SpellChecker` is left abstract. Its dictionary, its word frequencies and its own lower-casing of words are not modelled.
- pandas is modelled by its effect: DataFrame columns are sequences indexed by row, and the helper column `Keyword_modified` is a local sequence. Construction, `.apply`, `.isin`, `.loc` and `.drop` are not modelled as library calls.
- Ignore-list matching is exact and case-sensitive (`word in ignore_list`, app-st.py:196). A case-insensitive comparison, which a later revision of the tool adopts, is not part of this script and is not modelled.
- Python's `str.split()` is modelled with the characters `str.isspace` accepts. `strip()` uses the same set.
- Both dictionary quirks of `results` are kept, not corrected. A keyword that occurs in several volume groups gets its matches from all of them, concatenated. Repeated occurrences of a keyword give repeated matches.
