/** The Python `str` built-ins the analysis relies on: `isspace`, `split()`,
    `split(",")`, `strip()` and `sep.join(...)`, over strings as `seq<char>`. */
module Text {

  /** Python's `str.isspace` for one character: the characters `split()` and
      `strip()` treat as whitespace. */
  predicate IsSpace(c: char) {
    var n := c as int;
    (9 <= n <= 13) || (28 <= n <= 32) || n == 0x85 || n == 0xA0 || n == 0x1680
    || (0x2000 <= n <= 0x200A) || n == 0x2028 || n == 0x2029 || n == 0x202F
    || n == 0x205F || n == 0x3000
  }

  predicate NoSpace(s: string) {
    forall i :: 0 <= i < |s| ==> !IsSpace(s[i])
  }

  predicate AllSpace(s: string) {
    forall i :: 0 <= i < |s| ==> IsSpace(s[i])
  }

  /** The characters of `s` that are not whitespace, in order. */
  function NonSpace(s: string): string {
    if s == [] then [] else (if IsSpace(s[0]) then [] else [s[0]]) + NonSpace(s[1..])
  }

  function Concat(ws: seq<string>): string {
    if ws == [] then [] else ws[0] + Concat(ws[1..])
  }

  lemma ConcatCons(w: string, ws: seq<string>)
    ensures Concat([w] + ws) == w + Concat(ws)
  {
    assert ([w] + ws)[1..] == ws;
  }

  /** `sep.join(xs)`. */
  function Join(sep: string, xs: seq<string>): string {
    if xs == [] then []
    else if |xs| == 1 then xs[0]
    else xs[0] + sep + Join(sep, xs[1..])
  }

  /** Prefixing the first element of a join prefixes the joined string. */
  lemma JoinPrefixFirst(sep: string, d: string, xs: seq<string>)
    requires xs != []
    ensures d + Join(sep, xs) == Join(sep, [d + xs[0]] + xs[1..])
  {
    var ys := [d + xs[0]] + xs[1..];
    assert ys[1..] == xs[1..];
  }

  /** `xs` with `d` put in front of every element after the first. */
  function Indent(d: char, xs: seq<string>): (ys: seq<string>)
    requires xs != []
    ensures |ys| == |xs| && ys[0] == xs[0]
    ensures forall i :: 0 < i < |xs| ==> ys[i] == [d] + xs[i]
  {
    [xs[0]] + seq(|xs| - 1, i requires 0 <= i < |xs| - 1 => [d] + xs[i + 1])
  }

  /** A two-character separator `[c, d]` can be read as the separator `[c]`
      with `d` starting every element after the first. */
  lemma {:induction false} JoinRegroup(c: char, d: char, xs: seq<string>)
    requires xs != []
    ensures Join([c, d], xs) == Join([c], Indent(d, xs))
    decreases |xs|
  {
    if |xs| > 1 {
      var ys, zs := Indent(d, xs), Indent(d, xs[1..]);
      JoinRegroup(c, d, xs[1..]);
      JoinPrefixFirst([c], [d], zs);
      assert ys[1..] == [[d] + zs[0]] + zs[1..];
      assert Join([c], ys) == xs[0] + [c] + Join([c], ys[1..]);
    }
  }

  /** `", ".join(xs)` is empty exactly when there is nothing to join or only one
      empty string: every further element adds a separator. */
  lemma {:induction false} JoinEmpty(sep: string, xs: seq<string>)
    requires sep != []
    ensures Join(sep, xs) == [] <==> xs == [] || xs == [[]]
  {
    if |xs| > 1 {
      assert |xs[0] + sep + Join(sep, xs[1..])| >= |sep|;
    }
  }

  /** The runs of non-whitespace characters of `s`, where `cur` is a run
      already begun: the loop inside Python's `str.split()` without argument. */
  function SplitRuns(s: string, cur: string): (ws: seq<string>)
    requires NoSpace(cur)
    ensures forall i :: 0 <= i < |ws| ==> ws[i] != [] && NoSpace(ws[i])
    ensures Concat(ws) == cur + NonSpace(s)
    decreases |s|
  {
    if s == [] then
      if cur == [] then [] else [cur]
    else if IsSpace(s[0]) then
      var rest := SplitRuns(s[1..], []);
      if cur == [] then rest
      else
        ConcatCons(cur, rest);
        [cur] + rest
    else
      SplitRuns(s[1..], cur + [s[0]])
  }

  /** `s.split()`: the words of `s`, never empty and free of whitespace, whose
      concatenation is `s` with its whitespace removed. */
  function Words(s: string): (ws: seq<string>)
    ensures forall i :: 0 <= i < |ws| ==> ws[i] != [] && NoSpace(ws[i])
    ensures Concat(ws) == NonSpace(s)
  {
    SplitRuns(s, [])
  }

  lemma {:induction false} SplitRunsWord(w: string, rest: string, cur: string)
    requires NoSpace(cur) && NoSpace(w)
    ensures SplitRuns(w + rest, cur) == SplitRuns(rest, cur + w)
    decreases |w|
  {
    if w != [] {
      assert (w + rest)[0] == w[0] && !IsSpace(w[0]);
      assert (w + rest)[1..] == w[1..] + rest;
      SplitRunsWord(w[1..], rest, cur + [w[0]]);
      assert cur + [w[0]] + w[1..] == cur + w;
    } else {
      assert w + rest == rest && cur + w == cur;
    }
  }

  /** A single word splits into itself. */
  lemma WordsOfOne(w: string)
    requires w != [] && NoSpace(w)
    ensures Words(w) == [w]
  {
    SplitRunsWord(w, [], []);
    assert w + [] == w && [] + w == w;
  }

  /** A word followed by a space ends a run. */
  lemma WordThenSpace(w: string, tail: string)
    requires w != [] && NoSpace(w)
    ensures SplitRuns(w + (" " + tail), []) == [w] + SplitRuns(tail, [])
  {
    SplitRunsWord(w, " " + tail, []);
    assert [] + w == w;
    assert (" " + tail)[0] == ' ' && IsSpace(' ');
    assert (" " + tail)[1..] == tail;
  }

  /** `split()` undoes a single-space join of words that are non-empty and
      free of whitespace. */
  lemma {:induction false} WordsOfJoin(ws: seq<string>)
    requires forall i :: 0 <= i < |ws| ==> ws[i] != [] && NoSpace(ws[i])
    ensures Words(Join(" ", ws)) == ws
  {
    if |ws| == 1 {
      WordsOfOne(ws[0]);
    } else if |ws| > 1 {
      var tail := Join(" ", ws[1..]);
      assert Join(" ", ws) == ws[0] + (" " + tail);
      WordThenSpace(ws[0], tail);
      WordsOfJoin(ws[1..]);
      assert ws == [ws[0]] + ws[1..];
    }
  }

  /** `gaps[0] + ws[0] + gaps[1] + ... + ws[n-1] + gaps[n]`: the words `ws`
      laid out with the strings `gaps` around and between them. */
  function Spaced(gaps: seq<string>, ws: seq<string>): string
    requires |gaps| == |ws| + 1
    decreases |ws|
  {
    if ws == [] then gaps[0] else gaps[0] + (ws[0] + Spaced(gaps[1..], ws[1..]))
  }

  /** Whitespace before any run has begun is skipped. */
  lemma {:induction false} LeadingSpaces(g: string, rest: string)
    requires AllSpace(g)
    ensures SplitRuns(g + rest, []) == SplitRuns(rest, [])
    decreases |g|
  {
    if g != [] {
      assert (g + rest)[0] == g[0] && (g + rest)[1..] == g[1..] + rest;
      LeadingSpaces(g[1..], rest);
    } else {
      assert g + rest == rest;
    }
  }

  /** Whitespace after a word ends that word's run. */
  lemma CloseRun(g: string, rest: string, cur: string)
    requires cur != [] && NoSpace(cur) && g != [] && AllSpace(g)
    ensures SplitRuns(g + rest, cur) == [cur] + SplitRuns(rest, [])
  {
    assert (g + rest)[0] == g[0] && (g + rest)[1..] == g[1..] + rest;
    LeadingSpaces(g[1..], rest);
  }

  /** A word between whitespace, followed by more whitespace and text, is
      the first word of the split. */
  lemma FirstWord(g0: string, w: string, g1: string, rest: string)
    requires AllSpace(g0) && w != [] && NoSpace(w) && g1 != [] && AllSpace(g1)
    ensures SplitRuns(g0 + (w + (g1 + rest)), []) == [w] + SplitRuns(rest, [])
  {
    LeadingSpaces(g0, w + (g1 + rest));
    SplitRunsWord(w, g1 + rest, []);
    assert [] + w == w;
    CloseRun(g1, rest, w);
  }

  /** A last word with only whitespace around it splits into itself. */
  lemma LastWord(g0: string, w: string, g1: string)
    requires AllSpace(g0) && w != [] && NoSpace(w) && AllSpace(g1)
    ensures SplitRuns(g0 + (w + g1), []) == [w]
  {
    LeadingSpaces(g0, w + g1);
    SplitRunsWord(w, g1, []);
    assert [] + w == w;
    if g1 != [] {
      CloseRun(g1, [], w);
      assert g1 + [] == g1;
    }
  }

  /** `split()` recovers the words from any layout of them: whitespace of any
      kind and length before, between and after the words, with at least
      one whitespace character between two words, is dropped. */
  lemma {:induction false} WordsOfSpaced(gaps: seq<string>, ws: seq<string>)
    requires |gaps| == |ws| + 1
    requires forall i :: 0 <= i < |gaps| ==> AllSpace(gaps[i])
    requires forall i :: 0 < i < |ws| ==> gaps[i] != []
    requires forall i :: 0 <= i < |ws| ==> ws[i] != [] && NoSpace(ws[i])
    ensures Words(Spaced(gaps, ws)) == ws
    decreases |ws|
  {
    if ws == [] {
      LeadingSpaces(gaps[0], []);
      assert gaps[0] + [] == gaps[0];
    } else if |ws| == 1 {
      assert Spaced(gaps[1..], ws[1..]) == gaps[1];
      LastWord(gaps[0], ws[0], gaps[1]);
    } else {
      var gaps' := [[]] + gaps[2..];
      var rest := Spaced(gaps', ws[1..]);
      assert gaps[1..][1..] == gaps'[1..] && gaps[1..][0] == gaps[1];
      assert Spaced(gaps[1..], ws[1..]) == gaps[1] + rest;
      FirstWord(gaps[0], ws[0], gaps[1], rest);
      WordsOfSpaced(gaps', ws[1..]);
      assert ws == [ws[0]] + ws[1..];
    }
  }

  /** `s.split(sep)` for a one-character separator: at least one field, no
      field holding the separator, and joining the fields with it gives `s`. */
  function SplitOn(s: string, sep: char): (fields: seq<string>)
    ensures |fields| >= 1
    ensures forall i :: 0 <= i < |fields| ==> sep !in fields[i]
    ensures Join([sep], fields) == s
  {
    if s == [] then [[]]
    else
      var rest := SplitOn(s[1..], sep);
      if s[0] == sep then
        assert ([[]] + rest)[1..] == rest;
        [[]] + rest
      else
        var fields := [[s[0]] + rest[0]] + rest[1..];
        assert |rest| > 1 ==> Join([sep], rest) == rest[0] + [sep] + Join([sep], rest[1..]);
        assert fields[1..] == rest[1..];
        fields
  }

  lemma {:induction false} SplitOnPrefix(w: string, t: string, sep: char)
    requires sep !in w
    ensures SplitOn(w + t, sep) == [w + SplitOn(t, sep)[0]] + SplitOn(t, sep)[1..]
  {
    if w != [] {
      assert (w + t)[1..] == w[1..] + t;
      SplitOnPrefix(w[1..], t, sep);
      assert [w[0]] + (w[1..] + SplitOn(t, sep)[0]) == w + SplitOn(t, sep)[0];
    } else {
      var f := SplitOn(t, sep);
      assert w + t == t && w + f[0] == f[0];
      assert f == [f[0]] + f[1..];
    }
  }

  /** `s.split(sep)` undoes `sep.join(fields)` when no field holds the separator. */
  lemma {:induction false} SplitOnJoin(fields: seq<string>, sep: char)
    requires |fields| >= 1
    requires forall i :: 0 <= i < |fields| ==> sep !in fields[i]
    ensures SplitOn(Join([sep], fields), sep) == fields
  {
    if |fields| == 1 {
      SplitOnPrefix(fields[0], [], sep);
      assert fields[0] + [] == fields[0];
    } else {
      var tail := Join([sep], fields[1..]);
      assert Join([sep], fields) == fields[0] + ([sep] + tail);
      SplitOnPrefix(fields[0], [sep] + tail, sep);
      assert ([sep] + tail)[0] == sep && ([sep] + tail)[1..] == tail;
      SplitOnJoin(fields[1..], sep);
      assert SplitOn([sep] + tail, sep) == [[]] + fields[1..];
      assert fields[0] + [] == fields[0];
      assert fields == [fields[0]] + fields[1..];
    }
  }

  function StripLeft(s: string): (r: string)
    ensures |r| <= |s| && r == s[|s| - |r|..]
    ensures forall i :: 0 <= i < |s| - |r| ==> IsSpace(s[i])
    ensures r == [] || !IsSpace(r[0])
  {
    if s != [] && IsSpace(s[0]) then StripLeft(s[1..]) else s
  }

  function StripRight(s: string): (r: string)
    ensures |r| <= |s| && r == s[..|r|]
    ensures forall i :: |r| <= i < |s| ==> IsSpace(s[i])
    ensures r == [] || !IsSpace(r[|r| - 1])
  {
    if s != [] && IsSpace(s[|s| - 1]) then StripRight(s[..|s| - 1]) else s
  }

  /** `s.strip()`: `s` with its leading and trailing whitespace removed. */
  function Strip(s: string): (r: string)
    ensures |r| <= |s|
    ensures r == [] || (!IsSpace(r[0]) && !IsSpace(r[|r| - 1]))
  {
    StripRight(StripLeft(s))
  }

  /** Nothing but whitespace is removed: `s.strip()` is a contiguous piece of
      `s` with only whitespace before and after it. */
  lemma StripSpec(s: string)
    ensures var r := Strip(s);
            exists a :: 0 <= a <= |s| - |r| && s[a..][..|r|] == r
                        && (forall i :: 0 <= i < a ==> IsSpace(s[i]))
                        && (forall i :: |r| <= i < |s| - a ==> IsSpace(s[a..][i]))
  {
    var l := StripLeft(s);
    var a := |s| - |l|;
    assert s[a..] == l;
  }

  /** Stripping only removes characters: one absent from `s` is absent from
      `s.strip()`. */
  lemma StripKeepsOut(s: string, c: char)
    requires c !in s
    ensures c !in Strip(s)
  {
    var l := StripLeft(s);
    forall j | 0 <= j < |l|
      ensures l[j] != c
    {
      assert l[j] == s[|s| - |l| + j];
    }
    var r := StripRight(l);
    forall j | 0 <= j < |r|
      ensures r[j] != c
    {
      assert r[j] == l[j];
    }
  }

  /** A string without surrounding whitespace is left as it is by `strip()`. */
  lemma StripStripped(s: string)
    requires s == [] || (!IsSpace(s[0]) && !IsSpace(s[|s| - 1]))
    ensures Strip(s) == s
  {
    assert StripLeft(s) == s;
  }

  /** A space typed before an entry is removed by `strip()`. */
  lemma StripLeadingSpace(s: string)
    requires s == [] || (!IsSpace(s[0]) && !IsSpace(s[|s| - 1]))
    ensures Strip([' '] + s) == s
  {
    assert ([' '] + s)[0] == ' ' && ([' '] + s)[1..] == s;
    assert StripLeft([' '] + s) == StripLeft(s) == s;
  }
}
