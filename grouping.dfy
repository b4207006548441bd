/** Grouping of the data rows by their exact search-volume string, into the
    insertion-ordered `groups` dictionary of the script. */
module Grouping {

  /** A data row as the CSV reader yields it: column 0 is the keyword,
      column 1 the search volume (kept as an opaque string). */
  type Row = seq<string>

  /** Every row has the two columns the script reads; a shorter row makes
      `row[1]` raise. */
  predicate WellFormed(rows: seq<Row>) {
    forall i :: 0 <= i < |rows| ==> |rows[i]| >= 2
  }

  predicate Distinct(vs: seq<string>) {
    forall i, j :: 0 <= i < j < |vs| ==> vs[i] != vs[j]
  }

  /** The keys of `groups` in the order Python's dict keeps them: every volume
      string of `rows`, once, at its first occurrence. */
  function Volumes(rows: seq<Row>): seq<string>
    requires WellFormed(rows)
  {
    if rows == [] then []
    else
      var init := rows[..|rows| - 1];
      var v := rows[|rows| - 1][1];
      if v in Volumes(init) then Volumes(init) else Volumes(init) + [v]
  }

  /** Each volume string of the rows is a key, once, and nothing else is. */
  lemma {:induction false} VolumesSpec(rows: seq<Row>)
    requires WellFormed(rows)
    ensures forall v :: v in Volumes(rows) <==> exists i :: 0 <= i < |rows| && rows[i][1] == v
    ensures Distinct(Volumes(rows))
  {
    if rows != [] {
      var init := rows[..|rows| - 1];
      VolumesSpec(init);
      assert forall i :: 0 <= i < |init| ==> init[i] == rows[i];
    }
  }

  /** `groups[v]`: the keywords of the rows whose volume is exactly `v`, in row
      order, duplicates kept. */
  function Members(rows: seq<Row>, v: string): seq<string>
    requires WellFormed(rows)
  {
    if rows == [] then []
    else
      var init := rows[..|rows| - 1];
      var last := rows[|rows| - 1];
      Members(init, v) + (if last[1] == v then [last[0]] else [])
  }

  /** Every input row's keyword is in the group of exactly its own volume
      string, and a group holds nothing else. */
  lemma {:induction false} MembersSpec(rows: seq<Row>, v: string)
    requires WellFormed(rows)
    ensures |Members(rows, v)| <= |rows|
    ensures forall k :: k in Members(rows, v)
                        <==> exists i :: 0 <= i < |rows| && rows[i][1] == v && rows[i][0] == k
  {
    if rows != [] {
      var init := rows[..|rows| - 1];
      MembersSpec(init, v);
      assert forall i :: 0 <= i < |init| ==> init[i] == rows[i];
    }
  }

  /** The `groups` dictionary after the rows: each row appends its keyword to
      the list of its volume, which starts empty (its key order is `Volumes`). */
  function GroupMap(rows: seq<Row>): map<string, seq<string>>
    requires WellFormed(rows)
  {
    if rows == [] then map[]
    else
      var groups := GroupMap(rows[..|rows| - 1]);
      var last := rows[|rows| - 1];
      groups[last[1] := (if last[1] in groups then groups[last[1]] else []) + [last[0]]]
  }

  /** The keys of the dictionary are exactly the volumes met, and each value is
      the in-order list of the keywords of that volume. */
  lemma {:induction false} GroupMapSpec(rows: seq<Row>)
    requires WellFormed(rows)
    ensures forall v :: v in GroupMap(rows) <==> v in Volumes(rows)
    ensures forall v :: v in GroupMap(rows) ==> GroupMap(rows)[v] == Members(rows, v)
  {
    if rows != [] {
      var init := rows[..|rows| - 1];
      assert WellFormed(init);
      GroupMapSpec(init);
      forall v | v !in Volumes(init)
        ensures Members(init, v) == []
      {
        NoMembers(init, v);
      }
    }
  }

  /** Lines 94-105: one pass over the rows appends each keyword to the list of
      its volume, creating the list (and the key) on the volume's first
      occurrence, as `defaultdict(list)` does. */
  method GroupByVolume(rows: seq<Row>) returns (order: seq<string>, groups: map<string, seq<string>>)
    requires WellFormed(rows)
    ensures order == Volumes(rows)
    ensures groups == GroupMap(rows)
    ensures forall v :: v in groups <==> v in order
    ensures forall v :: v in groups ==> groups[v] == Members(rows, v)
  {
    order, groups := [], map[];
    for i := 0 to |rows|
      invariant order == Volumes(rows[..i])
      invariant groups == GroupMap(rows[..i])
    {
      PrefixStep(rows, i);
      var keyword := rows[i][0];
      var volume := rows[i][1];
      if volume !in groups {
        order := order + [volume];
      }
      // `groups[volume]` of a defaultdict(list) is [] for a volume not yet seen
      var current := if volume in groups then groups[volume] else [];
      groups := groups[volume := current + [keyword]];
    }
    assert rows[..|rows|] == rows;
    GroupMapSpec(rows);
  }

  lemma PrefixStep(rows: seq<Row>, i: nat)
    requires WellFormed(rows) && i < |rows|
    ensures WellFormed(rows[..i]) && WellFormed(rows[..i + 1])
    ensures rows[i][1] in GroupMap(rows[..i]) <==> rows[i][1] in Volumes(rows[..i])
    ensures Volumes(rows[..i + 1])
            == if rows[i][1] in Volumes(rows[..i]) then Volumes(rows[..i]) else Volumes(rows[..i]) + [rows[i][1]]
    ensures GroupMap(rows[..i + 1])
            == var g := GroupMap(rows[..i]);
               g[rows[i][1] := (if rows[i][1] in g then g[rows[i][1]] else []) + [rows[i][0]]]
  {
    assert rows[..i + 1][..i] == rows[..i];
    GroupMapSpec(rows[..i]);
  }

  /** A volume that is not a key has an empty group. */
  lemma NoMembers(rows: seq<Row>, v: string)
    requires WellFormed(rows) && v !in Volumes(rows)
    ensures Members(rows, v) == []
  {
    VolumesSpec(rows);
    MembersSpec(rows, v);
  }

  /** The sum of the sizes of the groups named in `vs`. */
  function TotalSize(rows: seq<Row>, vs: seq<string>): nat
    requires WellFormed(rows)
  {
    if vs == [] then 0
    else TotalSize(rows, vs[..|vs| - 1]) + |Members(rows, vs[|vs| - 1])|
  }

  lemma {:induction false} TotalSizeAppendRow(rows: seq<Row>, r: Row, vs: seq<string>)
    requires WellFormed(rows) && |r| >= 2
    ensures WellFormed(rows + [r])
    ensures TotalSize(rows + [r], vs) == TotalSize(rows, vs) + multiset(vs)[r[1]]
  {
    var rows' := rows + [r];
    assert forall i :: 0 <= i < |rows'| ==> |rows'[i]| >= 2;
    if vs != [] {
      var init := vs[..|vs| - 1];
      var last := vs[|vs| - 1];
      TotalSizeAppendRow(rows, r, init);
      assert rows'[..|rows'| - 1] == rows;
      assert |Members(rows', last)| == |Members(rows, last)| + (if r[1] == last then 1 else 0);
      assert vs == init + [last];
      assert multiset(vs)[r[1]] == multiset(init)[r[1]] + (if r[1] == last then 1 else 0);
    }
  }

  lemma {:induction false} DistinctCount(vs: seq<string>, v: string)
    requires Distinct(vs)
    ensures multiset(vs)[v] == if v in vs then 1 else 0
  {
    if vs != [] {
      var init := vs[..|vs| - 1];
      var last := vs[|vs| - 1];
      assert vs == init + [last];
      DistinctCount(init, v);
      assert last !in init;
    }
  }

  /** Grouping preserves rows: the group sizes add up to the number of rows. */
  lemma {:induction false} GroupSizesSum(rows: seq<Row>)
    requires WellFormed(rows)
    ensures TotalSize(rows, Volumes(rows)) == |rows|
  {
    if rows != [] {
      var init := rows[..|rows| - 1];
      var r := rows[|rows| - 1];
      assert rows == init + [r];
      GroupSizesSum(init);
      TotalSizeAppendRow(init, r, Volumes(init));
      VolumesSpec(init);
      DistinctCount(Volumes(init), r[1]);
      if r[1] !in Volumes(init) {
        NoMembers(init, r[1]);
      }
    }
  }
}
