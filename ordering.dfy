/** What the query's `ORDER BY project` (calculations.py:32) adds to the
    aggregation: with the rows sorted by project, each project's rows form
    one contiguous run, the frames of lines 55-58 laid end to end give back
    the rows in their original order, and the first-seen project list is in
    ascending order. The warehouse's collation is modelled as the
    lexicographic order of character codes. */
module Ordering {
  import opened Distinct
  import opened Rows

  /** Lexicographic order of strings by character code. */
  predicate LexLe(a: string, b: string) {
    |a| == 0 || (|b| > 0 && (a[0] < b[0] || (a[0] == b[0] && LexLe(a[1..], b[1..]))))
  }

  /** Two strings each at most the other are equal. */
  lemma {:induction false} LexLeAntisymmetric(a: string, b: string)
    requires LexLe(a, b) && LexLe(b, a)
    ensures a == b
  {
    if |a| > 0 {
      LexLeAntisymmetric(a[1..], b[1..]);
      assert a == [a[0]] + a[1..] && b == [b[0]] + b[1..];
    }
  }

  /** A column in ascending order, as `ORDER BY` delivers it. */
  predicate Ascending(c: seq<string>) {
    forall i, j :: 0 <= i < j < |c| ==> LexLe(c[i], c[j])
  }

  /** The rows concatenated back from a list of frames. */
  function Concat(parts: seq<seq<Row>>): (rows: seq<Row>)
    ensures |rows| == Total(Sizes(parts))
  {
    if parts == [] then [] else parts[0] + Concat(parts[1..])
  }

  /** The fetched rows with the three columns of line 58 kept. */
  function TrimAll(rooms: seq<Room>): (rows: seq<Row>) {
    seq(|rooms|, i requires 0 <= i < |rooms| => Trim(rooms[i]))
  }

  /** A sorted column has its equal values next to each other. */
  lemma {:induction false} AscendingIsContiguous(c: seq<string>)
    requires Ascending(c)
    ensures Contiguous(c)
  {
    if |c| > 1 {
      var p := c[..|c| - 1];
      assert Ascending(p) by {
        assert forall i :: 0 <= i < |p| ==> p[i] == c[i];
      }
      AscendingIsContiguous(p);
      if c[|c| - 1] in p {
        var i :| 0 <= i < |p| && p[i] == c[|c| - 1];
        if i < |c| - 2 {
          assert LexLe(c[i], c[|c| - 2]) && LexLe(c[|c| - 2], c[|c| - 1]);
          LexLeAntisymmetric(c[|c| - 2], c[|c| - 1]);
        }
      }
    }
  }

  /** When the rows are sorted by project, the first-seen project list is
      strictly ascending: first-seen order is sorted order. */
  lemma SortedProjectList(rooms: seq<Room>, projList: seq<string>)
    requires Ascending(ProjectColumn(rooms))
    requires FirstSeenList(ProjectColumn(rooms), projList)
    ensures forall x, y :: 0 <= x < y < |projList| ==> LexLe(projList[x], projList[y]) && projList[x] != projList[y]
  {
    var c := ProjectColumn(rooms);
    forall x, y | 0 <= x < y < |projList| ensures LexLe(projList[x], projList[y]) {
      var i, j := FirstIndex(c, projList[x]), FirstIndex(c, projList[y]);
      assert i < j && c[i] == projList[x] && c[j] == projList[y];
    }
  }

  /** Concatenating one more frame appends its rows. */
  lemma {:induction false} ConcatSnoc(parts: seq<seq<Row>>, last: seq<Row>)
    ensures Concat(parts + [last]) == Concat(parts) + last
  {
    if parts == [] {
      assert [last][1..] == [];
    } else {
      assert (parts + [last])[1..] == parts[1..] + [last];
      ConcatSnoc(parts[1..], last);
    }
  }

  /** Adding a row to the last frame adds it at the end of the rows. */
  lemma ConcatExtendLast(front: seq<seq<Row>>, last: seq<Row>, x: Row)
    ensures Concat(front + [last + [x]]) == Concat(front + [last]) + [x]
  {
    ConcatSnoc(front, last);
    ConcatSnoc(front, last + [x]);
    assert Concat(front) + (last + [x]) == (Concat(front) + last) + [x];
  }

  /** Asking for one more project name adds that project's frame at the end. */
  lemma PartitionsSnoc(rooms: seq<Room>, ps: seq<string>, q: string)
    ensures Partitions(rooms, ps + [q]) == Partitions(rooms, ps) + [SelectProject(rooms, q)]
  {
  }

  /** A room of a project not asked for changes none of the frames. */
  lemma PartitionsSkipRoom(rooms: seq<Room>, r: Room, ps: seq<string>)
    requires r.project !in ps
    ensures Partitions(rooms + [r], ps) == Partitions(rooms, ps)
  {
    forall x | 0 <= x < |ps| ensures SelectProject(rooms + [r], ps[x]) == SelectProject(rooms, ps[x]) {
      SelectProjectAppend(rooms, [r], ps[x]);
    }
  }

  /** A room added at the end lands at the end of its own project's frame. */
  lemma SelectProjectSnoc(rooms: seq<Room>, r: Room)
    ensures SelectProject(rooms + [r], r.project) == SelectProject(rooms, r.project) + [Trim(r)]
  {
    SelectProjectAppend(rooms, [r], r.project);
  }

  /** A project without rows has an empty frame. */
  lemma {:induction false} SelectProjectAbsent(rooms: seq<Room>, q: string)
    requires q !in ProjectColumn(rooms)
    ensures SelectProject(rooms, q) == []
  {
    if rooms != [] {
      assert ProjectColumn(rooms)[0] == rooms[0].project;
      assert ProjectColumn(rooms[1..]) == ProjectColumn(rooms)[1..];
      SelectProjectAbsent(rooms[1..], q);
    }
  }

  /** One room more, of the project listed last: it extends the last frame. */
  lemma FramesConcatRepeat(p: seq<Room>, r: Room, names: seq<string>)
    requires NoDups(names) && names != [] && names[|names| - 1] == r.project
    requires Concat(Partitions(p, names)) == TrimAll(p)
    ensures Concat(Partitions(p + [r], names)) == TrimAll(p) + [Trim(r)]
  {
    var q, before := r.project, names[..|names| - 1];
    assert names == before + [q];
    assert q !in before;
    SelectProjectSnoc(p, r);
    PartitionsSnoc(p + [r], before, q);
    PartitionsSnoc(p, before, q);
    PartitionsSkipRoom(p, r, before);
    var front, last := Partitions(p, before), SelectProject(p, q);
    assert Partitions(p, names) == front + [last];
    assert Partitions(p + [r], names) == front + [last + [Trim(r)]];
    ConcatExtendLast(front, last, Trim(r));
  }

  /** One room more, of a project that has no rows yet: it forms a new last
      frame. */
  lemma FramesConcatNew(p: seq<Room>, r: Room, names: seq<string>)
    requires r.project !in names && r.project !in ProjectColumn(p)
    requires Concat(Partitions(p, names)) == TrimAll(p)
    ensures Concat(Partitions(p + [r], names + [r.project])) == TrimAll(p) + [Trim(r)]
  {
    var q := r.project;
    SelectProjectSnoc(p, r);
    SelectProjectAbsent(p, q);
    PartitionsSnoc(p + [r], names, q);
    PartitionsSkipRoom(p, r, names);
    assert SelectProject(p + [r], q) == [Trim(r)];
    assert Partitions(p + [r], names + [q]) == Partitions(p, names) + [[Trim(r)]];
    ConcatSnoc(Partitions(p, names), [Trim(r)]);
  }

  /** Trimming one room more appends its trimmed row. */
  lemma TrimAllSnoc(p: seq<Room>, r: Room)
    ensures TrimAll(p + [r]) == TrimAll(p) + [Trim(r)]
  {
  }

  /** The project column of one room more, and its distinct values. */
  lemma ProjectColumnSnoc(p: seq<Room>, r: Room)
    ensures ProjectColumn(p + [r]) == ProjectColumn(p) + [r.project]
    ensures Unique(ProjectColumn(p + [r])) ==
            if r.project in ProjectColumn(p) then Unique(ProjectColumn(p))
            else Unique(ProjectColumn(p)) + [r.project]
  {
    var c := ProjectColumn(p + [r]);
    assert c == ProjectColumn(p) + [r.project];
    UniqueSnoc(c);
    assert c[..|c| - 1] == ProjectColumn(p);
  }

  /** One room more at the end keeps the frames laid end to end equal to
      the rows, as long as the project column stays contiguous. */
  lemma FramesConcatStep(p: seq<Room>, r: Room)
    requires Contiguous(ProjectColumn(p + [r]))
    requires Concat(Partitions(p, Unique(ProjectColumn(p)))) == TrimAll(p)
    ensures Concat(Partitions(p + [r], Unique(ProjectColumn(p + [r])))) == TrimAll(p + [r])
  {
    TrimAllSnoc(p, r);
    ProjectColumnSnoc(p, r);
    var names := Unique(ProjectColumn(p));
    if r.project in ProjectColumn(p) {
      RepeatIsLastDistinct(ProjectColumn(p + [r]));
      FramesConcatRepeat(p, r, names);
    } else {
      FramesConcatNew(p, r, names);
    }
  }

  /** With each project's rows contiguous, the frames of lines 55-58, taken
      in first-seen order and laid end to end, are exactly the rows in their
      original order: each frame is one run of the rows. */
  lemma {:induction false} ContiguousFramesConcat(rooms: seq<Room>)
    requires Contiguous(ProjectColumn(rooms))
    ensures Concat(Partitions(rooms, Unique(ProjectColumn(rooms)))) == TrimAll(rooms)
  {
    if rooms == [] {
      assert Unique(ProjectColumn(rooms)) == [];
    } else {
      var p, r := rooms[..|rooms| - 1], rooms[|rooms| - 1];
      var c := ProjectColumn(rooms);
      assert rooms == p + [r];
      assert c[..|c| - 1] == ProjectColumn(p);
      ContiguousFramesConcat(p);
      FramesConcatStep(p, r);
    }
  }

  /** The query's sort order makes the frames contiguous runs of the rows. */
  lemma SortedFramesConcat(rooms: seq<Room>)
    requires Ascending(ProjectColumn(rooms))
    ensures Concat(Partitions(rooms, Unique(ProjectColumn(rooms)))) == TrimAll(rooms)
  {
    AscendingIsContiguous(ProjectColumn(rooms));
    ContiguousFramesConcat(rooms);
  }
}
