/** The rows that calculations.py fetches, and the pure table operations the
    script applies to them: the boolean masks of lines 57 and 84, pandas'
    `.sum()` of lines 84 and 93, and `dict(zip(...))` of lines 70 and 75.
    Areas are integers here; the source's floating-point `sf` is not
    modelled. */
module Rows {
  import opened Distinct

  datatype Option<T> = None | Some(value: T)

  /** One row of the warehouse query of calculations.py:17-32. The columns
      `floor`, `room` and `room_number` play no part in the aggregates and are
      not modelled; `desk_count` may be NULL in the warehouse. */
  datatype Room = Room(project: string, spaceType: string, sf: int, deskCount: Option<nat>)

  /** One row of a per-project frame: the three columns kept at line 58. */
  datatype Row = Row(project: string, spaceType: string, sf: int)

  /** The column selection `["project", "space_type", "sf"]` of line 58. */
  function Trim(r: Room): (row: Row) {
    Row(r.project, r.spaceType, r.sf)
  }

  /** Trimming keeps the project, the space type and the area of a room
      unchanged; only the other columns are dropped. */
  lemma TrimKeepsColumns(r: Room)
    ensures Trim(r).project == r.project && Trim(r).spaceType == r.spaceType && Trim(r).sf == r.sf
  {
  }

  /** The column `rooms['project']`. */
  function ProjectColumn(rooms: seq<Room>): (c: seq<string>) {
    seq(|rooms|, i requires 0 <= i < |rooms| => rooms[i].project)
  }

  /** The column `df['space_type']` of one frame. */
  function TypeColumn(part: seq<Row>): (c: seq<string>) {
    seq(|part|, i requires 0 <= i < |part| => part[i].spaceType)
  }

  /** What the query's `sf > 0` (line 31) guarantees of every fetched row. */
  predicate PositiveAreas(rooms: seq<Room>) {
    forall i :: 0 <= i < |rooms| ==> rooms[i].sf > 0
  }

  /** `rooms.loc[rooms['project'] == p, ["project", "space_type", "sf"]]`:
      the rows of project `p`, in source order, with three columns kept. */
  function SelectProject(rooms: seq<Room>, p: string): (part: seq<Row>)
    ensures |part| <= |rooms|
    ensures forall j :: 0 <= j < |part| ==> part[j].project == p
    ensures forall i :: 0 <= i < |rooms| && rooms[i].project == p ==> Trim(rooms[i]) in part
    ensures forall r :: r in part ==> exists room :: room in rooms && room.project == p && Trim(room) == r
  {
    if rooms == [] then []
    else
      var rest := SelectProject(rooms[1..], p);
      assert forall i :: 1 <= i < |rooms| ==> rooms[i] == rooms[1..][i - 1];
      if rooms[0].project == p then [Trim(rooms[0])] + rest else rest
  }

  /** `df.loc[df['space_type'] == t, 'sf']` reduced to its rows: the rows of
      one frame whose space type is `t`, in frame order. */
  function SelectType(part: seq<Row>, t: string): (sel: seq<Row>)
    ensures |sel| <= |part|
    ensures forall j :: 0 <= j < |sel| ==> sel[j].spaceType == t && sel[j] in part
    ensures forall i :: 0 <= i < |part| && part[i].spaceType == t ==> part[i] in sel
  {
    if part == [] then []
    else
      var rest := SelectType(part[1..], t);
      assert forall i :: 1 <= i < |part| ==> part[i] == part[1..][i - 1];
      if part[0].spaceType == t then [part[0]] + rest else rest
  }

  /** `df['sf'].sum()`: the summed area of a frame's rows; an empty frame
      sums to 0. */
  function SumSf(part: seq<Row>): (s: int)
    ensures part == [] ==> s == 0
  {
    if part == [] then 0 else part[0].sf + SumSf(part[1..])
  }

  /** The sum of a list of numbers. */
  function Total(xs: seq<int>): (t: int) {
    if xs == [] then 0 else xs[0] + Total(xs[1..])
  }

  /** The number of rows of each frame in a list of frames. */
  function Sizes(parts: seq<seq<Row>>): (n: seq<int>)
    ensures |n| == |parts|
    ensures forall x :: 0 <= x < |parts| ==> n[x] == |parts[x]|
  {
    if parts == [] then [] else [|parts[0]|] + Sizes(parts[1..])
  }

  /** The list of per-project frames that lines 55-58 build: one frame per
      project name, aligned by position with the list of names. */
  function Partitions(rooms: seq<Room>, ps: seq<string>): (parts: seq<seq<Row>>)
    ensures |parts| == |ps|
    ensures forall x :: 0 <= x < |ps| ==> parts[x] == SelectProject(rooms, ps[x])
  {
    if ps == [] then [] else [SelectProject(rooms, ps[0])] + Partitions(rooms, ps[1..])
  }

  /** The area sums of lines 83-85 for one frame: for each listed space type,
      the summed area of the frame's rows of that type, aligned by position
      with the list of types. */
  function AreaList(part: seq<Row>, types: seq<string>): (areas: seq<int>)
    ensures |areas| == |types|
    ensures forall x :: 0 <= x < |types| ==> areas[x] == SumSf(SelectType(part, types[x]))
  {
    if types == [] then [] else [SumSf(SelectType(part, types[0]))] + AreaList(part, types[1..])
  }

  /** `dict(zip(keys, values))`: pairs up the two lists as far as the shorter
      one goes; when a key repeats, the later pair overwrites the earlier. */
  function Zip<K, V>(keys: seq<K>, values: seq<V>): (m: map<K, V>)
    ensures m.Keys == set i | 0 <= i < |keys| && i < |values| :: keys[i]
  {
    if keys == [] || values == [] then map[]
    else
      var rest := Zip(keys[1..], values[1..]);
      assert rest.Keys == set i | 1 <= i < |keys| && i < |values| :: keys[i] by {
        forall k | k in rest.Keys ensures exists i :: 1 <= i < |keys| && i < |values| && keys[i] == k {
          var i :| 0 <= i < |keys[1..]| && i < |values[1..]| && keys[1..][i] == k;
          assert keys[i + 1] == k;
        }
        forall i | 1 <= i < |keys| && i < |values| ensures keys[i] in rest.Keys {
          assert keys[1..][i - 1] == keys[i];
        }
      }
      map[keys[0] := values[0]] + rest
  }

  // ---------------------------------------------------------------------
  // Concatenation: the masks and sums work row by row.
  // ---------------------------------------------------------------------

  /** Masking a concatenation masks each half: the selection keeps the
      source order of the rows. */
  lemma {:induction false} SelectProjectAppend(a: seq<Room>, b: seq<Room>, p: string)
    ensures SelectProject(a + b, p) == SelectProject(a, p) + SelectProject(b, p)
  {
    if a != [] {
      assert (a + b)[1..] == a[1..] + b;
      SelectProjectAppend(a[1..], b, p);
    } else {
      assert a + b == b;
    }
  }

  /** Masking a concatenation on space type masks each half: every row of
      the type is kept, as often as it occurs, in frame order. */
  lemma {:induction false} SelectTypeAppend(a: seq<Row>, b: seq<Row>, t: string)
    ensures SelectType(a + b, t) == SelectType(a, t) + SelectType(b, t)
  {
    if a != [] {
      assert (a + b)[1..] == a[1..] + b;
      SelectTypeAppend(a[1..], b, t);
    } else {
      assert a + b == b;
    }
  }

  /** A frame of positive areas has a positive total, at least the area of
      each of its rows. */
  lemma {:induction false} SumSfPositive(part: seq<Row>)
    requires forall j :: 0 <= j < |part| ==> part[j].sf > 0
    ensures part != [] ==> SumSf(part) > 0
    ensures forall j :: 0 <= j < |part| ==> part[j].sf <= SumSf(part)
  {
    if part != [] {
      SumSfPositive(part[1..]);
      assert forall j :: 1 <= j < |part| ==> part[j] == part[1..][j - 1];
    }
  }

  /** The summed area of a concatenation is the sum of the two areas. */
  lemma {:induction false} SumSfAppend(a: seq<Row>, b: seq<Row>)
    ensures SumSf(a + b) == SumSf(a) + SumSf(b)
  {
    if a != [] {
      assert (a + b)[1..] == a[1..] + b;
      SumSfAppend(a[1..], b);
    } else {
      assert a + b == b;
    }
  }

  // ---------------------------------------------------------------------
  // Partitioning by project (lines 55-58).
  // ---------------------------------------------------------------------

  /** Adding one room in front adds one row to the partition of its own
      project, and only there, when the names are distinct. */
  lemma {:induction false} SizesConsRoom(r: Room, rest: seq<Room>, ps: seq<string>)
    requires NoDups(ps)
    ensures Total(Sizes(Partitions([r] + rest, ps)))
         == Total(Sizes(Partitions(rest, ps))) + (if r.project in ps then 1 else 0)
  {
    if ps != [] {
      assert NoDups(ps[1..]) by {
        forall i, j | 0 <= i < j < |ps[1..]| ensures ps[1..][i] != ps[1..][j] {
          assert ps[1..][i] == ps[i + 1] && ps[1..][j] == ps[j + 1];
        }
      }
      SizesConsRoom(r, rest, ps[1..]);
      assert ([r] + rest)[1..] == rest;
      assert ps[0] == r.project ==> r.project !in ps[1..];
      assert r.project in ps <==> r.project == ps[0] || r.project in ps[1..] by {
        assert ps == [ps[0]] + ps[1..];
      }
    }
  }

  /** The partitions of lines 55-58 cover every row exactly once: when the
      project names are distinct and name every row's project, the frame
      sizes add up to the number of rows. */
  lemma {:induction false} PartitionsCover(rooms: seq<Room>, ps: seq<string>)
    requires NoDups(ps)
    requires forall i :: 0 <= i < |rooms| ==> rooms[i].project in ps
    ensures Total(Sizes(Partitions(rooms, ps))) == |rooms|
  {
    if rooms == [] {
      EmptyPartitions(ps);
    } else {
      assert rooms == [rooms[0]] + rooms[1..];
      PartitionsCover(rooms[1..], ps);
      SizesConsRoom(rooms[0], rooms[1..], ps);
    }
  }

  /** With no rows every partition is empty. */
  lemma {:induction false} EmptyPartitions(ps: seq<string>)
    ensures Total(Sizes(Partitions([], ps))) == 0
  {
    if ps != [] {
      EmptyPartitions(ps[1..]);
    }
  }

  /** A frame of a project that occurs in the rows is not empty. */
  lemma SelectProjectNonEmpty(rooms: seq<Room>, p: string)
    requires p in ProjectColumn(rooms)
    ensures |SelectProject(rooms, p)| > 0
  {
    var i :| 0 <= i < |rooms| && ProjectColumn(rooms)[i] == p;
    assert Trim(rooms[i]) in SelectProject(rooms, p);
  }

  /** The rows of a frame have positive area when the fetched rows do. */
  lemma SelectProjectPositive(rooms: seq<Room>, p: string)
    requires PositiveAreas(rooms)
    ensures forall j :: 0 <= j < |SelectProject(rooms, p)| ==> SelectProject(rooms, p)[j].sf > 0
  {
  }

  // ---------------------------------------------------------------------
  // Area sums per space type (lines 78-94).
  // ---------------------------------------------------------------------

  /** Adding one row in front adds its area to the sum of its own type, and
      only there, when the types are distinct. */
  lemma {:induction false} AreasConsRow(r: Row, rest: seq<Row>, types: seq<string>)
    requires NoDups(types)
    ensures Total(AreaList([r] + rest, types))
         == Total(AreaList(rest, types)) + (if r.spaceType in types then r.sf else 0)
  {
    if types != [] {
      assert NoDups(types[1..]) by {
        forall i, j | 0 <= i < j < |types[1..]| ensures types[1..][i] != types[1..][j] {
          assert types[1..][i] == types[i + 1] && types[1..][j] == types[j + 1];
        }
      }
      AreasConsRow(r, rest, types[1..]);
      assert ([r] + rest)[1..] == rest;
      assert types[0] == r.spaceType ==> r.spaceType !in types[1..];
      assert r.spaceType in types <==> r.spaceType == types[0] || r.spaceType in types[1..] by {
        assert types == [types[0]] + types[1..];
      }
    }
  }

  /** With no rows every per-type sum is zero. */
  lemma {:induction false} EmptyAreas(types: seq<string>)
    ensures Total(AreaList([], types)) == 0
  {
    if types != [] {
      EmptyAreas(types[1..]);
    }
  }

  /** The per-type sums of a frame add up to its total area, when the types
      are distinct and include the type of every row. */
  lemma {:induction false} AreaListSumsToTotal(part: seq<Row>, types: seq<string>)
    requires NoDups(types)
    requires forall i :: 0 <= i < |part| ==> part[i].spaceType in types
    ensures Total(AreaList(part, types)) == SumSf(part)
  {
    if part == [] {
      EmptyAreas(types);
    } else {
      assert part == [part[0]] + part[1..];
      AreaListSumsToTotal(part[1..], types);
      AreasConsRow(part[0], part[1..], types);
    }
  }

  /** With positive areas, the sum of the rows of a type that occurs in the
      frame is positive and no larger than the frame's total area. */
  lemma {:induction false} TypeAreaBounds(part: seq<Row>, t: string)
    requires forall j :: 0 <= j < |part| ==> part[j].sf > 0
    ensures 0 <= SumSf(SelectType(part, t)) <= SumSf(part)
    ensures t in TypeColumn(part) ==> SumSf(SelectType(part, t)) > 0
  {
    if part != [] {
      var rest := part[1..];
      TypeAreaBounds(rest, t);
      assert SumSf(part) == part[0].sf + SumSf(rest);
      if part[0].spaceType == t {
        assert SelectType(part, t) == [part[0]] + SelectType(rest, t);
        assert SumSf(SelectType(part, t)) == part[0].sf + SumSf(SelectType(rest, t));
      } else {
        assert SelectType(part, t) == SelectType(rest, t);
        assert TypeColumn(part) == [part[0].spaceType] + TypeColumn(rest);
      }
    }
  }

  // ---------------------------------------------------------------------
  // dict(zip(...)) (lines 68-75).
  // ---------------------------------------------------------------------

  /** A key of `dict(zip(keys, values))` maps to the value paired with its
      last occurrence. */
  lemma {:induction false} ZipLastWins<K, V>(keys: seq<K>, values: seq<V>, i: nat)
    requires i < |keys| && i < |values|
    requires forall j :: i < j < |keys| && j < |values| ==> keys[j] != keys[i]
    ensures keys[i] in Zip(keys, values) && Zip(keys, values)[keys[i]] == values[i]
  {
    var rest := Zip(keys[1..], values[1..]);
    if i > 0 {
      ZipLastWins(keys[1..], values[1..], i - 1);
    }
  }

  /** Zipping distinct keys with as many values overwrites nothing: every key
      maps to the value at its own position. */
  lemma ZipDistinctKeys<K, V>(keys: seq<K>, values: seq<V>)
    requires NoDups(keys) && |keys| == |values|
    ensures forall i :: 0 <= i < |keys| ==> keys[i] in Zip(keys, values) && Zip(keys, values)[keys[i]] == values[i]
  {
    forall i | 0 <= i < |keys|
      ensures keys[i] in Zip(keys, values) && Zip(keys, values)[keys[i]] == values[i]
    {
      ZipLastWins(keys, values, i);
    }
  }
}
