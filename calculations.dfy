/** The aggregation stage of calculations.py (lines 47-94): the loops that
    list the projects, cut the fetched rows into one frame per project, list
    each frame's space types, key both lists by project name, and sum the
    areas per space type and per project.

    The script as written reads the per-project frames from `all_proj_dfs`
    (lines 81 and 92), a name it never defines; the dictionary it does build
    for that purpose is `all_projects` (line 75). The model reads from
    `allProjects`, which is evidently what was meant. */
module Calculations {
  import opened Distinct
  import opened Rows

  /** Everything the script computes from the fetched rows, under the names
      it gives them. */
  datatype Summary = Summary(
    projList: seq<string>,
    projCount: nat,
    projDfs: seq<seq<Row>>,
    projTypes: seq<seq<string>>,
    spaceTypes: map<string, seq<string>>,
    allProjects: map<string, seq<Row>>,
    projAreas: seq<seq<int>>,
    totalProjAreas: seq<int>)

  /** Lines 47-51: the distinct project names, in the order in which they
      first occur among the rows, and their number. */
  method ProjectList(rooms: seq<Room>) returns (projList: seq<string>, projCount: nat)
    ensures projList == Unique(ProjectColumn(rooms))
    ensures projCount == |projList|
    ensures FirstSeenList(ProjectColumn(rooms), projList)
  {
    var unique := Unique(ProjectColumn(rooms));
    UniqueIsFirstSeenList(ProjectColumn(rooms));
    projList := [];
    for k := 0 to |unique|
      invariant projList == unique[..k]
    {
      projList := projList + [unique[k]];
    }
    projCount := |projList|;
  }

  /** Lines 55-58: one frame per project name, holding that project's rows
      in source order with the columns project, space_type and sf. */
  method ProjectFrames(rooms: seq<Room>, projList: seq<string>) returns (projDfs: seq<seq<Row>>)
    ensures |projDfs| == |projList|
    ensures forall x :: 0 <= x < |projList| ==> projDfs[x] == SelectProject(rooms, projList[x])
    ensures projDfs == Partitions(rooms, projList)
  {
    projDfs := [];
    for x := 0 to |projList|
      invariant |projDfs| == x
      invariant forall y :: 0 <= y < x ==> projDfs[y] == SelectProject(rooms, projList[y])
    {
      projDfs := projDfs + [SelectProject(rooms, projList[x])];
    }
  }

  /** Lines 61-65: for each frame, its distinct space types in the order in
      which they first occur in the frame. */
  method ProjectTypes(projDfs: seq<seq<Row>>) returns (projTypes: seq<seq<string>>)
    ensures |projTypes| == |projDfs|
    ensures forall x :: 0 <= x < |projDfs| ==> projTypes[x] == Unique(TypeColumn(projDfs[x]))
  {
    var typeList: seq<string> := [];
    projTypes := [];
    for x := 0 to |projDfs|
      invariant |projTypes| == x
      invariant forall y :: 0 <= y < x ==> projTypes[y] == Unique(TypeColumn(projDfs[y]))
    {
      typeList := Unique(TypeColumn(projDfs[x]));
      projTypes := projTypes + [typeList];
    }
  }

  /** Lines 78-86: for each project, in the order of `projList`, the summed
      area of its frame's rows of each of its space types, aligned by
      position with that project's list of types. */
  method ProjectAreas(projList: seq<string>, spaceTypes: map<string, seq<string>>,
                      allProjects: map<string, seq<Row>>)
    returns (projAreas: seq<seq<int>>)
    requires forall y :: 0 <= y < |projList| ==> projList[y] in spaceTypes && projList[y] in allProjects
    ensures |projAreas| == |projList|
    ensures forall y :: 0 <= y < |projList| ==>
              projAreas[y] == AreaList(allProjects[projList[y]], spaceTypes[projList[y]])
    // The same, spelled out entry by entry.
    ensures forall y :: 0 <= y < |projList| ==>
              |projAreas[y]| == |spaceTypes[projList[y]]| &&
              forall x :: 0 <= x < |projAreas[y]| ==>
                projAreas[y][x] == SumSf(SelectType(allProjects[projList[y]], spaceTypes[projList[y]][x]))
  {
    projAreas := [];
    for y := 0 to |projList|
      invariant |projAreas| == y
      invariant forall z :: 0 <= z < y ==> projAreas[z] == AreaList(allProjects[projList[z]], spaceTypes[projList[z]])
    {
      var curProjName := projList[y];
      var curProjDf := allProjects[curProjName];  // `all_proj_dfs` in the script
      var areaList: seq<int> := [];
      for x := 0 to |spaceTypes[curProjName]|
        invariant |areaList| == x
        invariant forall k :: 0 <= k < x ==> areaList[k] == SumSf(SelectType(curProjDf, spaceTypes[curProjName][k]))
      {
        var newAreaSum := SumSf(SelectType(curProjDf, spaceTypes[curProjName][x]));
        areaList := areaList + [newAreaSum];
      }
      projAreas := projAreas + [areaList];
    }
  }

  /** Lines 89-94: for each project, in the order of `projList`, the summed
      area of all rows of its frame. */
  method TotalProjectAreas(projList: seq<string>, allProjects: map<string, seq<Row>>)
    returns (totalProjAreas: seq<int>)
    requires forall y :: 0 <= y < |projList| ==> projList[y] in allProjects
    ensures |totalProjAreas| == |projList|
    ensures forall y :: 0 <= y < |projList| ==> totalProjAreas[y] == SumSf(allProjects[projList[y]])
  {
    totalProjAreas := [];
    for y := 0 to |projList|
      invariant |totalProjAreas| == y
      invariant forall z :: 0 <= z < y ==> totalProjAreas[z] == SumSf(allProjects[projList[z]])
    {
      var curProjName := projList[y];
      var curProjDf := allProjects[curProjName];  // `all_proj_dfs` in the script
      var totalAreaSum := SumSf(curProjDf);
      totalProjAreas := totalProjAreas + [totalAreaSum];
    }
  }

  // ---------------------------------------------------------------------
  // What each stage's result satisfies.
  // ---------------------------------------------------------------------

  /** `projDfs` is aligned with `projList`; each frame is the non-empty
      selection of its project's rows; no row lies in two frames; and the
      frames hold as many rows as there are fetched rows. */
  ghost predicate IsPartition(rooms: seq<Room>, projList: seq<string>, projDfs: seq<seq<Row>>) {
    && |projDfs| == |projList|
    && (forall x :: 0 <= x < |projList| ==> projDfs[x] == SelectProject(rooms, projList[x]) && |projDfs[x]| > 0)
    && (forall x, y, r :: 0 <= x < y < |projDfs| && r in projDfs[x] ==> r !in projDfs[y])
    && Total(Sizes(projDfs)) == |rooms|
  }

  /** Each frame's type list holds the types that occur in the frame, each
      once, in the order of first appearance in the frame. */
  ghost predicate DistinctTypes(projDfs: seq<seq<Row>>, projTypes: seq<seq<string>>) {
    && |projTypes| == |projDfs|
    && (forall x :: 0 <= x < |projDfs| ==> FirstSeenList(TypeColumn(projDfs[x]), projTypes[x]))
  }

  /** Both maps have exactly the project names as keys, and each name maps
      to the entry at its own position. */
  ghost predicate KeyedByProject(projList: seq<string>, projTypes: seq<seq<string>>, projDfs: seq<seq<Row>>,
                           spaceTypes: map<string, seq<string>>, allProjects: map<string, seq<Row>>)
  {
    && |projTypes| == |projList| && |projDfs| == |projList|
    && (forall p :: p in spaceTypes <==> p in projList)
    && (forall p :: p in allProjects <==> p in projList)
    && (forall x :: 0 <= x < |projList| ==>
          spaceTypes[projList[x]] == projTypes[x] && allProjects[projList[x]] == projDfs[x])
  }

  /** Per project: the area list is aligned with the type list and holds the
      per-type sums, the total is the frame's summed area, and the per-type
      sums add up to the total. */
  ghost predicate AreasAddUp(projDfs: seq<seq<Row>>, projTypes: seq<seq<string>>,
                       projAreas: seq<seq<int>>, totalProjAreas: seq<int>)
  {
    && |projTypes| == |projDfs| && |projAreas| == |projDfs| && |totalProjAreas| == |projDfs|
    && (forall y :: 0 <= y < |projDfs| ==>
          && projAreas[y] == AreaList(projDfs[y], projTypes[y])
          && totalProjAreas[y] == SumSf(projDfs[y])
          && Total(projAreas[y]) == totalProjAreas[y])
  }

  /** Every per-type sum is positive and no larger than its project's total. */
  ghost predicate AreasBounded(projAreas: seq<seq<int>>, totalProjAreas: seq<int>)
    requires |projAreas| == |totalProjAreas|
  {
    forall y, x :: 0 <= y < |projAreas| && 0 <= x < |projAreas[y]| ==>
      0 < projAreas[y][x] <= totalProjAreas[y]
  }

  // ---------------------------------------------------------------------
  // Each stage keeps its promise.
  // ---------------------------------------------------------------------

  /** Partitioning by a first-seen project list yields a disjoint cover of
      the rows by non-empty frames. */
  lemma PartitionOfFirstSeen(rooms: seq<Room>, projList: seq<string>)
    requires FirstSeenList(ProjectColumn(rooms), projList)
    ensures IsPartition(rooms, projList, Partitions(rooms, projList))
  {
    var projDfs := Partitions(rooms, projList);
    forall x | 0 <= x < |projList| ensures |projDfs[x]| > 0 {
      SelectProjectNonEmpty(rooms, projList[x]);
    }
    assert forall i :: 0 <= i < |rooms| ==> ProjectColumn(rooms)[i] == rooms[i].project;
    PartitionsCover(rooms, projList);
  }

  /** Taking the distinct types of each frame gives its distinct types. */
  lemma UniqueTypesAreDistinct(projDfs: seq<seq<Row>>, projTypes: seq<seq<string>>)
    requires |projTypes| == |projDfs|
    requires forall x :: 0 <= x < |projDfs| ==> projTypes[x] == Unique(TypeColumn(projDfs[x]))
    ensures DistinctTypes(projDfs, projTypes)
  {
    forall x | 0 <= x < |projDfs| ensures FirstSeenList(TypeColumn(projDfs[x]), projTypes[x]) {
      UniqueIsFirstSeenList(TypeColumn(projDfs[x]));
    }
  }

  /** `dict(zip(...))` over the distinct project names keeps every pairing. */
  lemma ZipByProject(projList: seq<string>, projTypes: seq<seq<string>>, projDfs: seq<seq<Row>>)
    requires NoDups(projList) && |projTypes| == |projList| && |projDfs| == |projList|
    ensures KeyedByProject(projList, projTypes, projDfs, Zip(projList, projTypes), Zip(projList, projDfs))
  {
    ZipDistinctKeys(projList, projTypes);
    ZipDistinctKeys(projList, projDfs);
    forall p ensures (p in Zip(projList, projTypes) <==> p in projList) && (p in Zip(projList, projDfs) <==> p in projList) {
      if p in projList {
        var k :| 0 <= k < |projList| && projList[k] == p;
        assert p in (set i | 0 <= i < |projList| && i < |projTypes| :: projList[i]);
      }
    }
  }

  /** When each frame's type list is its distinct types, the per-type sums of
      every project add up to its total. */
  lemma AreaSumsOfDistinctTypes(projDfs: seq<seq<Row>>, projTypes: seq<seq<string>>)
    requires DistinctTypes(projDfs, projTypes)
    ensures forall y :: 0 <= y < |projDfs| ==>
              Total(AreaList(projDfs[y], projTypes[y])) == SumSf(projDfs[y])
  {
    forall y | 0 <= y < |projDfs| ensures Total(AreaList(projDfs[y], projTypes[y])) == SumSf(projDfs[y]) {
      forall j | 0 <= j < |projDfs[y]| ensures projDfs[y][j].spaceType in projTypes[y] {
        assert TypeColumn(projDfs[y])[j] == projDfs[y][j].spaceType;
      }
      AreaListSumsToTotal(projDfs[y], projTypes[y]);
    }
  }

  /** With positive row areas, every per-type sum over a frame's own types is
      positive and within the frame's total. */
  lemma AreasWithinTotals(rooms: seq<Room>, projList: seq<string>, projDfs: seq<seq<Row>>,
                          projTypes: seq<seq<string>>)
    requires PositiveAreas(rooms)
    requires |projDfs| == |projList|
    requires forall x :: 0 <= x < |projList| ==> projDfs[x] == SelectProject(rooms, projList[x])
    requires DistinctTypes(projDfs, projTypes)
    ensures forall y, x :: 0 <= y < |projDfs| && 0 <= x < |projTypes[y]| ==>
              0 < SumSf(SelectType(projDfs[y], projTypes[y][x])) <= SumSf(projDfs[y])
  {
    forall y, x | 0 <= y < |projDfs| && 0 <= x < |projTypes[y]|
      ensures 0 < SumSf(SelectType(projDfs[y], projTypes[y][x])) <= SumSf(projDfs[y])
    {
      SelectProjectPositive(rooms, projList[y]);
      TypeAreaBounds(projDfs[y], projTypes[y][x]);
    }
  }

  /** Through the map of frames, every row is found in its own project's
      frame. */
  lemma RoomsInTheirFrames(rooms: seq<Room>, projList: seq<string>, projDfs: seq<seq<Row>>,
                           allProjects: map<string, seq<Row>>)
    requires FirstSeenList(ProjectColumn(rooms), projList)
    requires IsPartition(rooms, projList, projDfs)
    requires forall p :: p in allProjects <==> p in projList
    requires forall x :: 0 <= x < |projList| ==> allProjects[projList[x]] == projDfs[x]
    ensures forall i :: 0 <= i < |rooms| ==>
              rooms[i].project in allProjects && Trim(rooms[i]) in allProjects[rooms[i].project]
  {
    forall i | 0 <= i < |rooms|
      ensures rooms[i].project in allProjects && Trim(rooms[i]) in allProjects[rooms[i].project]
    {
      assert ProjectColumn(rooms)[i] == rooms[i].project;
      var x :| 0 <= x < |projList| && projList[x] == rooms[i].project;
      assert Trim(rooms[i]) in SelectProject(rooms, projList[x]);
    }
  }

  /** The area loops of lines 78-94, run over the maps of lines 68-75, give
      per-type sums that are aligned with the types and add up to each
      project's total; with positive row areas each sum is positive and within
      the total. */
  lemma AreasOfKeyedFrames(rooms: seq<Room>, projList: seq<string>, projTypes: seq<seq<string>>,
                           projDfs: seq<seq<Row>>, spaceTypes: map<string, seq<string>>,
                           allProjects: map<string, seq<Row>>, projAreas: seq<seq<int>>,
                           totalProjAreas: seq<int>)
    requires IsPartition(rooms, projList, projDfs)
    requires DistinctTypes(projDfs, projTypes)
    requires KeyedByProject(projList, projTypes, projDfs, spaceTypes, allProjects)
    requires |projAreas| == |projList|
    requires forall y :: 0 <= y < |projList| ==>
               projAreas[y] == AreaList(allProjects[projList[y]], spaceTypes[projList[y]])
    requires |totalProjAreas| == |projList|
    requires forall y :: 0 <= y < |projList| ==> totalProjAreas[y] == SumSf(allProjects[projList[y]])
    ensures AreasAddUp(projDfs, projTypes, projAreas, totalProjAreas)
    ensures PositiveAreas(rooms) ==> AreasBounded(projAreas, totalProjAreas)
  {
    AreaSumsOfDistinctTypes(projDfs, projTypes);
    if PositiveAreas(rooms) {
      AreasWithinTotals(rooms, projList, projDfs, projTypes);
    }
  }

  /** Lines 47-94 in sequence, with what their results satisfy. */
  method Calculate(rooms: seq<Room>) returns (s: Summary)
    ensures s.projCount == |s.projList|
    ensures FirstSeenList(ProjectColumn(rooms), s.projList)
    ensures IsPartition(rooms, s.projList, s.projDfs)
    ensures DistinctTypes(s.projDfs, s.projTypes)
    ensures KeyedByProject(s.projList, s.projTypes, s.projDfs, s.spaceTypes, s.allProjects)
    ensures forall i :: 0 <= i < |rooms| ==>
              rooms[i].project in s.allProjects && Trim(rooms[i]) in s.allProjects[rooms[i].project]
    ensures AreasAddUp(s.projDfs, s.projTypes, s.projAreas, s.totalProjAreas)
    ensures PositiveAreas(rooms) ==> AreasBounded(s.projAreas, s.totalProjAreas)
  {
    var projList, projCount := ProjectList(rooms);
    var projDfs := ProjectFrames(rooms, projList);
    PartitionOfFirstSeen(rooms, projList);
    var projTypes := ProjectTypes(projDfs);
    UniqueTypesAreDistinct(projDfs, projTypes);
    var spaceTypes := Zip(projList, projTypes);
    var allProjects := Zip(projList, projDfs);
    ZipByProject(projList, projTypes, projDfs);
    RoomsInTheirFrames(rooms, projList, projDfs, allProjects);
    var projAreas := ProjectAreas(projList, spaceTypes, allProjects);
    var totalProjAreas := TotalProjectAreas(projList, allProjects);
    AreasOfKeyedFrames(rooms, projList, projTypes, projDfs, spaceTypes, allProjects, projAreas, totalProjAreas);
    s := Summary(projList, projCount, projDfs, projTypes, spaceTypes, allProjects, projAreas, totalProjAreas);
  }
}
