/** What the map shows, told from the reports: which stations are active, and whose paths use a segment. */
module MapContents {
  import opened Text
  import opened NodeGraphs
  import opened GraphBuilding
  import opened MapSegments
  import opened GraphContents

  /** Report `i` is fresh, comes from station `n`, and says where it is. */
  predicate ActiveReport(positions: seq<Position>, n: string, i: int) {
    && 0 <= i < |positions| && n != "" && Norm(positions[i].source) == n
    && positions[i].place != None && positions[i].freshness in {Freshness.Direct, Freshness.Indirect}
  }

  predicate LatestActive(positions: seq<Position>, n: string, i: int) {
    ActiveReport(positions, n, i) && forall j :: i < j < |positions| ==> !ActiveReport(positions, n, j)
  }

  lemma LatestActiveIff(positions: seq<Position>, n: string, i: int)
    ensures IsLatest(positions, ActiveName(), n, i) <==> LatestActive(positions, n, i)
  {
    hide Norm;
    forall j | 0 <= j < |positions| ensures ActiveReport(positions, n, j) <==>
      n != "" && ActiveName()(positions[j]) == n {}
  }

  /** The active stations are those with an active report, and the latest one is kept. */
  lemma ActiveTableIff(positions: seq<Position>, n: string)
    ensures n in ActiveTable(positions) <==> exists i :: LatestActive(positions, n, i)
    ensures forall i :: LatestActive(positions, n, i) ==> ActiveTable(positions)[n] == positions[i]
  {
    hide LatestActive, IsLatest;
    LastReportWins(positions, ActiveName(), n);
    forall i ensures IsLatest(positions, ActiveName(), n, i) <==> LatestActive(positions, n, i) {
      LatestActiveIff(positions, n, i);
    }
  }

  /** Station `n` has a path on the map: by its latest active report it was relayed, or heard directly. */
  ghost predicate Walks(positions: seq<Position>, root: string, n: string, i: int, a: string, b: string) {
    && LatestActive(positions, n, i) && n != root
    && (positions[i].via != [] || positions[i].freshness == Freshness.Direct)
    && StepIn(PathOf(root, n, positions[i]), a, b)
  }

  /** A station uses a segment if and only if both ends are active and follow each other on its path. */
  lemma UsesIff(positions: seq<Position>, root: string, n: string, a: string, b: string)
    ensures Uses(root, ActiveTable(positions), n, a, b) <==>
      && (exists j :: LatestActive(positions, a, j)) && (exists j :: LatestActive(positions, b, j))
      && exists i :: Walks(positions, root, n, i, a, b)
  {
    hide PathOf, ActiveTable, StepsBefore, StepIn, Norm;
    ActiveTableIff(positions, n);
    ActiveTableIff(positions, a);
    ActiveTableIff(positions, b);
    if n in ActiveTable(positions) {
      StepsAnywhere(PathOf(root, n, ActiveTable(positions)[n]), a, b);
      var i :| LatestActive(positions, n, i);
      assert ActiveTable(positions)[n] == positions[i];
      assert Uses(root, ActiveTable(positions), n, a, b) ==> Walks(positions, root, n, i, a, b);
    }
  }

  lemma StepsAnywhere(path: seq<string>, a: string, b: string)
    ensures StepsBefore(path, |path|, a, b) <==> StepIn(path, a, b)
  {
    if i :| 0 < i < |path| && path[i - 1] == a && path[i] == b {
      var k := i - 1;
      assert path[k] == a && path[k + 1] == b;
    }
    if k :| 0 <= k < |path| - 1 && path[k] == a && path[k + 1] == b {
      var i := k + 1;
      assert path[i - 1] == a && path[i] == b;
    }
  }

  /** A shown segment is as long as the latest active reports of its ends are apart, and lists exactly its users. */
  lemma ShownMeans(positions: seq<Position>, root: string, km: (Place, Place) -> real, s: ActiveSegment)
    requires Shown(s, root, ActiveTable(positions), ActiveOrder(positions), km)
    ensures forall i, j :: LatestActive(positions, s.from, i) && LatestActive(positions, s.to, j) ==>
      s.distanceKm == km(positions[i].place.value, positions[j].place.value)
    ensures forall n :: n in s.pathNodeIds <==> exists i :: Walks(positions, root, n, i, s.from, s.to)
  {
    hide LatestActive, PathOf, ActiveTable, ActiveOrder, Users;
    ActiveTableIff(positions, s.from);
    ActiveTableIff(positions, s.to);
    forall n ensures n in s.pathNodeIds <==> exists i :: Walks(positions, root, n, i, s.from, s.to) {
      UsersMember(root, ActiveTable(positions), ActiveOrder(positions), s.from, s.to, n);
      OrderOfTable(positions);
      UsesIff(positions, root, n, s.from, s.to);
    }
  }
}
