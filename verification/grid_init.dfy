/** Building the all-empty grid for a setup and its allocations. */
module GridInit {
  import opened Timetable

  /** `new Array(n).fill("")`: a row of `n` empty cells. */
  function EmptyRow(n: nat): (r: Row)
    ensures |r| == n
    ensures forall p :: 0 <= p < |r| ==> r[p] == Empty
  {
    seq(n, _ => Empty)
  }

  /** One class's week: every setup day mapped to an empty row. */
  method EmptyWeek(setup: Setup) returns (week: map<Day, Row>)
    ensures forall d :: d in week <==> d in setup.days
    ensures forall d :: d in week ==> week[d] == EmptyRow(setup.periodsPerDay)
  {
    week := map[];
    var k := 0;
    while k < |setup.days|
      invariant 0 <= k <= |setup.days|
      invariant forall d :: d in week <==> d in setup.days[..k]
      invariant forall d :: d in week ==> week[d] == EmptyRow(setup.periodsPerDay)
    {
      assert setup.days[..k + 1] == setup.days[..k] + [setup.days[k]];
      week := week[setup.days[k] := EmptyRow(setup.periodsPerDay)];
      k := k + 1;
    }
    assert setup.days[..k] == setup.days;
  }

  /** The grid for a fresh timetable: exactly the allocated class names, each
      with every setup day holding `periodsPerDay` empty cells. A class named
      twice is simply reset twice. */
  method InitGridStructure(setup: Setup, allocs: seq<Allocation>) returns (grid: Grid)
    ensures forall c :: c in grid <==> exists i :: 0 <= i < |allocs| && allocs[i].className == c
    ensures forall c, d :: c in grid ==> (d in grid[c] <==> d in setup.days)
    ensures forall c, d :: c in grid && d in grid[c] ==> grid[c][d] == EmptyRow(setup.periodsPerDay)
    ensures Shaped(setup, allocs, grid)
  {
    grid := map[];
    var i := 0;
    while i < |allocs|
      invariant 0 <= i <= |allocs|
      invariant forall c :: c in grid <==> exists j :: 0 <= j < i && allocs[j].className == c
      invariant forall c, d :: c in grid ==> (d in grid[c] <==> d in setup.days)
      invariant forall c, d :: c in grid && d in grid[c] ==> grid[c][d] == EmptyRow(setup.periodsPerDay)
    {
      var week := EmptyWeek(setup);
      grid := grid[allocs[i].className := week];
      i := i + 1;
    }
  }
}
