/** Population bookkeeping of the algorithm scene (src/Scene_Algorithm.cpp):
    sizing the grid and the population, randomising genes, the elite partial
    sort, and the per-cell collision count. The random generator is an
    oracle `rand(i, j)`: the value drawn for locus j of individual i, which
    callers promise lies in [0, gridSize). */
module AlgorithmScene {
  import opened Components
  import opened Store

  /** `std::pair<int, std::vector<char>>`: a fitness and a gene. */
  datatype Individual = Individual(fitness: int, gene: seq<int>)

  /** The grid sizes the "Grid size" slider offers (`gridSizes`). */
  const GridSizes: seq<int> := [1, 4, 9, 16, 25, 36]

  /** The range the "Population size" slider clamps to. */
  const MinPopulationSize := 1
  const MaxPopulationSize := 1000

  function ZeroGene(n: nat): (g: seq<int>)
    ensures |g| == n && forall j :: 0 <= j < n ==> g[j] == 0
  {
    seq(n, _ => 0)
  }

  /** `vector::resize(size, (0, vector<char>(geneLength)))`. */
  function Resized(pop: seq<Individual>, size: nat, geneLength: nat): (r: seq<Individual>)
    ensures |r| == size
  {
    if size <= |pop| then pop[..size]
    else pop + seq(size - |pop|, _ => Individual(0, ZeroGene(geneLength)))
  }

  /** Resizing keeps the prefix and fills up with zero individuals. */
  lemma ResizedEntries(pop: seq<Individual>, size: nat, geneLength: nat)
    ensures forall i :: 0 <= i < size && i < |pop| ==> Resized(pop, size, geneLength)[i] == pop[i]
    ensures forall i :: |pop| <= i < size ==> Resized(pop, size, geneLength)[i] == Individual(0, ZeroGene(geneLength))
  {
  }

  /** The genes of individuals start..end-1 redrawn from the oracle. */
  function Randomised(pop: seq<Individual>, start: int, end: int, rand: (int, int) -> int): (r: seq<Individual>)
    requires end <= |pop|
    ensures |r| == |pop|
  {
    seq(|pop|, i requires 0 <= i < |pop| =>
      if start <= i < end then Individual(pop[i].fitness, seq(|pop[i].gene|, j => rand(i, j))) else pop[i])
  }

  /** Randomising keeps fitnesses, gene lengths and every individual outside
      start..end-1, and draws each locus inside from the oracle. */
  lemma RandomisedEntries(pop: seq<Individual>, start: int, end: int, rand: (int, int) -> int)
    requires end <= |pop|
    ensures forall i :: 0 <= i < |pop| ==>
      Randomised(pop, start, end, rand)[i].fitness == pop[i].fitness && |Randomised(pop, start, end, rand)[i].gene| == |pop[i].gene|
    ensures forall i :: 0 <= i < |pop| && !(start <= i < end) ==> Randomised(pop, start, end, rand)[i] == pop[i]
    ensures forall i, j :: start <= i < end && 0 <= i && 0 <= j < |pop[i].gene| ==> Randomised(pop, start, end, rand)[i].gene[j] == rand(i, j)
  {
  }

  /** `std::round(n / 100.f)`: the nearest integer, halves away from zero.
      For the products the sliders allow (|n| <= 100000) the float quotient
      is exact enough that this integer form agrees with it. */
  function RoundPercent(n: int): int
  {
    if n >= 0 then (n + 50) / 100 else -((-n + 50) / 100)
  }

  /** `eliteAmount` in sortElitePopulation. */
  function EliteAmount(populationSize: int, eliteRate: int): (k: int)
    ensures k >= 1
  {
    var rounded := RoundPercent(populationSize * eliteRate);
    if rounded > 1 then rounded else 1
  }

  /** The elite count is the share eliteRate% of the population rounded to
      the nearest integer (at least one), and never exceeds the population
      for rates up to 100. */
  lemma EliteAmountBounds(populationSize: int, eliteRate: int)
    requires populationSize >= 1 && 0 <= eliteRate <= 100
    ensures 1 <= EliteAmount(populationSize, eliteRate) <= populationSize
    ensures var k := EliteAmount(populationSize, eliteRate);
      k == 1 || 100 * k - 50 <= populationSize * eliteRate < 100 * k + 50
  {
    var n := populationSize * eliteRate;
    assert 0 <= n <= populationSize * 100 by {
      MulMonotone(populationSize, eliteRate, 100);
    }
    assert (n + 50) / 100 <= populationSize;
  }

  lemma MulMonotone(a: int, b: int, c: int)
    requires a >= 0 && 0 <= b <= c
    ensures 0 <= a * b <= a * c
  {
  }

  /** The elite amount of the default configuration (100 individuals, 10%). */
  lemma DefaultEliteAmount()
    ensures EliteAmount(100, 10) == 10
  {
  }

  /** Resizing an empty population and randomising all of it gives
      individuals of fitness 0 whose genes are drawn from the oracle. */
  lemma FreshPopulation(n: nat, geneLength: nat, rand: (int, int) -> int)
    ensures var r := Randomised(Resized([], n, geneLength), 0, n, rand);
      forall i :: 0 <= i < n ==> r[i].fitness == 0 && r[i].gene == seq(geneLength, j => rand(i, j))
  {
    ResizedEntries([], n, geneLength);
    RandomisedEntries(Resized([], n, geneLength), 0, n, rand);
  }

  /** A gene of a gridSize × gridSize grid: gridSize² values in [0, gridSize). */
  ghost predicate GeneShaped(gene: seq<int>, gridSize: int)
  {
    |gene| == gridSize * gridSize && forall j :: 0 <= j < |gene| ==> 0 <= gene[j] < gridSize
  }

  /** Every individual of the population has a gene of that grid. */
  ghost predicate AllShaped(pop: seq<Individual>, gridSize: int)
  {
    forall x :: x in pop ==> GeneShaped(x.gene, gridSize)
  }

  /** Resizing adds only zero genes, which fit every grid. */
  lemma ResizedShaped(pop: seq<Individual>, size: nat, gridSize: int)
    requires gridSize >= 1 && AllShaped(pop, gridSize)
    ensures AllShaped(Resized(pop, size, gridSize * gridSize), gridSize)
  {
    var r := Resized(pop, size, gridSize * gridSize);
    ResizedEntries(pop, size, gridSize * gridSize);
    forall x | x in r
      ensures GeneShaped(x.gene, gridSize)
    {
      var i :| 0 <= i < |r| && r[i] == x;
      if i < |pop| {
        assert pop[i] in pop;
      }
    }
  }

  /** A permutation of a shaped population is shaped. */
  lemma PermutationShaped(pop: seq<Individual>, perm: seq<Individual>, gridSize: int)
    requires multiset(perm) == multiset(pop) && AllShaped(pop, gridSize)
    ensures AllShaped(perm, gridSize)
  {
    forall x | x in perm
      ensures GeneShaped(x.gene, gridSize)
    {
      assert x in multiset(perm);
    }
  }

  /** Redrawing genes from an oracle of the grid's range keeps them shaped. */
  lemma RandomisedShaped(pop: seq<Individual>, start: int, end: int, rand: (int, int) -> int, gridSize: int)
    requires end <= |pop| && AllShaped(pop, gridSize)
    requires forall i, j :: 0 <= rand(i, j) < gridSize
    ensures AllShaped(Randomised(pop, start, end, rand), gridSize)
  {
    var r := Randomised(pop, start, end, rand);
    RandomisedEntries(pop, start, end, rand);
    forall x | x in r
      ensures GeneShaped(x.gene, gridSize)
    {
      var i :| 0 <= i < |r| && r[i] == x;
      assert pop[i] in pop;
    }
  }

  /** The first k entries are in non-increasing fitness order and none is
      less fit than any entry after it. */
  ghost predicate EliteSorted(s: seq<Individual>, k: int)
  {
    forall a, b :: 0 <= a < k && a < b < |s| ==> s[a].fitness >= s[b].fitness
  }

  /** `std::partial_sort(begin, begin + k, end, fitness >)`, written as a
      selection of the k fittest; the result is a permutation of s. */
  method PartialSortByFitness(s: seq<Individual>, k: int) returns (r: seq<Individual>)
    requires 0 <= k <= |s|
    ensures |r| == |s| && multiset(r) == multiset(s)
    ensures EliteSorted(r, k)
  {
    r := s;
    var i := 0;
    while i < k
      invariant 0 <= i <= k
      invariant |r| == |s| && multiset(r) == multiset(s)
      invariant EliteSorted(r, i)
    {
      var m := i;
      var j := i + 1;
      while j < |r|
        invariant i <= m < |r| && i + 1 <= j <= |r|
        invariant forall b :: i <= b < j ==> r[m].fitness >= r[b].fitness
      {
        if r[j].fitness > r[m].fitness {
          m := j;
        }
        j := j + 1;
      }
      SwapPermutes(r, i, m);
      r := r[i := r[m]][m := r[i]];
      i := i + 1;
    }
  }

  lemma SwapPermutes(s: seq<Individual>, i: int, m: int)
    requires 0 <= i < |s| && 0 <= m < |s|
    ensures multiset(s[i := s[m]][m := s[i]]) == multiset(s)
  {
  }

  /** Dropping the tail of an elite-sorted sequence drops nothing fitter than
      the elite. */
  lemma {:induction false} DroppedTailLessFit(s: seq<Individual>, k: int, n: int)
    requires 0 <= k <= n <= |s| && EliteSorted(s, k)
    ensures multiset(s) - multiset(s[..n]) == multiset(s[n..])
    ensures forall a, x :: 0 <= a < k && x in multiset(s[n..]) ==> s[a].fitness >= x.fitness
  {
    assert s == s[..n] + s[n..];
  }

  /** `pop` is what cutting `before` down left: part of it, elite-sorted,
      with an elite at least as fit as every individual cut. */
  ghost predicate ShrunkFrom(pop: seq<Individual>, before: seq<Individual>, k: int)
  {
    0 <= k <= |pop| && multiset(pop) <= multiset(before) && EliteSorted(pop, k) &&
    forall a, x :: 0 <= a < k && x in multiset(before) - multiset(pop) ==> pop[a].fitness >= x.fitness
  }

  /** `pop` is what growing `before` to its length gave: the old individuals
      in front, then fresh ones of fitness 0 with genes drawn from the oracle. */
  ghost predicate GrownFrom(pop: seq<Individual>, before: seq<Individual>, rand: (int, int) -> int)
  {
    |before| <= |pop| && multiset(pop[..|before|]) == multiset(before) &&
    forall i :: |before| <= i < |pop| ==>
      pop[i].fitness == 0 && forall j :: 0 <= j < |pop[i].gene| ==> pop[i].gene[j] == rand(i, j)
  }

  /** Cutting an elite-sorted permutation of a population down to n keeps a
      sub-multiset whose elite is at least as fit as everything cut. */
  lemma {:induction false} ShrinkKeepsElite(pop: seq<Individual>, sorted: seq<Individual>, k: int, n: int)
    requires multiset(sorted) == multiset(pop) && 0 <= k <= n <= |sorted| && EliteSorted(sorted, k)
    ensures ShrunkFrom(sorted[..n], pop, k)
  {
    DroppedTailLessFit(sorted, k, n);
    assert sorted == sorted[..n] + sorted[n..];
  }

  /** Resizing down and randomising from an index at or past the new size
      leaves the prefix. */
  lemma ShrinkIsPrefix(sorted: seq<Individual>, n: nat, start: int, geneLength: nat, rand: (int, int) -> int)
    requires n <= |sorted| && n <= start
    ensures Randomised(Resized(sorted, n, geneLength), start, n, rand) == sorted[..n]
  {
  }

  /** Growing keeps the old individuals in front and appends fresh ones of
      fitness 0 with genes drawn from the oracle. */
  lemma {:induction false} GrowKeepsAll(pop: seq<Individual>, sorted: seq<Individual>, n: nat, geneLength: nat, rand: (int, int) -> int)
    requires multiset(sorted) == multiset(pop) && |sorted| < n
    ensures GrownFrom(Randomised(Resized(sorted, n, geneLength), |sorted|, n, rand), pop, rand)
  {
    var r := Randomised(Resized(sorted, n, geneLength), |sorted|, n, rand);
    ResizedEntries(sorted, n, geneLength);
    RandomisedEntries(Resized(sorted, n, geneLength), |sorted|, n, rand);
    assert |pop| == |multiset(pop)| == |multiset(sorted)| == |sorted|;
    assert r[..|sorted|] == sorted;
  }

  /** `pop` is what re-randomising from the last individual of `before`
      gave: that individual's gene is drawn afresh, while its fitness is one
      that some individual of `before` had. */
  ghost predicate LastRedrawnStale(pop: seq<Individual>, before: seq<Individual>, geneLength: nat, rand: (int, int) -> int)
  {
    1 <= |before| <= |pop| &&
    pop[|before| - 1].gene == seq(geneLength, j => rand(|before| - 1, j)) &&
    exists x :: x in before && x.fitness == pop[|before| - 1].fitness
  }

  /** `pop` is what growing `before` to its length, re-randomising from its
      last individual, gave: old individuals in front of that one, that one
      redrawn with a stale fitness, then fresh ones of fitness 0 with genes
      drawn from the oracle. */
  ghost predicate RegrownFromLast(pop: seq<Individual>, before: seq<Individual>, geneLength: nat, rand: (int, int) -> int)
  {
    LastRedrawnStale(pop, before, geneLength, rand) &&
    multiset(pop[..|before| - 1]) <= multiset(before) &&
    forall i :: |before| <= i < |pop| ==>
      pop[i].fitness == 0 && pop[i].gene == seq(geneLength, j => rand(i, j))
  }

  /** Re-randomising a permutation of a population from its last index,
      when growing it or keeping its size, keeps the individuals before that
      index, redraws that individual's whole gene and keeps its fitness, and
      draws the genes of the fresh ones after it. */
  lemma LastOldRedrawn(pop: seq<Individual>, sorted: seq<Individual>, n: nat, gridSize: int, rand: (int, int) -> int)
    requires multiset(sorted) == multiset(pop) && AllShaped(sorted, gridSize) && 1 <= |sorted| <= n
    ensures RegrownFromLast(Randomised(Resized(sorted, n, gridSize * gridSize), |sorted| - 1, n, rand), pop, gridSize * gridSize, rand)
  {
    var geneLength := gridSize * gridSize;
    var r := Randomised(Resized(sorted, n, geneLength), |sorted| - 1, n, rand);
    var m := |sorted|;
    ResizedEntries(sorted, n, geneLength);
    assert sorted[m - 1] in sorted;
    assert sorted[m - 1] in multiset(pop);
    assert |pop| == |multiset(pop)| == |multiset(sorted)| == |sorted|;
    assert r[..m - 1] == sorted[..m - 1];
    assert sorted == sorted[..m - 1] + sorted[m - 1..];
    assert multiset(sorted[..m - 1]) <= multiset(sorted);
  }

  /** Where the as-written slider handler leaves the population: an
      elite-sorted permutation of it resized to n and re-randomised from its
      last old individual is cut down with its elite kept when shrinking,
      and regrown from the last old individual otherwise. */
  lemma ReinitFromLastOutcome(pop: seq<Individual>, sorted: seq<Individual>, n: nat, eliteRate: int, gridSize: int, rand: (int, int) -> int)
    requires multiset(sorted) == multiset(pop) && |sorted| == |pop| && AllShaped(sorted, gridSize)
    requires 1 <= n && 1 <= |sorted| && 1 <= eliteRate <= 100
    requires EliteAmount(n, eliteRate) <= |sorted| && EliteSorted(sorted, EliteAmount(n, eliteRate))
    ensures n < |pop| ==>
      ShrunkFrom(Randomised(Resized(sorted, n, gridSize * gridSize), |sorted| - 1, n, rand), pop, EliteAmount(n, eliteRate))
    ensures n >= |pop| ==>
      RegrownFromLast(Randomised(Resized(sorted, n, gridSize * gridSize), |sorted| - 1, n, rand), pop, gridSize * gridSize, rand)
  {
    if n >= |sorted| {
      LastOldRedrawn(pop, sorted, n, gridSize, rand);
    } else {
      var k := EliteAmount(n, eliteRate);
      EliteAmountBounds(n, eliteRate);
      ShrinkIsPrefix(sorted, n, |sorted| - 1, gridSize * gridSize, rand);
      ShrinkKeepsElite(pop, sorted, k, n);
      var r := Randomised(Resized(sorted, n, gridSize * gridSize), |sorted| - 1, n, rand);
      assert r == sorted[..n];
      assert ShrunkFrom(r, pop, k);
    }
  }

  /** The cell value held by a handle's CCell component. */
  function CellValue(pool: EntityMemoryPool, e: Entity): int
    reads pool, pool.alive, pool.tags, pool.components
    requires pool.Valid() && e.id < pool.poolSize
  {
    match e.GetComponent(pool, Cell).payload
    case CellData(v) => v
    case _ => 0
  }

  /** The grid's handles lie in the pool and their cell values in [0, n). */
  ghost predicate CellGrid(pool: EntityMemoryPool, grid: seq<seq<Entity>>, n: int)
    reads pool, pool.alive, pool.tags, pool.components
  {
    pool.Valid() && |grid| == n &&
    (forall i :: 0 <= i < n ==> |grid[i]| == n) &&
    (forall i, j :: 0 <= i < n && 0 <= j < n ==> grid[i][j].id < pool.poolSize) &&
    (forall i, j :: 0 <= i < n && 0 <= j < n ==> 0 <= CellValue(pool, grid[i][j]) < n)
  }

  /** The cell values of a grid, row by row. */
  function CellValues(pool: EntityMemoryPool, grid: seq<seq<Entity>>, n: int): (vals: seq<seq<int>>)
    reads pool, pool.alive, pool.tags, pool.components
    requires CellGrid(pool, grid, n)
    ensures Square(vals, n)
    ensures forall i, j :: 0 <= i < n && 0 <= j < n ==> vals[i][j] == CellValue(pool, grid[i][j]) && 0 <= vals[i][j] < n
  {
    seq(n, i requires CellGrid(pool, grid, n) && 0 <= i < n reads pool, pool.alive, pool.tags, pool.components =>
      seq(n, j requires CellGrid(pool, grid, n) && 0 <= j < n reads pool, pool.alive, pool.tags, pool.components =>
        CellValue(pool, grid[i][j])))
  }

  /** An n × n table of values. */
  ghost predicate Square(vals: seq<seq<int>>, n: int)
  {
    |vals| == n && forall r :: 0 <= r < n ==> |vals[r]| == n
  }

  /** How often v occurs among row[0..len). */
  function RowCount(row: seq<int>, len: int, v: int): (k: nat)
    requires 0 <= len <= |row|
    ensures k <= len
  {
    if len == 0 then 0 else RowCount(row, len - 1, v) + (if row[len - 1] == v then 1 else 0)
  }

  /** How often v occurs in column c of the first `rows` rows. */
  function ColumnCount(vals: seq<seq<int>>, n: int, rows: int, c: int, v: int): (k: nat)
    requires Square(vals, n) && 0 <= rows <= n && 0 <= c < n
    ensures k <= rows
  {
    if rows == 0 then 0 else ColumnCount(vals, n, rows - 1, c, v) + (if vals[rows - 1][c] == v then 1 else 0)
  }

  /** Column c of an n × n table. */
  function Column(vals: seq<seq<int>>, n: int, c: int): (col: seq<int>)
    requires Square(vals, n) && 0 <= c < n
    ensures |col| == n && forall r :: 0 <= r < n ==> col[r] == vals[r][c]
  {
    seq(n, r requires 0 <= r < n => vals[r][c])
  }

  /** The row count is the multiplicity of v in the row prefix. */
  lemma {:induction false} RowCountIsMultiplicity(row: seq<int>, len: int, v: int)
    requires 0 <= len <= |row|
    ensures RowCount(row, len, v) == multiset(row[..len])[v]
  {
    if len > 0 {
      RowCountIsMultiplicity(row, len - 1, v);
      assert row[..len] == row[..len - 1] + [row[len - 1]];
    }
  }

  /** The column count is the multiplicity of v in the column prefix. */
  lemma {:induction false} ColumnCountIsMultiplicity(vals: seq<seq<int>>, n: int, rows: int, c: int, v: int)
    requires Square(vals, n) && 0 <= rows <= n && 0 <= c < n
    ensures ColumnCount(vals, n, rows, c, v) == multiset(Column(vals, n, c)[..rows])[v]
  {
    if rows > 0 {
      ColumnCountIsMultiplicity(vals, n, rows - 1, c, v);
      assert Column(vals, n, c)[..rows] == Column(vals, n, c)[..rows - 1] + [vals[rows - 1][c]];
    }
  }

  /** A value present in the row prefix is counted at least once. */
  lemma {:induction false} RowCountPositive(row: seq<int>, len: int, x: int)
    requires 0 <= x < len <= |row|
    ensures RowCount(row, len, row[x]) >= 1
  {
    if x < len - 1 {
      RowCountPositive(row, len - 1, x);
    }
  }

  /** A value present in the column prefix is counted at least once. */
  lemma {:induction false} ColumnCountPositive(vals: seq<seq<int>>, n: int, rows: int, x: int, c: int)
    requires Square(vals, n) && 0 <= x < rows <= n && 0 <= c < n
    ensures ColumnCount(vals, n, rows, c, vals[x][c]) >= 1
  {
    if x < rows - 1 {
      ColumnCountPositive(vals, n, rows - 1, x, c);
    }
  }

  /** `min(a, b)`. */
  function Min(a: int, b: int): int
  {
    if a < b then a else b
  }

  /** The collision count of cell (i, j): how often its value occurs again
      in its row and in its column, capped at n - 1. */
  function Collisions(vals: seq<seq<int>>, n: int, i: int, j: int): (c: int)
    requires Square(vals, n) && 0 <= i < n && 0 <= j < n
    ensures 0 <= c <= n - 1
  {
    var v := vals[i][j];
    RowCountPositive(vals[i], n, j);
    ColumnCountPositive(vals, n, n, i, j);
    Min(RowCount(vals[i], n, v) + ColumnCount(vals, n, n, j, v) - 2, n - 1)
  }

  /** A cell's collision count is the number of other cells of its row
      holding its value plus the number of other cells of its column holding
      it, capped at n - 1. */
  lemma CollisionsCountRepeats(vals: seq<seq<int>>, n: int, i: int, j: int)
    requires Square(vals, n) && 0 <= i < n && 0 <= j < n
    ensures var v := vals[i][j];
      Collisions(vals, n, i, j) == Min((multiset(vals[i])[v] - 1) + (multiset(Column(vals, n, j))[v] - 1), n - 1)
  {
    var v := vals[i][j];
    RowCountIsMultiplicity(vals[i], n, v);
    ColumnCountIsMultiplicity(vals, n, n, j, v);
    assert vals[i][..n] == vals[i];
    assert Column(vals, n, j)[..n] == Column(vals, n, j);
  }

  /** Every entry of an n × n table lies in [0, n). */
  ghost predicate InRange(vals: seq<seq<int>>, n: int)
    requires Square(vals, n)
  {
    forall i, j :: 0 <= i < n && 0 <= j < n ==> 0 <= vals[i][j] < n
  }

  /** The tables `rowVec` and `colVec` of `updateCells`: entry [r][v] of the
      first counts v in row r, entry [c][v] of the second counts v in
      column c. */
  method CountValues(vals: seq<seq<int>>, n: int) returns (rowVec: seq<seq<int>>, colVec: seq<seq<int>>)
    requires Square(vals, n) && InRange(vals, n)
    ensures Square(rowVec, n) && Square(colVec, n)
    ensures forall r, v :: 0 <= r < n && 0 <= v < n ==> rowVec[r][v] == RowCount(vals[r], n, v)
    ensures forall c, v :: 0 <= c < n && 0 <= v < n ==> colVec[c][v] == ColumnCount(vals, n, n, c, v)
  {
    rowVec := seq(n, _ => seq(n, _ => 0));
    colVec := seq(n, _ => seq(n, _ => 0));
    for i := 0 to n
      invariant Square(rowVec, n) && Square(colVec, n)
      invariant forall r, v :: 0 <= r < i && 0 <= v < n ==> rowVec[r][v] == RowCount(vals[r], n, v)
      invariant forall r, v :: i <= r < n && 0 <= v < n ==> rowVec[r][v] == 0
      invariant forall c, v :: 0 <= c < n && 0 <= v < n ==> colVec[c][v] == ColumnCount(vals, n, i, c, v)
    {
      for j := 0 to n
        invariant Square(rowVec, n) && Square(colVec, n)
        invariant forall r, v :: 0 <= r < i && 0 <= v < n ==> rowVec[r][v] == RowCount(vals[r], n, v)
        invariant forall v :: 0 <= v < n ==> rowVec[i][v] == RowCount(vals[i], j, v)
        invariant forall r, v :: i < r < n && 0 <= v < n ==> rowVec[r][v] == 0
        invariant forall c, v :: 0 <= c < j && 0 <= v < n ==> colVec[c][v] == ColumnCount(vals, n, i + 1, c, v)
        invariant forall c, v :: j <= c < n && 0 <= v < n ==> colVec[c][v] == ColumnCount(vals, n, i, c, v)
      {
        var v := vals[i][j];
        rowVec := rowVec[i := rowVec[i][v := rowVec[i][v] + 1]];
        colVec := colVec[j := colVec[j][v := colVec[j][v] + 1]];
      }
    }
  }

  /** The collision counting of `updateCells`: the cells' values, per-row
      and per-column tables of value counts, then each cell's count of
      repeated values. The values are read once up front; nothing changes
      them between the two reads the source makes. The colour
      unit 255 / (n - 1) requires n > 1; the colour arithmetic itself is not
      modelled. */
  method CountCollisions(pool: EntityMemoryPool, grid: seq<seq<Entity>>, n: int) returns (collisions: seq<seq<int>>, colorUnit: int)
    requires n > 1 && CellGrid(pool, grid, n)
    ensures Square(collisions, n)
    ensures forall i, j :: 0 <= i < n && 0 <= j < n ==>
      collisions[i][j] == Collisions(CellValues(pool, grid, n), n, i, j) && 0 <= collisions[i][j] <= n - 1
    ensures colorUnit == 255 / (n - 1)
  {
    var vals := CellValues(pool, grid, n);
    var rowVec, colVec := CountValues(vals, n);
    colorUnit := 255 / (n - 1);
    collisions := [];
    for i := 0 to n
      invariant |collisions| == i
      invariant forall r :: 0 <= r < i ==> |collisions[r]| == n
      invariant forall r, j :: 0 <= r < i && 0 <= j < n ==> collisions[r][j] == Collisions(vals, n, r, j)
    {
      var row: seq<int> := [];
      for j := 0 to n
        invariant |row| == j
        invariant forall c :: 0 <= c < j ==> row[c] == Collisions(vals, n, i, c)
      {
        var v := vals[i][j];
        row := row + [Min(rowVec[i][v] + colVec[j][v] - 2, n - 1)];
      }
      collisions := collisions + [row];
    }
  }

  class SceneAlgorithm {
    var grid: seq<seq<Entity>>
    var population: seq<Individual>
    var populationSize: int
    var mutationRate: int
    var randomGenesRate: int
    var eliteSurvivalRate: int
    var gridSize: int

    /** The configuration within the ranges the sliders clamp to. */
    ghost predicate Valid()
      reads this
    {
      gridSize in GridSizes &&
      MinPopulationSize <= populationSize <= MaxPopulationSize &&
      1 <= mutationRate <= 100 && 1 <= randomGenesRate <= 100 && 1 <= eliteSurvivalRate <= 100
    }

    /** The population has the configured size and every gene gridSize²
        values in [0, gridSize). */
    ghost predicate Consistent()
      reads this
    {
      |population| == populationSize && AllShaped(population, gridSize)
    }

    /** The oracle draws values in [0, gridSize) (`getRandCellVal`). */
    ghost predicate Oracle(rand: (int, int) -> int)
      reads this
    {
      forall i, j :: 0 <= rand(i, j) < gridSize
    }

    /** `Scene_Algorithm(gameEngine)` with `init`: the default configuration,
        then resetGridAndPopulation. */
    constructor (rand: (int, int) -> int)
      requires forall i, j :: 0 <= rand(i, j) < 9
      ensures Valid() && Consistent()
      ensures populationSize == 100 && mutationRate == 20 && randomGenesRate == 5
      ensures eliteSurvivalRate == 10 && gridSize == 9
      ensures |grid| == 9 && forall i :: 0 <= i < 9 ==> grid[i] == seq(9, _ => DefaultEntity())
      ensures population == Randomised(Resized([], 100, 81), 0, 100, rand)
      ensures forall i :: 0 <= i < |population| ==>
        population[i].fitness == 0 && population[i].gene == seq(81, j => rand(i, j))
    {
      populationSize, mutationRate, randomGenesRate, eliteSurvivalRate, gridSize := 100, 20, 5, 10, 9;
      grid, population := [], [];
      new;
      ResetGridAndPopulation(rand);
    }

    /** `resizePopulation`. */
    method ResizePopulation()
      requires populationSize >= 0
      modifies this`population
      ensures population == Resized(old(population), populationSize, gridSize * gridSize)
    {
      population := Resized(population, populationSize, gridSize * gridSize);
    }

    /** `initPopulation(startIndex)`: redraws every gene value of
        individuals startIndex..populationSize-1. */
    method InitPopulation(startIndex: int, rand: (int, int) -> int)
      requires 0 <= startIndex && populationSize <= |population|
      modifies this`population
      ensures population == Randomised(old(population), startIndex, populationSize, rand)
    {
      var i := startIndex;
      while i < populationSize
        invariant startIndex <= i
        invariant population == Randomised(old(population), startIndex, Min(i, populationSize), rand)
      {
        var gene := population[i].gene;
        var j := 0;
        while j < |gene|
          invariant 0 <= j <= |gene| && |gene| == |population[i].gene|
          invariant forall x :: 0 <= x < j ==> gene[x] == rand(i, x)
        {
          gene := gene[j := rand(i, j)];
          j := j + 1;
        }
        ghost var prev := population;
        population := population[i := Individual(population[i].fitness, gene)];
        ghost var next := Randomised(old(population), startIndex, i + 1, rand);
        assert gene == next[i].gene;
        assert forall k :: 0 <= k < |population| ==> population[k] == next[k];
        i := i + 1;
      }
    }

    /** `sortElitePopulation`: partial_sort needs the elite amount to fit in
        the current population. */
    method SortElitePopulation()
      requires EliteAmount(populationSize, eliteSurvivalRate) <= |population|
      modifies this`population
      ensures |population| == |old(population)| && multiset(population) == multiset(old(population))
      ensures EliteSorted(population, EliteAmount(populationSize, eliteSurvivalRate))
    {
      population := PartialSortByFitness(population, EliteAmount(populationSize, eliteSurvivalRate));
    }

    /** `resetGridAndPopulation` (sizing part): a gridSize × gridSize grid of
        default handles and populationSize fresh individuals with fitness 0
        and randomised genes of length gridSize². */
    method ResetGridAndPopulation(rand: (int, int) -> int)
      requires Valid() && Oracle(rand)
      modifies this`grid, this`population
      ensures Valid() && Consistent()
      ensures |grid| == gridSize && forall i :: 0 <= i < gridSize ==> grid[i] == seq(gridSize, _ => DefaultEntity())
      ensures population == Randomised(Resized([], populationSize, gridSize * gridSize), 0, populationSize, rand)
      ensures forall i :: 0 <= i < |population| ==>
        population[i].fitness == 0 && population[i].gene == seq(gridSize * gridSize, j => rand(i, j))
    {
      var size := gridSize;
      grid := seq(size, _ => seq(size, _ => DefaultEntity()));
      population := [];
      ResizeAndInit(0, rand);
      FreshPopulation(populationSize, gridSize * gridSize, rand);
    }

    /** The "Grid size" slider: picks the size from the table and resets. */
    method ChangeGridSize(sliderIndex: int, rand: (int, int) -> int)
      requires Valid() && 1 <= sliderIndex <= |GridSizes|
      requires forall i, j :: 0 <= rand(i, j) < GridSizes[sliderIndex - 1]
      modifies this`grid, this`population, this`gridSize
      ensures Valid() && Consistent() && gridSize == GridSizes[sliderIndex - 1]
      ensures |grid| == gridSize && forall i :: 0 <= i < gridSize ==> grid[i] == seq(gridSize, _ => DefaultEntity())
      ensures population == Randomised(Resized([], populationSize, gridSize * gridSize), 0, populationSize, rand)
      ensures forall i :: 0 <= i < |population| ==>
        population[i].fitness == 0 && population[i].gene == seq(gridSize * gridSize, j => rand(i, j))
    {
      gridSize := GridSizes[sliderIndex - 1];
      ResetGridAndPopulation(rand);
    }

    /** The "Population size" slider handler as the source has it: the
        elite sort runs with the new size before the resize, and the
        re-randomisation starts at the last old individual. partial_sort
        then needs the new elite amount to fit the old population. Shrinking
        behaves as intended; growing, or releasing the slider at the old
        size, redraws the gene of the last old individual, which keeps the
        fitness of the gene it had. */
    method ChangePopulationSizeAsWritten(newSize: int, rand: (int, int) -> int)
      requires Valid() && Consistent() && Oracle(rand)
      requires MinPopulationSize <= newSize <= MaxPopulationSize
      requires EliteAmount(newSize, eliteSurvivalRate) <= |population|
      modifies this`population, this`populationSize
      ensures Valid() && Consistent() && populationSize == newSize
      ensures newSize < |old(population)| ==> ShrunkFrom(population, old(population), EliteAmount(newSize, eliteSurvivalRate))
      ensures newSize >= |old(population)| ==> RegrownFromLast(population, old(population), gridSize * gridSize, rand)
    {
      var prevPopulationSize := |population|;
      populationSize := newSize;
      ghost var unsorted := population;
      SortElitePopulation();
      ghost var sorted := population;
      PermutationShaped(unsorted, sorted, gridSize);
      ResizeAndInit(prevPopulationSize - 1, rand);
      ReinitFromLastOutcome(unsorted, sorted, newSize, eliteSurvivalRate, gridSize, rand);
    }

    /** The "Population size" slider handler corrected: the elite amount is
        capped at the current population and re-randomisation starts after
        the last old individual. Shrinking keeps the fittest individuals in
        elite order; growing keeps every old individual and adds fresh ones. */
    method ChangePopulationSize(newSize: int, rand: (int, int) -> int)
      requires Valid() && Consistent() && Oracle(rand)
      requires MinPopulationSize <= newSize <= MaxPopulationSize
      modifies this`population, this`populationSize
      ensures Valid() && Consistent() && populationSize == newSize
      ensures |population| == newSize && EliteAmount(newSize, eliteSurvivalRate) <= newSize
      ensures newSize <= |old(population)| ==> ShrunkFrom(population, old(population), EliteAmount(newSize, eliteSurvivalRate))
      ensures newSize > |old(population)| ==> GrownFrom(population, old(population), rand)
    {
      var prevPopulationSize := |population|;
      populationSize := newSize;
      var eliteAmount := EliteAmount(newSize, eliteSurvivalRate);
      EliteAmountBounds(newSize, eliteSurvivalRate);
      if eliteAmount > prevPopulationSize {
        eliteAmount := prevPopulationSize;
      }
      var sorted := PartialSortByFitness(population, eliteAmount);
      PermutationShaped(population, sorted, gridSize);
      population := sorted;
      ResizeAndInit(prevPopulationSize, rand);
      if newSize <= prevPopulationSize {
        ShrinkIsPrefix(sorted, newSize, prevPopulationSize, gridSize * gridSize, rand);
        ShrinkKeepsElite(old(population), sorted, EliteAmount(newSize, eliteSurvivalRate), newSize);
      } else {
        GrowKeepsAll(old(population), sorted, newSize, gridSize * gridSize, rand);
      }
    }

    /** `resizePopulation(); initPopulation(start);`, the tail both handlers
        share. */
    method ResizeAndInit(start: int, rand: (int, int) -> int)
      requires Valid() && Oracle(rand) && AllShaped(population, gridSize) && 0 <= start
      modifies this`population
      ensures Consistent()
      ensures population == Randomised(Resized(old(population), populationSize, gridSize * gridSize), start, populationSize, rand)
    {
      ghost var before := population;
      ResizePopulation();
      ResizedShaped(before, populationSize, gridSize);
      ghost var resized := population;
      InitPopulation(start, rand);
      RandomisedShaped(resized, start, populationSize, rand, gridSize);
    }
  }

  /** Growing a population of 1 to 1000 at the default 10% elite rate asks
      partial_sort for 100 elite entries of a 1-entry population. */
  lemma EliteSortOverrunsWhenGrowing()
    ensures EliteAmount(1000, 10) > 1
  {
  }

  /** Growing from one individual to two with re-randomisation from
      prevSize - 1 redraws the one old individual: on a 4 × 4 grid with every
      draw 1 its all-zero gene becomes all ones. */
  lemma ReinitFromLastOldOverwrites()
    ensures var before := [Individual(7, ZeroGene(16))];
      Randomised(Resized(before, 2, 16), 1 - 1, 2, (i, j) => 1)[0] != before[0]
  {
    var before := [Individual(7, ZeroGene(16))];
    var r := Randomised(Resized(before, 2, 16), 0, 2, (i, j) => 1);
    RandomisedEntries(Resized(before, 2, 16), 0, 2, (i, j) => 1);
    assert r[0].gene[0] == 1;
  }

  /** Re-randomising from prevSize instead keeps every old individual. */
  lemma {:induction false} ReinitFromPrevSizeKeeps(pop: seq<Individual>, newSize: nat, geneLength: nat, rand: (int, int) -> int)
    requires |pop| < newSize
    ensures Randomised(Resized(pop, newSize, geneLength), |pop|, newSize, rand)[..|pop|] == pop
  {
    var r := Randomised(Resized(pop, newSize, geneLength), |pop|, newSize, rand);
    ResizedEntries(pop, newSize, geneLength);
    RandomisedEntries(Resized(pop, newSize, geneLength), |pop|, newSize, rand);
    assert forall i :: 0 <= i < |pop| ==> r[i] == pop[i];
  }
}
