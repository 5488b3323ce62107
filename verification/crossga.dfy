/** The genetic solver of `CrossSudokuGA`: the initial population, tournament
    selection, grid-wise crossover, box-swap mutation and the generation loop
    with elitism that stops at a fitness of 0.

    Random draws are parameters (see `Util`): one stream per grid for the
    initial fill and the mutation, a stream per tournament, and a coin per
    grid for the crossover and for the mutation test. */
module CrossGA {
  import opened Util
  import opened Grids
  import opened CrossSudoku
  import BoxOps
  import G = GeneticSolver

  /** Every grid carries its puzzle grid's fixed cells. */
  predicate KeepsAll(givens: Assembly, a: Assembly)
    requires Shaped(givens)
  {
    G.KeepsGivens(givens.center, a.center) && G.KeepsGivens(givens.top, a.top) &&
    G.KeepsGivens(givens.bottom, a.bottom) && G.KeepsGivens(givens.left, a.left) &&
    G.KeepsGivens(givens.right, a.right)
  }

  predicate AllShaped(pop: seq<Assembly>) {
    forall k :: 0 <= k < |pop| ==> Shaped(pop[k])
  }

  predicate AllKeep(givens: Assembly, pop: seq<Assembly>)
    requires Shaped(givens)
  {
    forall k :: 0 <= k < |pop| ==> KeepsAll(givens, pop[k])
  }

  // ---------------------------------------------------------------- initial population

  /** A fresh individual: the center grid copied as it is, every other grid
      filled box by box with its missing digits in shuffled order. */
  predicate Initialized(givens: Assembly, a: Assembly)
    requires Shaped(givens)
  {
    Shaped(a) && a.center == givens.center &&
    G.IsIndividual(givens.top, a.top) && G.IsIndividual(givens.bottom, a.bottom) &&
    G.IsIndividual(givens.left, a.left) && G.IsIndividual(givens.right, a.right)
  }

  /** One individual of `inicializar_poblacion`.  The fill of a side grid is
      the JavaScript solver's `createValidIndividual`: the same box order, the
      same ascending list of missing digits, the same Fisher-Yates shuffle.
      The center's stream is not read. */
  function InitIndividual(givens: Assembly, rolls: Five<seq<nat>>): (a: Assembly)
    requires Shaped(givens)
    ensures Initialized(givens, a)
  {
    var t, b, l, r := FillSide(givens.top, rolls.top), FillSide(givens.bottom, rolls.bottom),
      FillSide(givens.left, rolls.left), FillSide(givens.right, rolls.right);
    var a := Five(givens.center, t, b, l, r);
    assert Shaped(a);
    a
  }

  /** A fresh individual carries every given. */
  lemma InitializedKeeps(givens: Assembly, a: Assembly)
    requires Shaped(givens) && Initialized(givens, a)
    ensures KeepsAll(givens, a)
  {
  }

  /** The fill of one side grid keeps its givens and puts a digit in every
      open cell. */
  function FillSide(given: Grid, rolls: seq<nat>): (h: Grid)
    requires IsSquare(given, 9)
    ensures G.IsIndividual(given, h)
    ensures G.KeepsGivens(given, h)
  {
    var h := G.CreateValidIndividual(given, rolls);
    assert G.IsIndividual(given, h);
    h
  }

  /** Every box of h whose givens in g are distinct digits holds each digit
      1..9 exactly once. */
  predicate BoxesFilled(g: Grid, h: Grid)
    requires IsSquare(g, 9) && IsSquare(h, 9)
  {
    forall k :: 0 <= k < 9 && G.GivensOk(BoxValues(g, G.BoxStarts()[k].0, G.BoxStarts()[k].1)) ==>
      multiset(BoxValues(h, G.BoxStarts()[k].0, G.BoxStarts()[k].1)) == multiset(BoxOps.Digits())
  }

  /** In every side grid of a fresh individual, the boxes whose givens are
      distinct digits are permutations of 1..9. */
  lemma InitBoxes(givens: Assembly, rolls: Five<seq<nat>>)
    requires Shaped(givens)
    ensures var a := InitIndividual(givens, rolls);
      BoxesFilled(givens.top, a.top) && BoxesFilled(givens.bottom, a.bottom) &&
      BoxesFilled(givens.left, a.left) && BoxesFilled(givens.right, a.right)
  {
    FillSideBoxes(givens.top, rolls.top);
    FillSideBoxes(givens.bottom, rolls.bottom);
    FillSideBoxes(givens.left, rolls.left);
    FillSideBoxes(givens.right, rolls.right);
  }

  lemma FillSideBoxes(given: Grid, rolls: seq<nat>)
    requires IsSquare(given, 9)
    ensures BoxesFilled(given, FillSide(given, rolls))
  {
  }

  /** `inicializar_poblacion`: one individual per stream. */
  function InitializePopulation(givens: Assembly, streams: seq<Five<seq<nat>>>): (pop: seq<Assembly>)
    requires Shaped(givens)
    ensures |pop| == |streams|
    ensures forall k :: 0 <= k < |pop| ==> Initialized(givens, pop[k])
    ensures AllShaped(pop) && AllKeep(givens, pop)
  {
    var pop := seq(|streams|, k requires 0 <= k < |streams| => InitIndividual(givens, streams[k]));
    assert forall k :: 0 <= k < |pop| ==> KeepsAll(givens, pop[k]) by {
      forall k | 0 <= k < |pop| ensures KeepsAll(givens, pop[k]) {
        InitializedKeeps(givens, pop[k]);
      }
    }
    pop
  }

  // ---------------------------------------------------------------- selection

  /** 0, 1, ..., n - 1. */
  function Indices(n: nat): (r: seq<nat>)
    ensures |r| == n && forall k :: 0 <= k < n ==> r[k] == k
    ensures Distinct(r)
  {
    seq(n, k requires 0 <= k < n => k)
  }

  /** The place of the winner among candidates scanned from place k, with the
      best seen so far at place `best`: like Python's `max`, a later candidate
      takes over only with a strictly higher fitness. */
  function MaxFrom(fits: seq<int>, cands: seq<nat>, k: nat, best: nat): (m: nat)
    requires best < k <= |cands| && forall j :: 0 <= j < |cands| ==> cands[j] < |fits|
    requires forall j :: 0 <= j < k ==> fits[cands[j]] <= fits[cands[best]]
    requires forall j :: 0 <= j < best ==> fits[cands[j]] < fits[cands[best]]
    ensures m < |cands|
    ensures forall j :: 0 <= j < |cands| ==> fits[cands[j]] <= fits[cands[m]]
    ensures forall j :: 0 <= j < m ==> fits[cands[j]] < fits[cands[m]]
    decreases |cands| - k
  {
    if k == |cands| then best
    else if fits[cands[k]] > fits[cands[best]] then MaxFrom(fits, cands, k + 1, k)
    else MaxFrom(fits, cands, k + 1, best)
  }

  /** `max(candidates, key=fitness)`: the place of the first candidate with the
      highest fitness. */
  function FirstBest(fits: seq<int>, cands: seq<nat>): (m: nat)
    requires cands != [] && forall j :: 0 <= j < |cands| ==> cands[j] < |fits|
    ensures m < |cands|
    ensures forall j :: 0 <= j < |cands| ==> fits[cands[j]] <= fits[cands[m]]
    ensures forall j :: 0 <= j < m ==> fits[cands[j]] < fits[cands[m]]
  {
    MaxFrom(fits, cands, 1, 0)
  }

  /** `random.sample(range(n), 3)`: three distinct individuals. */
  function TournamentPicks(n: nat, rolls: seq<nat>): (picks: seq<nat>)
    requires n >= 3
    ensures |picks| == 3 && Distinct(picks)
    ensures forall j :: 0 <= j < |picks| ==> picks[j] < n
  {
    var all := Indices(n);
    var picks := SelectRandom(all, 3, rolls);
    assert forall j :: 0 <= j < |picks| ==> picks[j] in all;
    picks
  }

  /** One tournament of `seleccionar_padres`: the fittest of three distinct
      individuals, the first of them on a tie.  With fewer than three
      individuals `random.sample` raises, modelled as None. */
  function Tournament(fits: seq<int>, rolls: seq<nat>): (w: Option<nat>)
    ensures w.None? <==> |fits| < 3
    ensures w.Some? ==> w.value < |fits| && w.value in TournamentPicks(|fits|, rolls)
    ensures w.Some? ==> forall c :: c in TournamentPicks(|fits|, rolls) ==> fits[c] <= fits[w.value]
  {
    if |fits| < 3 then None
    else
      var picks := TournamentPicks(|fits|, rolls);
      var m := FirstBest(fits, picks);
      assert forall c :: c in picks ==> exists j :: 0 <= j < |picks| && picks[j] == c;
      Some(picks[m])
  }

  // ---------------------------------------------------------------- crossover

  /** A grid whose fixed cells are put back: the puzzle's given where there
      is one, the grid's own value elsewhere. */
  function ResetFixed(g: Grid, given: Grid): (h: Grid)
    requires IsSquare(g, 9) && IsSquare(given, 9)
    ensures IsSquare(h, 9)
  {
    seq(9, i requires 0 <= i < 9 => seq(9, j requires 0 <= j < 9 => if given[i][j] != 0 then given[i][j] else g[i][j]))
  }

  /** A reset grid keeps the givens and agrees with the grid on open cells. */
  lemma ResetFixedCells(g: Grid, given: Grid)
    requires IsSquare(g, 9) && IsSquare(given, 9)
    ensures G.KeepsGivens(given, ResetFixed(g, given))
    ensures forall i, j :: 0 <= i < 9 && 0 <= j < 9 && given[i][j] == 0 ==> ResetFixed(g, given)[i][j] == g[i][j]
    ensures G.KeepsGivens(given, g) ==> ResetFixed(g, given) == g
  {
    var h := ResetFixed(g, given);
    if G.KeepsGivens(given, g) {
      assert forall i :: 0 <= i < 9 ==> h[i] == g[i];
    }
  }

  /** One grid of the child: the chosen parent's grid, fixed cells reset. */
  function Inherit(given: Grid, g1: Grid, g2: Grid, first: bool): (h: Grid)
    requires IsSquare(given, 9) && IsSquare(g1, 9) && IsSquare(g2, 9)
    ensures G.KeepsGivens(given, h)
  {
    ResetFixedCells(if first then g1 else g2, given);
    ResetFixed(if first then g1 else g2, given)
  }

  /** `cruzar`: each grid is taken whole from the first parent when its coin
      says so and from the second otherwise, then its fixed cells are reset. */
  function Crossover(givens: Assembly, p1: Assembly, p2: Assembly, first: Five<bool>): (child: Assembly)
    requires Shaped(givens) && Shaped(p1) && Shaped(p2)
    ensures Shaped(child) && KeepsAll(givens, child)
  {
    Five(Inherit(givens.center, p1.center, p2.center, first.center),
      Inherit(givens.top, p1.top, p2.top, first.top),
      Inherit(givens.bottom, p1.bottom, p2.bottom, first.bottom),
      Inherit(givens.left, p1.left, p2.left, first.left),
      Inherit(givens.right, p1.right, p2.right, first.right))
  }

  /** Each grid of the child agrees with the chosen parent's grid on every
      open cell; when both parents keep the givens, the child's grid is the
      chosen parent's grid itself. */
  lemma CrossoverTakes(givens: Assembly, p1: Assembly, p2: Assembly, first: Five<bool>, p: Part)
    requires Shaped(givens) && Shaped(p1) && Shaped(p2)
    ensures var g, h, src := givens.Get(p), Crossover(givens, p1, p2, first).Get(p),
        (if first.Get(p) then p1 else p2).Get(p);
      IsSquare(g, 9) && IsSquare(h, 9) && IsSquare(src, 9) &&
      (forall i, j :: 0 <= i < 9 && 0 <= j < 9 && g[i][j] == 0 ==> h[i][j] == src[i][j]) &&
      (KeepsAll(givens, p1) && KeepsAll(givens, p2) ==> h == src)
  {
    ShapedGet(givens, p);
    ShapedGet(p1, p);
    ShapedGet(p2, p);
    var src := (if first.Get(p) then p1 else p2).Get(p);
    assert Crossover(givens, p1, p2, first).Get(p) == ResetFixed(src, givens.Get(p));
    ResetFixedCells(src, givens.Get(p));
    if KeepsAll(givens, p1) && KeepsAll(givens, p2) {
      assert G.KeepsGivens(givens.Get(p), src);
    }
  }

  // ---------------------------------------------------------------- mutation

  /** `mutar`: the center grid is never touched; every other grid, when its
      coin fires, has two open cells of a random box exchanged, exactly as the
      JavaScript solver's `mutate` (a box picked by two draws in {0, 3, 6},
      two distinct open cells sampled, nothing when fewer than two). */
  function Mutation(givens: Assembly, a: Assembly, fires: Five<bool>, rolls: Five<seq<nat>>): (m: Assembly)
    requires Shaped(givens) && Shaped(a)
    ensures Shaped(m) && m.center == a.center
    ensures KeepsAll(givens, a) ==> KeepsAll(givens, m)
  {
    Five(a.center,
      G.Mutate(givens.top, a.top, fires.top, rolls.top),
      G.Mutate(givens.bottom, a.bottom, fires.bottom, rolls.bottom),
      G.Mutate(givens.left, a.left, fires.left, rolls.left),
      G.Mutate(givens.right, a.right, fires.right, rolls.right))
  }

  /** A mutation keeps the values of every box of every grid, and changes a
      grid only when its coin fires. */
  lemma MutationKeepsBoxes(givens: Assembly, a: Assembly, fires: Five<bool>, rolls: Five<seq<nat>>, p: Part)
    requires Shaped(givens) && Shaped(a)
    ensures var h, m := a.Get(p), Mutation(givens, a, fires, rolls).Get(p);
      IsSquare(h, 9) && IsSquare(m, 9) &&
      (forall r0, c0 :: G.IsStart(r0) && G.IsStart(c0) ==>
        multiset(BoxValues(m, r0, c0)) == multiset(BoxValues(h, r0, c0))) &&
      (!fires.Get(p) ==> m == h)
  {
    ShapedGet(givens, p);
    ShapedGet(a, p);
    if p != Center {
      assert Mutation(givens, a, fires, rolls).Get(p) == G.Mutate(givens.Get(p), a.Get(p), fires.Get(p), rolls.Get(p));
      G.MutateKeepsBoxes(givens.Get(p), a.Get(p), fires.Get(p), rolls.Get(p));
    }
  }

  // ---------------------------------------------------------------- one generation

  /** The random choices behind one child: the two tournaments, the crossover
      coins and the mutation coins and draws. */
  datatype Draw = Draw(select1: seq<nat>, select2: seq<nat>, first: Five<bool>, fires: Five<bool>, mutation: Five<seq<nat>>)

  /** The draw used once the given ones run out. */
  const NoDraw: Draw := Draw([], [], Five(true, true, true, true, true), Five(false, false, false, false, false),
    Five([], [], [], [], []))

  function Head(draws: seq<Draw>): Draw {
    if draws == [] then NoDraw else draws[0]
  }

  function Tail(draws: seq<Draw>): seq<Draw> {
    if draws == [] then [] else draws[1..]
  }

  /** One pass of the breeding loop: two tournaments, the crossover of their
      winners, the mutation of the child.  None when the population is too
      small to sample three. */
  function MakeChild(givens: Assembly, pop: seq<Assembly>, fits: seq<int>, d: Draw): (c: Option<Assembly>)
    requires Shaped(givens) && AllShaped(pop) && |fits| == |pop|
    ensures c.None? <==> |pop| < 3
    ensures c.Some? ==> Shaped(c.value) && KeepsAll(givens, c.value)
  {
    match (Tournament(fits, d.select1), Tournament(fits, d.select2))
    case (Some(a), Some(b)) =>
      Some(Mutation(givens, Crossover(givens, pop[a], pop[b], d.first), d.fires, d.mutation))
    case _ => None
  }

  /** The child of a draw comes from the crossover of two tournament winners. */
  lemma MakeChildParents(givens: Assembly, pop: seq<Assembly>, fits: seq<int>, d: Draw)
    requires Shaped(givens) && AllShaped(pop) && |fits| == |pop| && |pop| >= 3
    ensures exists a, b :: (0 <= a < |pop| && 0 <= b < |pop| &&
      (forall c :: c in TournamentPicks(|fits|, d.select1) ==> fits[c] <= fits[a]) &&
      (forall c :: c in TournamentPicks(|fits|, d.select2) ==> fits[c] <= fits[b]) &&
      MakeChild(givens, pop, fits, d) == Some(Mutation(givens, Crossover(givens, pop[a], pop[b], d.first), d.fires, d.mutation)))
  {
    var a, b := Tournament(fits, d.select1).value, Tournament(fits, d.select2).value;
    assert MakeChild(givens, pop, fits, d) == Some(Mutation(givens, Crossover(givens, pop[a], pop[b], d.first), d.fires, d.mutation));
  }

  /** Putting a shaped, givens-keeping individual in front keeps a population
      shaped and givens-keeping. */
  lemma ConsKeeps(givens: Assembly, c: Assembly, cs: seq<Assembly>)
    requires Shaped(givens) && Shaped(c) && KeepsAll(givens, c) && AllShaped(cs) && AllKeep(givens, cs)
    ensures AllShaped([c] + cs) && AllKeep(givens, [c] + cs)
  {
    assert forall k :: 1 <= k < |cs| + 1 ==> ([c] + cs)[k] == cs[k - 1];
  }

  /** `need` children, one draw each. */
  function Offspring(givens: Assembly, pop: seq<Assembly>, fits: seq<int>, draws: seq<Draw>, need: nat): (cs: Option<seq<Assembly>>)
    requires Shaped(givens) && AllShaped(pop) && |fits| == |pop|
    ensures cs.None? <==> need > 0 && |pop| < 3
    ensures cs.Some? ==> |cs.value| == need && AllShaped(cs.value) && AllKeep(givens, cs.value)
    decreases need
  {
    if need == 0 then Some([])
    else
      match MakeChild(givens, pop, fits, Head(draws))
      case None => None
      case Some(c) =>
        match Offspring(givens, pop, fits, Tail(draws), need - 1)
        case None => None
        case Some(cs) =>
          ConsKeeps(givens, c, cs);
          Some([c] + cs)
  }

  /** The next population: a copy of the best individual so far, then children
      until the population size is reached (none when it is 1 or less). */
  function NextPopulation(givens: Assembly, pop: seq<Assembly>, fits: seq<int>, elite: Assembly, size: nat, draws: seq<Draw>): (next: Option<seq<Assembly>>)
    requires Shaped(givens) && AllShaped(pop) && |fits| == |pop| && Shaped(elite)
    ensures next.None? <==> size > 1 && |pop| < 3
    ensures next.Some? ==> |next.value| == (if size == 0 then 1 else size) && next.value[0] == elite
    ensures next.Some? ==> AllShaped(next.value)
    ensures next.Some? && KeepsAll(givens, elite) ==> AllKeep(givens, next.value)
  {
    match Offspring(givens, pop, fits, draws, if size == 0 then 0 else size - 1)
    case None => None
    case Some(cs) =>
      assert forall k :: 1 <= k < |cs| + 1 ==> ([elite] + cs)[k] == cs[k - 1];
      Some([elite] + cs)
  }

  // ---------------------------------------------------------------- the loop

  /** The fitness of every individual. */
  function Scores(givens: Assembly, pop: seq<Assembly>): (fs: seq<int>)
    requires Shaped(givens) && AllShaped(pop)
    ensures |fs| == |pop| && forall k :: 0 <= k < |pop| ==> fs[k] == Fitness(pop[k], givens)
  {
    seq(|pop|, k requires 0 <= k < |pop| => Fitness(pop[k], givens))
  }

  /** The best fitness so far (None for -infinity) and the individual that
      reached it. */
  datatype Record = Record(fitness: Option<int>, best: Option<Assembly>)

  /** A record with a fitness holds a shaped individual. */
  predicate Filled(r: Record) {
    r.fitness.Some? ==> r.best.Some? && Shaped(r.best.value)
  }

  /** The record is honest when its fitness is the fitness of its individual. */
  predicate Honest(givens: Assembly, r: Record)
    requires Shaped(givens)
  {
    r.fitness.Some? ==> r.best.Some? && Shaped(r.best.value) && r.fitness.value == Fitness(r.best.value, givens)
  }

  /** `fitness_poblacion.index(max(fitness_poblacion))`: the first place of
      the highest fitness. */
  function BestIndex(fits: seq<int>): (m: nat)
    requires fits != []
    ensures m < |fits|
    ensures forall k :: 0 <= k < |fits| ==> fits[k] <= fits[m]
    ensures forall k :: 0 <= k < m ==> fits[k] < fits[m]
  {
    var all := Indices(|fits|);
    var m := FirstBest(fits, all);
    forall k | 0 <= k < |fits| ensures fits[k] <= fits[m] && (k < m ==> fits[k] < fits[m]) {
      assert all[k] == k && all[m] == m;
    }
    m
  }

  /** The record after a generation: the first individual of highest
      fitness replaces it when that fitness is strictly higher (always, the
      first time). */
  function Observe(r: Record, pop: seq<Assembly>, fits: seq<int>): (r': Record)
    requires |fits| == |pop| && pop != []
    requires r.fitness.Some? ==> r.best.Some?
    ensures r'.fitness.Some? && r'.best.Some?
    ensures forall k :: 0 <= k < |pop| ==> fits[k] <= r'.fitness.value
    ensures r.fitness.Some? ==> r.fitness.value <= r'.fitness.value
    ensures r' != r ==> r.fitness.None? || r.fitness.value < r'.fitness.value
    ensures r' != r ==> exists k :: (0 <= k < |pop| && r' == Record(Some(fits[k]), Some(pop[k])) &&
      forall j :: 0 <= j < k ==> fits[j] < fits[k])
  {
    var m := BestIndex(fits);
    if r.fitness.None? || fits[m] > r.fitness.value then Record(Some(fits[m]), Some(pop[m])) else r
  }

  /** Scoring with the real fitness keeps the record honest. */
  lemma ObserveHonest(givens: Assembly, r: Record, pop: seq<Assembly>)
    requires Shaped(givens) && AllShaped(pop) && pop != [] && Honest(givens, r)
    ensures Honest(givens, Observe(r, pop, Scores(givens, pop)))
  {
    var fits := Scores(givens, pop);
    var r' := Observe(r, pop, fits);
    if r' != r {
      var k :| 0 <= k < |pop| && r' == Record(Some(fits[k]), Some(pop[k]));
    }
  }

  /** A history that never goes down. */
  predicate Ascending(h: seq<int>) {
    forall i, j :: 0 <= i < j < |h| ==> h[i] <= h[j]
  }

  /** The result of `ejecutar`: the best individual, its fitness and the
      best fitness after each generation. */
  datatype Outcome = Outcome(record: Record, history: seq<int>)

  /** The draws of the next generation, and those of the ones after it. */
  function First(draws: seq<seq<Draw>>): seq<Draw> {
    if draws == [] then [] else draws[0]
  }

  function Later(draws: seq<seq<Draw>>): seq<seq<Draw>> {
    if draws == [] then [] else draws[1..]
  }

  /** Every entry of the history is at most the record's fitness. */
  predicate Tracks(r: Record, history: seq<int>) {
    forall k :: 0 <= k < |history| ==> r.fitness.Some? && history[k] <= r.fitness.value
  }

  /** What one generation leaves: the updated record and the next
      population (None when breeding raises). */
  datatype Generation = Generation(record: Record, next: Option<seq<Assembly>>)

  /** One generation of `ejecutar`: score the population, update the record,
      and breed the next population around the record's individual.  The loop
      looks at the next population only when the record's fitness is not 0. */
  function Step(givens: Assembly, pop: seq<Assembly>, size: nat, r: Record, draws: seq<Draw>): (s: Generation)
    requires Shaped(givens) && AllShaped(pop) && Filled(r) && pop != []
    ensures Filled(s.record) && s.record.fitness.Some?
    ensures r.fitness.Some? ==> r.fitness.value <= s.record.fitness.value
    ensures s.next.None? <==> size > 1 && |pop| < 3
    ensures s.next.Some? ==> AllShaped(s.next.value) && |s.next.value| == (if size == 0 then 1 else size)
  {
    var fits := Scores(givens, pop);
    var r' := Observe(r, pop, fits);
    assert Filled(r') by {
      if r' != r {
        var k :| 0 <= k < |pop| && r' == Record(Some(fits[k]), Some(pop[k])) && forall j :: 0 <= j < k ==> fits[j] < fits[k];
      }
    }
    Generation(r', NextPopulation(givens, pop, fits, r'.best.value, size, draws))
  }

  /** The record after a generation is honest, is at least the fitness of
      every individual of the generation, and carries the givens when the
      population and the old record did; and so does the next population. */
  lemma StepFacts(givens: Assembly, pop: seq<Assembly>, size: nat, r: Record, draws: seq<Draw>)
    requires Shaped(givens) && AllShaped(pop) && Filled(r) && pop != []
    ensures var s := Step(givens, pop, size, r, draws);
      (Honest(givens, r) ==> Honest(givens, s.record)) &&
      (forall k :: 0 <= k < |pop| ==> Fitness(pop[k], givens) <= s.record.fitness.value) &&
      (AllKeep(givens, pop) && (r.best.Some? ==> KeepsAll(givens, r.best.value)) ==>
        KeepsAll(givens, s.record.best.value) && (s.next.Some? ==> AllKeep(givens, s.next.value)))
  {
    var fits := Scores(givens, pop);
    var r' := Observe(r, pop, fits);
    if Honest(givens, r) {
      ObserveHonest(givens, r, pop);
    }
    if r' != r {
      var k :| 0 <= k < |pop| && r' == Record(Some(fits[k]), Some(pop[k])) && forall j :: 0 <= j < k ==> fits[j] < fits[k];
    }
  }

  /** A generation step with the givens and the population size built in:
      from a population, the record and the generation's draws to the next
      generation. */
  type StepFn = (seq<Assembly>, Record, seq<Draw>) --> Generation

  /** What a step promises about one generation: the record is filled and
      never goes down, and the next population is missing only when
      breeding raises, and otherwise is shaped and of the population size. */
  predicate StepPost(pop: seq<Assembly>, size: nat, r: Record, s: Generation) {
    Filled(s.record) && s.record.fitness.Some? &&
    (r.fitness.Some? ==> r.fitness.value <= s.record.fitness.value) &&
    (s.next.None? <==> size > 1 && |pop| < 3) &&
    (s.next.Some? ==> AllShaped(s.next.value) && |s.next.value| == (if size == 0 then 1 else size))
  }

  /** A step defined, and keeping its promise, on every shaped non-empty
      population with a filled record. */
  ghost predicate Steps(size: nat, step: StepFn) {
    forall pop, r, d :: AllShaped(pop) && Filled(r) && pop != [] ==>
      step.requires(pop, r, d) && StepPost(pop, size, r, step(pop, r, d))
  }

  /** A step that keeps an invariant: from a population satisfying `pinv`
      and a record satisfying `rinv`, the new record satisfies `rinv` and
      the next population, when there is one, satisfies `pinv`. */
  ghost predicate Preserves(step: StepFn, pinv: seq<Assembly> -> bool, rinv: Record -> bool) {
    forall pop, r, d :: (AllShaped(pop) && Filled(r) && pop != [] && step.requires(pop, r, d) && pinv(pop) && rinv(r)) ==>
      rinv(step(pop, r, d).record) && (step(pop, r, d).next.Some? ==> pinv(step(pop, r, d).next.value))
  }

  /** Every population. */
  function AnyPopulation(): seq<Assembly> -> bool {
    (pop: seq<Assembly>) => true
  }

  /** A record whose fitness is the fitness of its individual. */
  function HonestRecord(givens: Assembly): Record -> bool {
    (r: Record) => Shaped(givens) && Honest(givens, r)
  }

  /** A population all of whose individuals carry the givens. */
  function KeepingPopulation(givens: Assembly): seq<Assembly> -> bool {
    (pop: seq<Assembly>) => Shaped(givens) && AllShaped(pop) && AllKeep(givens, pop)
  }

  /** A record whose individual, if any, carries the givens. */
  function KeepingRecord(givens: Assembly): Record -> bool {
    (r: Record) => Shaped(givens) && (r.best.Some? ==> Shaped(r.best.value) && KeepsAll(givens, r.best.value))
  }

  /** The generation of `ejecutar` as a step: it keeps every promise the
      loop relies on, keeps the record honest and keeps the givens. */
  function GenerationStep(givens: Assembly, size: nat): (step: StepFn)
    requires Shaped(givens)
    ensures Steps(size, step)
    ensures Preserves(step, AnyPopulation(), HonestRecord(givens))
    ensures Preserves(step, KeepingPopulation(givens), KeepingRecord(givens))
  {
    var step: StepFn := (pop: seq<Assembly>, r: Record, d: seq<Draw>) requires AllShaped(pop) && Filled(r) && pop != [] =>
      Step(givens, pop, size, r, d);
    assert Preserves(step, AnyPopulation(), HonestRecord(givens)) && Preserves(step, KeepingPopulation(givens), KeepingRecord(givens)) by {
      forall pop, r, d | AllShaped(pop) && Filled(r) && pop != []
        ensures (Honest(givens, r) ==> Honest(givens, step(pop, r, d).record)) &&
          (AllKeep(givens, pop) && (r.best.Some? ==> KeepsAll(givens, r.best.value)) ==>
            KeepsAll(givens, step(pop, r, d).record.best.value) &&
            (step(pop, r, d).next.Some? ==> AllKeep(givens, step(pop, r, d).next.value)))
      {
        StepFacts(givens, pop, size, r, d);
      }
    }
    step
  }

  /** The generation loop from the current population, with `gens`
      generations left.  Each generation scores the population, updates the
      record, appends the record's fitness to the history, stops when it is
      0, and otherwise breeds the next population from its draws.  None models
      the exceptions Python raises: `max` of an empty population, or
      `random.sample` from fewer than three individuals. */
  function Run(step: StepFn, size: nat, pop: seq<Assembly>, gens: nat, r: Record, history: seq<int>, draws: seq<seq<Draw>>): (out: Option<Outcome>)
    requires Steps(size, step) && AllShaped(pop) && Filled(r)
    decreases gens
  {
    if gens == 0 then Some(Outcome(r, history))
    else if pop == [] then None
    else
      var s := step(pop, r, First(draws));
      var history' := history + [s.record.fitness.value];
      if s.record.fitness.value == 0 then Some(Outcome(s.record, history'))
      else
        match s.next
        case None => None
        case Some(next) => Run(step, size, next, gens - 1, s.record, history', Later(draws))
  }

  /** `ejecutar(generaciones)`: the loop from a fresh population of
      `|streams|` individuals with no record yet. */
  function Execute(givens: Assembly, streams: seq<Five<seq<nat>>>, gens: nat, draws: seq<seq<Draw>>): Option<Outcome>
    requires Shaped(givens)
  {
    Run(GenerationStep(givens, |streams|), |streams|, InitializePopulation(givens, streams), gens, Record(None, None), [], draws)
  }

  /** The history only grows at its end, by at most one entry per
      generation, never goes down, and ends with the record's fitness. */
  lemma {:induction false} RunHistory(step: StepFn, size: nat, pop: seq<Assembly>, gens: nat, r: Record, history: seq<int>, draws: seq<seq<Draw>>)
    requires Steps(size, step) && AllShaped(pop) && Filled(r)
    requires Ascending(history) && Tracks(r, history)
    ensures var out := Run(step, size, pop, gens, r, history, draws);
      out.Some? ==>
        |history| <= |out.value.history| <= |history| + gens &&
        out.value.history[..|history|] == history &&
        Ascending(out.value.history) && Tracks(out.value.record, out.value.history) &&
        (|out.value.history| == |history| ==> out.value.record == r) &&
        (|out.value.history| > |history| ==> out.value.record.fitness == Some(out.value.history[|out.value.history| - 1]))
    decreases gens
  {
    if gens > 0 && pop != [] {
      var st := step(pop, r, First(draws));
      var r' := st.record;
      var h' := history + [r'.fitness.value];
      assert Ascending(h') && Tracks(r', h');
      if r'.fitness.value != 0 {
        var next := st.next;
        if next.Some? {
          RunHistory(step, size, next.value, gens - 1, r', h', Later(draws));
          var out := Run(step, size, next.value, gens - 1, r', h', Later(draws));
          if out.Some? {
            assert out.value.history[..|h'|] == h';
            assert out.value.history[..|history|] == h'[..|history|] == history;
          }
        }
      }
    }
  }

  /** An invariant the step keeps holds of the record the loop returns. */
  lemma {:induction false} RunInvariant(step: StepFn, size: nat, pinv: seq<Assembly> -> bool, rinv: Record -> bool,
                                        pop: seq<Assembly>, gens: nat, r: Record, history: seq<int>, draws: seq<seq<Draw>>)
    requires Steps(size, step) && Preserves(step, pinv, rinv)
    requires AllShaped(pop) && Filled(r) && pinv(pop) && rinv(r)
    ensures var out := Run(step, size, pop, gens, r, history, draws);
      out.Some? ==> rinv(out.value.record)
    decreases gens
  {
    if gens > 0 && pop != [] {
      var st := step(pop, r, First(draws));
      var h' := history + [st.record.fitness.value];
      if st.record.fitness.value != 0 && st.next.Some? {
        RunInvariant(step, size, pinv, rinv, st.next.value, gens - 1, st.record, h', Later(draws));
      }
    }
  }

  /** The loop ends early only on a best fitness of 0, and no entry before
      the last is 0. */
  lemma {:induction false} RunStops(step: StepFn, size: nat, pop: seq<Assembly>, gens: nat, r: Record, history: seq<int>, draws: seq<seq<Draw>>)
    requires Steps(size, step) && AllShaped(pop) && Filled(r)
    ensures var out := Run(step, size, pop, gens, r, history, draws);
      out.Some? ==>
        (|out.value.history| < |history| + gens ==> out.value.record.fitness == Some(0)) &&
        forall k :: |history| <= k < |out.value.history| - 1 ==> out.value.history[k] != 0
    decreases gens
  {
    if gens > 0 && pop != [] {
      var st := step(pop, r, First(draws));
      var r' := st.record;
      var h' := history + [r'.fitness.value];
      if r'.fitness.value != 0 {
        var next := st.next;
        if next.Some? {
          RunStops(step, size, next.value, gens - 1, r', h', Later(draws));
          RunPrefix(step, size, next.value, gens - 1, r', h', Later(draws));
          var out := Run(step, size, next.value, gens - 1, r', h', Later(draws));
          if out.Some? {
            assert out.value.history[|history|] == h'[|history|] == r'.fitness.value;
          }
        }
      }
    }
  }

  /** The loop keeps the history it started with as a prefix. */
  lemma {:induction false} RunPrefix(step: StepFn, size: nat, pop: seq<Assembly>, gens: nat, r: Record, history: seq<int>, draws: seq<seq<Draw>>)
    requires Steps(size, step) && AllShaped(pop) && Filled(r)
    ensures var out := Run(step, size, pop, gens, r, history, draws);
      out.Some? ==> |history| <= |out.value.history| && out.value.history[..|history|] == history
    decreases gens
  {
    if gens > 0 && pop != [] {
      var st := step(pop, r, First(draws));
      var r' := st.record;
      var h' := history + [r'.fitness.value];
      if r'.fitness.value != 0 {
        var next := st.next;
        if next.Some? {
          RunPrefix(step, size, next.value, gens - 1, r', h', Later(draws));
          var out := Run(step, size, next.value, gens - 1, r', h', Later(draws));
          if out.Some? {
            assert out.value.history[..|history|] == h'[..|history|] == history;
          }
        }
      }
    }
  }

  /** With a population of at least three, which the loop keeps, no
      exception is raised. */
  lemma {:induction false} RunDefined(step: StepFn, size: nat, pop: seq<Assembly>, gens: nat, r: Record, history: seq<int>, draws: seq<seq<Draw>>)
    requires Steps(size, step) && AllShaped(pop) && Filled(r)
    requires |pop| >= 3 && size >= 3
    ensures Run(step, size, pop, gens, r, history, draws).Some?
    decreases gens
  {
    if gens > 0 {
      var st := step(pop, r, First(draws));
      var r' := st.record;
      var h' := history + [r'.fitness.value];
      if r'.fitness.value != 0 {
        RunDefined(step, size, st.next.value, gens - 1, r', h', Later(draws));
      }
    }
  }

  /** `ejecutar` returns with three or more individuals, and raises with
      none. */
  lemma ExecuteDefined(givens: Assembly, streams: seq<Five<seq<nat>>>, gens: nat, draws: seq<seq<Draw>>)
    requires Shaped(givens)
    ensures |streams| >= 3 ==> Execute(givens, streams, gens, draws).Some?
    ensures |streams| == 0 && gens > 0 ==> Execute(givens, streams, gens, draws).None?
  {
    if |streams| >= 3 {
      RunDefined(GenerationStep(givens, |streams|), |streams|, InitializePopulation(givens, streams), gens, Record(None, None), [], draws);
    }
  }

  /** The history of `ejecutar` has at most one entry per generation, never
      goes down and ends with the returned fitness; the run ends early only
      on a fitness of 0, and no earlier entry is 0. */
  lemma ExecuteHistory(givens: Assembly, streams: seq<Five<seq<nat>>>, gens: nat, draws: seq<seq<Draw>>)
    requires Shaped(givens)
    ensures var out := Execute(givens, streams, gens, draws);
      out.Some? ==>
        var h, rec := out.value.history, out.value.record;
        |h| <= gens && Ascending(h) && Tracks(rec, h) &&
        (h != [] ==> rec.fitness == Some(h[|h| - 1])) &&
        (h == [] ==> rec == Record(None, None)) &&
        (|h| < gens ==> rec.fitness == Some(0)) &&
        (forall k :: 0 <= k < |h| - 1 ==> h[k] != 0)
  {
    var step := GenerationStep(givens, |streams|);
    var pop := InitializePopulation(givens, streams);
    RunHistory(step, |streams|, pop, gens, Record(None, None), [], draws);
    RunStops(step, |streams|, pop, gens, Record(None, None), [], draws);
  }

  /** The record `ejecutar` returns is honest, and its individual carries
      every given. */
  lemma ExecuteRecord(givens: Assembly, streams: seq<Five<seq<nat>>>, gens: nat, draws: seq<seq<Draw>>)
    requires Shaped(givens)
    ensures var out := Execute(givens, streams, gens, draws);
      out.Some? ==> (Honest(givens, out.value.record) &&
        (out.value.record.best.Some? ==> KeepsAll(givens, out.value.record.best.value)))
  {
    var step := GenerationStep(givens, |streams|);
    var pop := InitializePopulation(givens, streams);
    RunInvariant(step, |streams|, AnyPopulation(), HonestRecord(givens), pop, gens, Record(None, None), [], draws);
    RunInvariant(step, |streams|, KeepingPopulation(givens), KeepingRecord(givens), pop, gens, Record(None, None), [], draws);
  }

  /** What `ejecutar` returns: with three or more individuals it returns (and
      with none it raises); the history has at most one entry per generation,
      never goes down, never rises above 0 and ends with the returned fitness,
      which is the fitness of the returned individual; the run ends early
      only on a fitness of 0; and the returned individual carries every
      given. */
  lemma ExecuteOutcome(givens: Assembly, streams: seq<Five<seq<nat>>>, gens: nat, draws: seq<seq<Draw>>)
    requires Shaped(givens)
    ensures |streams| >= 3 ==> Execute(givens, streams, gens, draws).Some?
    ensures |streams| == 0 && gens > 0 ==> Execute(givens, streams, gens, draws).None?
    ensures var out := Execute(givens, streams, gens, draws);
      out.Some? ==>
        var h, rec := out.value.history, out.value.record;
        |h| <= gens && Ascending(h) && (forall k :: 0 <= k < |h| ==> h[k] <= 0) &&
        Honest(givens, rec) && (h != [] ==> rec.fitness == Some(h[|h| - 1])) &&
        (|h| < gens ==> rec.fitness == Some(0)) &&
        (forall k :: 0 <= k < |h| - 1 ==> h[k] != 0) &&
        (rec.best.Some? ==> KeepsAll(givens, rec.best.value))
  {
    ExecuteDefined(givens, streams, gens, draws);
    ExecuteHistory(givens, streams, gens, draws);
    ExecuteRecord(givens, streams, gens, draws);
    var out := Execute(givens, streams, gens, draws);
    if out.Some? && out.value.record.fitness.Some? {
      FitnessZero(out.value.record.best.value, givens);
    }
  }

  /** Over the hard-coded center grid the loop always runs all its
      generations, every recorded fitness negative. */
  lemma ImageRunsAllGenerations(givens: Assembly, streams: seq<Five<seq<nat>>>, gens: nat, draws: seq<seq<Draw>>)
    requires Shaped(givens) && givens.center == ImageCenter
    ensures var out := Execute(givens, streams, gens, draws);
      out.Some? ==> |out.value.history| == gens && forall k :: 0 <= k < gens ==> out.value.history[k] < 0
  {
    ExecuteHistory(givens, streams, gens, draws);
    ExecuteRecord(givens, streams, gens, draws);
    var out := Execute(givens, streams, gens, draws);
    if out.Some? && out.value.record.fitness.Some? {
      ImageCenterUnsolvable(out.value.record.best.value, givens);
      assert out.value.record.fitness.value < 0;
    }
  }
}
