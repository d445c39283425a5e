/**
 * One tick of `eval_genomes`, as a function on values.
 *
 * The generation's state is the parallel lists `birds`, `nets` and `ge`,
 * the fitness of every genome of the population (indexed by the genome's
 * position in the population, so that a genome keeps its fitness after
 * its bird is removed), the pipes and the score.  The neural network and
 * the pixel-mask collision test are injected as functions.
 */
module Rules {
  import opened BirdPhysics
  import opened Pipes
  import opened Removal

  /** Where every bird is created. */
  const StartX: int := 230
  const StartY: int := 350
  /** The horizontal position at which every pipe is created. */
  const SpawnX: int := 600
  /** The floor line that a bird must not reach. */
  const FloorY: int := 730
  /** A network output above this makes the bird flap. */
  const JumpThreshold: real := 0.5
  const SurvivalReward: real := 0.1
  const CrashPenalty: real := 1.0
  const PassReward: real := 5.0

  /** Sprite dimensions, read from the images in the source. */
  datatype Sprites = Sprites(birdHeight: int, pipeWidth: int, pipeTopHeight: int, baseWidth: int)
  {
    predicate Valid()
    {
      birdHeight > 0 && pipeWidth > 0 && pipeTopHeight > 0 && baseWidth > 5
    }
  }

  /** What a network is shown: the bird's height and its distances to the gap's edges. */
  datatype Observation = Observation(y: real, toTop: real, toBottom: real)

  /** The first output of network `net` on an observation. */
  type Policy = (nat, Observation) -> real

  /** The pixel-mask overlap test between a pipe pair and a bird. */
  type Collider = (Gap, BirdState) -> bool

  /** The parallel lists and the fitness record of the population. */
  datatype Roster = Roster(birds: seq<BirdState>, nets: seq<nat>, ge: seq<nat>, fitness: seq<real>)
  {
    ghost predicate Valid()
    {
      |nets| == |birds| && |ge| == |birds| &&
      forall i :: 0 <= i < |ge| ==> ge[i] < |fitness|
    }
  }

  datatype World = World(roster: Roster, pipes: seq<PipeState>, score: nat)

  function Abs(r: real): real
  {
    if r < 0.0 then -r else r
  }

  /**
   * The pipe the networks look at: the second one once the lead bird is
   * past the first pipe's right edge, otherwise the first.
   */
  function PipeIndex(birds: seq<BirdState>, pipes: seq<PipeState>, pipeWidth: int): (ind: nat)
    requires |birds| > 0
    ensures ind == 1 <==> |pipes| > 1 && birds[0].x > pipes[0].x + pipeWidth
    ensures ind == 0 || ind == 1
    ensures |pipes| > 0 ==> ind < |pipes|
  {
    if |pipes| > 1 && birds[0].x > pipes[0].x + pipeWidth then 1 else 0
  }

  function Observe(b: BirdState, p: PipeState): (o: Observation)
    ensures o.y == b.y && o.toTop >= 0.0 && o.toBottom >= 0.0
    ensures o.toTop + o.toBottom >= Abs((p.bottom - p.height) as real)
  {
    Observation(b.y, Abs(b.y - p.height as real), Abs(b.y - p.bottom as real))
  }

  /** One bird's turn: it moves, is shown the reference pipe, and flaps if told to. */
  function Act(b: BirdState, net: nat, p: PipeState, policy: Policy): (a: BirdState)
    ensures a.x == b.x && a.y == Moved(b).y && a.tilt == Moved(b).tilt
    ensures policy(net, Observe(Moved(b), p)) > JumpThreshold ==>
              a.vel == JumpVelocity && a.tickCount == 0 && a.height == Moved(b).y
    ensures policy(net, Observe(Moved(b), p)) <= JumpThreshold ==> a == Moved(b)
  {
    var m := Moved(b);
    if policy(net, Observe(m, p)) > JumpThreshold then Jumped(m) else m
  }

  /** Adds `amount` to the fitness of each genome listed in `gs`, one after another. */
  function Credit(f: seq<real>, gs: seq<nat>, amount: real): (r: seq<real>)
    requires forall i :: 0 <= i < |gs| ==> gs[i] < |f|
    ensures |r| == |f|
    decreases |gs|
  {
    if gs == [] then f
    else
      var p := Credit(f, gs[..|gs| - 1], amount);
      var g := gs[|gs| - 1];
      p[g := p[g] + amount]
  }

  lemma CreditSnoc(f: seq<real>, gs: seq<nat>, g: nat, amount: real)
    requires forall i :: 0 <= i < |gs| ==> gs[i] < |f|
    requires g < |f|
    ensures Credit(f, gs + [g], amount) == Credit(f, gs, amount)[g := Credit(f, gs, amount)[g] + amount]
  {
    assert (gs + [g])[..|gs|] == gs;
  }

  /** A genome that is not listed keeps its fitness, whether or not the list repeats genomes. */
  lemma {:induction false} CreditUnlisted(f: seq<real>, gs: seq<nat>, amount: real, g: nat)
    requires forall i :: 0 <= i < |gs| ==> gs[i] < |f|
    requires g < |f| && g !in gs
    ensures Credit(f, gs, amount)[g] == f[g]
  {
    if gs != [] {
      CreditUnlisted(f, gs[..|gs| - 1], amount, g);
    }
  }

  /** Each genome listed once gets `amount` once; every other genome is untouched. */
  lemma {:induction false} CreditEffect(f: seq<real>, gs: seq<nat>, amount: real, g: nat)
    requires forall i :: 0 <= i < |gs| ==> gs[i] < |f|
    requires Distinct(gs) && g < |f|
    ensures Credit(f, gs, amount)[g] == f[g] + (if g in gs then amount else 0.0)
  {
    if gs != [] {
      var init := gs[..|gs| - 1];
      CreditEffect(f, init, amount, g);
      assert gs == init + [gs[|gs| - 1]];
      assert g in gs <==> g in init || g == gs[|gs| - 1];
      assert gs[|gs| - 1] !in init;
    }
  }

  /** Every bird moves and acts; every genome still playing gets the survival reward. */
  function MoveBirds(r: Roster, p: PipeState, policy: Policy): (m: Roster)
    requires r.Valid()
    ensures m.Valid() && m.nets == r.nets && m.ge == r.ge && |m.birds| == |r.birds|
    ensures forall k :: 0 <= k < |r.birds| ==> m.birds[k] == Act(r.birds[k], r.nets[k], p, policy)
  {
    Roster(seq(|r.birds|, k requires 0 <= k < |r.birds| => Act(r.birds[k], r.nets[k], p, policy)),
           r.nets, r.ge, Credit(r.fitness, r.ge, SurvivalReward))
  }

  /** For every bird, whether it overlaps the pipe pair. */
  function Hits(birds: seq<BirdState>, gap: Gap, collide: Collider): (h: seq<bool>)
    ensures |h| == |birds|
    ensures forall k :: 0 <= k < |birds| ==> h[k] == collide(gap, birds[k])
  {
    seq(|birds|, k requires 0 <= k < |birds| => collide(gap, birds[k]))
  }

  /** The genomes whose birds the scan pops, in the order it pops them. */
  function CrashedGenomes(ge: seq<nat>, hit: seq<bool>): (c: seq<nat>)
    requires |hit| == |ge|
    ensures forall g :: g in c ==> g in ge
    ensures Distinct(ge) ==> Distinct(c) && forall k :: 0 <= k < |ge| ==> (ge[k] in c <==> Removed(hit, k))
  {
    SelectIsSubseq(ge, Gone(hit));
    SubseqInherits(Select(ge, Gone(hit)), ge);
    SelectMembers(ge, Gone(hit));
    Select(ge, Gone(hit))
  }

  /**
   * Whether one of the first `n` birds that the scan visits (the popped
   * ones included) is ahead of a pipe at `px`.
   */
  function PassSeen(px: int, birds: seq<BirdState>, hit: seq<bool>, n: nat): (seen: bool)
    requires n <= |birds| == |hit|
    ensures seen <==> exists k :: 0 <= k < n && Visited(hit, k) && px < birds[k].x
  {
    n > 0 && (PassSeen(px, birds, hit, n - 1) || (Visited(hit, n - 1) && px < birds[n - 1].x))
  }

  /** The first bird is always visited, so a pipe behind it is always seen passed. */
  lemma {:induction false} PassSeenFirst(px: int, birds: seq<BirdState>, hit: seq<bool>, n: nat)
    requires 0 < n <= |birds| == |hit| && px < birds[0].x
    ensures PassSeen(px, birds, hit, n)
  {
    if n > 1 {
      PassSeenFirst(px, birds, hit, n - 1);
    }
  }

  /** The pass test at a visited bird; a bird skipped after a pop is never looked at. */
  lemma PassSeenStep(px: int, birds: seq<BirdState>, hit: seq<bool>, j: nat)
    requires j < |birds| == |hit| && Visited(hit, j)
    ensures PassSeen(px, birds, hit, Next(hit, j)) == (PassSeen(px, birds, hit, j) || px < birds[j].x)
  {
    if hit[j] && j + 1 < |hit| {
      assert !Visited(hit, j + 1);
    }
  }

  /** The three parallel lists after a scan that pops the entries `hit` marks. */
  function Prune(r: Roster, hit: seq<bool>): (p: Roster)
    requires r.Valid() && |hit| == |r.birds|
    ensures p.Valid() && p.fitness == r.fitness && |p.birds| == KeptCount(hit)
  {
    KeepIsSubseq(r.birds, hit);
    Roster(Keep(r.birds, hit), Keep(r.nets, hit), Keep(r.ge, hit), r.fitness)
  }

  /** `a`'s three lists are `b`'s entries at the increasing positions `idx`. */
  ghost predicate Thinned(idx: seq<nat>, a: Roster, b: Roster)
  {
    Embeds(idx, a.birds, b.birds) && Embeds(idx, a.nets, b.nets) && Embeds(idx, a.ge, b.ge)
  }

  /** Entries of `b` were only removed, never added or reordered, and always all three together. */
  ghost predicate SubRoster(a: Roster, b: Roster)
  {
    exists idx :: Thinned(idx, a, b)
  }

  lemma PruneThins(r: Roster, hit: seq<bool>)
    requires r.Valid() && |hit| == |r.birds|
    ensures Thinned(Where(Survivors(hit), |r.birds|), Prune(r, hit), r)
  {
    KeepEmbeds(r.birds, hit);
    KeepEmbeds(r.nets, hit);
    KeepEmbeds(r.ge, hit);
  }

  lemma SubRosterTransitive(a: Roster, b: Roster, c: Roster)
    requires SubRoster(a, b) && SubRoster(b, c)
    ensures SubRoster(a, c)
  {
    var i1 :| Thinned(i1, a, b);
    var i2 :| Thinned(i2, b, c);
    EmbedsCompose(i1, a.birds, b.birds, i2, c.birds);
    EmbedsCompose(i1, a.nets, b.nets, i2, c.nets);
    EmbedsCompose(i1, a.ge, b.ge, i2, c.ge);
    assert Thinned(Compose(i1, i2), a, c);
  }

  lemma SubRosterReflexive(a: Roster)
    requires a.Valid()
    ensures SubRoster(a, a)
  {
    var idx := seq(|a.birds|, i requires 0 <= i < |a.birds| => i);
    assert Thinned(idx, a, a);
  }

  /** What a sub-roster inherits: no genome twice, no new genome, no new bird. */
  lemma SubRosterInherits(a: Roster, b: Roster)
    requires SubRoster(a, b)
    ensures Distinct(b.ge) ==> Distinct(a.ge)
    ensures forall g :: g in a.ge ==> g in b.ge
    ensures forall x :: x in a.birds ==> x in b.birds
    ensures |a.birds| <= |b.birds|
  {
    var idx :| Thinned(idx, a, b);
    SubseqInherits(a.ge, b.ge);
    SubseqInherits(a.birds, b.birds);
  }

  datatype Scan = Scan(roster: Roster, passed: bool)

  /**
   * The inner loop for one pipe: every visited bird that overlaps the
   * pipe loses 1 fitness and is popped from the three lists; the pipe is
   * marked passed the first time a visited bird is ahead of it.
   */
  function ScanPipe(r: Roster, p: PipeState, collide: Collider): (s: Scan)
    requires r.Valid()
    ensures s.roster.Valid() && |s.roster.fitness| == |r.fitness|
    ensures |s.roster.birds| <= |r.birds|
    ensures p.passed ==> s.passed
  {
    var hit := Hits(r.birds, p.Shape(), collide);
    var kept := Prune(r, hit);
    Scan(kept.(fitness := Credit(r.fitness, CrashedGenomes(r.ge, hit), -CrashPenalty)),
         p.passed || PassSeen(p.x, r.birds, hit, |r.birds|))
  }

  lemma ScanPipeThins(r: Roster, p: PipeState, collide: Collider)
    requires r.Valid()
    ensures SubRoster(ScanPipe(r, p, collide).roster, r)
  {
    var hit := Hits(r.birds, p.Shape(), collide);
    PruneThins(r, hit);
    assert Thinned(Where(Survivors(hit), |r.birds|), ScanPipe(r, p, collide).roster, r);
  }

  /**
   * A genome whose bird the scan pops loses exactly `CrashPenalty`; every
   * other genome keeps its fitness.
   */
  lemma ScanPipeFitness(r: Roster, p: PipeState, collide: Collider, g: nat)
    requires r.Valid() && Distinct(r.ge) && g < |r.fitness|
    ensures var s := ScanPipe(r, p, collide).roster;
      s.fitness[g] == r.fitness[g] - (if g in r.ge && g !in s.ge then CrashPenalty else 0.0)
  {
    var hit := Hits(r.birds, p.Shape(), collide);
    var crashed := CrashedGenomes(r.ge, hit);
    var s := ScanPipe(r, p, collide).roster;
    SelectIsSubseq(r.ge, Gone(hit));
    SubseqInherits(crashed, r.ge);
    CreditEffect(r.fitness, crashed, -CrashPenalty, g);
    assert g in crashed <==> g in r.ge && g !in s.ge by {
      if g in r.ge {
        var k :| 0 <= k < |r.ge| && r.ge[k] == g;
        SelectMember(r.ge, Gone(hit), k);
        KeepMember(r.ge, hit, k);
      }
    }
  }

  datatype Phase = Phase(roster: Roster, pipes: seq<PipeState>, add: bool, rem: seq<bool>)

  /**
   * One turn of the loop over the pipes: pipe `p` is scanned against the
   * birds the turns before it left, noted for removal if its right edge
   * is past the left border, and then moved.
   */
  function Turn(prev: Phase, p: PipeState, collide: Collider, pipeWidth: int): (ph: Phase)
    requires prev.roster.Valid()
    ensures ph.roster.Valid() && |ph.roster.fitness| == |prev.roster.fitness|
    ensures |ph.pipes| == |prev.pipes| + 1 && |ph.rem| == |prev.rem| + 1
  {
    var s := ScanPipe(prev.roster, p, collide);
    Phase(s.roster,
          prev.pipes + [Scrolled(p.(passed := s.passed))],
          prev.add || (!p.passed && s.passed),
          prev.rem + [p.x + pipeWidth < 0])
  }

  /** The loop over the pipes: one `Turn` per pipe, in list order. */
  function CollidePipes(r: Roster, ps: seq<PipeState>, collide: Collider, pipeWidth: int): (ph: Phase)
    requires r.Valid()
    ensures ph.roster.Valid() && |ph.roster.fitness| == |r.fitness|
    ensures |ph.pipes| == |ps| && |ph.rem| == |ps|
    decreases |ps|
  {
    if ps == [] then Phase(r, [], false, [])
    else Turn(CollidePipes(r, ps[..|ps| - 1], collide, pipeWidth), ps[|ps| - 1], collide, pipeWidth)
  }

  /** `q` is `p` one step further left, same gap, and still passed if `p` was. */
  predicate ScrolledFrom(p: PipeState, q: PipeState)
  {
    q.x == p.x - PipeVel && q.height == p.height && q.top == p.top && q.bottom == p.bottom &&
    (p.passed ==> q.passed)
  }

  /**
   * What the pipe loop does to each pipe: it is moved by exactly one step
   * and keeps its geometry, `passed` is never cleared, and it is noted
   * for removal exactly when its right edge was past the left border
   * before the move.
   */
  lemma {:induction false} CollidePipesEach(r: Roster, ps: seq<PipeState>, collide: Collider, pipeWidth: int)
    requires r.Valid()
    ensures var ph := CollidePipes(r, ps, collide, pipeWidth);
      forall k :: 0 <= k < |ps| ==>
        ScrolledFrom(ps[k], ph.pipes[k]) && ph.rem[k] == (ps[k].x + pipeWidth < 0)
    decreases |ps|
  {
    if ps != [] {
      var n := |ps| - 1;
      var prev := CollidePipes(r, ps[..n], collide, pipeWidth);
      var ph := CollidePipes(r, ps, collide, pipeWidth);
      var s := ScanPipe(prev.roster, ps[n], collide);
      CollidePipesEach(r, ps[..n], collide, pipeWidth);
      CollidePipesLast(r, ps, collide, pipeWidth);
      EachExtends(ps, prev.pipes, prev.rem, ph.pipes, ph.rem, s.passed, pipeWidth);
    }
  }

  /** The inductive step of `CollidePipesEach`, on the lists alone. */
  lemma EachExtends(ps: seq<PipeState>, prevPipes: seq<PipeState>, prevRem: seq<bool>,
                    pipes: seq<PipeState>, rem: seq<bool>, passed: bool, pipeWidth: int)
    requires |ps| > 0 && |pipes| == |ps| && |rem| == |ps| && |prevPipes| == |ps| - 1 && |prevRem| == |ps| - 1
    requires pipes[..|ps| - 1] == prevPipes && rem[..|ps| - 1] == prevRem
    requires forall k :: 0 <= k < |ps| - 1 ==>
      ScrolledFrom(ps[k], prevPipes[k]) && prevRem[k] == (ps[k].x + pipeWidth < 0)
    requires pipes[|ps| - 1] == Scrolled(ps[|ps| - 1].(passed := passed))
    requires rem[|ps| - 1] == (ps[|ps| - 1].x + pipeWidth < 0)
    requires ps[|ps| - 1].passed ==> passed
    ensures forall k :: 0 <= k < |ps| ==>
      ScrolledFrom(ps[k], pipes[k]) && rem[k] == (ps[k].x + pipeWidth < 0)
  {
    forall k | 0 <= k < |ps| - 1
      ensures ScrolledFrom(ps[k], pipes[k]) && rem[k] == (ps[k].x + pipeWidth < 0)
    {
      assert pipes[k] == prevPipes[k] && rem[k] == prevRem[k];
    }
  }

  /** The last pipe is scanned against the birds that the scans of the pipes before it left. */
  lemma CollidePipesLast(r: Roster, ps: seq<PipeState>, collide: Collider, pipeWidth: int)
    requires r.Valid() && |ps| > 0
    ensures var n := |ps| - 1;
      var prev := CollidePipes(r, ps[..n], collide, pipeWidth);
      var s := ScanPipe(prev.roster, ps[n], collide);
      var ph := CollidePipes(r, ps, collide, pipeWidth);
      ph.roster == s.roster && ph.add == (prev.add || (!ps[n].passed && s.passed)) &&
      ph.pipes[..n] == prev.pipes && ph.pipes[n] == Scrolled(ps[n].(passed := s.passed)) &&
      ph.rem[..n] == prev.rem && ph.rem[n] == (ps[n].x + pipeWidth < 0)
  {
    var n := |ps| - 1;
    var prev := CollidePipes(r, ps[..n], collide, pipeWidth);
    var s := ScanPipe(prev.roster, ps[n], collide);
    var ph := CollidePipes(r, ps, collide, pipeWidth);
    assert ph.pipes == prev.pipes + [Scrolled(ps[n].(passed := s.passed))];
    assert ph.rem == prev.rem + [ps[n].x + pipeWidth < 0];
  }

  /** Some pipe's `passed` flag went from false to true in the loop. */
  predicate Flipped(ps: seq<PipeState>, qs: seq<PipeState>)
    requires |qs| == |ps|
  {
    exists k :: 0 <= k < |ps| && !ps[k].passed && qs[k].passed
  }

  /** A pipe is spawned exactly when the `passed` flag of some pipe flips in this loop. */
  lemma {:induction false} CollidePipesAddsOnFlip(r: Roster, ps: seq<PipeState>, collide: Collider, pipeWidth: int)
    requires r.Valid()
    ensures var ph := CollidePipes(r, ps, collide, pipeWidth);
      ph.add <==> Flipped(ps, ph.pipes)
    decreases |ps|
  {
    if ps != [] {
      var n := |ps| - 1;
      var prev := CollidePipes(r, ps[..n], collide, pipeWidth);
      var ph := CollidePipes(r, ps, collide, pipeWidth);
      var s := ScanPipe(prev.roster, ps[n], collide);
      CollidePipesAddsOnFlip(r, ps[..n], collide, pipeWidth);
      CollidePipesLast(r, ps, collide, pipeWidth);
      FlipExtends(ps, prev.pipes, ph.pipes, prev.add, ph.add, s.passed);
    }
  }

  /** The inductive step of `CollidePipesAddsOnFlip`, on the lists alone. */
  lemma FlipExtends(ps: seq<PipeState>, prevPipes: seq<PipeState>, pipes: seq<PipeState>,
                    prevAdd: bool, add: bool, passed: bool)
    requires |ps| > 0 && |pipes| == |ps| && |prevPipes| == |ps| - 1
    requires pipes[..|ps| - 1] == prevPipes && pipes[|ps| - 1] == Scrolled(ps[|ps| - 1].(passed := passed))
    requires prevAdd <==> Flipped(ps[..|ps| - 1], prevPipes)
    requires add == (prevAdd || (!ps[|ps| - 1].passed && passed))
    ensures add <==> Flipped(ps, pipes)
  {
    var n := |ps| - 1;
    if prevAdd {
      var k :| 0 <= k < n && !ps[..n][k].passed && prevPipes[k].passed;
      assert pipes[k] == prevPipes[k];
    } else if add {
      assert !ps[n].passed && pipes[n].passed;
    } else {
      forall k | 0 <= k < |ps|
        ensures !(!ps[k].passed && pipes[k].passed)
      {
        if k < n {
          assert pipes[k] == prevPipes[k] && ps[k] == ps[..n][k];
        }
      }
    }
  }

  /** Across all the pipes' scans, entries are only removed from the three lists, together. */
  lemma {:induction false} CollidePipesThins(r: Roster, ps: seq<PipeState>, collide: Collider, pipeWidth: int)
    requires r.Valid()
    ensures SubRoster(CollidePipes(r, ps, collide, pipeWidth).roster, r)
    decreases |ps|
  {
    if ps == [] {
      SubRosterReflexive(r);
    } else {
      var n := |ps| - 1;
      var prev := CollidePipes(r, ps[..n], collide, pipeWidth);
      CollidePipesThins(r, ps[..n], collide, pipeWidth);
      CollidePipesLast(r, ps, collide, pipeWidth);
      ScanPipeThins(prev.roster, ps[n], collide);
      SubRosterTransitive(CollidePipes(r, ps, collide, pipeWidth).roster, prev.roster, r);
    }
  }

  /**
   * Across all the pipes' scans, a genome loses `CrashPenalty` exactly
   * once if its bird was popped, and nothing otherwise: a popped bird is
   * not scanned again.
   */
  lemma {:induction false} CollidePipesFitness(r: Roster, ps: seq<PipeState>, collide: Collider, pipeWidth: int, g: nat)
    requires r.Valid() && Distinct(r.ge) && g < |r.fitness|
    ensures var c := CollidePipes(r, ps, collide, pipeWidth).roster;
      c.fitness[g] == r.fitness[g] - (if g in r.ge && g !in c.ge then CrashPenalty else 0.0)
    decreases |ps|
  {
    if ps != [] {
      var n := |ps| - 1;
      var prev := CollidePipes(r, ps[..n], collide, pipeWidth).roster;
      var c := CollidePipes(r, ps, collide, pipeWidth).roster;
      CollidePipesFitness(r, ps[..n], collide, pipeWidth, g);
      CollidePipesThins(r, ps[..n], collide, pipeWidth);
      SubRosterInherits(prev, r);
      CollidePipesLast(r, ps, collide, pipeWidth);
      ScanPipeFitness(prev, ps[n], collide, g);
      ScanPipeThins(prev, ps[n], collide);
      SubRosterInherits(c, prev);
    }
  }

  /** For every bird, whether its bottom reaches the floor line or its top is above the screen. */
  function OutOfBounds(birds: seq<BirdState>, birdHeight: int): (h: seq<bool>)
    ensures |h| == |birds|
    ensures forall k :: 0 <= k < |birds| ==>
              h[k] == (birds[k].y + birdHeight as real >= FloorY as real || birds[k].y < 0.0)
  {
    seq(|birds|, k requires 0 <= k < |birds| =>
      birds[k].y + birdHeight as real >= FloorY as real || birds[k].y < 0.0)
  }

  function Negate(m: seq<bool>): (n: seq<bool>)
    ensures |n| == |m| && forall k :: 0 <= k < |m| ==> n[k] == !m[k]
  {
    seq(|m|, k requires 0 <= k < |m| => !m[k])
  }

  /** The state of the generation at the start of the tick's loop body. */
  ghost predicate Playing(w: World)
  {
    w.roster.Valid() && |w.roster.birds| > 0 && |w.pipes| > 0
  }

  /** Every bird moves, takes the survival reward, is shown the reference pipe and may flap. */
  function Steered(w: World, sprites: Sprites, policy: Policy): (r: Roster)
    requires Playing(w)
    ensures r.Valid() && |r.fitness| == |w.roster.fitness|
  {
    MoveBirds(w.roster, w.pipes[PipeIndex(w.roster.birds, w.pipes, sprites.pipeWidth)], policy)
  }

  /** The state after the loop over the pipes. */
  function Collided(w: World, sprites: Sprites, policy: Policy, collide: Collider): (ph: Phase)
    requires Playing(w)
    ensures ph.roster.Valid() && |ph.roster.fitness| == |w.roster.fitness|
    ensures |ph.pipes| == |w.pipes| && |ph.rem| == |w.pipes|
  {
    CollidePipes(Steered(w, sprites, policy), w.pipes, collide, sprites.pipeWidth)
  }

  /**
   * The rest of the loop body once the loop over the pipes has given
   * `ph`: on a pass the score rises, every genome still playing gets the
   * pass reward and a pipe of height `newHeight` is spawned at `SpawnX`
   * after the others; the pipes noted for removal go; and the birds out
   * of bounds are popped while the list is enumerated (`Prune` by
   * `OutOfBounds`), so one right after a popped bird stays until the
   * next tick.
   */
  function Settled(ph: Phase, score: nat, sprites: Sprites, newHeight: int): (w': World)
    requires ph.roster.Valid() && |ph.rem| == |ph.pipes| && ValidHeight(newHeight)
    ensures w'.roster.Valid() && |w'.roster.fitness| == |ph.roster.fitness|
  {
    var r := ph.roster;
    var rewarded := if ph.add then r.(fitness := Credit(r.fitness, r.ge, PassReward)) else r;
    var spawned := if ph.add then [Spawned(SpawnX, newHeight, sprites.pipeTopHeight)] else [];
    World(Prune(rewarded, OutOfBounds(r.birds, sprites.birdHeight)),
          Select(ph.pipes, Negate(ph.rem)) + spawned,
          if ph.add then score + 1 else score)
  }

  /**
   * One pass of the `while run` loop body after the emptiness check:
   * move and steer, collide and detect passes, then settle.  `newHeight`
   * is the height the random draw gives the pipe spawned in this tick,
   * if one is.
   */
  function Tick(w: World, sprites: Sprites, policy: Policy, collide: Collider, newHeight: int): (w': World)
    requires Playing(w) && ValidHeight(newHeight)
    ensures w'.roster.Valid() && |w'.roster.fitness| == |w.roster.fitness|
  {
    Settled(Collided(w, sprites, policy, collide), w.score, sprites, newHeight)
  }
}
