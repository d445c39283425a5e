/**
 * The generation loop of `eval_genomes` as it runs: a `Generation` holds
 * the parallel lists `birds`, `nets` and `ge`, the pipes, the floor and
 * the score, and each `Tick` updates them in place the way the loop body
 * does, popping from the lists while enumerating them.  Every phase is
 * proved against its counterpart in `Rules`, on a snapshot of the
 * objects' fields, so a whole tick is `Rules.Tick` and keeps the
 * invariant `TickFacts.Steady`.
 */
module Evaluator {
  import opened BirdPhysics
  import opened Pipes
  import opened Floor
  import opened Removal
  import opened Rules
  import opened TickFacts

  /** The fields of each bird. */
  function BirdStates(bs: seq<Bird>): (r: seq<BirdState>)
    reads bs
    ensures |r| == |bs| && forall i :: 0 <= i < |bs| ==> r[i] == bs[i].State()
  {
    seq(|bs|, i reads bs requires 0 <= i < |bs| => bs[i].State())
  }

  /** The fields of each pipe. */
  function PipeStates(ps: seq<Pipe>): (r: seq<PipeState>)
    reads ps
    ensures |r| == |ps| && forall i :: 0 <= i < |ps| ==> r[i] == ps[i].State()
  {
    seq(|ps|, i reads ps requires 0 <= i < |ps| => ps[i].State())
  }

  /** Choosing birds and then reading them is reading them and then choosing. */
  lemma BirdStatesPick(bs: seq<Bird>, ps: seq<nat>)
    requires forall i :: 0 <= i < |ps| ==> ps[i] < |bs|
    ensures BirdStates(Pick(bs, ps)) == Pick(BirdStates(bs), ps)
  {
  }

  lemma PipeStatesPick(qs: seq<Pipe>, ps: seq<nat>)
    requires forall i :: 0 <= i < |ps| ==> ps[i] < |qs|
    ensures PipeStates(Pick(qs, ps)) == Pick(PipeStates(qs), ps)
  {
  }

  class Generation {
    var birds: seq<Bird>
    var nets: seq<nat>
    var ge: seq<nat>
    /** `g.fitness` of every genome of the population, by its position there. */
    var fitness: seq<real>
    var pipes: seq<Pipe>
    var score: nat
    const base: Base
    const sprites: Sprites

    /** The parallel lists and the fitness record, as values. */
    function Roster(): Rules.Roster
      reads this`birds, this`nets, this`ge, this`fitness, birds
    {
      Rules.Roster(BirdStates(birds), nets, ge, fitness)
    }

    /** The whole state that the rules speak of, as a value. */
    function Snapshot(): World
      reads this`birds, this`nets, this`ge, this`fitness, this`pipes, this`score, birds, pipes
    {
      World(Roster(), PipeStates(pipes), score)
    }

    /**
     * The invariant of the generation loop on the objects: no bird or
     * pipe is listed twice, the floor is seamless, and the snapshot is
     * `Steady`.
     */
    ghost predicate Valid()
      reads this, birds, pipes, base
    {
      sprites.Valid() && Distinct(birds) && Distinct(pipes) &&
      base.Valid() && base.width == sprites.baseWidth &&
      Steady(Snapshot(), sprites)
    }

    /**
     * The set-up of `eval_genomes` for a population of `n` genomes: one
     * network, one bird at the start position and fitness 0 per genome,
     * the floor, and one pipe at `SpawnX` of height `h`.
     */
    constructor (n: nat, h: int, sprites: Sprites)
      requires sprites.Valid() && ValidHeight(h)
      ensures Valid() && Snapshot() == Start(n, h, sprites) && this.sprites == sprites
      ensures base.y == FloorY
    {
      var bs, ns, gs, fs := Populate(n);
      birds := bs;
      nets := ns;
      ge := gs;
      fitness := fs;
      base := new Base(FloorY, sprites.baseWidth);
      var p := new Pipe(SpawnX, h, sprites.pipeTopHeight);
      pipes := [p];
      score := 0;
      this.sprites := sprites;
      new;
      StartSteady(n, h, sprites);
      assert Snapshot() == Start(n, h, sprites);
    }

    /**
     * The first loop over the birds: each moves, its genome gets the
     * survival reward, and it flaps if its network's output on the
     * reference pipe is above the threshold.
     */
    method Steer(ref: Pipe, policy: Policy)
      requires Roster().Valid() && Distinct(birds)
      modifies birds, this`fitness
      ensures Roster() == MoveBirds(old(Roster()), old(ref.State()), policy)
    {
      ghost var r0 := Roster();
      ghost var p := ref.State();
      var i := 0;
      while i < |birds|
        invariant 0 <= i <= |birds|
        invariant ref.State() == p
        invariant fitness == Credit(r0.fitness, ge[..i], SurvivalReward)
        invariant forall k :: 0 <= k < i ==> birds[k].State() == Act(r0.birds[k], nets[k], p, policy)
        invariant forall k :: i <= k < |birds| ==> birds[k].State() == r0.birds[k]
      {
        Fly(birds[i], nets[i], ref, policy);
        assert ge[..i + 1][..i] == ge[..i];
        fitness := fitness[ge[i] := fitness[ge[i]] + SurvivalReward];
        i := i + 1;
      }
      assert ge[..i] == ge;
      assert BirdStates(birds) == MoveBirds(r0, p, policy).birds;
    }

    /** The end of a pipe's turn: its `passed` flag as the scan left it, then its move. */
    static method Advance(pipe: Pipe, passed: bool)
      modifies pipe
      ensures pipe.State() == Scrolled(old(pipe.State()).(passed := passed))
    {
      pipe.passed := passed;
      pipe.Move();
    }

    /**
     * The loop over the pipes: each pipe scans the birds still in the
     * lists (see `ScanPipeLists`), is noted in `rem` if its right edge is
     * past the left border, and moves; `add` records whether some pipe
     * became passed.  The outcome is `CollidePipes` on the state before.
     */
    method CollisionPhase(collide: Collider) returns (add: bool, rem: seq<Pipe>)
      requires Roster().Valid() && Distinct(pipes) && Distinct(birds)
      modifies this`birds, this`nets, this`ge, this`fitness, pipes
      ensures var ph := CollidePipes(old(Roster()), old(PipeStates(pipes)), collide, sprites.pipeWidth);
        Roster() == ph.roster && PipeStates(pipes) == ph.pipes && add == ph.add &&
        rem == Select(pipes, ph.rem)
      ensures Distinct(birds) && score == old(score)
    {
      ghost var r0 := Roster();
      ghost var p0 := PipeStates(pipes);
      ghost var hs;
      add, rem, hs := PipeLoop(collide);
      LoopDone(r0, p0, hs, pipes, rem, collide, sprites.pipeWidth);
    }

    /**
     * The loop itself, which also records the history `hs` of the phases
     * after each pipe.  The three lists and the fitness record are worked
     * on as local copies and written back after the loop.
     */
    method PipeLoop(collide: Collider) returns (add: bool, rem: seq<Pipe>, ghost hs: seq<Phase>)
      requires Roster().Valid() && Distinct(pipes) && Distinct(birds)
      modifies this`birds, this`nets, this`ge, this`fitness, pipes
      ensures Chain(old(Roster()), old(PipeStates(pipes)), hs, collide, sprites.pipeWidth)
      ensures var ph := hs[|pipes|];
        Roster() == ph.roster && |ph.pipes| == |pipes| && |ph.rem| == |pipes| &&
        (forall k :: 0 <= k < |pipes| ==> pipes[k].State() == ph.pipes[k]) &&
        add == ph.add && rem == Gather(pipes, ph.rem)
      ensures Distinct(birds) && score == old(score)
    {
      ghost var r0 := Roster();
      ghost var p0 := PipeStates(pipes);
      ghost var ph := Phase(r0, [], false, []);
      hs := [ph];
      var bs, ns, gs, fs := birds, nets, ge, fitness;
      add, rem := false, [];
      var i := 0;
      while i < |pipes|
        invariant 0 <= i <= |pipes|
        invariant Chain(r0, p0[..i], hs, collide, sprites.pipeWidth) && ph == hs[i]
        invariant ph.roster == Rules.Roster(BirdStates(bs), ns, gs, fs)
        invariant |ph.pipes| == i && |ph.rem| == i
        invariant forall k :: 0 <= k < i ==> pipes[k].State() == ph.pipes[k]
        invariant forall k :: i <= k < |pipes| ==> pipes[k].State() == p0[k]
        invariant add == ph.add && rem == Gather(pipes[..i], ph.rem)
        invariant Distinct(bs)
      {
        var pipe := pipes[i];
        var passed, flipped;
        ghost var ph';
        bs, ns, gs, fs, passed, flipped, ph' :=
          TurnLists(r0, p0[..i], hs, bs, ns, gs, fs, pipe.State(), collide, sprites.pipeWidth);
        add := add || flipped;
        var gone := pipe.x + sprites.pipeWidth < 0;
        if gone {
          rem := rem + [pipe];
        }
        Advance(pipe, passed);
        PrefixSnoc(p0, i);
        GatherSnoc(pipes[..i], ph.rem, pipe, gone);
        PrefixSnoc(pipes, i);
        ph, hs := ph', hs + [ph'];
        i := i + 1;
      }
      SetRoster(bs, ns, gs, fs);
      PrefixAll(p0);
      PrefixAll(pipes);
    }

    /** The pass reward: every genome still in `ge` gets `PassReward`. */
    method Reward()
      requires forall k :: 0 <= k < |ge| ==> ge[k] < |fitness|
      modifies this`fitness
      ensures fitness == Credit(old(fitness), ge, PassReward)
    {
      ghost var f0 := fitness;
      var i := 0;
      while i < |ge|
        invariant 0 <= i <= |ge| && fitness == Credit(f0, ge[..i], PassReward)
      {
        assert ge[..i + 1][..i] == ge[..i];
        fitness := fitness[ge[i] := fitness[ge[i]] + PassReward];
        i := i + 1;
      }
      assert ge[..i] == ge;
    }

    /**
     * The loop that takes each pipe noted in `rem` out of `pipes`, the
     * first occurrence each time (`list.remove`); the pipes that remain
     * are those not in `rem`, in their order.
     */
    method RemovePipes(rem: seq<Pipe>)
      requires Distinct(pipes) && Distinct(rem) && forall r :: r in rem ==> r in pipes
      modifies this`pipes
      ensures pipes == Select(old(pipes), Absent(old(pipes), rem))
    {
      pipes := RemoveEach(pipes, rem);
    }

    /** Writes the three lists and the fitness record back; no bird or pipe changes. */
    method SetRoster(bs: seq<Bird>, ns: seq<nat>, gs: seq<nat>, fs: seq<real>)
      modifies this`birds, this`nets, this`ge, this`fitness
      ensures birds == bs && nets == ns && ge == gs && fitness == fs
      ensures Roster() == old(Rules.Roster(BirdStates(bs), ns, gs, fs))
      ensures forall k :: 0 <= k < |pipes| ==> pipes[k].State() == old(pipes[k].State())
    {
      birds, nets, ge, fitness := bs, ns, gs, fs;
    }

    /**
     * The last loop over the birds: a visited bird that left the screen
     * vertically is popped; the bird that shifts into its slot is skipped.
     */
    method Cull()
      requires Roster().Valid()
      modifies this`birds, this`nets, this`ge, this`fitness
      ensures Roster() == Prune(old(Roster()), OutOfBounds(old(Roster()).birds, sprites.birdHeight))
      ensures IsSubseq(birds, old(birds))
    {
      ghost var r0 := Roster();
      ghost var hit := OutOfBounds(r0.birds, sprites.birdHeight);
      var bs, ns, gs := CullLists(r0.birds, birds, nets, ge, sprites.birdHeight);
      KeepIsSubseq(birds, hit);
      KeepStates(birds, hit);
      assert Rules.Roster(BirdStates(bs), ns, gs, fitness) == Prune(r0, hit);
      SetRoster(bs, ns, gs, fitness);
    }

    /**
     * What a pass brings: the score rises, every genome still playing
     * gets the pass reward, and a new pipe of height `newHeight` is
     * appended at `SpawnX`.
     */
    method Pass(newHeight: int) returns (p: Pipe)
      requires Roster().Valid() && ValidHeight(newHeight)
      modifies this`score, this`fitness, this`pipes
      ensures fresh(p) && p.State() == Spawned(SpawnX, newHeight, sprites.pipeTopHeight)
      ensures pipes == old(pipes) + [p] && score == old(score) + 1
      ensures Roster() == old(Roster()).(fitness := Credit(old(fitness), ge, PassReward))
    {
      score := score + 1;
      Reward();
      p := new Pipe(SpawnX, newHeight, sprites.pipeTopHeight);
      pipes := pipes + [p];
    }

    /**
     * The end of the loop body: the pipes noted in `rem` (those `m` marks
     * among the pipes `p1` before the pass appended `extra`) are removed,
     * then the birds out of bounds are popped while the lists are
     * enumerated, so one right after a popped bird stays until the next
     * tick.
     */
    method Clear(rem: seq<Pipe>, ghost m: seq<bool>, ghost p1: seq<Pipe>, ghost extra: seq<Pipe>)
      requires Roster().Valid() && Distinct(birds)
      requires |m| == |p1| && Distinct(p1) && |extra| <= 1 && forall p :: p in extra ==> p !in p1
      requires pipes == p1 + extra && rem == Select(p1, m)
      modifies this`pipes, this`birds, this`nets, this`ge, this`fitness
      ensures pipes == Select(p1, Rules.Negate(m)) + extra
      ensures Roster() == Prune(old(Roster()), OutOfBounds(old(Roster()).birds, sprites.birdHeight))
      ensures Distinct(pipes) && Distinct(birds)
    {
      KeptAfter(p1, extra, m, Rules.Negate(m));
      RemovePipes(rem);
      SelectIsSubseq(p1, Rules.Negate(m));
      SubseqInherits(Select(p1, Rules.Negate(m)), p1);
      ghost var b0 := birds;
      Cull();
      SubseqInherits(birds, b0);
    }

    /**
     * The rest of the loop body after the loop over the pipes, which gave
     * `ph`: on a pass, the score, the pass reward and the new pipe of
     * height `newHeight`, appended; then the removal of the pipes in
     * `rem` and the pop-while-enumerating cull of the birds out of bounds.
     */
    method Settle(ghost ph: Phase, add: bool, rem: seq<Pipe>, newHeight: int)
      requires ph.roster.Valid() && |ph.rem| == |ph.pipes| && ValidHeight(newHeight)
      requires Roster() == ph.roster && PipeStates(pipes) == ph.pipes
      requires add == ph.add && rem == Select(pipes, ph.rem)
      requires Distinct(pipes) && Distinct(birds)
      modifies this`birds, this`nets, this`ge, this`fitness, this`pipes, this`score
      ensures Snapshot() == Settled(ph, old(score), sprites, newHeight)
      ensures Distinct(pipes) && Distinct(birds)
    {
      ghost var p1 := pipes;
      ghost var r0 := Roster();
      var extra: seq<Pipe> := [];
      ghost var spawned: seq<PipeState> := [];
      if add {
        var p := Pass(newHeight);
        extra := [p];
        spawned := [p.State()];
      }
      assert pipes == p1 + extra;
      assert spawned == if add then [Spawned(SpawnX, newHeight, sprites.pipeTopHeight)] else [];
      ghost var r1 := Roster();
      assert r1 == if add then r0.(fitness := Credit(r0.fitness, r0.ge, PassReward)) else r0;
      Clear(rem, ph.rem, p1, extra);
      PipeStatesSelect(p1, extra, Rules.Negate(ph.rem));
      assert PipeStates(p1) == ph.pipes;
      assert PipeStates(extra) == spawned;
      SettledFrom(ph, old(score), sprites, newHeight, r1, spawned, Roster(), PipeStates(pipes), score);
    }

    /**
     * The choice of the reference pipe, the second one once the first
     * bird is past the first pipe, and the steering of the birds on it.
     */
    method Aim(policy: Policy)
      requires Roster().Valid() && Distinct(birds) && |birds| > 0 && |pipes| > 0
      modifies birds, this`fitness
      ensures var ps := old(PipeStates(pipes));
        Roster() == MoveBirds(old(Roster()), ps[PipeIndex(old(Roster()).birds, ps, sprites.pipeWidth)], policy)
      ensures PipeStates(pipes) == old(PipeStates(pipes)) && score == old(score)
    {
      var ind := 0;
      if |pipes| > 1 && birds[0].x > pipes[0].x + sprites.pipeWidth {
        ind := 1;
      }
      Steer(pipes[ind], policy);
    }

    /**
     * The loop body when birds are left: the reference pipe is the
     * second one once the first birds have gone past the first, the
     * birds are steered on it, the loop over the pipes runs, and the
     * rest of the body settles the generation.
     */
    method Play(ghost w: World, policy: Policy, collide: Collider, newHeight: int)
      requires Snapshot() == w && Playing(w) && ValidHeight(newHeight)
      requires Distinct(birds) && Distinct(pipes)
      modifies this`birds, this`nets, this`ge, this`fitness, this`pipes, this`score, birds, pipes
      ensures Snapshot() == Rules.Tick(w, sprites, policy, collide, newHeight)
      ensures Distinct(birds) && Distinct(pipes)
    {
      ghost var sc := score;
      Aim(policy);
      assert Roster() == Steered(w, sprites, policy);
      var add, rem := CollisionPhase(collide);
      assert score == sc;
      ghost var ph := Collided(w, sprites, policy, collide);
      assert Roster() == ph.roster && PipeStates(pipes) == ph.pipes;
      assert add == ph.add && rem == Select(pipes, ph.rem);
      Settle(ph, add, rem, newHeight);
    }

    /** The floor's move at the end of the loop body; nothing else changes. */
    method MoveBase()
      modifies base
      ensures (base.x1, base.x2) == Scroll(old(base.x1), old(base.x2), base.width)
      ensures base.y == old(base.y) && (old(base.Valid()) ==> base.Valid())
      ensures Snapshot() == old(Snapshot())
    {
      base.Move();
    }

    /**
     * One pass of the `while run` loop body: it stops the run when no
     * bird is left, and otherwise picks the reference pipe, steers the
     * birds, runs the loop over the pipes, settles and moves the floor.
     * `newHeight` is the random height of the pipe spawned in this pass,
     * if any.
     */
    method Tick(policy: Policy, collide: Collider, newHeight: int) returns (running: bool)
      requires Valid() && ValidHeight(newHeight)
      modifies this, birds, pipes, base
      ensures Valid()
      ensures running == (|old(birds)| > 0)
      ensures !running ==> Snapshot() == old(Snapshot())
      ensures running ==> Snapshot() == Rules.Tick(old(Snapshot()), sprites, policy, collide, newHeight)
      ensures running ==> (base.x1, base.x2) == Scroll(old(base.x1), old(base.x2), base.width)
      ensures !running ==> base.x1 == old(base.x1) && base.x2 == old(base.x2)
      ensures base.y == old(base.y)
    {
      if |birds| == 0 {
        return false;
      }
      ghost var w := Snapshot();
      SteadyPlaying(w, sprites);
      Play(w, policy, collide, newHeight);
      ghost var w' := Rules.Tick(w, sprites, policy, collide, newHeight);
      TickKeepsSteady(w, sprites, policy, collide, newHeight);
      MoveBase();
      running := true;
    }
  }

  /**
   * The inner loop of the collision scan for one pipe, on the three
   * lists and the fitness record (`r` is what they hold): every visited
   * bird that overlaps the pipe costs its genome 1 fitness and is popped
   * from the three lists while they are being enumerated; the pipe's
   * `passed` flag is set, and `flipped` with it, the first time a visited
   * bird (the one just popped included) is ahead of it.
   */
  method ScanPipeLists(ghost r: Rules.Roster, ob: seq<Bird>, on: seq<nat>, og: seq<nat>, f0: seq<real>,
                       p: PipeState, collide: Collider)
    returns (bs: seq<Bird>, ns: seq<nat>, gs: seq<nat>, fs: seq<real>, passed: bool, flipped: bool)
    requires r == Rules.Roster(BirdStates(ob), on, og, f0) && r.Valid()
    ensures var s := Rules.ScanPipe(r, p, collide);
      s.roster == Rules.Roster(BirdStates(bs), ns, gs, fs) && passed == s.passed
    ensures flipped == (!p.passed && passed)
    ensures IsSubseq(bs, ob)
    ensures Distinct(ob) ==> Distinct(bs)
  {
    ghost var hit := Hits(r.birds, p.Shape(), collide);
    bs, ns, gs, fs, passed, flipped := Sweep(r.birds, ob, on, og, f0, p, collide);
    KeepIsSubseq(ob, hit);
    SubseqInherits(bs, ob);
    ScanPipeOutcome(r, p, collide, ob, hit, bs, ns, gs, fs);
  }

  /**
   * `hs` is the history of the pipe loop over the pipes `ps`: it starts
   * from roster `r0` and each entry is the previous one after the turn of
   * the next pipe.
   */
  ghost predicate Chain(r0: Rules.Roster, ps: seq<PipeState>, hs: seq<Phase>, collide: Collider, pipeWidth: int)
  {
    |hs| == |ps| + 1 && r0.Valid() && hs[0] == Phase(r0, [], false, []) &&
    (forall k :: 0 <= k < |hs| ==> hs[k].roster.Valid()) &&
    forall k {:trigger Turn(hs[k], ps[k], collide, pipeWidth)} :: 0 <= k < |ps| ==>
      hs[k + 1] == Turn(hs[k], ps[k], collide, pipeWidth)
  }

  /** Entry `k + 1` of a history is entry `k` after the turn of pipe `k`. */
  lemma ChainAt(r0: Rules.Roster, ps: seq<PipeState>, hs: seq<Phase>, collide: Collider, pipeWidth: int, k: nat)
    requires Chain(r0, ps, hs, collide, pipeWidth) && k < |ps|
    ensures hs[k].roster.Valid() && hs[k + 1] == Turn(hs[k], ps[k], collide, pipeWidth)
  {
  }

  /** A history extended by the next pipe's turn is a history. */
  lemma ChainSnoc(r0: Rules.Roster, ps: seq<PipeState>, hs: seq<Phase>, p: PipeState, ph: Phase,
                  collide: Collider, pipeWidth: int)
    requires Chain(r0, ps, hs, collide, pipeWidth)
    requires ph == Turn(hs[|ps|], p, collide, pipeWidth)
    ensures Chain(r0, ps + [p], hs + [ph], collide, pipeWidth)
  {
    assert (ps + [p])[..|ps|] == ps && (hs + [ph])[..|ps| + 1] == hs;
  }

  /** The last entry of a history over all the pipes is the outcome of the pipe loop. */
  lemma {:induction false} ChainCollide(r0: Rules.Roster, ps: seq<PipeState>, hs: seq<Phase>,
                                        collide: Collider, pipeWidth: int)
    requires Chain(r0, ps, hs, collide, pipeWidth)
    ensures hs[|ps|] == CollidePipes(r0, ps, collide, pipeWidth)
    decreases |ps|
  {
    if ps != [] {
      var n := |ps| - 1;
      var ps', hs' := ps[..n], hs[..n + 1];
      forall k | 0 <= k < n
        ensures hs'[k + 1] == Turn(hs'[k], ps'[k], collide, pipeWidth)
      {
        ChainAt(r0, ps, hs, collide, pipeWidth, k);
        assert hs'[k] == hs[k] && hs'[k + 1] == hs[k + 1] && ps'[k] == ps[k];
      }
      ChainCollide(r0, ps', hs', collide, pipeWidth);
      ChainAt(r0, ps, hs, collide, pipeWidth, n);
    }
  }

  /** The history and the gathered `rem` at the end of the loop, in terms of `CollidePipes`. */
  lemma LoopDone(r0: Rules.Roster, p0: seq<PipeState>, hs: seq<Phase>, pipes: seq<Pipe>, rem: seq<Pipe>,
                 collide: Collider, pipeWidth: int)
    requires Chain(r0, p0, hs, collide, pipeWidth) && |pipes| == |p0| && |hs[|p0|].rem| == |p0|
    requires rem == Gather(pipes, hs[|p0|].rem)
    ensures hs[|p0|] == CollidePipes(r0, p0, collide, pipeWidth)
    ensures rem == Select(pipes, hs[|p0|].rem)
  {
    ChainCollide(r0, p0, hs, collide, pipeWidth);
    GatherIsSelect(pipes, hs[|p0|].rem);
  }

  /**
   * One turn of the pipe loop on the lists: the scan of pipe `p`, after
   * the history `hs` of the pipes `ps` before it, extends that history.
   */
  method TurnLists(ghost r0: Rules.Roster, ghost ps: seq<PipeState>, ghost hs: seq<Phase>,
                   ob: seq<Bird>, on: seq<nat>, og: seq<nat>, f0: seq<real>,
                   p: PipeState, collide: Collider, pipeWidth: int)
    returns (bs: seq<Bird>, ns: seq<nat>, gs: seq<nat>, fs: seq<real>, passed: bool, flipped: bool,
             ghost ph: Phase)
    requires Chain(r0, ps, hs, collide, pipeWidth)
    requires hs[|ps|].roster == Rules.Roster(BirdStates(ob), on, og, f0)
    ensures Chain(r0, ps + [p], hs + [ph], collide, pipeWidth)
    ensures ph.roster == Rules.Roster(BirdStates(bs), ns, gs, fs)
    ensures ph.pipes == hs[|ps|].pipes + [Scrolled(p.(passed := passed))]
    ensures ph.add == (hs[|ps|].add || flipped) && ph.rem == hs[|ps|].rem + [p.x + pipeWidth < 0]
    ensures flipped == (!p.passed && passed)
    ensures Distinct(ob) ==> Distinct(bs)
  {
    bs, ns, gs, fs, passed, flipped := ScanPipeLists(hs[|ps|].roster, ob, on, og, f0, p, collide);
    ph := Turn(hs[|ps|], p, collide, pipeWidth);
    ChainSnoc(r0, ps, hs, p, ph, collide, pipeWidth);
  }

  /**
   * The loop of the collision scan on the three lists, the fitness record
   * and the pipe's `passed` flag as values: it pops, from the lists it
   * enumerates, every visited bird that `collide` finds overlapping pipe
   * `p` and charges its genome, and sets the flag at the first visited
   * bird ahead of the pipe.  `obs` are the birds' fields.
   */
  method Sweep(ghost obs: seq<BirdState>, ob: seq<Bird>, on: seq<nat>, og: seq<nat>, f0: seq<real>,
               p: PipeState, collide: Collider)
    returns (bs: seq<Bird>, ns: seq<nat>, gs: seq<nat>, fs: seq<real>, passed: bool, flipped: bool)
    requires obs == BirdStates(ob) && |on| == |ob| && |og| == |ob|
    requires forall k :: 0 <= k < |og| ==> og[k] < |f0|
    ensures var hit := Hits(obs, p.Shape(), collide);
      bs == Keep(ob, hit) && ns == Keep(on, hit) && gs == Keep(og, hit) &&
      fs == Credit(f0, CrashedGenomes(og, hit), -CrashPenalty) &&
      passed == (p.passed || PassSeen(p.x, obs, hit, |ob|))
    ensures flipped == (!p.passed && passed)
  {
    ghost var hit := Hits(obs, p.Shape(), collide);
    bs, ns, gs, fs := ob, on, og, f0;
    passed, flipped := p.passed, false;
    var i := 0;
    ghost var j: nat := 0;
    ghost var popped: seq<nat> := [];
    TracksStart(ob, hit);
    TracksStart(on, hit);
    TracksStart(og, hit);
    while i < |bs|
      invariant Tracks(bs, ob, hit, i, j) && Tracks(ns, on, hit, i, j) && Tracks(gs, og, hit, i, j)
      invariant Charged(og, f0, hit, i, j, gs, popped, fs)
      invariant passed == (p.passed || PassSeen(p.x, obs, hit, j))
      invariant flipped == (!p.passed && passed)
      decreases |bs| - i
    {
      TracksStep(bs, ob, hit, i, j);
      TracksStep(ns, on, hit, i, j);
      TracksStep(gs, og, hit, i, j);
      ChargedStep(og, f0, hit, i, j, gs, popped, fs);
      PassSeenStep(p.x, obs, hit, j);
      var bird := bs[i];
      assert bird.State() == obs[j];
      if collide(p.Shape(), bird.State()) {
        popped := popped + [gs[i]];
        fs := fs[gs[i] := fs[gs[i]] - CrashPenalty];
        bs := bs[..i] + bs[i + 1..];
        ns := ns[..i] + ns[i + 1..];
        gs := gs[..i] + gs[i + 1..];
      }
      if !passed && p.x < bird.x {
        passed, flipped := true, true;
      }
      i := i + 1;
      j := Next(hit, j);
    }
    TracksDone(bs, ob, hit, i, j);
    TracksDone(ns, on, hit, i, j);
    TracksDone(gs, og, hit, i, j);
    ChargedDone(og, f0, hit, i, j, gs, popped, fs);
  }

  /**
   * Midway through the scan, the genomes popped so far (`popped`) have
   * been charged, and they and those the rest of the scan pops are
   * exactly the ones the whole scan pops.
   */
  ghost predicate Charged(og: seq<nat>, f0: seq<real>, hit: seq<bool>, i: nat, j: nat,
                          gs: seq<nat>, popped: seq<nat>, fs: seq<real>)
  {
    (forall k :: 0 <= k < |popped| ==> popped[k] < |f0|) &&
    fs == Credit(f0, popped, -CrashPenalty) &&
    popped + Dropped(hit, j, i, gs) == Dropped(hit, 0, 0, og)
  }

  lemma ChargedStep(og: seq<nat>, f0: seq<real>, hit: seq<bool>, i: nat, j: nat,
                    gs: seq<nat>, popped: seq<nat>, fs: seq<real>)
    requires Charged(og, f0, hit, i, j, gs, popped, fs) && Tracks(gs, og, hit, i, j) && i < |gs|
    requires forall k :: 0 <= k < |og| ==> og[k] < |f0|
    ensures gs[i] < |fs|
    ensures hit[j] ==> Charged(og, f0, hit, i + 1, Next(hit, j), gs[..i] + gs[i + 1..], popped + [gs[i]],
                               fs[gs[i] := fs[gs[i]] - CrashPenalty])
    ensures !hit[j] ==> Charged(og, f0, hit, i + 1, Next(hit, j), gs, popped, fs)
  {
    AlignedStep(gs, og, hit, i, j);
    CreditSnoc(f0, popped, gs[i], -CrashPenalty);
  }

  /** Once the scan is over, every genome it popped has been charged once. */
  lemma ChargedDone(og: seq<nat>, f0: seq<real>, hit: seq<bool>, i: nat, j: nat,
                    gs: seq<nat>, popped: seq<nat>, fs: seq<real>)
    requires Charged(og, f0, hit, i, j, gs, popped, fs) && i >= |gs| && |hit| == |og|
    requires forall k :: 0 <= k < |og| ==> og[k] < |f0|
    ensures fs == Credit(f0, CrashedGenomes(og, hit), -CrashPenalty)
  {
    assert Dropped(hit, j, i, gs) == [];
    assert popped == popped + Dropped(hit, j, i, gs);
    DroppedByScan(og, hit);
    assert popped == CrashedGenomes(og, hit);
  }

  /** The lists the scan leaves behind are those of `Rules.ScanPipe`. */
  lemma ScanPipeOutcome(r0: Rules.Roster, p0: PipeState, collide: Collider, ob: seq<Bird>, hit: seq<bool>,
                        bs: seq<Bird>, ns: seq<nat>, gs: seq<nat>, fs: seq<real>)
    requires r0.Valid() && r0.birds == BirdStates(ob) && hit == Hits(r0.birds, p0.Shape(), collide)
    requires bs == Keep(ob, hit) && ns == Keep(r0.nets, hit) && gs == Keep(r0.ge, hit)
    requires fs == Credit(r0.fitness, CrashedGenomes(r0.ge, hit), -CrashPenalty)
    ensures Rules.ScanPipe(r0, p0, collide) ==
      Scan(Rules.Roster(BirdStates(bs), ns, gs, fs), p0.passed || PassSeen(p0.x, r0.birds, hit, |r0.birds|))
  {
    BirdStatesPick(ob, Where(Survivors(hit), |ob|));
  }

  /** `Settled` in terms of the values the steps of `Settle` leave. */
  lemma SettledFrom(ph: Phase, score0: nat, sprites: Sprites, newHeight: int,
                    r1: Rules.Roster, spawned: seq<PipeState>, r: Rules.Roster, ps: seq<PipeState>, score: nat)
    requires ph.roster.Valid() && |ph.rem| == |ph.pipes| && ValidHeight(newHeight)
    requires r1 == if ph.add then ph.roster.(fitness := Credit(ph.roster.fitness, ph.roster.ge, PassReward)) else ph.roster
    requires spawned == if ph.add then [Spawned(SpawnX, newHeight, sprites.pipeTopHeight)] else []
    requires r == Prune(r1, OutOfBounds(r1.birds, sprites.birdHeight))
    requires ps == Select(ph.pipes, Rules.Negate(ph.rem)) + spawned
    requires score == if ph.add then score0 + 1 else score0
    ensures World(r, ps, score) == Settled(ph, score0, sprites, newHeight)
  {
  }

  /** Reading the kept pipes and the new one is keeping the pipes' fields and adding the new one's. */
  lemma PipeStatesSelect(p1: seq<Pipe>, extra: seq<Pipe>, m: seq<bool>)
    requires |m| == |p1|
    ensures PipeStates(Select(p1, m) + extra) == Select(PipeStates(p1), m) + PipeStates(extra)
  {
    PipeStatesPick(p1, Where(m, |p1|));
  }

  /** Reading the surviving birds is keeping the survivors' fields. */
  lemma KeepStates(bs: seq<Bird>, hit: seq<bool>)
    requires |hit| == |bs|
    ensures BirdStates(Keep(bs, hit)) == Keep(BirdStates(bs), hit)
  {
    BirdStatesPick(bs, Where(Survivors(hit), |bs|));
  }

  /**
   * The last loop over the birds on the three lists: every visited bird
   * whose top is below the floor line or above the screen is popped from
   * them while they are being enumerated.
   */
  method CullLists(ghost obs: seq<BirdState>, ob: seq<Bird>, on: seq<nat>, og: seq<nat>, birdHeight: int)
    returns (bs: seq<Bird>, ns: seq<nat>, gs: seq<nat>)
    requires obs == BirdStates(ob) && |on| == |ob| && |og| == |ob|
    ensures var hit := OutOfBounds(obs, birdHeight);
      bs == Keep(ob, hit) && ns == Keep(on, hit) && gs == Keep(og, hit)
  {
    ghost var hit := OutOfBounds(obs, birdHeight);
    bs, ns, gs := ob, on, og;
    var i := 0;
    ghost var j: nat := 0;
    TracksStart(ob, hit);
    TracksStart(on, hit);
    TracksStart(og, hit);
    while i < |bs|
      invariant Tracks(bs, ob, hit, i, j) && Tracks(ns, on, hit, i, j) && Tracks(gs, og, hit, i, j)
      decreases |bs| - i
    {
      TracksStep(bs, ob, hit, i, j);
      TracksStep(ns, on, hit, i, j);
      TracksStep(gs, og, hit, i, j);
      var bird := bs[i];
      assert bird.State() == obs[j];
      if bird.y + birdHeight as real >= FloorY as real || bird.y < 0.0 {
        bs := bs[..i] + bs[i + 1..];
        ns := ns[..i] + ns[i + 1..];
        gs := gs[..i] + gs[i + 1..];
      }
      i := i + 1;
      j := Next(hit, j);
    }
    TracksDone(bs, ob, hit, i, j);
    TracksDone(ns, on, hit, i, j);
    TracksDone(gs, og, hit, i, j);
  }

  /** The loop over the genomes that creates a network, a bird and a zero fitness for each. */
  method Populate(n: nat) returns (bs: seq<Bird>, ns: seq<nat>, gs: seq<nat>, fs: seq<real>)
    ensures Rules.Roster(BirdStates(bs), ns, gs, fs) == Population(n)
    ensures Distinct(bs) && forall b :: b in bs ==> fresh(b)
  {
    bs, ns, gs, fs := [], [], [], [];
    var i := 0;
    while i < n
      invariant 0 <= i <= n && |bs| == i && |ns| == i && |gs| == i && |fs| == i
      invariant forall k :: 0 <= k < i ==> ns[k] == k && gs[k] == k && fs[k] == 0.0
      invariant forall k :: 0 <= k < i ==> bs[k].State() == Hatched(StartX, StartY)
      invariant Distinct(bs) && forall b :: b in bs ==> fresh(b)
    {
      ns := ns + [i];
      var b := new Bird(StartX, StartY);
      bs := bs + [b];
      gs := gs + [i];
      fs := fs + [0.0];
      i := i + 1;
    }
    assert BirdStates(bs) == Population(n).birds;
  }

  /** One bird's turn in the first loop: `move`, then `jump` if the network says so. */
  method Fly(bird: Bird, net: nat, ref: Pipe, policy: Policy)
    modifies bird
    ensures bird.State() == Act(old(bird.State()), net, ref.State(), policy)
  {
    bird.Move();
    var output := policy(net, Observation(bird.y, Abs(bird.y - ref.height as real), Abs(bird.y - ref.bottom as real)));
    if output > JumpThreshold {
      bird.Jump();
    }
  }
}
