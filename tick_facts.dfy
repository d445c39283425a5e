/**
 * What one tick of the generation loop guarantees: the parallel lists
 * are only thinned, together; every genome's fitness changes by the
 * survival reward, the crash penalty and the pass reward exactly as it
 * qualifies for them; pipes move, are culled once off screen and at most
 * one is spawned; and the game can always go on while a bird is left.
 */
module TickFacts {
  import opened BirdPhysics
  import opened Pipes
  import opened Removal
  import opened Rules

  /** For every pipe, whether its right edge is still on screen (`x + width >= 0`). */
  function OnScreen(ps: seq<PipeState>, pipeWidth: int): (m: seq<bool>)
    ensures |m| == |ps| && forall k :: 0 <= k < |ps| ==> m[k] == (ps[k].x + pipeWidth >= 0)
  {
    seq(|ps|, k requires 0 <= k < |ps| => ps[k].x + pipeWidth >= 0)
  }

  /**
   * The birds, networks and genomes left after a tick are the entries at
   * some increasing positions of the lists before it, moved and steered,
   * with the three lists still aligned: nothing is added, reordered or
   * removed from one list and not the others.
   */
  lemma TickThins(w: World, sprites: Sprites, policy: Policy, collide: Collider, h: int)
    requires Playing(w) && ValidHeight(h)
    ensures var w' := Tick(w, sprites, policy, collide, h);
      var ref := w.pipes[PipeIndex(w.roster.birds, w.pipes, sprites.pipeWidth)];
      exists idx :: Embeds(idx, w'.roster.nets, w.roster.nets) && Embeds(idx, w'.roster.ge, w.roster.ge) &&
        |idx| == |w'.roster.birds| &&
        forall i :: 0 <= i < |idx| ==>
          w'.roster.birds[i] == Act(w.roster.birds[idx[i]], w.roster.nets[idx[i]], ref, policy)
  {
    var w' := Tick(w, sprites, policy, collide, h);
    var moved := Steered(w, sprites, policy);
    var ph := Collided(w, sprites, policy, collide);
    CollidePipesThins(moved, w.pipes, collide, sprites.pipeWidth);
    var out := OutOfBounds(ph.roster.birds, sprites.birdHeight);
    var rewarded := if ph.add then ph.roster.(fitness := Credit(ph.roster.fitness, ph.roster.ge, PassReward)) else ph.roster;
    PruneThins(rewarded, out);
    assert Thinned(Where(Survivors(out), |rewarded.birds|), w'.roster, ph.roster);
    SubRosterTransitive(w'.roster, ph.roster, moved);
    var idx :| Thinned(idx, w'.roster, moved);
    assert Embeds(idx, w'.roster.nets, w.roster.nets) && Embeds(idx, w'.roster.ge, w.roster.ge);
  }

  /**
   * The fitness of genome `g` after a tick: +0.1 if its bird was in play,
   * -1 if the scan popped its bird for a collision, +5 if a pipe was
   * passed and its bird was still in `ge` after the collision scan (even
   * if the bird is then removed for being out of bounds).
   */
  lemma TickFitness(w: World, sprites: Sprites, policy: Policy, collide: Collider, h: int, g: nat)
    requires Playing(w) && ValidHeight(h) && Distinct(w.roster.ge) && g < |w.roster.fitness|
    ensures var w' := Tick(w, sprites, policy, collide, h);
      var ph := Collided(w, sprites, policy, collide);
      w'.roster.fitness[g] ==
        w.roster.fitness[g]
        + (if g in w.roster.ge then SurvivalReward else 0.0)
        - (if g in w.roster.ge && g !in ph.roster.ge then CrashPenalty else 0.0)
        + (if ph.add && g in ph.roster.ge then PassReward else 0.0)
  {
    var moved := Steered(w, sprites, policy);
    var ph := Collided(w, sprites, policy, collide);
    CreditEffect(w.roster.fitness, w.roster.ge, SurvivalReward, g);
    CollidePipesFitness(moved, w.pipes, collide, sprites.pipeWidth, g);
    CollidePipesThins(moved, w.pipes, collide, sprites.pipeWidth);
    SubRosterInherits(ph.roster, moved);
    if ph.add {
      CreditEffect(ph.roster.fitness, ph.roster.ge, PassReward, g);
    }
  }

  /**
   * The pipes after a tick: every pipe has moved one step left with its
   * gap unchanged and `passed` never cleared; those whose right edge was
   * off screen before the move are gone, the rest in their order; a new
   * pipe is appended at `SpawnX`, and the score rises by one, exactly when
   * some pipe's `passed` flag flipped.
   */
  lemma TickPipes(w: World, sprites: Sprites, policy: Policy, collide: Collider, h: int)
    requires Playing(w) && ValidHeight(h)
    ensures var w' := Tick(w, sprites, policy, collide, h);
      var ph := Collided(w, sprites, policy, collide);
      (forall k :: 0 <= k < |w.pipes| ==> ScrolledFrom(w.pipes[k], ph.pipes[k])) &&
      w'.pipes == Select(ph.pipes, OnScreen(w.pipes, sprites.pipeWidth)) +
                  (if ph.add then [Spawned(SpawnX, h, sprites.pipeTopHeight)] else []) &&
      (ph.add <==> Flipped(w.pipes, ph.pipes)) &&
      w'.score == w.score + (if ph.add then 1 else 0)
  {
    var moved := Steered(w, sprites, policy);
    var ph := Collided(w, sprites, policy, collide);
    CollidePipesEach(moved, w.pipes, collide, sprites.pipeWidth);
    CollidePipesAddsOnFlip(moved, w.pipes, collide, sprites.pipeWidth);
    assert Negate(ph.rem) == OnScreen(w.pipes, sprites.pipeWidth);
  }

  /** Over a tick the score rises by at most one and at most one pipe is added. */
  lemma TickBounds(w: World, sprites: Sprites, policy: Policy, collide: Collider, h: int)
    requires Playing(w) && ValidHeight(h)
    ensures var w' := Tick(w, sprites, policy, collide, h);
      w.score <= w'.score <= w.score + 1 && |w'.pipes| <= |w.pipes| + 1
  {
    var ph := Collided(w, sprites, policy, collide);
    SelectIsSubseq(ph.pipes, Negate(ph.rem));
    SubseqInherits(Select(ph.pipes, Negate(ph.rem)), ph.pipes);
  }

  /**
   * The invariant of the generation loop: the lists are aligned, each
   * genome appears once, every bird is at `StartX`, every pipe has the
   * geometry of its height, the newest pipe is not yet passed and, while
   * a bird is left, is not behind it by more than one step.
   */
  ghost predicate Steady(w: World, sprites: Sprites)
  {
    RosterSteady(w.roster) && PipesSteady(w.pipes, sprites) &&
    (|w.roster.birds| > 0 ==> w.pipes[|w.pipes| - 1].x >= StartX - PipeVel)
  }

  ghost predicate RosterSteady(r: Roster)
  {
    r.Valid() && Distinct(r.ge) && forall i :: 0 <= i < |r.birds| ==> r.birds[i].x == StartX
  }

  ghost predicate PipesSteady(ps: seq<PipeState>, sprites: Sprites)
  {
    (forall k :: 0 <= k < |ps| ==> WellShaped(ps[k], sprites.pipeTopHeight)) &&
    |ps| > 0 && !ps[|ps| - 1].passed
  }

  /** The lists before the first tick: `n` new birds, network and genome `i` at position `i`, fitness 0. */
  function Population(n: nat): (r: Roster)
    ensures |r.birds| == n && |r.nets| == n && |r.ge| == n && |r.fitness| == n
    ensures forall i :: 0 <= i < n ==> r.birds[i] == Hatched(StartX, StartY)
    ensures forall i :: 0 <= i < n ==> r.nets[i] == i && r.ge[i] == i && r.fitness[i] == 0.0
  {
    Roster(seq(n, i => Hatched(StartX, StartY)), seq(n, i => i), seq(n, i => i), seq(n, i => 0.0))
  }

  /** The state before the first tick: the population, one pipe at `SpawnX`, score 0. */
  function Start(n: nat, h: int, sprites: Sprites): (w: World)
    requires ValidHeight(h)
    ensures w.score == 0 && |w.pipes| == 1 && !w.pipes[0].passed && w.pipes[0].x == SpawnX
    ensures |w.roster.birds| == n && |w.roster.fitness| == n
  {
    World(Population(n), [Spawned(SpawnX, h, sprites.pipeTopHeight)], 0)
  }

  lemma StartSteady(n: nat, h: int, sprites: Sprites)
    requires ValidHeight(h)
    ensures Steady(Start(n, h, sprites), sprites)
  {
    var w := Start(n, h, sprites);
    assert Distinct(w.roster.ge);
  }

  /** While a bird is left, the loop body can run: the reference pipe exists. */
  lemma SteadyPlaying(w: World, sprites: Sprites)
    requires Steady(w, sprites) && |w.roster.birds| > 0
    ensures Playing(w)
  {
  }

  /** The moved birds, and so every bird left after the pipes' scans, are still at `StartX`. */
  lemma CollidedKeepsX(w: World, sprites: Sprites, policy: Policy, collide: Collider)
    requires Steady(w, sprites) && |w.roster.birds| > 0
    ensures var c := Collided(w, sprites, policy, collide).roster;
      forall i :: 0 <= i < |c.birds| ==> c.birds[i].x == StartX
  {
    var moved := Steered(w, sprites, policy);
    var c := Collided(w, sprites, policy, collide).roster;
    CollidePipesThins(moved, w.pipes, collide, sprites.pipeWidth);
    SubRosterInherits(c, moved);
    forall i | 0 <= i < |c.birds|
      ensures c.birds[i].x == StartX
    {
      assert c.birds[i] in moved.birds;
    }
  }

  /**
   * The newest pipe after the loop over the pipes: it is on screen, and
   * if it is still not passed while a bird is left, it was at or ahead of
   * the birds before its move.
   */
  lemma LastPipe(w: World, sprites: Sprites, policy: Policy, collide: Collider)
    requires Steady(w, sprites) && |w.roster.birds| > 0 && sprites.Valid()
    ensures var ph := Collided(w, sprites, policy, collide);
      var n := |w.pipes| - 1;
      !ph.rem[n] && ScrolledFrom(w.pipes[n], ph.pipes[n]) &&
      (!ph.pipes[n].passed && |ph.roster.birds| > 0 ==> w.pipes[n].x >= StartX)
  {
    var moved := Steered(w, sprites, policy);
    var ph := Collided(w, sprites, policy, collide);
    var ps := w.pipes;
    var n := |ps| - 1;
    CollidePipesEach(moved, ps, collide, sprites.pipeWidth);
    if !ph.pipes[n].passed && |ph.roster.birds| > 0 {
      var prev := CollidePipes(moved, ps[..n], collide, sprites.pipeWidth).roster;
      CollidePipesLast(moved, ps, collide, sprites.pipeWidth);
      CollidePipesThins(moved, ps[..n], collide, sprites.pipeWidth);
      SubRosterInherits(prev, moved);
      assert prev.birds[0] in moved.birds;
      var hit := Hits(prev.birds, ps[n].Shape(), collide);
      if ps[n].x < StartX {
        PassSeenFirst(ps[n].x, prev.birds, hit, |prev.birds|);
      }
    }
  }

  /** Each tick keeps the invariant while a bird is left to play it. */
  lemma TickKeepsSteady(w: World, sprites: Sprites, policy: Policy, collide: Collider, h: int)
    requires Steady(w, sprites) && |w.roster.birds| > 0 && sprites.Valid() && ValidHeight(h)
    ensures Steady(Tick(w, sprites, policy, collide, h), sprites)
  {
    TickKeepsRosterSteady(w, sprites, policy, collide, h);
    TickKeepsPipesSteady(w, sprites, policy, collide, h);
  }

  lemma TickKeepsRosterSteady(w: World, sprites: Sprites, policy: Policy, collide: Collider, h: int)
    requires Steady(w, sprites) && |w.roster.birds| > 0 && ValidHeight(h)
    ensures RosterSteady(Tick(w, sprites, policy, collide, h).roster)
  {
    var w' := Tick(w, sprites, policy, collide, h);
    var ph := Collided(w, sprites, policy, collide);
    TickThins(w, sprites, policy, collide, h);
    CollidedKeepsX(w, sprites, policy, collide);
    assert Distinct(w'.roster.ge) by {
      var idx :| Embeds(idx, w'.roster.nets, w.roster.nets) && Embeds(idx, w'.roster.ge, w.roster.ge);
      SubseqInherits(w'.roster.ge, w.roster.ge);
    }
    assert forall i :: 0 <= i < |w'.roster.birds| ==> w'.roster.birds[i].x == StartX by {
      var out := OutOfBounds(ph.roster.birds, sprites.birdHeight);
      KeepEmbeds(ph.roster.birds, out);
    }
  }

  lemma TickKeepsPipesSteady(w: World, sprites: Sprites, policy: Policy, collide: Collider, h: int)
    requires Steady(w, sprites) && |w.roster.birds| > 0 && sprites.Valid() && ValidHeight(h)
    ensures var w' := Tick(w, sprites, policy, collide, h);
      PipesSteady(w'.pipes, sprites) &&
      (|w'.roster.birds| > 0 ==> w'.pipes[|w'.pipes| - 1].x >= StartX - PipeVel)
  {
    var w' := Tick(w, sprites, policy, collide, h);
    var ph := Collided(w, sprites, policy, collide);
    var n := |w.pipes| - 1;
    var kept := Select(ph.pipes, Negate(ph.rem));
    PipesKeepShape(w, sprites, policy, collide, h);
    LastPipe(w, sprites, policy, collide);
    if ph.add {
      assert w'.pipes == kept + [Spawned(SpawnX, h, sprites.pipeTopHeight)];
    } else {
      assert w'.pipes == kept;
      assert |kept| > 0 && kept[|kept| - 1] == ph.pipes[n] by {
        SelectLast(ph.pipes, Negate(ph.rem));
      }
      assert !ph.pipes[n].passed by {
        CollidePipesAddsOnFlip(Steered(w, sprites, policy), w.pipes, collide, sprites.pipeWidth);
      }
      if |w'.roster.birds| > 0 {
        assert |ph.roster.birds| > 0 by {
          KeepIsSubseq(ph.roster.birds, OutOfBounds(ph.roster.birds, sprites.birdHeight));
        }
      }
    }
  }

  /** The pipes chosen from well-shaped pipes are well-shaped. */
  lemma SelectKeepsShape(ps: seq<PipeState>, m: seq<bool>, topHeight: int)
    requires |m| == |ps| && forall k :: 0 <= k < |ps| ==> WellShaped(ps[k], topHeight)
    ensures forall k :: 0 <= k < |Select(ps, m)| ==> WellShaped(Select(ps, m)[k], topHeight)
  {
  }

  /** Every pipe after a tick has the geometry of its height. */
  lemma PipesKeepShape(w: World, sprites: Sprites, policy: Policy, collide: Collider, h: int)
    requires Steady(w, sprites) && |w.roster.birds| > 0 && ValidHeight(h)
    ensures var w' := Tick(w, sprites, policy, collide, h);
      forall k :: 0 <= k < |w'.pipes| ==> WellShaped(w'.pipes[k], sprites.pipeTopHeight)
  {
    var moved := Steered(w, sprites, policy);
    var ph := Collided(w, sprites, policy, collide);
    assert forall k :: 0 <= k < |ph.pipes| ==> WellShaped(ph.pipes[k], sprites.pipeTopHeight) by {
      CollidePipesEach(moved, w.pipes, collide, sprites.pipeWidth);
    }
    SelectKeepsShape(ph.pipes, Negate(ph.rem), sprites.pipeTopHeight);
  }
}
