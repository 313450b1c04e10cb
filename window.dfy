/**
 * The particle window's registry: two parallel lists, `particles` and `threads`,
 * whose entries at the same index belong together, a controller thread that
 * reaps finished movers, and the event handlers that spawn and remove particles.
 *
 * Every synchronized block of the source is one method here; a Java thread is a
 * handle object with `started`, `finished` and `interrupted` flags. A list field
 * that may be null is an Option of a sequence.
 */
module Window {
  import opened Wrappers
  import opened Particles
  import opened Sweep

  /** Number of particles created by `start`. */
  const POPULATION: nat := 10
  /** The left mouse button (`MouseEvent.BUTTON1`). */
  const BUTTON1: int := 1
  /** The action command of the spawn button. */
  const SPAWN: string := "Spawn"

  /** How an event handler ends: normally, or with a NullPointerException on a null list. */
  datatype Status = Normal | NullPointer

  /** Java's `n / 2`, which truncates toward zero. */
  function Half(n: int): (h: int)
    ensures n >= 0 ==> 0 <= n - 2 * h <= 1
    ensures n < 0 ==> -1 <= n - 2 * h <= 0
  {
    if n >= 0 then n / 2 else -((-n) / 2)
  }

  /** The centre of a non-negative canvas is inside the canvas, so a new particle starts in bounds. */
  lemma CentreInBounds(p: Particle, width: int, height: int)
    requires width >= 0 && height >= 0
    requires p.x == Half(width) && p.y == Half(height)
    ensures p.InBounds(width, height)
  {
  }

  /** The thread that `makeThread(p)` returns: it moves p until p leaves the canvas or it is interrupted. */
  class Mover {
    const particle: Particle
    var started: bool
    var finished: bool
    var interrupted: bool

    constructor (p: Particle)
      ensures particle == p && !started && !finished && !interrupted
    {
      particle := p;
      started, finished, interrupted := false, false, false;
    }

    /** `Thread.isAlive()`: started and not yet returned from its run loop. */
    predicate IsAlive()
      reads this
    {
      started && !finished
    }

    /** `Thread.start()`, which may be called once. */
    method Start()
      requires !started
      modifies this
      ensures started && finished == old(finished) && interrupted == old(interrupted)
    {
      started := true;
    }

    /** `Thread.interrupt()`: raises the flag; the thread notices it at its next sleep. */
    method Interrupt()
      modifies this
      ensures interrupted && started == old(started) && finished == old(finished)
    {
      interrupted := true;
    }

    /**
     * One pass of the run loop: move the particle, return if it is out of
     * bounds, otherwise sleep, which ends the loop when the thread was interrupted.
     */
    method Step(width: int, height: int) returns (done: bool)
      requires IsAlive()
      modifies this, particle
      ensures old(particle.x) - 5 <= particle.x <= old(particle.x) + 4
      ensures old(particle.y) - 10 <= particle.y <= old(particle.y) + 9
      ensures particle.color == old(particle.color)
      ensures done == (!particle.InBounds(width, height) || interrupted)
      ensures finished == done && started && interrupted == old(interrupted)
    {
      particle.Move();
      if !particle.InBounds(width, height) {
        done := true;
      } else {
        done := interrupted;
      }
      finished := done;
    }
  }

  /** The controller thread, which runs the reap sweep at about 60 Hz. */
  class Supervisor {
    var started: bool
    var interrupted: bool

    constructor ()
      ensures !started && !interrupted
    {
      started, interrupted := false, false;
    }

    method Start()
      requires !started
      modifies this
      ensures started && interrupted == old(interrupted)
    {
      started := true;
    }

    method Interrupt()
      modifies this
      ensures interrupted && started == old(started)
    {
      interrupted := true;
    }
  }

  /** The entries of the two lists at the same index belong together. */
  predicate Paired(ps: seq<Particle>, ts: seq<Mover>)
  {
    |ps| == |ts| && forall i :: 0 <= i < |ts| ==> ts[i].particle == ps[i]
  }

  /** Alive flags of a list of threads, index by index. */
  function AliveFlags(ts: seq<Mover>): (live: seq<bool>)
    reads set t | t in ts
    ensures |live| == |ts| && forall i :: 0 <= i < |ts| ==> live[i] == ts[i].IsAlive()
  {
    if ts == [] then [] else AliveFlags(ts[..|ts| - 1]) + [ts[|ts| - 1].IsAlive()]
  }

  /** lv holds the alive flags of ts, index by index. */
  ghost predicate FlagsOf(lv: seq<bool>, ts: seq<Mover>)
    reads set t | t in ts
  {
    |lv| == |ts| && forall i :: 0 <= i < |ts| ==> lv[i] == ts[i].IsAlive()
  }

  lemma {:induction false} FlagsOfMask(lv: seq<bool>, ts: seq<Mover>, keep: seq<bool>)
    requires FlagsOf(lv, ts) && |keep| == |ts|
    ensures FlagsOf(Mask(lv, keep), Mask(ts, keep))
  {
    if ts != [] {
      var n := |ts| - 1;
      FlagsOfMask(lv[..n], ts[..n], keep[..n]);
      var lv', ts' := Mask(lv[..n], keep[..n]), Mask(ts[..n], keep[..n]);
      if keep[n] {
        assert Mask(ts, keep) == ts' + [ts[n]] && Mask(lv, keep) == lv' + [lv[n]];
        assert forall j :: 0 <= j < |ts'| ==> (ts' + [ts[n]])[j] == ts'[j];
        assert forall j :: 0 <= j < |lv'| ==> (lv' + [lv[n]])[j] == lv'[j];
      }
    }
  }

  /** A second sweep sees the alive flags the first one left, which is what Rounds assumes. */
  lemma AliveFlagsMask(ts: seq<Mover>, keep: seq<bool>)
    requires |ts| == |keep|
    ensures AliveFlags(Mask(ts, keep)) == Mask(AliveFlags(ts), keep)
  {
    FlagsOfMask(AliveFlags(ts), ts, keep);
  }

  /** The index of the first particle hit by a click at (px, py), if any. */
  function FirstHit(ps: seq<Particle>, px: int, py: int): (r: Option<nat>)
    reads set p | p in ps
    ensures r.Some? ==> r.value < |ps| && ps[r.value].NearPointDefault(px, py)
    ensures r.Some? ==> forall j :: 0 <= j < r.value ==> !ps[j].NearPointDefault(px, py)
    ensures r.None? <==> forall j :: 0 <= j < |ps| ==> !ps[j].NearPointDefault(px, py)
  {
    if ps == [] then None
    else if ps[0].NearPointDefault(px, py) then Some(0)
    else
      match FirstHit(ps[1..], px, py)
      case None => None
      case Some(i) => Some(i + 1)
  }

  /** Removing the same index from both lists keeps them paired. */
  lemma PairedRemove(ps: seq<Particle>, ts: seq<Mover>, i: nat)
    requires Paired(ps, ts) && i < |ts|
    ensures Paired(ps[..i] + ps[i + 1..], ts[..i] + ts[i + 1..])
  {
    var ps', ts' := ps[..i] + ps[i + 1..], ts[..i] + ts[i + 1..];
    forall j | 0 <= j < |ts'|
      ensures ts'[j].particle == ps'[j]
    {
      if j < i {
        assert ts'[j] == ts[j] && ps'[j] == ps[j];
      } else {
        assert ts'[j] == ts[j + 1] && ps'[j] == ps[j + 1];
      }
    }
  }

  /** Masking both lists alike keeps them paired. */
  lemma {:induction false} PairedMask(ps: seq<Particle>, ts: seq<Mover>, keep: seq<bool>)
    requires Paired(ps, ts) && |keep| == |ts|
    ensures Paired(Mask(ps, keep), Mask(ts, keep))
  {
    if ts != [] {
      var n := |ts| - 1;
      PairedMask(ps[..n], ts[..n], keep[..n]);
      var ps', ts' := Mask(ps[..n], keep[..n]), Mask(ts[..n], keep[..n]);
      if keep[n] {
        assert Mask(ts, keep) == ts' + [ts[n]] && Mask(ps, keep) == ps' + [ps[n]];
        assert forall j :: 0 <= j < |ts'| ==> (ts' + [ts[n]])[j] == ts'[j];
        assert forall j :: 0 <= j < |ps'| ==> (ps' + [ps[n]])[j] == ps'[j];
      }
    }
  }

  /** The thread list determines its paired particle list. */
  lemma PairedUnique(ps: seq<Particle>, ps': seq<Particle>, ts: seq<Mover>)
    requires Paired(ps, ts) && Paired(ps', ts)
    ensures ps == ps'
  {
  }

  /**
   * The reap sweep over the paired lists: walking i upward, an entry whose
   * thread is not alive is removed from both lists, and i still moves on, so
   * the entry that slid into slot i is not examined. The lists end up masked
   * by SweepMask of the alive flags.
   */
  method SweepLists(ts0: seq<Mover>, ps0: seq<Particle>) returns (ts: seq<Mover>, ps: seq<Particle>)
    requires Paired(ps0, ts0)
    ensures Paired(ps, ts)
    ensures ts == Mask(ts0, SweepMask(AliveFlags(ts0)))
    ensures ps == Mask(ps0, SweepMask(AliveFlags(ts0)))
  {
    ts, ps := ts0, ps0;
    ghost var live := AliveFlags(ts0);
    ghost var lv := live;
    SweptFromStart(ts, lv);
    var i := 0;
    while i < |ts|
      invariant |lv| == |ts| && Paired(ps, ts)
      invariant forall j :: 0 <= j < |ts| ==> lv[j] == ts[j].IsAlive()
      invariant SweptFrom(ts, lv, i) == Sweeping(ts0, live)
      decreases |ts| - i
    {
      if !ts[i].IsAlive() {
        SweptFromDrop(ts, lv, i);
        PairedRemove(ps, ts, i);
        ts := ts[..i] + ts[i + 1..];
        ps := ps[..i] + ps[i + 1..];
        lv := lv[..i] + lv[i + 1..];
      } else {
        SweptFromKeep(ts, lv, i);
      }
      i := i + 1;
    }
    SweptFromEnd(ts, lv, i, ts0, live);
    PairedMask(ps0, ts0, SweepMask(live));
    PairedUnique(ps, Mask(ps0, SweepMask(live)), ts);
  }

  class ParticleWindow {
    var threads: Option<seq<Mover>>
    var particles: Option<seq<Particle>>
    var controller: Supervisor?

    /**
     * While the thread list exists so does the particle list, and the two are
     * paired index by index; a controller exists only while the thread list does.
     */
    ghost predicate Valid()
      reads this
    {
      && (threads.Some? ==> particles.Some? && Paired(particles.value, threads.value))
      && (controller != null ==> threads.Some?)
    }

    /** The mover threads currently registered. */
    ghost function Movers(): set<Mover>
      reads this
    {
      if threads.Some? then set t | t in threads.value else {}
    }

    /** Before `start` both lists and the controller are null. */
    constructor ()
      ensures Valid()
      ensures threads == None && particles == None && controller == null
    {
      threads, particles, controller := None, None, null;
    }

    /**
     * `start`: when there is no thread list, POPULATION fresh particles at the
     * canvas centre, each with a fresh started thread at the same index; then a
     * controller, if there is none.
     */
    method Start(width: int, height: int)
      requires Valid()
      modifies this
      ensures Valid()
      ensures old(threads).Some? ==> threads == old(threads) && particles == old(particles)
      ensures old(threads).None? ==>
        && threads.Some? && particles.Some?
        && |particles.value| == POPULATION
        && (forall i :: 0 <= i < POPULATION ==>
              var p := particles.value[i];
              fresh(p) && p.x == Half(width) && p.y == Half(height))
        && (forall i, j :: 0 <= i < j < POPULATION ==> particles.value[i] != particles.value[j])
        && (forall i :: 0 <= i < POPULATION ==>
              var t := threads.value[i];
              fresh(t) && t.IsAlive() && !t.interrupted)
      ensures old(controller) == null ==> fresh(controller) && controller.started && !controller.interrupted
      ensures old(controller) != null ==> controller == old(controller)
    {
      if threads.None? {
        var ps: seq<Particle> := [];
        var i := 0;
        while i < POPULATION
          modifies {}
          invariant 0 <= i <= POPULATION && |ps| == i
          invariant forall k :: 0 <= k < i ==> fresh(ps[k]) && ps[k].x == Half(width) && ps[k].y == Half(height)
          invariant forall k, l :: 0 <= k < l < i ==> ps[k] != ps[l]
        {
          var p := new Particle(Half(width), Half(height));
          ps := ps + [p];
          i := i + 1;
        }
        particles := Some(ps);

        var ts: seq<Mover> := [];
        i := 0;
        while i < POPULATION
          modifies {}
          invariant 0 <= i <= POPULATION && |ts| == i
          invariant forall k :: 0 <= k < POPULATION ==> ps[k].x == Half(width) && ps[k].y == Half(height)
          invariant forall k :: 0 <= k < i ==> fresh(ts[k]) && ts[k].particle == ps[k]
          invariant forall k :: 0 <= k < i ==> ts[k].IsAlive() && !ts[k].interrupted
        {
          var t := new Mover(ps[i]);
          ts := ts + [t];
          t.Start();
          i := i + 1;
        }
        threads := Some(ts);
      }

      if controller == null {
        var c := new Supervisor();
        controller := c;
        c.Start();
      }
    }

    /**
     * `stop`: interrupt the controller and every registered thread and drop both
     * references; the particle list is kept.
     */
    method Stop()
      requires Valid()
      modifies this, controller, Movers()
      ensures Valid()
      ensures controller == null && threads == None && particles == old(particles)
      ensures old(controller) != null ==> old(controller).interrupted && old(controller).started == old(controller.started)
      ensures old(threads).Some? ==> forall i :: 0 <= i < |old(threads).value| ==> old(threads).value[i].interrupted
      ensures forall t :: t in old(Movers()) ==> t.started == old(t.started) && t.finished == old(t.finished)
    {
      if controller != null {
        controller.Interrupt();
        controller := null;
      }

      if threads.Some? {
        var ts := threads.value;
        var i := 0;
        while i < |ts|
          modifies set t | t in ts
          invariant 0 <= i <= |ts|
          invariant forall k :: 0 <= k < i ==> ts[k].interrupted
          invariant forall t :: t in ts ==> t.started == old(t.started) && t.finished == old(t.finished)
        {
          ts[i].Interrupt();
          i := i + 1;
        }
        threads := None;
      }
    }

    /**
     * `actionPerformed`: the spawn button makes a particle at the canvas centre
     * and its thread, appends both and starts the thread. With no particle list
     * the handler fails at once; with no thread list it fails after appending
     * the particle.
     */
    method Spawn(command: string, width: int, height: int) returns (status: Status)
      requires Valid()
      modifies this
      ensures Valid() && controller == old(controller)
      ensures command != SPAWN ==> status == Normal && particles == old(particles) && threads == old(threads)
      ensures command == SPAWN && old(particles).None? ==>
        status == NullPointer && particles == old(particles) && threads == old(threads)
      ensures command == SPAWN && old(particles).Some? ==>
        && particles.Some? && |particles.value| == |old(particles).value| + 1
        && particles.value[..|old(particles).value|] == old(particles).value
        && var p := particles.value[|old(particles).value|];
           fresh(p) && p.x == Half(width) && p.y == Half(height)
      ensures command == SPAWN && old(particles).Some? && old(threads).None? ==>
        status == NullPointer && threads == None
      ensures command == SPAWN && old(particles).Some? && old(threads).Some? ==>
        && status == Normal && threads.Some?
        && |threads.value| == |old(threads).value| + 1
        && threads.value[..|old(threads).value|] == old(threads).value
        && var t := threads.value[|old(threads).value|];
           fresh(t) && t.particle == particles.value[|old(particles).value|] && t.IsAlive() && !t.interrupted
    {
      status := Normal;
      if command == SPAWN {
        var p := new Particle(Half(width), Half(height));
        var t := new Mover(p);
        if particles.None? {
          status := NullPointer;
          return;
        }
        particles := Some(particles.value + [p]);
        if threads.None? {
          status := NullPointer;
          return;
        }
        threads := Some(threads.value + [t]);
        t.Start();
      }
    }

    /**
     * `mouseClicked`: a left click at (px, py) interrupts and removes the first
     * particle it hits together with its thread; other buttons are ignored. With
     * no particle list, or no thread list when something is hit, the handler
     * fails before changing anything.
     */
    method Click(button: int, px: int, py: int) returns (status: Status)
      requires Valid()
      modifies this, Movers()
      ensures Valid() && controller == old(controller)
      ensures forall t :: t in old(Movers()) ==> t.started == old(t.started) && t.finished == old(t.finished)
      ensures button != BUTTON1 || old(particles).None? ||
              old(FirstHit(particles.value, px, py)).None? || old(threads).None? ==>
        particles == old(particles) && threads == old(threads) &&
        forall t :: t in old(Movers()) ==> t.interrupted == old(t.interrupted)
      ensures status == NullPointer <==>
        button == BUTTON1 && (old(particles).None? || (old(FirstHit(particles.value, px, py)).Some? && old(threads).None?))
      ensures button == BUTTON1 && old(particles).Some? && old(threads).Some? ==>
        var hit := old(FirstHit(particles.value, px, py));
        hit.Some? ==>
          var i := hit.value;
          var ps, ts := old(particles).value, old(threads).value;
          && particles == Some(ps[..i] + ps[i + 1..])
          && threads == Some(ts[..i] + ts[i + 1..])
          && ts[i].interrupted
          && forall t :: t in ts && t != ts[i] ==> t.interrupted == old(t.interrupted)
    {
      status := Normal;
      if button != BUTTON1 {
        return;
      }
      if particles.None? {
        status := NullPointer;
        return;
      }
      var ps := particles.value;
      var i := 0;
      while i < |ps|
        invariant 0 <= i <= |ps|
        invariant forall j :: 0 <= j < i ==> !ps[j].NearPointDefault(px, py)
      {
        if ps[i].NearPointDefault(px, py) {
          if threads.None? {
            status := NullPointer;
            return;
          }
          var ts := threads.value;
          ts[i].Interrupt();
          threads := Some(ts[..i] + ts[i + 1..]);
          particles := Some(ps[..i] + ps[i + 1..]);
          return;
        }
        i := i + 1;
      }
    }

    /**
     * One reap sweep of the controller over the registered lists (see
     * SweepLists); the controller itself is not touched.
     */
    method Reap()
      requires Valid() && controller != null
      modifies this
      ensures Valid() && controller == old(controller)
      ensures threads.Some? && particles.Some?
      ensures
        var keep := SweepMask(old(AliveFlags(threads.value)));
        && threads.value == Mask(old(threads).value, keep)
        && particles.value == Mask(old(particles).value, keep)
    {
      var ts, ps := SweepLists(threads.value, particles.value);
      threads, particles := Some(ts), Some(ps);
    }
  }

  /** A click exactly on a registered particle removes exactly one entry. */
  method ClickOnParticle(w: ParticleWindow, p: Particle)
    requires w.Valid() && w.threads.Some? && w.particles.Some? && p in w.particles.value
    modifies w, w.Movers()
  {
    var n := |w.particles.value|;
    var status := w.Click(BUTTON1, p.x, p.y);
    assert status == Normal;
    assert |w.particles.value| == n - 1 && |w.threads.value| == n - 1;
  }
}
