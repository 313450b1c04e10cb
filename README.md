# Particles: a verified model of the particle registry

Particles is a small Java desktop demo. Square particles wander randomly over a canvas. Each particle has its own mover thread, which moves it about ten times a second and ends when the particle leaves the canvas. A controller thread sweeps finished movers out of the registry about sixty times a second. The user can spawn a particle with a button, or remove the first particle under a left click.

This project models the two core classes in Dafny:

- `Particle` (module `Particles`, file `particle.dfy`): an integer point with a random colour. It has a bounded random step `Move`, a bounds test with a 15-pixel margin, and a box-shaped hit test.
- `ParticleWindow` (module `Window`, file `window.dfy`). Its registry is two parallel lists, `particles` and `threads`, whose entries at the same index belong together, plus a controller. The object itself is the lock, and each synchronized block is one method of the class:
  - `Start`, `Stop`, `Spawn` and `Click`;
  - `Reap`, one pass of the controller's sweep;
  - `Mover.Step`, one pass of a mover thread's loop.
- Threads are handle objects with `started`, `finished` and `interrupted` flags. `IsAlive` is `started && !finished`.
- A list field that may be null is an `Option`. The controller is a nullable reference.
- A handler that would throw a `NullPointerException` returns `Status.NullPointer`. It leaves the state exactly as the exception would:
  - a spawn with a particle list but no thread list has already appended the particle;
  - a click that hits a particle while the thread list is null changes nothing.

The reap sweep gets its own value-level model, in module `Sweep` (file `sweep.dfy`). After `remove(i)` the Java loop still runs `++i`. The entry that slides into slot `i` is therefore skipped in that sweep.

- `Kept`/`SweepMask` state this per original position: an entry survives exactly when its thread is alive, or when the entry before it was removed.
- The lists after a sweep are `Mask` of the old lists by that mask.
- `Sweeping` reads the same loop from the front, and `SweepingIsMask` proves the two readings agree.
- Because of the skip, one sweep is not idempotent: of two adjacent dead entries only the first is removed. The sweep is sometimes described as removing every terminated entry, and so as idempotent. The code does neither, and the model follows the code.
- What does hold is `RoundsReapAll`: with no new deaths, as many sweeps as there are dead entries remove all of them, and the survivors keep their order.

Inputs to the model:

- The canvas `width` and `height` are parameters, where the source asks the canvas component.
- `Random.nextInt(n)` and `Random.nextInt()` are nondeterministic choices in their ranges (`NextInt`, `NextInt32`).

## Model

| member | source | states |
|---|---|---|
| Particles.Particle.constructor | Particles/src/particles/Particle.java:51-55 | the new particle sits exactly at (initialX, initialY); its colour is some 32-bit value |
| Particles.NextInt | Particles/src/particles/Particle.java:65-66 | `nextInt(bound)` yields a value in [0, bound) |
| Particles.NextInt32 | Particles/src/particles/Particle.java:54 | `nextInt()` yields a 32-bit integer |
| Particles.Particle.Move | Particles/src/particles/Particle.java:64-67 | x moves by an offset in [-5, 4] and y by one in [-10, 9] (the real `nextInt` ranges, not the [-5, 5] and [-10, 10] the comment intends); the colour is unchanged |
| Particles.Particle.InBounds | Particles/src/particles/Particle.java:79-88 | holds iff -15 < x < width + 15 and -15 < y < height + 15 |
| Particles.InBoundsIsOverlap | Particles/src/particles/Particle.java:69-88 | on a non-empty canvas, InBounds is exactly "the square grown by the buffer, (x ± 15) × (y ± 15), overlaps the open canvas rectangle" |
| Particles.InBoundsGrow | Particles/src/particles/Particle.java:79-88 | a particle in bounds of a canvas is in bounds of every larger canvas |
| Particles.SquareLess | Particles/src/particles/Particle.java:98-101 | a² < b² iff \|a\| < \|b\| (what the squared comparisons of `nearPoint` mean) |
| Particles.Particle.NearPoint | Particles/src/particles/Particle.java:98-101 | holds iff \|x - px\| < \|r\| and \|y - py\| < \|r\|: a square box of half side \|r\| around the point |
| Particles.NearPointIsNotADisc | Particles/src/particles/Particle.java:90-101 | the test is not the "bounding circle" its comment names: a particle at offset (9, 9) is hit although its distance exceeds the radius 10 |
| Particles.Particle.NearPointDefault | Particles/src/particles/Particle.java:112-114 | the two-argument overload is the box test with radius 10; a particle exactly at the click point is always hit |
| Window.Half | Particles/src/particles/ParticleWindow.java:97-98 | Java's `n / 2`: the quotient truncated toward zero, for either sign of n |
| Window.CentreInBounds | Particles/src/particles/ParticleWindow.java:97-98 | a particle at the centre of a canvas of non-negative size starts in bounds |
| Window.Mover.constructor | Particles/src/particles/ParticleWindow.java:63-86 | `makeThread(p)` gives a thread for p that is neither started, finished nor interrupted |
| Window.Mover.Start | Particles/src/particles/ParticleWindow.java:105 | starting a thread makes it started and leaves its other flags alone |
| Window.Mover.Interrupt | Particles/src/particles/ParticleWindow.java:148 | interrupting raises the flag and leaves started and finished alone |
| Window.Mover.Step | Particles/src/particles/ParticleWindow.java:67-82 | one pass moves the particle within the `move` ranges, then finishes the thread iff the particle is out of bounds or the thread was interrupted (the sleep throws) |
| Window.Supervisor.constructor | Particles/src/particles/ParticleWindow.java:129 | a new controller thread is neither started nor interrupted |
| Window.Supervisor.Start | Particles/src/particles/ParticleWindow.java:130 | starting the controller makes it started |
| Window.Supervisor.Interrupt | Particles/src/particles/ParticleWindow.java:142 | interrupting the controller raises its flag |
| Window.ParticleWindow.constructor | Particles/src/particles/ParticleWindow.java:49-51 | a new window has no thread list, no particle list and no controller |
| Window.ParticleWindow.Start | Particles/src/particles/ParticleWindow.java:91-132 | with no thread list: exactly 10 fresh, distinct particles at the canvas centre, each paired at the same index with a fresh, started, alive thread; with a thread list: both lists untouched; a controller is created and started only when there is none, so a second start changes nothing |
| Window.ParticleWindow.Stop | Particles/src/particles/ParticleWindow.java:140-152 | the controller and every registered thread are interrupted; controller and thread list become null; the particle list is kept; a second stop changes nothing, since there is nothing left to interrupt and the fields already hold these values |
| Window.ParticleWindow.Spawn | Particles/src/particles/ParticleWindow.java:198-210 | a "Spawn" command appends a fresh particle at the centre and its started thread at the end of both lists, earlier entries unchanged; other commands do nothing; with no particle list it fails at once, and with no thread list it fails after appending the particle |
| Window.FirstHit | Particles/src/particles/ParticleWindow.java:231-232 | the lowest index whose particle is hit by the click, or none exactly when no particle is hit |
| Window.ParticleWindow.Click | Particles/src/particles/ParticleWindow.java:225-241 | a non-left click, or a click that hits nothing, changes nothing; otherwise the first hit entry is removed from both lists and only its thread is interrupted; it fails with no particle list, or with no thread list once something is hit |
| Window.AliveFlags | Particles/src/particles/ParticleWindow.java:116 | the `isAlive()` answers of the thread list, index by index |
| Sweep.SweepMask | Particles/src/particles/ParticleWindow.java:115-120 | for each original position, whether it survives one sweep: by `Kept`, it does iff it is alive or the position before it was removed |
| Sweep.SweepMaskAt | Particles/src/particles/ParticleWindow.java:115-120 | the survival rule at one position, in terms of the mask at the previous position |
| Window.SweepLists | Particles/src/particles/ParticleWindow.java:115-120 | the loop, run on the two lists, leaves them paired, and each is the old list masked by SweepMask of the alive flags |
| Window.ParticleWindow.Reap | Particles/src/particles/ParticleWindow.java:114-120 | one sweep of the controller: both lists become the old lists masked by SweepMask of the old alive flags, and stay paired |
| Sweep.SweepingIsMask | Particles/src/particles/ParticleWindow.java:115-120 | the loop read from the front, keeping a live entry or dropping a dead one and skipping its successor, gives the same list as the mask over original positions |
| Sweep.SweepKeepsLive | Particles/src/particles/ParticleWindow.java:116-119 | a sweep removes only entries whose thread is not alive |
| Sweep.SweepSkipsNext | Particles/src/particles/ParticleWindow.java:115-119 | the entry right after a removed one survives that sweep, dead or alive |
| Sweep.MaskKeepsOrder | Particles/src/particles/ParticleWindow.java:117-118 | survivors keep their relative order |
| Sweep.SweepIsNotIdempotent | Particles/src/particles/ParticleWindow.java:115-120 | of two adjacent dead entries one sweep removes only the first; two sweeps remove both |
| Sweep.RoundsReapAll | Particles/src/particles/ParticleWindow.java:114-123 | with no new deaths between sweeps, as many sweeps as there are dead entries leave exactly the live entries, in order |
| Window.AliveFlagsMask | Particles/src/particles/ParticleWindow.java:114-120 | the alive flags the next sweep reads are the old flags masked by the previous sweep, which is what `Rounds` assumes |

## Left out

- Threads and scheduling are not modelled: `Thread.sleep`, the 100 ms and 1000/60 ms periods, and the interleaving of movers, controller and event handlers. Each synchronized block is one atomic method. A thread is a handle whose flags change only through `Start`, `Interrupt` and `Step`.
- The controller's sweep is not inside a synchronized block in the source. It can therefore interleave with spawn and click, and after `stop` it can see a null thread list. `Reap` models one sweep as atomic, on a window whose controller exists.
- The controller loop's `canvas.repaint()` and sleep, and its exit on interrupt, are not modelled; `Reap` is one pass of its body.
- `java.util.Random` is not modelled; its results are nondeterministic choices in the documented ranges.
- The colour is an `int` drawn by `NextInt32`; `java.awt.Color` and everything about drawing are not modelled.
- `Math.pow` on doubles is modelled as exact integer squaring. The two agree for coordinates of the sizes a canvas has.
- Particles.Particle.Move: does not model 32-bit wrap-around of `x += …` and `y += …`, because coordinates are unbounded integers here. Near the `int` limits the source would wrap where the model does not.
- AWT glue is not modelled: the frame, panel, button, listener registration, buffer strategy, window closing with `System.exit`, and the empty `mousePressed`, `mouseReleased`, `mouseEntered` and `mouseExited` handlers.
- The canvas size is a pair of parameters instead of `canvas.getWidth()`/`getHeight()`. `canvas.setParticles` is not modelled.
- ParticleCanvas.java is not part of this model, and neither is `Particle.draw`.
