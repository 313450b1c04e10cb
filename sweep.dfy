/**
 * A value-level model of the controller's reap sweep over the parallel lists.
 *
 * The sweep walks index i upward and, when the thread at i is no longer alive,
 * removes entry i from both lists and still increments i.  The entry that slides
 * into slot i is therefore never examined in that sweep.  Which entries survive
 * depends only on the alive flags, so the sweep is described by a mask over the
 * original positions, and the lists after the sweep are the masked lists.
 */
module Sweep {

  /** Number of true entries. */
  function Count(m: seq<bool>): (c: nat)
    ensures c <= |m|
  {
    if m == [] then 0 else Count(m[..|m| - 1]) + (if m[|m| - 1] then 1 else 0)
  }

  /** Number of false entries. */
  function Dead(m: seq<bool>): nat
  {
    |m| - Count(m)
  }

  /** The entries of s at the positions where keep is true, in their original order. */
  function Mask<T>(s: seq<T>, keep: seq<bool>): (r: seq<T>)
    requires |s| == |keep|
    ensures |r| == Count(keep)
  {
    if s == [] then []
    else
      var n := |s| - 1;
      Mask(s[..n], keep[..n]) + (if keep[n] then [s[n]] else [])
  }

  /**
   * Whether position k survives one sweep: it is alive, or the position before
   * it was removed, so that it slid into the slot just examined and the index
   * moved past it.
   */
  function Kept(live: seq<bool>, k: nat): bool
    requires k < |live|
  {
    live[k] || (0 < k && !Kept(live, k - 1))
  }

  /** Which positions survive one sweep over entries whose threads are alive as `live` says. */
  function SweepMask(live: seq<bool>): (keep: seq<bool>)
    ensures |keep| == |live|
    ensures forall k :: 0 <= k < |live| ==> keep[k] == Kept(live, k)
  {
    seq(|live|, k requires 0 <= k < |live| => Kept(live, k))
  }

  lemma SweepMaskAt(live: seq<bool>, k: nat)
    requires k < |live|
    ensures SweepMask(live)[k] == (live[k] || (0 < k && !SweepMask(live)[k - 1]))
  {
  }

  /** The sweep removes only entries whose thread is dead. */
  lemma SweepKeepsLive(live: seq<bool>)
    ensures forall k :: 0 <= k < |live| && live[k] ==> SweepMask(live)[k]
  {
    forall k | 0 <= k < |live| && live[k]
      ensures SweepMask(live)[k]
    {
      SweepMaskAt(live, k);
    }
  }

  /** The entry right after a removed one always survives that sweep, dead or alive. */
  lemma SweepSkipsNext(live: seq<bool>, k: nat)
    requires k + 1 < |live| && !SweepMask(live)[k]
    ensures SweepMask(live)[k + 1]
  {
    SweepMaskAt(live, k + 1);
  }

  /** The state after n sweeps, when no thread dies in the meantime. */
  function Rounds<T>(s: seq<T>, live: seq<bool>, n: nat): seq<T>
    requires |s| == |live|
    decreases n
  {
    if n == 0 then s
    else
      var keep := SweepMask(live);
      Rounds(Mask(s, keep), Mask(live, keep), n - 1)
  }

  /** Appending an entry to the list and its mask appends it to the result when it is kept. */
  lemma MaskSnoc<T>(s: seq<T>, keep: seq<bool>, x: T, b: bool)
    requires |s| == |keep|
    ensures Mask(s + [x], keep + [b]) == Mask(s, keep) + (if b then [x] else [])
    ensures Count(keep + [b]) == Count(keep) + (if b then 1 else 0)
  {
    assert (s + [x])[..|s|] == s;
    assert (keep + [b])[..|keep|] == keep;
  }

  /** Extending a prefix by one position extends its mask by at most that position's entry. */
  lemma PrefixStep<T>(s: seq<T>, keep: seq<bool>, k: nat)
    requires |s| == |keep| && k < |s|
    ensures Mask(s[..k + 1], keep[..k + 1]) == Mask(s[..k], keep[..k]) + (if keep[k] then [s[k]] else [])
    ensures Count(keep[..k + 1]) == Count(keep[..k]) + (if keep[k] then 1 else 0)
  {
    assert s[..k + 1][..k] == s[..k];
    assert keep[..k + 1][..k] == keep[..k];
  }

  /** A kept entry appears in the result at the position given by the kept entries before it. */
  lemma {:induction false} MaskAt<T>(s: seq<T>, keep: seq<bool>, k: nat)
    requires |s| == |keep| && k < |s| && keep[k]
    ensures Count(keep[..k]) < |Mask(s, keep)|
    ensures Mask(s, keep)[Count(keep[..k])] == s[k]
  {
    var n := |s| - 1;
    assert s[..n + 1] == s && keep[..n + 1] == keep;
    PrefixStep(s, keep, n);
    if k < n {
      MaskAt(s[..n], keep[..n], k);
      assert keep[..n][..k] == keep[..k];
    }
  }

  /** Kept entries keep their relative order: i before j in s means i's copy is before j's. */
  lemma {:induction false} MaskKeepsOrder<T>(s: seq<T>, keep: seq<bool>, i: nat, j: nat)
    requires |s| == |keep| && i < j < |s| && keep[i] && keep[j]
    ensures Count(keep[..i]) < Count(keep[..j]) < |Mask(s, keep)|
    ensures Mask(s, keep)[Count(keep[..i])] == s[i] && Mask(s, keep)[Count(keep[..j])] == s[j]
  {
    MaskAt(s, keep, i);
    MaskAt(s, keep, j);
    CountGrows(keep, i, j);
  }

  lemma {:induction false} CountGrows(keep: seq<bool>, i: nat, j: nat)
    requires i < j <= |keep| && keep[i]
    ensures Count(keep[..i]) < Count(keep[..j])
  {
    if j == i + 1 {
      PrefixStep(keep, keep, i);
    } else {
      CountGrows(keep, i, j - 1);
      PrefixStep(keep, keep, j - 1);
    }
  }

  /** Masking with an all-true mask changes nothing. */
  lemma {:induction false} MaskAll<T>(s: seq<T>, keep: seq<bool>)
    requires |s| == |keep| && forall k :: 0 <= k < |keep| ==> keep[k]
    ensures Mask(s, keep) == s
  {
    if s != [] {
      var n := |s| - 1;
      MaskAll(s[..n], keep[..n]);
      assert s[..n] + [s[n]] == s;
    }
  }

  /**
   * Masking twice is masking once: first by keep, then by what is left of live,
   * is the same as masking by live, when keep keeps every live position.
   */
  lemma {:induction false} MaskCompose<T>(s: seq<T>, live: seq<bool>, keep: seq<bool>)
    requires |s| == |live| == |keep|
    requires forall k :: 0 <= k < |live| && live[k] ==> keep[k]
    ensures Mask(Mask(s, keep), Mask(live, keep)) == Mask(s, live)
  {
    if s != [] {
      var n := |s| - 1;
      var s', live', keep' := s[..n], live[..n], keep[..n];
      assert s == s' + [s[n]] && live == live' + [live[n]] && keep == keep' + [keep[n]];
      MaskCompose(s', live', keep');
      var a, b := Mask(s', keep'), Mask(live', keep');
      MaskSnoc(s', keep', s[n], keep[n]);
      MaskSnoc(live', keep', live[n], keep[n]);
      MaskSnoc(s', live', s[n], live[n]);
      if keep[n] {
        MaskSnoc(a, b, s[n], live[n]);
        assert Mask(s, keep) == a + [s[n]];
        assert Mask(live, keep) == b + [live[n]];
        assert Mask(a + [s[n]], b + [live[n]]) == Mask(a, b) + (if live[n] then [s[n]] else []);
      } else {
        assert Mask(s, keep) == a && Mask(live, keep) == b;
      }
    }
  }

  /** What is left of live after masking by keep has exactly the live entries still true. */
  lemma {:induction false} CountMasked(live: seq<bool>, keep: seq<bool>)
    requires |live| == |keep|
    requires forall k :: 0 <= k < |live| && live[k] ==> keep[k]
    ensures Count(Mask(live, keep)) == Count(live)
  {
    if live != [] {
      var n := |live| - 1;
      var live', keep' := live[..n], keep[..n];
      assert live == live' + [live[n]] && keep == keep' + [keep[n]];
      CountMasked(live', keep');
      var b := Mask(live', keep');
      MaskSnoc(live', keep', live[n], keep[n]);
      MaskSnoc(live', live', live[n], live[n]);
      if keep[n] {
        MaskSnoc(b, b, live[n], live[n]);
        assert Mask(live, keep) == b + [live[n]];
      } else {
        assert Mask(live, keep) == b;
      }
    }
  }

  /** An entry that is dead, with every entry before it alive, is removed by the sweep. */
  lemma {:induction false} SweepRemovesFirstDead(live: seq<bool>, k: nat)
    requires k < |live| && !live[k]
    requires forall j :: 0 <= j < k ==> live[j]
    ensures !SweepMask(live)[k]
    ensures Count(SweepMask(live)) < |live|
  {
    var keep := SweepMask(live);
    if 0 < k {
      SweepMaskAt(live, k - 1);
    }
    SweepMaskAt(live, k);
    CountBelow(keep, k);
  }

  lemma {:induction false} CountBelow(m: seq<bool>, k: nat)
    requires k < |m| && !m[k]
    ensures Count(m) < |m|
  {
    var n := |m| - 1;
    if k < n {
      CountBelow(m[..n], k);
    }
  }

  /** Each sweep over a list holding a dead entry removes at least one dead entry. */
  lemma {:induction false} SweepShrinksDead(live: seq<bool>)
    requires Dead(live) > 0
    ensures Dead(Mask(live, SweepMask(live))) < Dead(live)
  {
    var k := FirstDead(live);
    var keep := SweepMask(live);
    SweepRemovesFirstDead(live, k);
    SweepKeepsLive(live);
    CountMasked(live, keep);
  }

  /** The first dead position of a list that has one. */
  lemma {:induction false} FirstDead(live: seq<bool>) returns (k: nat)
    requires Dead(live) > 0
    ensures k < |live| && !live[k] && forall j :: 0 <= j < k ==> live[j]
  {
    var n := |live| - 1;
    if Count(live[..n]) < n {
      k := FirstDead(live[..n]);
    } else {
      AllTrue(live[..n]);
      k := n;
    }
  }

  /** A list with no false entry is all true. */
  lemma {:induction false} AllTrue(m: seq<bool>)
    requires Count(m) == |m|
    ensures forall k :: 0 <= k < |m| ==> m[k]
  {
    if m != [] {
      var n := |m| - 1;
      AllTrue(m[..n]);
      assert forall k :: 0 <= k < n ==> m[..n][k] == m[k];
    }
  }

  /**
   * With no new deaths, as many sweeps as there are dead entries leave exactly
   * the live entries, in their order: repeated sweeps reap everything dead.
   */
  lemma {:induction false} RoundsReapAll<T>(s: seq<T>, live: seq<bool>, n: nat)
    requires |s| == |live| && n >= Dead(live)
    ensures Rounds(s, live, n) == Mask(s, live)
    decreases n
  {
    if n > 0 {
      var keep := SweepMask(live);
      var s', live' := Mask(s, keep), Mask(live, keep);
      assert Rounds(s, live, n) == Rounds(s', live', n - 1);
      SweepKeepsLive(live);
      if Dead(live) == 0 {
        AllTrue(live);
        MaskAll(s, keep);
        MaskAll(live, keep);
        RoundsReapAll(s, live, n - 1);
      } else {
        SweepShrinksDead(live);
        RoundsReapAll(s', live', n - 1);
        MaskCompose(s, live, keep);
      }
    } else {
      AllTrue(live);
      MaskAll(s, live);
    }
  }

  /**
   * The sweep as the loop performs it, read from the front: a live entry is
   * kept and the walk moves on by one; a dead entry is dropped together with
   * the walk's look at its successor, which is kept unexamined.
   */
  function Sweeping<T>(s: seq<T>, live: seq<bool>): seq<T>
    requires |s| == |live|
  {
    if s == [] then []
    else if live[0] then [s[0]] + Sweeping(s[1..], live[1..])
    else if |s| == 1 then []
    else [s[1]] + Sweeping(s[2..], live[2..])
  }

  /**
   * Loop state of the sweep: the current list has its first i entries settled
   * and the rest still to be swept, with their alive flags in lv.
   */
  function SweptFrom<T>(s: seq<T>, lv: seq<bool>, i: nat): seq<T>
    requires |s| == |lv|
  {
    var m := if i < |s| then i else |s|;
    s[..m] + Sweeping(s[m..], lv[m..])
  }

  lemma SweptFromStart<T>(s: seq<T>, lv: seq<bool>)
    requires |s| == |lv|
    ensures SweptFrom(s, lv, 0) == Sweeping(s, lv)
  {
    assert s[..0] == [] && s[0..] == s && lv[0..] == lv;
  }

  lemma SweptFromDone<T>(s: seq<T>, lv: seq<bool>, i: nat)
    requires |s| == |lv| && |s| <= i
    ensures SweptFrom(s, lv, i) == s
  {
    assert s[..|s|] == s;
  }

  /** Once the walk has passed the end, the list is the masked original. */
  lemma SweptFromEnd<T>(s: seq<T>, lv: seq<bool>, i: nat, s0: seq<T>, live: seq<bool>)
    requires |s| == |lv| && |s| <= i && |s0| == |live|
    requires SweptFrom(s, lv, i) == Sweeping(s0, live)
    ensures s == Mask(s0, SweepMask(live))
  {
    SweptFromDone(s, lv, i);
    SweepingIsMask(s0, live);
  }

  /** Keeping a live entry and moving on leaves the eventual result unchanged. */
  lemma SweptFromKeep<T>(s: seq<T>, lv: seq<bool>, i: nat)
    requires |s| == |lv| && i < |s| && lv[i]
    ensures SweptFrom(s, lv, i + 1) == SweptFrom(s, lv, i)
  {
    assert s[i..][1..] == s[i + 1..] && lv[i..][1..] == lv[i + 1..];
    assert s[..i + 1] == s[..i] + [s[i]];
  }

  /** Removing a dead entry at i and then moving past i leaves the eventual result unchanged. */
  lemma SweptFromDrop<T>(s: seq<T>, lv: seq<bool>, i: nat)
    requires |s| == |lv| && i < |s| && !lv[i]
    ensures SweptFrom(s[..i] + s[i + 1..], lv[..i] + lv[i + 1..], i + 1) == SweptFrom(s, lv, i)
  {
    var s', lv' := s[..i] + s[i + 1..], lv[..i] + lv[i + 1..];
    if i + 1 < |s| {
      assert s'[..i + 1] == s[..i] + [s[i + 1]];
      assert s'[i + 1..] == s[i + 2..] && lv'[i + 1..] == lv[i + 2..];
      assert s[i..][2..] == s[i + 2..] && lv[i..][2..] == lv[i + 2..];
    } else {
      assert s'[..i] == s[..i] && s'[i..] == [] && lv'[i..] == [];
    }
  }

  /** Masking a list with an entry in front: the entry leads the result when it is kept. */
  lemma {:induction false} MaskCons<T>(x: T, s: seq<T>, b: bool, keep: seq<bool>)
    requires |s| == |keep|
    ensures Mask([x] + s, [b] + keep) == (if b then [x] else []) + Mask(s, keep)
  {
    if s == [] {
      assert ([x] + s)[..0] == [] && ([b] + keep)[..0] == [];
    } else {
      var n := |s| - 1;
      assert ([x] + s)[..n + 1] == [x] + s[..n];
      assert ([b] + keep)[..n + 1] == [b] + keep[..n];
      MaskCons(x, s[..n], b, keep[..n]);
    }
  }

  /**
   * After a surviving position d - 1 the sweep starts afresh: the rest of the
   * mask is the mask of the rest of the flags.
   */
  lemma {:induction false} KeptShift(live: seq<bool>, d: nat, k: nat)
    requires 0 < d <= k < |live| && Kept(live, d - 1)
    ensures Kept(live, k) == Kept(live[d..], k - d)
  {
    assert live[d..][k - d] == live[k];
    if d < k {
      KeptShift(live, d, k - 1);
    }
  }

  lemma SweepMaskShift(live: seq<bool>, d: nat)
    requires 0 < d <= |live| && SweepMask(live)[d - 1]
    ensures SweepMask(live)[d..] == SweepMask(live[d..])
  {
    var keep, rest := SweepMask(live), SweepMask(live[d..]);
    forall j | 0 <= j < |rest|
      ensures keep[d..][j] == rest[j]
    {
      KeptShift(live, d, d + j);
    }
  }

  lemma MaskFront<T>(s: seq<T>, keep: seq<bool>)
    requires |s| == |keep| && 0 < |s|
    ensures Mask(s, keep) == (if keep[0] then [s[0]] else []) + Mask(s[1..], keep[1..])
  {
    assert s == [s[0]] + s[1..] && keep == [keep[0]] + keep[1..];
    MaskCons(s[0], s[1..], keep[0], keep[1..]);
  }

  /** The loop read from the front and the mask over original positions agree. */
  lemma {:induction false} SweepingIsMask<T>(s: seq<T>, live: seq<bool>)
    requires |s| == |live|
    ensures Sweeping(s, live) == Mask(s, SweepMask(live))
  {
    if s != [] {
      var keep := SweepMask(live);
      MaskFront(s, keep);
      if live[0] {
        SweepMaskShift(live, 1);
        SweepingIsMask(s[1..], live[1..]);
      } else if 1 < |s| {
        SweepMaskShift(live, 2);
        SweepingIsMask(s[2..], live[2..]);
        MaskFront(s[1..], keep[1..]);
        assert s[1..][1..] == s[2..] && keep[1..][1..] == keep[2..];
      }
    }
  }

  /** One sweep does not always finish the job: of two dead neighbours only the first goes. */
  lemma SweepIsNotIdempotent<T>(a: T, b: T)
    ensures SweepMask([false, false]) == [false, true]
    ensures Mask([a, b], SweepMask([false, false])) == [b]
    ensures Rounds([a, b], [false, false], 2) == []
  {
    var keep := SweepMask([false, false]);
    assert Kept([false, false], 1);
    assert keep == [false, true];
    MaskFront([a, b], keep);
    MaskFront([b], [true]);
    assert [a, b][1..] == [b] && keep[1..] == [true];
    MaskFront([false, false], keep);
    MaskFront([false], [true]);
    assert [false, false][1..] == [false];
    var keep' := SweepMask([false]);
    assert keep' == [false];
    MaskFront([b], keep');
    MaskFront([false], keep');
  }
}
