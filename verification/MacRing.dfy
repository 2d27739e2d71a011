/**
 The buffer-descriptor rings of the OpenCores Ethernet MAC, as both drivers see them.

 A ring of `n` descriptors is shared with a MAC that walks it with its own pointer and owns exactly
 the descriptors whose ownership bit (READY on transmit, EMPTY on receive) is set. Software sees a
 window of `cnt` descriptors starting at `cur`; the MAC has finished with the first `done` of them.
 */
module MacRing {

  /** One buffer descriptor: the control word's flags and length, and the buffer pointer. */
  datatype Bd = Bd(own: bool, irq: bool, wrap: bool, err: bool, ptr: nat, len: int)

  /** The descriptor `i` places after `base`, going round the ring. */
  function Slot(base: nat, i: nat, n: nat): (r: nat)
    requires base < n && i <= n
    ensures r < n
  {
    if base + i < n then base + i else base + i - n
  }

  /** How many places `j` lies after `base`, going round the ring. */
  function Dist(base: nat, j: nat, n: nat): (r: nat)
    requires base < n && j < n
    ensures r < n
  {
    if base <= j then j - base else j + n - base
  }

  /** The drivers' increment of a descriptor index, with its wrap test. */
  function Bump(i: nat, n: nat): nat {
    if i + 1 == n then 0 else i + 1
  }

  /** `Slot` is addition modulo the ring size, and `Dist` its inverse. */
  lemma SlotIsModular(base: nat, i: nat, n: nat)
    requires base < n && i <= n
    ensures Slot(base, i, n) == (base + i) % n
    ensures i < n ==> Dist(base, Slot(base, i, n), n) == i
    ensures Dist(base, Slot(base, i, n), n) == (Slot(base, i, n) - base) % n
  {
    if base + i < n {
      SmallMod(base + i, n, 0);
      SmallMod(i, n, 0);
    } else {
      SmallMod(base + i - n, n, 1);
      if i < n {
        SmallMod(i, n, -1);
      }
    }
  }

  lemma MulBound(k: int, n: nat)
    ensures k >= 1 ==> k * n >= n
    ensures k <= -1 ==> k * n + n <= 0
  {
  }

  lemma SmallMod(r: nat, n: nat, q: int)
    requires r < n
    ensures (r + q * n) % n == r
  {
    var x := r + q * n;
    var d, m := x / n, x % n;
    assert x == d * n + m;
    assert (q - d) * n == m - r;
    MulBound(q - d, n);
  }

  /**
   The window the two sides agree on: the MAC owns exactly the descriptors of the window that it has
   not finished, it stands on the first of them, and every descriptor it owns raises an interrupt and
   carries WRAP exactly when it is the last one of the ring.
   */
  ghost predicate Window(bds: seq<Bd>, cur: nat, cnt: nat, done: nat, hw: nat)
  {
    var n := |bds|;
    && cur < n && done <= cnt <= n
    && hw == Slot(cur, done, n)
    && (forall j :: 0 <= j < n ==> (bds[j].own <==> done <= Dist(cur, j, n) < cnt))
    && (forall j :: 0 <= j < n && bds[j].own ==> bds[j].irq && (bds[j].wrap <==> j == n - 1))
  }

  /** What the MAC does to its descriptor and its pointer when it finishes with the one it stands on. */
  function Finish(bds: seq<Bd>, hw: nat, err: bool): (r: (seq<Bd>, nat))
    requires hw < |bds|
  {
    (bds[hw := bds[hw].(own := false, err := err)], if bds[hw].wrap then 0 else hw + 1)
  }

  /** The MAC finishing a descriptor moves `done` on by one, and WRAP keeps its pointer in the ring. */
  lemma WindowFinish(bds: seq<Bd>, cur: nat, cnt: nat, done: nat, hw: nat, err: bool)
    requires Window(bds, cur, cnt, done, hw) && hw < |bds| && bds[hw].own && cur < |bds|
    ensures done < cnt <= |bds| && hw == Slot(cur, done, |bds|)
    ensures var (bds', hw') := Finish(bds, hw, err); Window(bds', cur, cnt, done + 1, hw')
  {
    var (bds', hw') := Finish(bds, hw, err);
    var n := |bds|;
    forall j | 0 <= j < n
      ensures bds'[j].own <==> done + 1 <= Dist(cur, j, n) < cnt
    {
      assert j == hw || bds'[j] == bds[j];
    }
  }

  /** Software arming the descriptor just behind the window extends the window by one. */
  lemma WindowPush(bds: seq<Bd>, cur: nat, cnt: nat, done: nat, hw: nat, b: Bd)
    requires Window(bds, cur, cnt, done, hw) && cnt < |bds|
    requires b.own && b.irq && (b.wrap <==> Slot(cur, cnt, |bds|) == |bds| - 1)
    ensures !bds[Slot(cur, cnt, |bds|)].own
    ensures Window(bds[Slot(cur, cnt, |bds|) := b], cur, cnt + 1, done, hw)
  {
  }

  /** Software taking the oldest finished descriptor shortens the window by one. */
  lemma WindowPop(bds: seq<Bd>, cur: nat, cnt: nat, done: nat, hw: nat)
    requires Window(bds, cur, cnt, done, hw) && done > 0
    ensures Window(bds, Slot(cur, 1, |bds|), cnt - 1, done - 1, hw)
  {
  }

  /** The oldest descriptor of a non-empty window is still owned by the MAC exactly when none is done. */
  lemma WindowHead(bds: seq<Bd>, cur: nat, cnt: nat, done: nat, hw: nat)
    requires Window(bds, cur, cnt, done, hw) && cnt > 0
    ensures bds[cur].own <==> done == 0
  {
  }

  /** A descriptor that is not owned by the MAC may be written without disturbing the window. */
  lemma WindowFrame(bds: seq<Bd>, cur: nat, cnt: nat, done: nat, hw: nat, j: nat, b: Bd)
    requires Window(bds, cur, cnt, done, hw)
    requires j < |bds| && !bds[j].own && !b.own
    ensures Window(bds[j := b], cur, cnt, done, hw)
  {
  }

  /** The bounded queue both transmit encodings implement: `done` of its oldest entries are finished. */
  datatype Fifo<T> = Fifo(cap: nat, q: seq<T>, done: nat)

  ghost predicate FifoOk<T>(f: Fifo<T>) {
    f.done <= |f.q| <= f.cap
  }

  /** The three things that may happen to the bounded queue, or nothing. */
  ghost predicate FifoStep<T>(f: Fifo<T>, g: Fifo<T>) {
    || f == g
    || (|f.q| < f.cap && |g.q| > 0 && g == Fifo(f.cap, f.q + [g.q[|g.q| - 1]], f.done))
    || (f.done < |f.q| && g == f.(done := f.done + 1))
    || (f.done > 0 && |f.q| > 0 && g == Fifo(f.cap, f.q[1..], f.done - 1))
  }
}
