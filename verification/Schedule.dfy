/** The persistent, bounded burst schedule of the typewriter animation, in milliseconds. */
module Schedule {

  /** "No schedule yet", and also the change time of a cell that never changed. */
  const NEVER_MS: real := -1000000.0

  /** How far a burst may run ahead of the present before a rebuild starts afresh. */
  const MAX_AHEAD_MS: real := 1000.0

  function Max(a: real, b: real): real {
    if a < b then b else a
  }

  /** The value of a schedule. */
  datatype Burst = Burst(next: real, last: real, stagger: real) {

    static function Fresh(stagger: real): Burst {
      Burst(NEVER_MS, NEVER_MS, stagger)
    }

    predicate Active() {
      stagger > 0.0
    }

    /** A burst continues while its cascade is still revealing and not too far ahead. */
    predicate Continues(now: real, duration: real) {
      next != NEVER_MS && now < last + duration && next <= now + MAX_AHEAD_MS
    }

    function Begin(now: real, duration: real): Burst {
      if !Active() then this
      else if Continues(now, duration) then this.(next := Max(next, now))
      else this.(next := now)
    }

    /** The k-th timestamp still to be handed out, counting from zero. */
    function Slot(k: nat): real {
      if k == 0 then next else Slot(k - 1) + stagger
    }

    /** The schedule after handing out k timestamps; an idle one hands out none. */
    function Consumed(k: nat): Burst {
      if k == 0 || !Active() then this else this.(next := Slot(k), last := Slot(k - 1))
    }
  }

  /** Each slot lies one stagger after the one before it. */
  lemma {:induction false} SlotIsStaggered(b: Burst, k: nat)
    ensures b.Slot(k) == b.next + k as real * b.stagger
  {
    if k > 0 {
      SlotIsStaggered(b, k - 1);
      assert k as real == (k - 1) as real + 1.0;
    }
  }

  lemma {:induction false} ConsumedAgain(b: Burst, j: nat, k: nat)
    ensures b.Consumed(j).Consumed(k) == b.Consumed(j + k)
    ensures b.Active() ==> b.Consumed(j).Slot(k) == b.Slot(j + k)
  {
    if k > 0 {
      ConsumedAgain(b, j, k - 1);
    }
  }

  lemma {:induction false} SlotsAscend(b: Burst, j: nat, k: nat)
    requires b.Active() && j < k
    ensures b.Slot(j) < b.Slot(k)
  {
    if j < k - 1 {
      SlotsAscend(b, j, k - 1);
    }
  }

  /** A rebuild never hands out a time before the present, nor one that starts more than
      a second past it, whatever the schedule did before; and a burst that continues keeps
      its place. */
  lemma {:induction false} BeginIsPunctual(b: Burst, now: real, duration: real)
    requires b.Active()
    ensures now <= b.Begin(now, duration).next <= now + 1000.0
    ensures b.Continues(now, duration) ==> b.next <= b.Begin(now, duration).next
    ensures b.Begin(now, duration).next > now ==> b.Continues(now, duration) && b.Begin(now, duration) == b
  {
  }

  lemma {:induction false} SlotsFromNext(b: Burst, j: nat)
    requires b.Active()
    ensures b.next <= b.Slot(j)
  {
    if j > 0 {
      SlotsAscend(b, 0, j);
    }
  }

  /** Where the slots of a later rebuild begin, seen from those already handed out. */
  lemma {:induction false} LaterSlots(b: Burst, n: nat, later: real, duration: real, next: real)
    requires b.Active() && n > 0 && later >= 0.0 && duration > 0.0 && next == b.Consumed(n).Begin(later, duration).next
    ensures b.Slot(n - 1) < next <==> b.Slot(n) <= later + 1000.0 || b.Slot(n - 1) < later
  {
    SlotsAscend(b, n - 1, n);
  }

  /** A later rebuild continues or restarts the burst such that all its times come after all
      those handed out before, if and only if the burst is not too far ahead of it, or is past. */
  lemma {:induction false} RebuildKeepsOrderWhen(b: Burst, n: nat, later: real, duration: real)
    requires b.Active() && n > 0 && later >= 0.0 && duration > 0.0
    ensures (forall i: nat, j: nat :: i < n ==> b.Slot(i) < b.Consumed(n).Begin(later, duration).Slot(j)) <==>
            b.Slot(n) <= later + 1000.0 || b.Slot(n - 1) < later
  {
    var c := b.Consumed(n).Begin(later, duration);
    LaterSlots(b, n, later, duration, c.next);
    if b.Slot(n) <= later + MAX_AHEAD_MS || b.Slot(n - 1) < later {
      forall i: nat, j: nat | i < n ensures b.Slot(i) < c.Slot(j) {
        SlotsFromNext(c, j);
        if i < n - 1 {
          SlotsAscend(b, i, n - 1);
        }
      }
    } else {
      assert !(b.Slot(n - 1) < c.Slot(0));
    }
  }

  class TypewriterSchedule {
    var nextMs: real
    var lastMs: real
    const staggerMs: real

    constructor (stagger: real)
      ensures Value() == Burst.Fresh(stagger)
    {
      nextMs := NEVER_MS;
      lastMs := NEVER_MS;
      staggerMs := stagger;
    }

    function Value(): Burst
      reads this
    {
      Burst(nextMs, lastMs, staggerMs)
    }

    function IsActive(): bool
      ensures IsActive() <==> staggerMs > 0.0
    {
      staggerMs > 0.0
    }

    method BeginBuild(now: real, duration: real)
      modifies this
      ensures Value() == old(Value()).Begin(now, duration)
    {
      if !IsActive() {
        return;
      }
      if nextMs != NEVER_MS && now < lastMs + duration && nextMs <= now + MAX_AHEAD_MS {
        nextMs := Max(nextMs, now);
        return;
      }
      nextMs := now;
    }

    method NextTimestamp() returns (t: real)
      requires IsActive()
      modifies this
      ensures t == old(Value()).Slot(0)
      ensures Value() == old(Value()).Consumed(1)
    {
      t := nextMs;
      nextMs := nextMs + staggerMs;
      lastMs := t;
    }
  }
}
