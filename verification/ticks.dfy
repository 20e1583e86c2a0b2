/** The tick accounting this kernel adds to processes (kernel/proc.c, kernel/trap.c).

    The counters are 32-bit and may wrap; `life` remembers the true counts.  The
    clock interrupt is one step. */
module TickAccounting {
  import opened Common
  import opened Processes

  /** The fields of struct proc that the clock and waitx use. */
  datatype Times = Times(state: ProcState, ctime: nat, etime: nat, rtime: nat, stime: nat, wtime: nat)

  /** When the process was allocated, and the ticks it has seen in each state. */
  datatype Life = Life(born: nat, running: nat, sleeping: nat, runnable: nat, used: nat) {
    function Age(): nat { running + sleeping + runnable + used }
  }

  /** The counters are the true counts modulo 2^32, and the age of a living process
      is the time since its birth; a ZOMBIE's stopped at etime. */
  ghost predicate Accounted(t: Times, l: Life, now: nat) {
    t.state != UNUSED ==>
      && t.ctime == U32(l.born) && t.rtime == U32(l.running) && t.stime == U32(l.sleeping) && t.wtime == U32(l.runnable)
      && (if t.state == ZOMBIE then t.etime == U32(l.born + l.Age()) else now == l.born + l.Age())
  }

  /** The state changes of proc.c, between allocation and exit. */
  predicate Moves(from: ProcState, to: ProcState) {
    (from, to) in {(USED, RUNNABLE), (USED, UNUSED), (RUNNABLE, RUNNING), (RUNNING, RUNNABLE), (RUNNING, SLEEPING),
                   (SLEEPING, RUNNABLE), (ZOMBIE, UNUSED)}
  }

  class Clock {
    var ticks: nat            // 32 bits
    var proc: seq<Times>
    ghost var now: nat
    ghost var life: seq<Life>

    ghost predicate Valid()
      reads this
    {
      && ticks == U32(now) && |proc| == |life|
      && (forall i | 0 <= i < |proc| :: Accounted(proc[i], life[i], now))
    }

    /** At boot: no tick yet, and every slot UNUSED. */
    constructor (n: nat)
      ensures Valid() && now == 0 && |proc| == n && forall i | 0 <= i < n :: proc[i].state == UNUSED
    {
      ticks, proc := 0, seq(n, _ => Times(UNUSED, 0, 0, 0, 0, 0));
      now, life := 0, seq(n, _ => Life(0, 0, 0, 0, 0));
    }

    /** clockintr with update_time. */
    method Clockintr()
      requires Valid()
      modifies this
      ensures Valid() && now == old(now) + 1 && |proc| == old(|proc|)
      ensures forall i | 0 <= i < |proc| ::
                proc[i].state == old(proc[i]).state && life[i] == Aged(old(life[i]), proc[i].state)
    {
      hide U32, Accounted, Aged, Charged;
      Succ(now);
      ticks := U32(ticks + 1);
      now := now + 1;
      var p := 0;
      while p < |proc|
        invariant p <= |proc| == |life| == old(|proc|) && ticks == U32(now) && now == old(now) + 1
        invariant forall i | 0 <= i < |proc| :: proc[i].state == old(proc[i]).state
        invariant forall i | 0 <= i < p ::
                    life[i] == Aged(old(life[i]), proc[i].state) && Accounted(proc[i], life[i], now)
        invariant forall i | p <= i < |proc| :: proc[i] == old(proc[i]) && life[i] == old(life[i])
      {
        UpdateTime(p);
        AgedAccounted(old(proc[p]), old(life[p]), old(now));
        life := life[p := Aged(life[p], proc[p].state)];
        p := p + 1;
      }
    }

    /** The body of update_time's loop. */
    method UpdateTime(p: nat)
      requires p < |proc|
      modifies this`proc
      ensures proc == old(proc)[p := Charged(old(proc[p]))]
    {
      if proc[p].state == RUNNING {
        proc := proc[p := proc[p].(rtime := U32(proc[p].rtime + 1))];
      } else if proc[p].state == SLEEPING {
        proc := proc[p := proc[p].(stime := U32(proc[p].stime + 1))];
      } else if proc[p].state == RUNNABLE {
        proc := proc[p := proc[p].(wtime := U32(proc[p].wtime + 1))];
      }
    }

    /** allocproc's initialisation. */
    method Allocproc(p: nat)
      requires Valid() && p < |proc| && proc[p].state == UNUSED
      modifies this`proc, this`life
      ensures Valid() && proc == old(proc)[p := Times(USED, ticks, 0, 0, 0, 0)]
      ensures life == old(life)[p := Life(now, 0, 0, 0, 0)]
    {
      proc := proc[p := Times(USED, ticks, 0, 0, 0, 0)];
      life := life[p := Life(now, 0, 0, 0, 0)];
    }

    /** Any other change of state. */
    method Move(p: nat, to: ProcState)
      requires Valid() && p < |proc| && Moves(proc[p].state, to)
      modifies this`proc
      ensures Valid() && proc == old(proc)[p := old(proc[p]).(state := to)]
    {
      proc := proc[p := proc[p].(state := to)];
    }

    /** exit. */
    method Exit(p: nat)
      requires Valid() && p < |proc| && proc[p].state == RUNNING
      modifies this`proc
      ensures Valid() && proc == old(proc)[p := old(proc[p]).(state := ZOMBIE, etime := ticks)]
    {
      proc := proc[p := proc[p].(state := ZOMBIE, etime := ticks)];
    }

    /** What waitx reports of a ZOMBIE child: the ticks it ran, and the ticks it
        slept, was runnable or was being made, each modulo 2^32. */
    method Waitx(np: nat) returns (rtime: nat, wtime: nat)
      requires Valid() && np < |proc| && proc[np].state == ZOMBIE
      ensures rtime == U32(life[np].running)
      ensures wtime == U32(life[np].sleeping + life[np].runnable + life[np].used)
      ensures life[np].Age() < UINT ==>
                rtime == life[np].running && wtime == life[np].sleeping + life[np].runnable + life[np].used
    {
      hide U32;
      rtime := proc[np].rtime;
      wtime := U32(U32(proc[np].etime - proc[np].rtime) - proc[np].ctime);
      WaitTime(life[np]);
      if life[np].Age() < UINT {
        U32Small(life[np].running);
        U32Small(life[np].sleeping + life[np].runnable + life[np].used);
      }
    }
  }

  ghost function Aged(l: Life, state: ProcState): Life {
    match state
    case RUNNING => l.(running := l.running + 1)
    case SLEEPING => l.(sleeping := l.sleeping + 1)
    case RUNNABLE => l.(runnable := l.runnable + 1)
    case USED => l.(used := l.used + 1)
    case _ => l
  }

  ghost function Charged(t: Times): (r: Times)
    ensures r.state == t.state
  {
    match t.state
    case RUNNING => t.(rtime := U32(t.rtime + 1))
    case SLEEPING => t.(stime := U32(t.stime + 1))
    case RUNNABLE => t.(wtime := U32(t.wtime + 1))
    case _ => t
  }

  /** A tick ages every process by one in its own state, and the fields follow. */
  lemma AgedAccounted(t: Times, l: Life, now: nat)
    requires Accounted(t, l, now)
    ensures Accounted(Charged(t), Aged(l, t.state), now + 1)
  {
    Succ(l.running);
    Succ(l.sleeping);
    Succ(l.runnable);
  }

  lemma Succ(x: nat)
    ensures U32(U32(x) + 1) == U32(x + 1)
  {
    U32Shift(x + 1, x / UINT);
  }

  /** Unsigned subtraction gives the difference of the true counts. */
  lemma WaitTime(l: Life)
    ensures U32(U32(U32(l.born + l.Age()) - U32(l.running)) - U32(l.born)) == U32(l.sleeping + l.runnable + l.used)
  {
    hide U32;
    U32Sub(l.born + l.Age(), l.running);
    U32Sub(l.born + l.Age() - l.running, l.born);
  }

  lemma U32Small(x: nat)
    requires x < UINT
    ensures U32(x) == x
  {
  }

  lemma U32Sub(x: int, y: int)
    ensures U32(U32(x) - U32(y)) == U32(x - y)
  {
    assert U32(x) - U32(y) == (x - y) - UINT * (x / UINT - y / UINT);
    U32Shift(x - y, x / UINT - y / UINT);
  }

  lemma U32Shift(x: int, k: int)
    ensures U32(x - UINT * k) == U32(x)
  {
    var q, r := x / UINT, x % UINT;
    assert x - UINT * k == UINT * (q - k) + r;
  }
}
