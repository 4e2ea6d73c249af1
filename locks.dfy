/**
 * The futex-based mutex of the runtime, as a sequential state machine on its
 * 32-bit `state` word.  A futex wait is a step in which other threads may
 * change the word: the caller supplies what each wait does, as a `WaitStep`.
 * Futex system-call failures are fatal in the source and become a
 * `Panicked` outcome here.
 */
module Locks {
  import opened Types

  const M_AVAILABLE: u32 := 0
  const M_LOCKED: u32 := 1
  const M_WAITED_ON: u32 := 2

  /** A futex system call made by the mutex: wait while the word still holds
    * `expected`, or wake up to `count` waiters. */
  datatype FutexCall = Wait(expected: u32) | Wake(count: nat)

  /** What one `futex_wait` amounts to: the call fails, or it returns and the
    * word then holds `observed` (other threads may have changed it). */
  datatype WaitStep = WaitFails | Woken(observed: u32)

  /** How `lock` ends: with a guard, panicking on a futex error, or still
    * blocked when the supplied waits run out. */
  datatype LockOutcome<T> = Acquired(guard: MutexGuard<T>) | Panicked | Blocked

  /** How `force_unlock` ends: normally, or panicking because the wake failed. */
  datatype UnlockOutcome = Unlocked | UnlockPanicked

  /** `fetch_sub(1)` on a `u32`: subtraction modulo 2^32. */
  function WrappingDec(x: u32): (r: u32)
    ensures r as int == (x as int - 1) % 0x1_0000_0000
    ensures x != 0 ==> r as int + 1 == x as int
  {
    if x == 0 then 0xFFFF_FFFF else x - 1
  }

  /** The first `n` waits all returned while the mutex was still taken. */
  ghost predicate StillTaken(waits: seq<WaitStep>, n: nat)
    requires n <= |waits|
  {
    forall j :: 0 <= j < n ==> waits[j].Woken? && waits[j].observed != M_AVAILABLE
  }

  /** Every call recorded is a wait on the word holding WAITED_ON. */
  ghost predicate AllWaits(calls: seq<FutexCall>)
  {
    forall j :: 0 <= j < |calls| ==> calls[j] == Wait(M_WAITED_ON)
  }

  class Mutex<T> {
    var state: u32
    var inner: T

    /** A new mutex is AVAILABLE. */
    constructor(inner: T)
      ensures state == M_AVAILABLE && this.inner == inner
    {
      state := M_AVAILABLE;
      this.inner := inner;
    }

    /**
     * Locks the mutex.  `spurious` says whether the weak compare-exchange of
     * the fast path fails although the word holds AVAILABLE; `waits` says what
     * each successive futex wait of the slow path amounts to.
     */
    method Lock(spurious: bool, waits: seq<WaitStep>) returns (r: LockOutcome<T>, calls: seq<FutexCall>)
      modifies this
      ensures inner == old(inner)
      ensures AllWaits(calls)
      ensures r.Acquired? ==> r.guard.mutex == this && fresh(r.guard)
      // uncontended: AVAILABLE -> LOCKED by the compare-exchange, no futex call
      ensures old(state) == M_AVAILABLE && !spurious ==>
                r.Acquired? && state == M_LOCKED && calls == []
      // slow path: the word is left WAITED_ON, however the call ends
      ensures old(state) != M_AVAILABLE || spurious ==> state == M_WAITED_ON
      // the slow path waits only when the mutex was observed taken
      ensures old(state) == M_AVAILABLE ==> r.Acquired? && calls == []
      ensures old(state) != M_AVAILABLE ==> 1 <= |calls|
      // it leaves its loop only on observing AVAILABLE
      ensures r.Acquired? && calls != [] ==>
                |calls| <= |waits| && StillTaken(waits, |calls| - 1)
                && waits[|calls| - 1] == Woken(M_AVAILABLE)
      ensures r.Panicked? ==>
                1 <= |calls| <= |waits| && StillTaken(waits, |calls| - 1)
                && waits[|calls| - 1] == WaitFails
      ensures r.Blocked? ==> |calls| == |waits| + 1 && StillTaken(waits, |waits|)
    {
      calls := [];
      if state == M_AVAILABLE && !spurious {
        state := M_LOCKED;
        var g := new MutexGuard(this);
        return Acquired(g), calls;
      }
      // the compare-exchange failed and reports the word's current value
      var s := state;
      if s != M_WAITED_ON {
        // swap(WAITED_ON) returns the value it replaces
        s := state;
        state := M_WAITED_ON;
      }
      var i := 0;
      while s != M_AVAILABLE
        invariant 0 <= i <= |waits| && |calls| == i
        invariant state == M_WAITED_ON && inner == old(inner)
        invariant AllWaits(calls)
        invariant i == 0 ==> s == old(state)
        invariant old(state) == M_AVAILABLE ==> i == 0
        invariant i > 0 ==> StillTaken(waits, i - 1) && waits[i - 1] == Woken(s)
        decreases |waits| - i
      {
        calls := calls + [Wait(M_WAITED_ON)];
        if i == |waits| {
          return Blocked, calls;
        }
        match waits[i] {
          case WaitFails =>
            return Panicked, calls;
          case Woken(v) =>
            s := v;
            state := M_WAITED_ON;
        }
        i := i + 1;
      }
      var g := new MutexGuard(this);
      r := Acquired(g);
    }

    /** Takes the mutex only if it is AVAILABLE. */
    method TryLock() returns (r: Option<MutexGuard<T>>)
      modifies this
      ensures inner == old(inner)
      ensures r.Some? <==> old(state) == M_AVAILABLE
      ensures r.Some? ==> state == M_LOCKED && r.value.mutex == this && fresh(r.value)
      ensures r.None? ==> state == old(state)
    {
      if state == M_AVAILABLE {
        state := M_LOCKED;
        var g := new MutexGuard(this);
        r := Some(g);
      } else {
        r := None;
      }
    }

    /**
     * Releases the mutex whatever its state.  The decrement alone releases a
     * LOCKED mutex; any other previous value (WAITED_ON, or AVAILABLE which
     * wraps around) is overwritten with AVAILABLE and one waiter is woken.
     * `wakeFails` says whether that wake call fails.
     */
    method ForceUnlock(wakeFails: bool) returns (r: UnlockOutcome, calls: seq<FutexCall>)
      modifies this
      ensures inner == old(inner)
      ensures state == M_AVAILABLE
      ensures calls == (if old(state) == M_LOCKED then [] else [Wake(1)])
      ensures r.UnlockPanicked? <==> old(state) != M_LOCKED && wakeFails
    {
      var prev := state;
      state := WrappingDec(state);
      calls := [];
      r := Unlocked;
      if prev != M_LOCKED {
        state := M_AVAILABLE;
        calls := [Wake(1)];
        if wakeFails {
          r := UnlockPanicked;
        }
      }
    }

    /** A clone holds the same value but is AVAILABLE, whatever this one's state. */
    method Clone() returns (c: Mutex<T>)
      ensures fresh(c)
      ensures c.state == M_AVAILABLE && c.inner == inner
    {
      c := new Mutex(inner);
    }
  }

  /** Proof that the mutex is held; dropping it force-unlocks the mutex. */
  class MutexGuard<T> {
    const mutex: Mutex<T>

    constructor(mutex: Mutex<T>)
      ensures this.mutex == mutex
    {
      this.mutex := mutex;
    }

    method Drop(wakeFails: bool) returns (r: UnlockOutcome, calls: seq<FutexCall>)
      modifies mutex
      ensures mutex.inner == old(mutex.inner)
      ensures mutex.state == M_AVAILABLE
      ensures calls == (if old(mutex.state) == M_LOCKED then [] else [Wake(1)])
      ensures r.UnlockPanicked? <==> old(mutex.state) != M_LOCKED && wakeFails
    {
      r, calls := mutex.ForceUnlock(wakeFails);
    }
  }
}
