/**
 * The lazily initialised cell of the runtime: a tri-state value
 * (Uninitialized -> Initializing -> Initialized) guarded by a `runningInit`
 * flag, as a single-threaded state machine.  While another thread holds the
 * flag, the waiting thread's spin is driven by a schedule: each entry is
 * `None` (the other thread is still initialising) or `Some(v)` (it has
 * finished, storing `v` and clearing the flag).
 */
module Cell {
  import opened Types

  datatype LazyData<T> = Uninitialized(init: () -> T) | Initialized(value: T) | Initializing

  /** The stored value, present only once initialisation has completed. */
  function GetValue<T>(d: LazyData<T>): (r: Option<T>)
    ensures r.Some? <==> d.Initialized?
    ensures d.Initialized? ==> r.value == d.value
  {
    match d
    case Initialized(v) => Some(v)
    case _ => None
  }

  /** How far initialisation has come; a cell never moves back. */
  function Stage<T>(d: LazyData<T>): nat
  {
    match d
    case Uninitialized(_) => 0
    case Initializing => 1
    case Initialized(_) => 2
  }

  /** What `get` ends with: the value, a panic, or still spinning when the
    * schedule runs out. */
  datatype Got<T> = Value(v: T) | GetPanicked | Spinning

  class LazyCell<T> {
    var runningInit: bool
    var value: LazyData<T>
    /** How many times an initialiser has run to completion. */
    ghost var initRuns: nat

    /** The initialiser has run exactly once iff the cell is initialised, and
      * an initialisation in progress holds the flag. */
    ghost predicate Valid()
      reads this
    {
      && initRuns == (if value.Initialized? then 1 else 0)
      && (value.Initializing? ==> runningInit)
    }

    constructor(call: () -> T)
      ensures value == Uninitialized(call) && !runningInit && initRuns == 0
      ensures Valid()
    {
      runningInit := false;
      value := Uninitialized(call);
      initRuns := 0;
    }

    /**
     * Takes the initialiser out of an uninitialised cell, leaving it
     * Initializing; `None` stands for the panic on any other state.
     */
    method StartInitialize() returns (f: Option<() -> T>)
      modifies this
      ensures runningInit == old(runningInit) && initRuns == old(initRuns)
      ensures old(value).Uninitialized? ==> f == Some(old(value).init) && value == Initializing
      ensures !old(value).Uninitialized? ==> f.None? && value == old(value)
    {
      match value {
        case Uninitialized(init) =>
          value := Initializing;
          f := Some(init);
        case _ =>
          f := None;
      }
    }

    /**
     * Spins while the flag is set, then reads the value, panicking if the
     * flag is clear but the cell is not initialised.
     */
    method WaitForInit(others: seq<Option<T>>) returns (r: Got<T>)
      modifies this
      ensures old(Valid()) ==> Valid()
      ensures Stage(old(value)) <= Stage(value)
      ensures old(value).Initialized? ==> value == old(value)
      ensures r.Value? <==> !runningInit && value.Initialized?
      ensures r.Value? ==> r.v == value.value
      ensures r.GetPanicked? <==> !runningInit && !value.Initialized?
      ensures r.Spinning? <==> runningInit
      ensures !old(runningInit) ==> unchanged(this)
      // the flag is only ever cleared after the value is stored
      ensures old(runningInit) ==> !r.GetPanicked?
    {
      var i := 0;
      while runningInit
        invariant 0 <= i <= |others|
        invariant old(Valid()) ==> Valid()
        invariant Stage(old(value)) <= Stage(value)
        invariant old(value).Initialized? ==> value == old(value)
        invariant !old(runningInit) ==> unchanged(this)
        invariant old(runningInit) ==> runningInit || value.Initialized?
        decreases |others| - i
      {
        if i == |others| {
          return Spinning;
        }
        match others[i] {
          case None =>
            // the other thread is still initialising: yield and look again
          case Some(v) =>
            if !value.Initialized? {
              value := Initialized(v);
              initRuns := 1;
            }
            runningInit := false;
        }
        i := i + 1;
      }
      var got := GetValue(value);
      if got.None? {
        return GetPanicked;
      }
      r := Value(got.value);
    }

    /**
     * The value, initialising the cell first if nobody has.  `others` drives
     * the spin when another thread holds the flag.
     */
    method Get(others: seq<Option<T>>) returns (r: Got<T>)
      modifies this
      ensures old(Valid()) ==> Valid()
      ensures Stage(old(value)) <= Stage(value)
      ensures r.Value? ==> value == Initialized(r.v)
      ensures r.GetPanicked? ==> !runningInit && !value.Initialized?
      ensures r.Spinning? ==> runningInit
      // the panic needs a cell whose flag and value disagree
      ensures old(Valid()) ==> !r.GetPanicked?
      // an initialised cell answers at once and nothing changes
      ensures old(value).Initialized? ==> r == Value(old(value).value) && unchanged(this)
      // the caller that wins the flag runs the initialiser once and releases the flag
      ensures old(value).Uninitialized? && !old(runningInit) ==>
                r == Value(old(value).init()) && value == Initialized(r.v)
                && !runningInit && initRuns == old(initRuns) + 1
    {
      match value {
        case Initialized(v) =>
          r := Value(v);
        case Initializing =>
          r := WaitForInit(others);
        case Uninitialized(_) =>
          if runningInit {
            // compare_exchange(false, true) fails: another thread initialises
            r := WaitForInit(others);
          } else {
            runningInit := true;
            var f := StartInitialize();
            var v := f.value();
            value := Initialized(v);
            initRuns := initRuns + 1;
            runningInit := false;
            var got := GetValue(value);
            r := Value(got.value);
          }
      }
    }
  }
}
