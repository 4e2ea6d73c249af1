/**
 * The program arguments: the static holding the raw argument list handed to
 * the process (absent when the process got none), and `ArgsIter`, a cursor
 * over that list.  An argument is a byte string.
 */
module Args {
  import opened Types

  /** The raw-arguments static once initialised: `None` when the process was
    * started without an argument list. */
  datatype RawArgsStatic = RawArgsStatic(args: Option<seq<Bytes>>)

  /** The argument list as a slice; empty when there is none. */
  function AsSlice(r: RawArgsStatic): (s: seq<Bytes>)
    ensures r.args.None? ==> s == []
    ensures r.args.Some? ==> s == r.args.value
  {
    match r.args
    case Some(a) => a
    case None => []
  }

  /** The number of arguments: 0 without a list, and always the length of the
    * slice `AsSlice` gives. */
  function Len(r: RawArgsStatic): (n: nat)
    ensures r.args.None? ==> n == 0
    ensures n == |AsSlice(r)|
  {
    if r.args.Some? then |r.args.value| else 0
  }

  /** Argument `index` of the static, if there is a list and it is that long. */
  function ArgAt(r: RawArgsStatic, index: nat): (a: Option<Bytes>)
    ensures a.Some? <==> index < Len(r)
    ensures a.Some? ==> a.value == AsSlice(r)[index]
  {
    match r.args
    case None => None
    case Some(list) => if index < |list| then Some(list[index]) else None
  }

  /** One step of the cursor at `index` over `args`: the argument there and
    * the advanced cursor, or nothing and the same cursor at the end. */
  function Step(args: seq<Bytes>, index: nat): (r: (Option<Bytes>, nat))
    ensures index < |args| ==> r == (Some(args[index]), index + 1)
    ensures index >= |args| ==> r == (None, index)
  {
    if index < |args| then (Some(args[index]), index + 1) else (None, index)
  }

  /** Everything the cursor yields from `index` on, stepping until nothing. */
  function Drain(args: seq<Bytes>, index: nat): (r: seq<Bytes>)
    ensures index <= |args| ==> |r| == |args| - index
    ensures index >= |args| ==> r == []
    decreases |args| - index
  {
    match Step(args, index)
    case (None, _) => []
    case (Some(a), next) => [a] + Drain(args, next)
  }

  /** Draining the cursor yields exactly the arguments not yet taken, in
    * order; from a fresh cursor, all `|args|` of them. */
  lemma {:induction false} DrainYieldsRest(args: seq<Bytes>, index: nat)
    requires index <= |args|
    ensures Drain(args, index) == args[index..]
    ensures index == 0 ==> |Drain(args, index)| == |args|
    decreases |args| - index
  {
    if index < |args| {
      DrainYieldsRest(args, index + 1);
      assert args[index..] == [args[index]] + args[index + 1..];
    }
  }

  class ArgsIter {
    const args: seq<Bytes>
    var index: nat

    ghost predicate Valid()
      reads this
    {
      index <= |args|
    }

    /** An iterator at the start of the process's arguments. */
    constructor(raw: RawArgsStatic)
      ensures args == AsSlice(raw) && index == 0
      ensures Valid()
    {
      args := AsSlice(raw);
      index := 0;
    }

    /** Argument `i`, whatever the cursor's position. */
    function GetIndex(i: nat): (r: Option<Bytes>)
      ensures r.Some? <==> i < |args|
      ensures r.Some? ==> r.value == args[i]
    {
      if i < |args| then Some(args[i]) else None
    }

    /** Takes the argument under the cursor and advances it; at the end,
      * yields nothing and stays put. */
    method Next() returns (r: Option<Bytes>)
      requires Valid()
      modifies this
      ensures (r, index) == Step(args, old(index))
      ensures Valid()
      ensures Drain(args, old(index)) == (if r.Some? then [r.value] else []) + Drain(args, index)
    {
      if index < |args| {
        var arg := args[index];
        index := index + 1;
        r := Some(arg);
      } else {
        r := None;
      }
    }

    /** The number of arguments, taken or not: as many as a cursor from the
      * start yields. */
    function TotalLen(): (n: nat)
      ensures n == |Drain(args, 0)|
    {
      |args|
    }

    /** The number of arguments left; with the ones taken, it makes up the total. */
    function Len(): (n: nat)
      reads this
      requires Valid()
      ensures n + index == TotalLen()
      ensures n == |Drain(args, index)|
    {
      DrainYieldsRest(args, index);
      TotalLen() - index
    }
  }
}
