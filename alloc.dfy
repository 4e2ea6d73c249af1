/**
 * The allocator as the source runs it: a singly linked list of block headers written into memory, walked
 * and rewritten in place. Memory is a map from header address to the header stored there; the ghost list
 * of AllocSpec is the sequence of headers reachable from `head`, and every operation is proved to leave
 * memory linked exactly as the matching AllocSpec function says.
 */
module Alloc {
  import opened Types
  import opened AllocSpec

  /** The header stored at an address: in use or not, the next header's address, the data length. */
  datatype Block = Block(free: bool, next: Option<nat>, dataLen: nat)

  function NextAddr(l: seq<Header>, i: nat): Option<nat>
    requires i < |l|
  {
    if i + 1 < |l| then Some(l[i + 1].addr) else None
  }

  function FirstAddr(l: seq<Header>): Option<nat>
  {
    if |l| == 0 then None else Some(l[0].addr)
  }

  /** The header block i of the list is stored as. */
  function HeaderAt(l: seq<Header>, i: nat): Block
    requires i < |l|
  {
    Block(l[i].free, NextAddr(l, i), l[i].len)
  }

  /** Memory holds list l, starting at head: each block's header is at its address and points to the next. */
  ghost predicate Linked(head: Option<nat>, mem: map<nat, Block>, l: seq<Header>)
  {
    && head == FirstAddr(l)
    && (forall i :: 0 <= i < |l| ==> l[i].addr in mem)
    && (forall i {:trigger mem[l[i].addr]} :: 0 <= i < |l| ==> mem[l[i].addr] == HeaderAt(l, i))
  }

  /** Memory holds a well-formed list starting at head. */
  ghost predicate Sound(head: Option<nat>, mem: map<nat, Block>, l: seq<Header>)
  {
    Linked(head, mem, l) && WellFormed(l)
  }

  /** A well-formed list names each address once. */
  lemma DistinctAddrs(l: seq<Header>, i: nat, j: nat)
    requires WellFormed(l) && i < |l| && j < |l| && i != j
    ensures l[i].addr != l[j].addr
  {
    if i < j {
      assert Disjoint(l[i], l[j]);
    } else {
      assert Disjoint(l[j], l[i]);
    }
  }

  lemma WellFormedPrefix(a: seq<Header>, b: seq<Header>)
    requires WellFormed(a + b)
    ensures WellFormed(a)
  {
    forall i | 0 <= i < |a| ensures (a + b)[i] == a[i] { }
  }

  /** Flipping the free flag in block k's header is flipping it in the list. */
  lemma LinkedMark(head: Option<nat>, mem: map<nat, Block>, l: seq<Header>, k: nat, f: bool)
    requires Linked(head, mem, l) && WellFormed(l) && k < |l|
    ensures Linked(head, mem[l[k].addr := mem[l[k].addr].(free := f)], l[k := l[k].(free := f)])
  {
    var s := l[k := l[k].(free := f)];
    var m := mem[l[k].addr := mem[l[k].addr].(free := f)];
    forall i | 0 <= i < |s|
      ensures s[i].addr in m && m[s[i].addr] == HeaderAt(s, i)
    {
      assert NextAddr(s, i) == NextAddr(l, i);
      if i != k {
        DistinctAddrs(l, i, k);
      }
    }
  }

  /**
   * The split of find_block: a new free header is written r bytes into block k's data, taking over k's
   * successor, and k is shortened to r and pointed at the new header.
   */
  lemma LinkedSplit(head: Option<nat>, mem: map<nat, Block>, l: seq<Header>, k: nat, r: nat, rest: Block, cut: Block)
    requires Linked(head, mem, l) && WellFormed(l) && k < |l| && l[k].len > r + H
    requires rest == Block(true, NextAddr(l, k), l[k].len - r - H)
    requires cut == Block(l[k].free, Some(l[k].addr + H + r), r)
    ensures Linked(head, mem[l[k].addr + H + r := rest][l[k].addr := cut], SplitAt(l, k, r))
  {
    forall j | 0 <= j < |l| && j != k
      ensures l[j].addr != l[k].addr && l[j].addr != l[k].addr + H + r
    {
      SpanApart(l, j, k);
    }
    LinkedSplitApart(head, mem, l, k, r, rest, cut);
  }

  /** LinkedSplit, once it is known that no other block sits at block k's header or at the new header. */
  lemma LinkedSplitApart(head: Option<nat>, mem: map<nat, Block>, l: seq<Header>, k: nat, r: nat, rest: Block, cut: Block)
    requires Linked(head, mem, l) && k < |l| && l[k].len > r + H
    requires forall j :: 0 <= j < |l| && j != k ==> l[j].addr != l[k].addr && l[j].addr != l[k].addr + H + r
    requires rest == Block(true, NextAddr(l, k), l[k].len - r - H)
    requires cut == Block(l[k].free, Some(l[k].addr + H + r), r)
    ensures Linked(head, mem[l[k].addr + H + r := rest][l[k].addr := cut], SplitAt(l, k, r))
  {
    var n := l[k].addr + H + r;
    var s := SplitAt(l, k, r);
    var m := mem[n := rest][l[k].addr := cut];
    forall i | 0 <= i < |s|
      ensures s[i].addr in m && m[s[i].addr] == HeaderAt(s, i)
    {
      if i < k {
        assert s[i] == l[i];
        assert mem[l[i].addr] == HeaderAt(l, i);
        if i + 1 < k {
          assert s[i + 1] == l[i + 1];
        }
      } else if i == k + 1 {
        if i + 1 < |s| {
          assert s[i + 1] == l[k + 1];
        }
      } else if i > k + 1 {
        assert s[i] == l[i - 1];
        assert mem[l[i - 1].addr] == HeaderAt(l, i - 1);
        if i + 1 < |s| {
          assert s[i + 1] == l[i];
        }
      }
    }
    if k > 0 {
      assert s[0] == l[0];
    }
  }

  /** Two blocks of a well-formed list occupy disjoint spans. */
  lemma SpanApart(l: seq<Header>, i: nat, j: nat)
    requires WellFormed(l) && i < |l| && j < |l| && i != j
    ensures Disjoint(l[i], l[j])
  {
    if j < i {
      assert Disjoint(l[j], l[i]);
    }
  }

  /**
   * Growth: once the created headers are written and the last of them points at the old head, memory
   * holds the created blocks followed by the old list.
   */
  lemma LinkedPrepend(head: Option<nat>, mem: map<nat, Block>, mem': map<nat, Block>, l: seq<Header>, bs: seq<Header>)
    requires Linked(head, mem, l) && |bs| > 0
    requires forall i :: 0 <= i < |bs| ==> bs[i].addr in mem' && mem'[bs[i].addr] == HeaderAt(bs + l, i)
    requires forall i :: 0 <= i < |l| ==> l[i].addr in mem' && mem'[l[i].addr] == mem[l[i].addr]
    ensures Linked(Some(bs[0].addr), mem', bs + l)
  {
    var s := bs + l;
    forall i | 0 <= i < |s|
      ensures s[i].addr in mem' && mem'[s[i].addr] == HeaderAt(s, i)
    {
      if i >= |bs| {
        var j := i - |bs|;
        assert s[i] == l[j];
        assert NextAddr(s, i) == NextAddr(l, j) by {
          if j + 1 < |l| {
            assert s[i + 1] == l[j + 1];
          }
        }
      }
    }
  }

  /**
   * find_block's growth: with the created headers written into memory (the last one ending the chain),
   * pointing the last one at the old head makes memory hold the created blocks followed by the old list.
   */
  lemma GrowLinked(head: Option<nat>, mem: map<nat, Block>, mem': map<nat, Block>, l: seq<Header>, len: nat, base: nat)
    requires Linked(head, mem, l) && WellFormed(l)
    requires CreateBlocks(len, Some(base)).Grown?
    requires FreshRegion(l, base, GrantedBytes(CreateSize(len)))
    requires var bs := CreateBlocks(len, Some(base)).blocks;
      && (forall i :: 0 <= i < |bs| ==> bs[i].addr in mem' && mem'[bs[i].addr] == HeaderAt(bs, i))
      && (forall x :: x in mem && x !in Addrs(bs) ==> x in mem' && mem'[x] == mem[x])
    ensures var bs := CreateBlocks(len, Some(base)).blocks;
      var t := bs[|bs| - 1].addr;
      && WellFormed(bs + l)
      && Linked(Some(bs[0].addr), mem'[t := mem'[t].(next := head)], bs + l)
  {
    var bs := CreateBlocks(len, Some(base)).blocks;
    CreateWellFormed(l, len, base);
    PrependLinked(head, mem, mem', l, bs);
  }

  /** Memory holding the headers of blocks bs, the last one ending the chain, and otherwise as before: pointing
    * the last one at the old head links bs in front of the old list. */
  lemma PrependLinked(head: Option<nat>, mem: map<nat, Block>, mem': map<nat, Block>, l: seq<Header>, bs: seq<Header>)
    requires Linked(head, mem, l) && WellFormed(bs + l) && |bs| > 0
    requires forall i :: 0 <= i < |bs| ==> bs[i].addr in mem' && mem'[bs[i].addr] == HeaderAt(bs, i)
    requires forall x :: x in mem && x !in Addrs(bs) ==> x in mem' && mem'[x] == mem[x]
    ensures var t := bs[|bs| - 1].addr; Linked(Some(bs[0].addr), mem'[t := mem'[t].(next := head)], bs + l)
  {
    var t := bs[|bs| - 1].addr;
    var m := mem'[t := mem'[t].(next := head)];
    PrependApart(l, bs);
    PrependHeaders(head, mem', l, bs);
    forall i | 0 <= i < |l|
      ensures l[i].addr in m && m[l[i].addr] == mem[l[i].addr]
    {
      assert l[i].addr != t;
    }
    LinkedPrepend(head, mem, m, l, bs);
  }

  /** No block of a well-formed list bs + l shares its address with a block of bs. */
  lemma PrependApart(l: seq<Header>, bs: seq<Header>)
    requires WellFormed(bs + l)
    ensures forall i :: 0 <= i < |l| ==> l[i].addr !in Addrs(bs)
  {
    forall i | 0 <= i < |l|
      ensures l[i].addr !in Addrs(bs)
    {
      forall j | 0 <= j < |bs|
        ensures l[i].addr != bs[j].addr
      {
        assert (bs + l)[j] == bs[j] && (bs + l)[|bs| + i] == l[i];
        DistinctAddrs(bs + l, j, |bs| + i);
      }
    }
  }

  /** With the last header of bs pointed at the old head, memory holds bs's headers as linked in front of l. */
  lemma PrependHeaders(head: Option<nat>, mem': map<nat, Block>, l: seq<Header>, bs: seq<Header>)
    requires WellFormed(bs + l) && |bs| > 0 && head == FirstAddr(l)
    requires forall i :: 0 <= i < |bs| ==> bs[i].addr in mem' && mem'[bs[i].addr] == HeaderAt(bs, i)
    ensures var t := bs[|bs| - 1].addr; var m := mem'[t := mem'[t].(next := head)];
      forall i :: 0 <= i < |bs| ==> bs[i].addr in m && m[bs[i].addr] == HeaderAt(bs + l, i)
  {
    var t := bs[|bs| - 1].addr;
    var m := mem'[t := mem'[t].(next := head)];
    WellFormedPrefix(bs, l);
    forall i | 0 <= i < |bs|
      ensures bs[i].addr in m && m[bs[i].addr] == HeaderAt(bs + l, i)
    {
      assert (bs + l)[i] == bs[i];
      assert mem'[bs[i].addr] == HeaderAt(bs, i);
      if i + 1 < |bs| {
        assert (bs + l)[i + 1] == bs[i + 1];
        DistinctAddrs(bs, i, i + 1);
      } else if |l| > 0 {
        assert (bs + l)[i + 1] == l[0];
      }
    }
  }

  /** Blocks i and i + 1 become one: block i keeps its header, grows over i + 1 and takes its successor. */
  function AbsorbAt(l: seq<Header>, i: nat): (s: seq<Header>)
    requires i + 1 < |l|
    ensures |s| == |l| - 1 && s[..i] == l[..i] && s[i] == Absorb(l[i], l[i + 1]) && s[i + 1..] == l[i + 2..]
  {
    l[..i] + [Absorb(l[i], l[i + 1])] + l[i + 2..]
  }

  lemma AbsorbWellFormed(l: seq<Header>, i: nat)
    requires WellFormed(l) && i + 1 < |l| && End(l[i]) == l[i + 1].addr
    ensures WellFormed(AbsorbAt(l, i))
  {
    var s := AbsorbAt(l, i);
    forall p | 0 <= p < |s|
      ensures 0 < s[p].addr && s[p].addr % H == 0 && s[p].len % H == 0
    {
      if p < i {
        assert s[p] == l[p];
      } else if p > i {
        assert s[p] == l[p + 1];
      } else {
        assert s[p].len == (l[i].len / H + 1 + l[i + 1].len / H) * H;
        MulMod(l[i].len / H + 1 + l[i + 1].len / H, H);
      }
    }
    forall p, q | 0 <= p < q < |s|
      ensures Disjoint(s[p], s[q])
    {
      var p0 := if p <= i then p else p + 1;
      var q0 := if q <= i then q else q + 1;
      if p == i {
        assert Disjoint(l[i + 1], l[q0]);
      } else if q == i {
        assert Disjoint(l[p0], l[i]);
      } else {
        assert s[p] == l[p0] && s[q] == l[q0];
        assert Disjoint(l[p0], l[q0]);
      }
    }
  }

  lemma AbsorbTotal(l: seq<Header>, i: nat)
    requires i + 1 < |l|
    ensures Total(AbsorbAt(l, i)) == Total(l)
  {
    var s := AbsorbAt(l, i);
    TotalSplit(l, i);
    TotalFrom(l, i);
    TotalFrom(l, i + 1);
    TotalSplit(s, i);
    TotalFrom(s, i);
  }

  /** Total of a list cut in two. */
  lemma TotalSplit(l: seq<Header>, i: nat)
    requires i <= |l|
    ensures Total(l) == Total(l[..i]) + Total(l[i..])
  {
    assert l == l[..i] + l[i..];
    TotalAppend(l[..i], l[i..]);
  }

  /** Total of a suffix: its first block and the rest. */
  lemma TotalFrom(l: seq<Header>, i: nat)
    requires i < |l|
    ensures Total(l[i..]) == H + l[i].len + Total(l[i + 1..])
  {
    assert l[i..][1..] == l[i + 1..];
  }

  /** merge_blocks' join: block i's header takes its successor's next pointer and grows over it. */
  lemma LinkedAbsorb(head: Option<nat>, mem: map<nat, Block>, l: seq<Header>, i: nat, joined: Block)
    requires Linked(head, mem, l) && WellFormed(l) && i + 1 < |l|
    requires joined == Block(l[i].free, NextAddr(l, i + 1), l[i].len + l[i + 1].len + H)
    ensures Linked(head, mem[l[i].addr := joined], AbsorbAt(l, i))
  {
    forall j | 0 <= j < |l| && j != i
      ensures l[j].addr != l[i].addr
    {
      DistinctAddrs(l, j, i);
    }
    LinkedAbsorbApart(head, mem, l, i, joined);
  }

  /** LinkedAbsorb, once it is known that no other block sits at block i's header. */
  lemma LinkedAbsorbApart(head: Option<nat>, mem: map<nat, Block>, l: seq<Header>, i: nat, joined: Block)
    requires Linked(head, mem, l) && i + 1 < |l|
    requires forall j :: 0 <= j < |l| && j != i ==> l[j].addr != l[i].addr
    requires joined == Block(l[i].free, NextAddr(l, i + 1), l[i].len + l[i + 1].len + H)
    ensures Linked(head, mem[l[i].addr := joined], AbsorbAt(l, i))
  {
    var s := AbsorbAt(l, i);
    var m := mem[l[i].addr := joined];
    forall p | 0 <= p < |s|
      ensures s[p].addr in m && m[s[p].addr] == HeaderAt(s, p)
    {
      if p < i {
        assert s[p] == l[p];
        assert mem[l[p].addr] == HeaderAt(l, p);
        if p + 1 < i {
          assert s[p + 1] == l[p + 1];
        }
      } else if p > i {
        assert s[p] == l[p + 1];
        assert mem[l[p + 1].addr] == HeaderAt(l, p + 1);
        if p + 1 < |s| {
          assert s[p + 1] == l[p + 2];
        }
      } else if p + 1 < |s| {
        assert s[p + 1] == l[i + 2];
      }
    }
    if i > 0 {
      assert s[0] == l[0];
    }
  }

  /** The merge walk moves past block i without merging: it is used, last, or not joinable with its successor. */
  lemma {:induction false} MergeAdvance(l0: seq<Header>, l: seq<Header>, i: nat)
    requires i < |l| && MergePass(l0) == l[..i] + MergePass(l[i..])
    requires i + 1 < |l| ==> !Coalescable(l[i], l[i + 1])
    ensures MergePass(l0) == l[..i + 1] + MergePass(l[i + 1..])
  {
    if i + 1 < |l| {
      assert l[i..][1..] == l[i + 1..];
    } else {
      assert l[i..] == [l[i]] && l[i + 1..] == [];
    }
    assert MergePass(l[i..]) == [l[i]] + MergePass(l[i + 1..]);
    assert l[..i + 1] == l[..i] + [l[i]];
  }

  /** The merge walk joins blocks i and i + 1 and continues after them. */
  lemma {:induction false} MergeJoinAdvance(l0: seq<Header>, l: seq<Header>, i: nat)
    requires i + 1 < |l| && MergePass(l0) == l[..i] + MergePass(l[i..])
    requires Coalescable(l[i], l[i + 1])
    ensures MergePass(l0) == AbsorbAt(l, i)[..i + 1] + MergePass(AbsorbAt(l, i)[i + 1..])
  {
    var s := AbsorbAt(l, i);
    assert l[i..][2..] == l[i + 2..];
    assert MergePass(l[i..]) == [Absorb(l[i], l[i + 1])] + MergePass(l[i + 2..]);
    assert s[..i + 1] == l[..i] + [Absorb(l[i], l[i + 1])];
  }

  /** A walk that has gone past the end of the list has finished the pass. */
  lemma MergeDone(l0: seq<Header>, l: seq<Header>, i: nat)
    requires i == |l| && MergePass(l0) == l[..i] + MergePass(l[i..])
    ensures MergePass(l0) == l
  {
    assert l[i..] == [] && l[..i] == l;
  }

  /** How the search reports the block it picked: by header address. */
  datatype Search = Found(addr: nat) | NotFound | Spins(addr: nat)

  function SearchOf(l: seq<Header>, p: Pick): Search
    requires p.Take? ==> p.k < |l|
    requires p.Stuck? ==> p.k < |l|
  {
    match p
    case Take(k) => Found(l[k].addr)
    case NoFit => NotFound
    case Stuck(k) => Spins(l[k].addr)
  }

  /** What Block::create hands back: the first new header and the surplus header if any, or why not. */
  datatype Created = Made(block: nat, tail: Option<nat>) | MapFailed | SizePanic

  /** What GlobalAlloc::alloc returns: a data pointer, null (0) when memory ran out, or no return at all. */
  datatype RawAlloc = Ptr(addr: nat) | RawPanic(reason: PanicReason) | RawHang

  function ToRaw(a: Allocation): (p: RawAlloc)
    ensures a.Granted? ==> p == Ptr(a.slice.ptr)
    ensures a.AllocFailed? ==> p == Ptr(0)
    ensures a.AllocPanic? ==> p == RawPanic(a.reason)
    ensures a.AllocHangs? ==> p == RawHang
  {
    match a
    case Granted(s) => Ptr(s.ptr)
    case AllocFailed => Ptr(0)
    case AllocPanic(why) => RawPanic(why)
    case AllocHangs => RawHang
  }

  /**
   * One step of the merge walk at block i (header address b) of the list l that memory m holds: a free
   * block followed by a free block that starts where it ends absorbs that block's header and data; the
   * walk then goes to the block after the one it stands on, so an absorbing block is not looked at again.
   * l0 is the list the pass started from.
   */
  method MergeStep(head: Option<nat>, m: map<nat, Block>, ghost l0: seq<Header>, ghost l: seq<Header>, ghost i: nat, b: nat)
    returns (m': map<nat, Block>, ghost l': seq<Header>, next: Option<nat>)
    requires Sound(head, m, l) && i < |l| && l[i].addr == b
    requires MergePass(l0) == l[..i] + MergePass(l[i..])
    ensures Sound(head, m', l') && i < |l'| && |l'| <= |l|
    ensures next == (if i + 1 < |l'| then Some(l'[i + 1].addr) else None)
    ensures MergePass(l0) == l'[..i + 1] + MergePass(l'[i + 1..])
  {
    var block := m[b];
    assert block == HeaderAt(l, i);
    if block.free && block.next.Some? && m[block.next.value].free && b + H + block.dataLen == block.next.value {
      var succ := m[block.next.value];
      assert succ == HeaderAt(l, i + 1);
      var joined := block.(next := succ.next, dataLen := block.dataLen + succ.dataLen + H);
      LinkedAbsorb(head, m, l, i, joined);
      AbsorbWellFormed(l, i);
      MergeJoinAdvance(l0, l, i);
      if i + 2 < |l| {
        assert AbsorbAt(l, i)[i + 1] == l[i + 2];
      }
      m' := m[b := joined];
      l' := AbsorbAt(l, i);
      next := joined.next;
    } else {
      // A used block, a free last block (where the source returns, as the walk ends here anyway), a used
      // successor, or a successor that does not start where this block ends: move on.
      if block.next.Some? {
        assert m[block.next.value] == HeaderAt(l, i + 1);
      }
      MergeAdvance(l0, l, i);
      m', l', next := m, l, block.next;
    }
  }

  class SystemAllocator {
    var head: Option<nat>
    /** Header memory: what is stored at each address holding a header, reachable or not. */
    var mem: map<nat, Block>
    /** The blocks reachable from head, in list order. */
    ghost var list: seq<Header>

    ghost predicate Valid()
      reads this
    {
      Sound(head, mem, list)
    }

    /** SystemAllocator::new: no blocks. */
    constructor ()
      ensures Valid() && list == []
    {
      head := None;
      mem := map[];
      list := [];
    }

    /**
     * try_find_block: walks the list from head for the exact fit or the smallest larger free block whose
     * data meets the alignment rounded up to 8, comparing against the header-plus-data length rounded
     * to 8. Where the source would spin forever on a misaligned free block, this returns Spins.
     */
    method TryFindBlock(dataLen: nat, alignment: nat) returns (r: Search)
      requires Linked(head, mem, list)
      ensures r == SearchOf(list, Choose(list, SearchLen(dataLen), NextMultipleOf(alignment, BLOCK_ALIGN)))
    {
      var a := NextMultipleOf(alignment, BLOCK_ALIGN);
      var size := NextMultipleOf(dataLen + H, BLOCK_ALIGN);
      var len := size - H;
      var current := head;
      var best: Option<(nat, nat)> := None;
      ghost var i := 0;
      ghost var bi: Option<nat> := None;
      while current.Some?
        invariant i <= |list|
        invariant current == (if i < |list| then Some(list[i].addr) else None)
        invariant bi.Some? ==> bi.value < i
        invariant best == (if bi.None? then None else Some((list[bi.value].addr, list[bi.value].len)))
        invariant ScanFrom(list, len, a, i, bi) == Choose(list, len, a)
        decreases |list| - i
      {
        var b := current.value;
        var block := mem[b];
        assert block == HeaderAt(list, i);
        if !block.free {
          current := block.next;
          i := i + 1;
          continue;
        }
        if !Aligned(b + H, a) {
          return Spins(b);
        }
        if block.dataLen == len {
          return Found(b);
        }
        if block.dataLen > len && (best.None? || best.value.1 > block.dataLen) {
          best := Some((b, block.dataLen));
          bi := Some(i);
        }
        current := block.next;
        i := i + 1;
      }
      r := if best.Some? then Found(best.value.0) else NotFound;
    }

    /**
     * Block::create: maps a fresh region of GrowthBytes for the rounded request (`grant`, None when the
     * mapping fails) and writes one free header at its base, and a second free header after the first
     * block when the mapping has room to spare. The list is not touched.
     */
    method Create(dataLen: nat, grant: Option<nat>) returns (c: Created)
      requires grant.Some? ==> 0 < grant.value && grant.value % PAGE == 0
      modifies this
      ensures head == old(head) && list == old(list)
      ensures (match CreateBlocks(dataLen, grant)
        case GrowPanic => c == SizePanic && mem == old(mem)
        case GrowFailed => c == MapFailed && mem == old(mem)
        case Grown(bs) =>
          && c == Made(bs[0].addr, if |bs| == 2 then Some(bs[1].addr) else None)
          && (forall i :: 0 <= i < |bs| ==> bs[i].addr in mem && mem[bs[i].addr] == HeaderAt(bs, i))
          && (forall x :: x in old(mem) && x !in Addrs(bs) ==> x in mem && mem[x] == old(mem)[x]))
    {
      var d := NextMultipleOf(dataLen, H);
      var size := NextMultipleOf(d + H, BLOCK_ALIGN);
      assert size == CreateSize(dataLen);
      if size > ISIZE_MAX {
        return SizePanic;
      }
      if grant.None? {
        return MapFailed;
      }
      var base := grant.value;
      var allocSize := GrantedBytes(size);
      ghost var bs := CreateBlocks(dataLen, grant).blocks;
      mem := mem[base := Block(true, None, size - H)];
      if allocSize > size {
        PageMultipleOfH(allocSize);
        GapOfMultiples(allocSize, size);
        var extra := base + size;
        mem := mem[extra := Block(true, None, allocSize - size - H)];
        mem := mem[base := mem[base].(next := Some(extra))];
        c := Made(base, Some(extra));
        assert bs == [Header(base, true, size - H), Header(extra, true, allocSize - size - H)];
        assert Addrs(bs) == {base, extra};
        assert HeaderAt(bs, 0) == Block(true, Some(extra), size - H);
        assert HeaderAt(bs, 1) == Block(true, None, allocSize - size - H);
      } else {
        c := Made(base, None);
        assert bs == [Header(base, true, size - H)];
        assert Addrs(bs) == {base};
        assert HeaderAt(bs, 0) == Block(true, None, size - H);
      }
    }

    /**
     * find_block: panics for an alignment above a page, rounds the request to a multiple of H, and
     * either splits the found block or grows the heap by prepending freshly created blocks.
     */
    method FindBlock(dataLen: nat, alignment: nat, grant: Option<nat>) returns (r: FindResult)
      requires Valid() && GrantOk(list, dataLen, grant)
      modifies this
      ensures Valid()
      ensures (r, list) == FindBlockSpec(old(list), dataLen, alignment, grant)
    {
      if alignment > PAGE {
        return Panic(AlignAbovePage);
      }
      var len := NextMultipleOf(dataLen, H);
      SearchLenOfMultiple(len);
      ghost var p := Choose(list, len, NextMultipleOf(alignment, BLOCK_ALIGN));
      var s := TryFindBlock(len, alignment);
      match s {
      case Found(b) =>
        SplitBlock(b, len, p.k);
        r := BlockAt(b);
      case Spins(_) =>
        r := Hangs;
      case NotFound =>
        r := Grow(len, grant);
      }
    }

    /**
     * The split step of find_block: when the found block's data exceeds the rounded request by more than
     * a header, a free header is written right after the request's bytes, taking over the rest of the
     * block and its successor.
     */
    method SplitBlock(b: nat, len: nat, ghost k: nat)
      requires Valid() && k < |list| && list[k].addr == b && len % H == 0
      modifies this
      ensures Valid() && head == old(head) && list == SplitIfWorth(old(list), k, len)
    {
      var block := mem[b];
      assert block == HeaderAt(list, k);
      if block.dataLen > len && block.dataLen - len > H {
        var n := b + H + len;
        var rest := Block(true, block.next, block.dataLen - len - H);
        var cut := block.(next := Some(n), dataLen := len);
        LinkedSplit(head, mem, list, k, len, rest, cut);
        SplitWellFormed(list, k, len);
        mem := mem[n := rest];
        mem := mem[b := cut];
        list := SplitAt(list, k, len);
      }
    }

    /**
     * The growth step of find_block: Block::create maps a fresh region, and its blocks are put in front
     * of the list, the last of them pointing at the old head.
     */
    method Grow(len: nat, grant: Option<nat>) returns (r: FindResult)
      requires Valid() && len % H == 0
      requires grant.Some? ==> FreshRegion(list, grant.value, GrantedBytes(CreateSize(len)))
      modifies this
      ensures Valid()
      ensures match CreateBlocks(len, grant)
        case GrowPanic => r == Panic(SizeAboveIsizeMax) && list == old(list)
        case GrowFailed => r == OutOfMemory && list == old(list)
        case Grown(bs) => r == BlockAt(bs[0].addr) && list == bs + old(list)
    {
      ghost var m0 := mem;
      var c := Create(len, grant);
      match c {
      case SizePanic =>
        r := Panic(SizeAboveIsizeMax);
      case MapFailed =>
        r := OutOfMemory;
      case Made(first, tail) =>
        GrowLinked(head, m0, mem, list, len, grant.value);
        var setNextOf := if tail.Some? then tail.value else first;
        mem := mem[setNextOf := mem[setNextOf].(next := head)];
        head := Some(first);
        list := CreateBlocks(len, grant).blocks + list;
        r := BlockAt(first);
      }
    }

    /**
     * merge_blocks: one walk from head; a free block followed by a free block that starts where it ends
     * absorbs that block's header and data, and the walk continues after the absorbed block.
     */
    method MergeBlocks()
      requires Valid()
      modifies this
      ensures Valid() && head == old(head) && list == MergePass(old(list))
    {
      var m: map<nat, Block> := mem;
      ghost var l := list;
      var current := head;
      ghost var i := 0;
      while current.Some?
        invariant head == old(head) && list == old(list)
        invariant Sound(head, m, l)
        invariant i <= |l| && current == (if i < |l| then Some(l[i].addr) else None)
        invariant MergePass(list) == l[..i] + MergePass(l[i..])
        decreases |l| - i
      {
        m, l, current := MergeStep(head, m, list, l, i, current.value);
        i := i + 1;
      }
      MergeDone(list, l, i);
      Install(m, l);
    }

    /** Takes over header memory m, which holds the list l from the same head. */
    method Install(m: map<nat, Block>, ghost l: seq<Header>)
      requires Sound(head, m, l)
      modifies this
      ensures mem == m && list == l && head == old(head) && Valid()
    {
      mem := m;
      list := l;
    }

    /** The end of allocate: the header at b, block k of the list, is marked in use and its data slice is
      * handed out. */
    method Claim(b: nat, ghost k: nat) returns (s: Slice)
      requires Valid() && k < |list| && list[k].addr == b
      modifies this
      ensures Valid() && head == old(head)
      ensures list == old(list)[k := old(list)[k].(free := false)]
      ensures s == DataFromPtr(old(list)[k])
    {
      assert mem[b] == HeaderAt(list, k);
      LinkedMark(head, mem, list, k, false);
      MarkWellFormed(list, k, false);
      mem := mem[b := mem[b].(free := false)];
      list := list[k := list[k].(free := false)];
      s := Slice(b + H, mem[b].dataLen);
    }

    /** allocate: find_block, then the block is marked in use and its data slice handed out. */
    method Allocate(size: nat, alignment: nat, grant: Option<nat>) returns (a: Allocation)
      requires Valid() && GrantOk(list, size, grant)
      modifies this
      ensures Valid() && (a, list) == AllocateSpec(old(list), size, alignment, grant)
    {
      var f := FindBlock(size, alignment, grant);
      match f {
      case BlockAt(b) =>
        var s := Claim(b, IndexOf(list, b));
        a := Granted(s);
      case OutOfMemory =>
        a := AllocFailed;
      case Panic(why) =>
        a := AllocPanic(why);
      case Hangs =>
        a := AllocHangs;
      }
    }

    /**
     * deallocate: the header H bytes before the data pointer is marked free and one merge walk runs.
     * The caller must pass a pointer this allocator handed out.
     */
    method Deallocate(ptr: nat)
      requires Valid() && ptr >= H && BlockFromDataPtr(ptr) in Addrs(list)
      modifies this
      ensures Valid() && list == DeallocateSpec(old(list), ptr)
    {
      var b := BlockFromDataPtr(ptr);
      ghost var k := IndexOf(list, b);
      LinkedMark(head, mem, list, k, true);
      MarkWellFormed(list, k, true);
      mem := mem[b := mem[b].(free := true)];
      list := list[k := list[k].(free := true)];
      MergeBlocks();
    }

    /** GlobalAlloc::alloc: allocate, returning the data pointer, or null when memory ran out. */
    method Alloc(size: nat, alignment: nat, grant: Option<nat>) returns (p: RawAlloc)
      requires Valid() && GrantOk(list, size, grant)
      modifies this
      ensures Valid()
      ensures var (a, l) := AllocateSpec(old(list), size, alignment, grant); p == ToRaw(a) && list == l
    {
      var a := Allocate(size, alignment, grant);
      p := ToRaw(a);
    }

    /** syscreate: allocate, returning the data slice, or the empty option when memory ran out. */
    method SysCreate(objectSize: nat, objectAlign: nat, grant: Option<nat>) returns (r: Allocation)
      requires Valid() && GrantOk(list, objectSize, grant)
      modifies this
      ensures Valid() && (r, list) == AllocateSpec(old(list), objectSize, objectAlign, grant)
    {
      r := Allocate(objectSize, objectAlign, grant);
    }

    /** sysdestroy: a null pointer is ignored; any other is deallocated. */
    method SysDestroy(objectPtr: nat)
      requires Valid()
      requires objectPtr != 0 ==> objectPtr >= H && BlockFromDataPtr(objectPtr) in Addrs(list)
      modifies this
      ensures Valid()
      ensures objectPtr == 0 ==> list == old(list) && mem == old(mem) && head == old(head)
      ensures objectPtr != 0 ==> list == DeallocateSpec(old(list), objectPtr)
    {
      if objectPtr != 0 {
        Deallocate(objectPtr);
      }
    }
  }
}
