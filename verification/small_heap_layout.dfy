/** The boundary-tag heap of mem.c as a list of blocks: what one allocation, release or resize does to the list, and
    what every run of them keeps. Addresses are offsets from heap_ptr; the sentinel heap_end is at `end`. */
module SmallHeapLayout {
  import opened Prelude

  const HDR: nat := 16              // SIZEOF_STRUCT_MEM
  const MIN_SIZE: nat := 12
  const MIN_ALIGNED: nat := 16      // MIN_SIZE_ALIGNED
  const WORD: nat := 0x1_0000_0000  // rt_size_t has 32 bits

  /** RT_ALIGN(n, 8) in 32 bits: the sum wraps to zero for the last seven sizes. */
  function AlignUp(n: nat): (r: nat)
    requires n < WORD
    ensures r % 8 == 0 && r < WORD
    ensures n <= WORD - 8 ==> n <= r < n + 8
  {
    if n > WORD - 8 then 0 else n + 7 - (n + 7) % 8
  }

  /** A block starts with its header at `addr` and ends where the next one starts. */
  datatype Block = Block(addr: nat, used: bool)

  /** The header address of a live block and the address after its last byte. */
  datatype Extent = Extent(start: nat, end: nat)

  function Next(bs: seq<Block>, i: nat, end: nat): nat
    requires i < |bs|
  {
    if i + 1 < |bs| then bs[i + 1].addr else end
  }

  /** The blocks tile the heap from 0 to `end`: each holds at least its header, all start at multiples of 8. */
  ghost predicate Layout(bs: seq<Block>, end: nat) {
    && |bs| > 0 && bs[0].addr == 0 && end % 8 == 0
    && (forall i :: 0 <= i < |bs| ==> bs[i].addr % 8 == 0 && bs[i].addr + HDR <= end)
    && (forall i, j :: 0 <= i < j < |bs| ==> bs[i].addr + HDR <= bs[j].addr)
  }

  /** Two blocks do not overlap, in either order; each lies inside the heap. */
  lemma Apart(bs: seq<Block>, i: nat, j: nat, end: nat)
    requires Layout(bs, end) && i < |bs| && j < |bs|
    ensures i < j ==> bs[i].addr + HDR <= Next(bs, i, end) <= bs[j].addr
    ensures j < i ==> bs[j].addr + HDR <= Next(bs, j, end) <= bs[i].addr
    ensures bs[i].addr + HDR <= Next(bs, i, end) <= end && bs[0].addr == 0
  {
  }

  ghost predicate Coalesced(bs: seq<Block>) {
    forall i :: 0 <= i < |bs| - 1 ==> bs[i].used || bs[i + 1].used
  }

  /** The last block has room for a smallest block. */
  ghost predicate LastRoom(bs: seq<Block>, end: nat) {
    |bs| > 0 && bs[|bs| - 1].addr + HDR + MIN_ALIGNED <= end
  }

  // ---------------------------------------------------------------- sums over the list

  function UsedSum(bs: seq<Block>, end: nat): int {
    if bs == [] then 0
    else
      var last := bs[|bs| - 1];
      UsedSum(bs[..|bs| - 1], last.addr) + (if last.used then end - last.addr else 0)
  }

  function Live(bs: seq<Block>, end: nat): set<Extent> {
    if bs == [] then {}
    else
      var last := bs[|bs| - 1];
      Live(bs[..|bs| - 1], last.addr) + (if last.used then {Extent(last.addr, end)} else {})
  }

  lemma {:induction false} Split(a: seq<Block>, b: seq<Block>, end: nat)
    requires b != []
    ensures UsedSum(a + b, end) == UsedSum(a, b[0].addr) + UsedSum(b, end)
    ensures Live(a + b, end) == Live(a, b[0].addr) + Live(b, end)
    decreases |b|
  {
    var n := |b| - 1;
    assert (a + b)[..|a + b| - 1] == a + b[..n];
    if n == 0 {
      assert b[..0] == [] && a + b[..0] == a;
    } else {
      Split(a, b[..n], b[n].addr);
    }
  }

  /** Replacing blocks in the middle changes the sums by the middle only. */
  lemma SplitThree(a: seq<Block>, m: seq<Block>, b: seq<Block>, end: nat)
    requires m != []
    ensures var e := if b == [] then end else b[0].addr;
            UsedSum(a + m + b, end) == UsedSum(a, m[0].addr) + UsedSum(m, e) + UsedSum(b, end)
            && Live(a + m + b, end) == Live(a, m[0].addr) + Live(m, e) + Live(b, end)
  {
    if b == [] {
      assert a + m + b == a + m;
      Split(a, m, end);
    } else {
      Split(a + m, b, end);
      Split(a, m, b[0].addr);
    }
  }

  /** The used blocks of the list are its live extents, each once. */
  lemma {:induction false} LiveIsUsed(bs: seq<Block>, end: nat, e: Extent)
    ensures e in Live(bs, end) <==> exists i :: 0 <= i < |bs| && bs[i].used && e == Extent(bs[i].addr, Next(bs, i, end))
  {
    if bs != [] {
      var n := |bs| - 1;
      var a := bs[..n];
      LiveIsUsed(a, bs[n].addr, e);
      assert forall i :: 0 <= i < n ==> a[i] == bs[i] && Next(a, i, bs[n].addr) == Next(bs, i, end);
      if i :| 0 <= i < |bs| && bs[i].used && e == Extent(bs[i].addr, Next(bs, i, end)) {
        if i < n {
          assert e == Extent(a[i].addr, Next(a, i, bs[n].addr));
        }
      }
      if i :| 0 <= i < |a| && a[i].used && e == Extent(a[i].addr, Next(a, i, bs[n].addr)) {
        assert bs[i].used && e == Extent(bs[i].addr, Next(bs, i, end));
      }
      if e == Extent(bs[n].addr, end) && bs[n].used {
        assert Next(bs, n, end) == end;
      }
    }
  }

  /** Live blocks are 8-aligned, lie inside the heap and do not overlap. */
  lemma LiveDisjoint(bs: seq<Block>, end: nat, e: Extent, f: Extent)
    requires Layout(bs, end) && e in Live(bs, end) && f in Live(bs, end)
    ensures e.start % 8 == 0 && e.end % 8 == 0 && e.start + HDR <= e.end <= end
    ensures e == f || e.end <= f.start || f.end <= e.start
  {
    LiveIsUsed(bs, end, e);
    LiveIsUsed(bs, end, f);
    var i :| 0 <= i < |bs| && bs[i].used && e == Extent(bs[i].addr, Next(bs, i, end));
    var j :| 0 <= j < |bs| && bs[j].used && f == Extent(bs[j].addr, Next(bs, j, end));
    assert i < j ==> i + 1 == j || bs[i + 1].addr + HDR <= bs[j].addr;
    assert j < i ==> j + 1 == i || bs[j + 1].addr + HDR <= bs[i].addr;
  }

  // ---------------------------------------------------------------- the edits

  /** Block i becomes a block that ends at `cut` and a free rest. */
  function Cut(bs: seq<Block>, i: nat, cut: nat): seq<Block>
    requires i < |bs|
  {
    bs[..i] + [Block(bs[i].addr, true), Block(cut, false)] + bs[i + 1..]
  }

  /** Block j is absorbed by the block before it. */
  function Drop(bs: seq<Block>, j: nat): seq<Block>
    requires j < |bs|
  {
    bs[..j] + bs[j + 1..]
  }

  lemma CutKeeps(bs: seq<Block>, i: nat, cut: nat, end: nat)
    requires Layout(bs, end) && i < |bs|
    requires cut % 8 == 0 && bs[i].addr + HDR <= cut && cut + HDR <= Next(bs, i, end)
    ensures Layout(Cut(bs, i, cut), end)
    ensures UsedSum(Cut(bs, i, cut), end)
         == UsedSum(bs, end) - (if bs[i].used then Next(bs, i, end) - bs[i].addr else 0) + (cut - bs[i].addr)
    ensures Live(Cut(bs, i, cut), end)
         == Live(bs, end) - {Extent(bs[i].addr, Next(bs, i, end))} + {Extent(bs[i].addr, cut)}
  {
    hide Layout, UsedSum, Live;
    CutLayout(bs, i, cut, end);
    Around(bs, i, end);
    var b, rest := bs[i], bs[i + 1..];
    var two := [Block(b.addr, true), Block(cut, false)];
    var e := Next(bs, i, end);
    SplitThree(bs[..i], two, rest, end);
    assert UsedSum(two, e) == cut - b.addr && Live(two, e) == {Extent(b.addr, cut)} by { Two(b.addr, cut, e); }
  }

  lemma CutLayout(bs: seq<Block>, i: nat, cut: nat, end: nat)
    requires Layout(bs, end) && i < |bs|
    requires cut % 8 == 0 && bs[i].addr + HDR <= cut && cut + HDR <= Next(bs, i, end)
    ensures Layout(Cut(bs, i, cut), end)
  {
  }

  lemma Two(addr: nat, cut: nat, e: nat)
    ensures var two := [Block(addr, true), Block(cut, false)];
            UsedSum(two, e) == cut - addr && Live(two, e) == {Extent(addr, cut)}
  {
    var two := [Block(addr, true), Block(cut, false)];
    One(two[0], cut);
    assert two[..1] == [two[0]];
  }

  lemma One(b: Block, e: nat)
    ensures UsedSum([b], e) == if b.used then e - b.addr else 0
    ensures Live([b], e) == if b.used then {Extent(b.addr, e)} else {}
  {
    assert [b][..0] == [];
  }

  /** The sums without block i. */
  function OthersSum(bs: seq<Block>, i: nat, end: nat): int
    requires i < |bs|
  {
    UsedSum(bs[..i], bs[i].addr) + UsedSum(bs[i + 1..], end)
  }

  function OthersLive(bs: seq<Block>, i: nat, end: nat): set<Extent>
    requires i < |bs|
  {
    Live(bs[..i], bs[i].addr) + Live(bs[i + 1..], end)
  }

  /** Block i contributes its size and its extent if it is used, and nothing else starts where it does. */
  lemma Around(bs: seq<Block>, i: nat, end: nat)
    requires Layout(bs, end) && i < |bs|
    ensures UsedSum(bs, end) == OthersSum(bs, i, end) + (if bs[i].used then Next(bs, i, end) - bs[i].addr else 0)
    ensures Live(bs, end) == OthersLive(bs, i, end) + (if bs[i].used then {Extent(bs[i].addr, Next(bs, i, end))} else {})
    ensures forall x :: x in OthersLive(bs, i, end) ==> x.start != bs[i].addr
  {
    var a, b := bs[..i], bs[i + 1..];
    assert bs == a + [bs[i]] + b;
    SplitThree(a, [bs[i]], b, end);
    One(bs[i], Next(bs, i, end));
    forall x | x in OthersLive(bs, i, end)
      ensures x.start != bs[i].addr
    {
      LiveIsUsed(a, bs[i].addr, x);
      LiveIsUsed(b, end, x);
    }
  }

  lemma MarkLayout(bs: seq<Block>, i: nat, used: bool, end: nat)
    requires Layout(bs, end) && i < |bs|
    ensures Layout(bs[i := Block(bs[i].addr, used)], end)
  {
  }

  /** Setting the used flag of a block adds or removes its extent. */
  lemma MarkKeeps(bs: seq<Block>, i: nat, used: bool, end: nat)
    requires Layout(bs, end) && i < |bs|
    ensures var bs' := bs[i := Block(bs[i].addr, used)];
            var x := Extent(bs[i].addr, Next(bs, i, end));
            Layout(bs', end)
            && UsedSum(bs', end) == OthersSum(bs, i, end) + (if used then x.end - x.start else 0)
            && Live(bs', end) == Live(bs, end) - {x} + (if used then {x} else {})
  {
    hide UsedSum, Live;
    var bs' := bs[i := Block(bs[i].addr, used)];
    Around(bs, i, end);
    assert bs'[..i] == bs[..i] && bs'[i + 1..] == bs[i + 1..];
    Around(bs', i, end);
  }

  /** Absorbing a free block into a free block before it leaves the live blocks as they are. */
  lemma DropKeeps(bs: seq<Block>, j: nat, end: nat)
    requires Layout(bs, end) && 0 < j < |bs| && !bs[j].used && !bs[j - 1].used
    ensures Layout(Drop(bs, j), end)
    ensures UsedSum(Drop(bs, j), end) == UsedSum(bs, end) && Live(Drop(bs, j), end) == Live(bs, end)
  {
    DropLayout(bs, j, end);
    hide Layout, UsedSum, Live;
    var a, b := bs[..j - 1], bs[j + 1..];
    assert bs == a + [bs[j - 1], bs[j]] + b;
    assert Drop(bs, j) == a + [bs[j - 1]] + b;
    var e := if b == [] then end else b[0].addr;
    SplitThree(a, [bs[j - 1], bs[j]], b, end);
    SplitThree(a, [bs[j - 1]], b, end);
    assert UsedSum([bs[j - 1], bs[j]], e) == 0 && Live([bs[j - 1], bs[j]], e) == {} by { TwoFree(bs[j - 1], bs[j], e); }
    assert UsedSum([bs[j - 1]], e) == 0 && Live([bs[j - 1]], e) == {} by { One(bs[j - 1], e); }
  }

  lemma TwoFree(a: Block, b: Block, e: nat)
    requires !a.used && !b.used
    ensures UsedSum([a, b], e) == 0 && Live([a, b], e) == {}
  {
    One(a, b.addr);
    assert [a, b][..1] == [a];
  }

  lemma DropLayout(bs: seq<Block>, j: nat, end: nat)
    requires Layout(bs, end) && 0 < j < |bs|
    ensures Layout(Drop(bs, j), end)
  {
  }

  /** plug_holes for block i, which is free: absorb the next block if it is free, then be absorbed by the previous one
      if that is free. */
  function PlugForward(bs: seq<Block>, i: nat): seq<Block>
    requires i < |bs|
  {
    if i + 1 < |bs| && !bs[i + 1].used then Drop(bs, i + 1) else bs
  }

  function Plug(bs: seq<Block>, i: nat): seq<Block>
    requires i < |bs|
  {
    var bs1 := PlugForward(bs, i);
    if i > 0 && !bs[i - 1].used then Drop(bs1, i) else bs1
  }

  /** Free neighbours occur at block i only. */
  ghost predicate CoalescedBut(bs: seq<Block>, i: nat) {
    forall k :: 0 <= k < |bs| - 1 && k != i && k + 1 != i ==> bs[k].used || bs[k + 1].used
  }

  lemma DropLastRoom(bs: seq<Block>, j: nat, end: nat)
    requires Layout(bs, end) && 0 < j < |bs| && LastRoom(bs, end)
    ensures LastRoom(Drop(bs, j), end)
  {
    Apart(bs, j - 1, |bs| - 1, end);
  }

  lemma PlugKeeps(bs: seq<Block>, i: nat, end: nat)
    requires Layout(bs, end) && i < |bs| && !bs[i].used && CoalescedBut(bs, i)
    ensures Layout(Plug(bs, i), end) && Coalesced(Plug(bs, i))
    ensures LastRoom(bs, end) ==> LastRoom(Plug(bs, i), end)
    ensures UsedSum(Plug(bs, i), end) == UsedSum(bs, end) && Live(Plug(bs, i), end) == Live(bs, end)
  {
    hide Layout, UsedSum, Live;
    if i + 1 < |bs| && !bs[i + 1].used {
      DropKeeps(bs, i + 1, end);
      if LastRoom(bs, end) {
        DropLastRoom(bs, i + 1, end);
      }
    }
    var bs1 := PlugForward(bs, i);
    assert i < |bs1| && bs1[i] == bs[i] && (i > 0 ==> bs1[i - 1] == bs[i - 1]);
    if i > 0 && !bs[i - 1].used {
      DropKeeps(bs1, i, end);
      if LastRoom(bs1, end) {
        DropLastRoom(bs1, i, end);
      }
    }
  }
}
