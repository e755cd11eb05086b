/**
 Carving blocks out of a memory region (firmware-bundler/src/ld.rs, manifest.rs): each request
 is aligned by consuming padding, then taken from the front of what remains.
 */
module MemoryLayout {
  import opened Words
  import opened Wrappers

  datatype Memory = Memory(offset: nat, size: nat)

  function End(m: Memory): nat { m.offset + m.size }

  type Alignment = a: int | 1 <= a witness 1

  datatype Request = Request(size: nat, alignment: Option<Alignment>)

  function AlignmentOf(r: Request, default: Alignment): Alignment {
    match r.alignment case None => default case Some(a) => a
  }

  /** The bytes skipped to reach an aligned offset. */
  function Padding(offset: nat, a: Alignment): (p: nat)
    ensures p < a && (offset + p) % a == 0
  {
    var r := offset % a;
    if r == 0 then 0 else
      DivModUnique(offset + (a - r), a, offset / a + 1, 0);
      a - r
  }

  function Advance(m: Memory, n: nat): Memory
    requires n <= m.size
  {
    Memory(m.offset + n, m.size - n)
  }

  /** get_mem_block: the block and what remains. */
  function Allocate(m: Memory, r: Request, default: Alignment): Option<(Memory, Memory)> {
    var p := Padding(m.offset, AlignmentOf(r, default));
    if p + r.size > m.size then None
    else Some((Memory(m.offset + p, r.size), Advance(m, p + r.size)))
  }

  datatype Layout = Layout(blocks: seq<Memory>, rest: Memory)

  /** One request after the other. */
  function AllocateAll(m: Memory, requests: seq<Request>, default: Alignment): Option<Layout> {
    if requests == [] then Some(Layout([], m))
    else
      var k := |requests| - 1;
      match AllocateAll(m, requests[..k], default)
      case None => None
      case Some(l) =>
        match Allocate(l.rest, requests[k], default)
        case None => None
        case Some((block, rest)) => Some(Layout(l.blocks + [block], rest))
  }

  // ----- soundness of every layout -----

  ghost predicate Sound(m: Memory, requests: seq<Request>, default: Alignment, l: Layout) {
    && |l.blocks| == |requests|
    && End(l.rest) == End(m) && m.offset <= l.rest.offset
    && (forall i | 0 <= i < |l.blocks| ::
          && l.blocks[i].size == requests[i].size
          && l.blocks[i].offset % AlignmentOf(requests[i], default) == 0
          && m.offset <= l.blocks[i].offset && End(l.blocks[i]) <= l.rest.offset)
    && (forall i, j | 0 <= i < j < |l.blocks| :: End(l.blocks[i]) <= l.blocks[j].offset)
  }

  /** The blocks are aligned, as large as asked, in order, pairwise disjoint and inside the region. */
  lemma {:induction false} LayoutSound(m: Memory, requests: seq<Request>, default: Alignment)
    ensures var l := AllocateAll(m, requests, default); l.Some? ==> Sound(m, requests, default, l.value)
  {
    if requests != [] && AllocateAll(m, requests, default).Some? {
      LayoutSound(m, requests[..|requests| - 1], default);
    }
  }

  /** A block is aligned to what its binary asks for, else to the platform's default. */
  lemma BlockAlignment(m: Memory, requests: seq<Request>, default: Alignment, i: nat)
    requires AllocateAll(m, requests, default).Some? && i < |requests|
    ensures var l := AllocateAll(m, requests, default).value;
            && i < |l.blocks| && l.blocks[i].size == requests[i].size
            && (requests[i].alignment.None? ==> l.blocks[i].offset % default == 0)
            && (requests[i].alignment.Some? ==> l.blocks[i].offset % requests[i].alignment.value == 0)
  {
    LayoutSound(m, requests, default);
  }

  /** No more is skipped than it takes: a block starts less than its alignment past the end of
      the one before it. */
  lemma {:induction false} BlockTight(m: Memory, requests: seq<Request>, default: Alignment, i: nat)
    requires AllocateAll(m, requests, default).Some? && i < |requests|
    ensures var l := AllocateAll(m, requests, default).value;
            && |l.blocks| == |requests|
            && Tight(m, l.blocks, i, AlignmentOf(requests[i], default))
  {
    var k := |requests| - 1;
    var l := AllocateAll(m, requests[..k], default).value;
    LayoutSound(m, requests[..k], default);
    if i < k {
      BlockTight(m, requests[..k], default, i);
      TightKept(m, l.blocks, AllocateAll(m, requests, default).value.blocks, i, AlignmentOf(requests[i], default));
    } else {
      assert requests[..k] == [] ==> l == Layout([], m);
      if k > 0 { AllocatedLast(m, requests[..k], default); }
    }
  }

  ghost predicate Tight(m: Memory, blocks: seq<Memory>, i: nat, alignment: Alignment) {
    && i < |blocks|
    && var before := if i == 0 then m.offset else End(blocks[i - 1]);
    before <= blocks[i].offset < before + alignment
  }

  lemma TightKept(m: Memory, blocks: seq<Memory>, more: seq<Memory>, i: nat, alignment: Alignment)
    requires blocks <= more && Tight(m, blocks, i, alignment)
    ensures Tight(m, more, i, alignment)
  {
  }

  function BlockBytes(blocks: seq<Memory>): nat {
    if blocks == [] then 0 else BlockBytes(blocks[..|blocks| - 1]) + blocks[|blocks| - 1].size
  }

  /** The bytes between consecutive blocks, the first counted from `from`. */
  function Gaps(from: nat, blocks: seq<Memory>): int {
    if blocks == [] then 0
    else
      var k := |blocks| - 1;
      Gaps(from, blocks[..k]) + blocks[k].offset - if k == 0 then from else End(blocks[k - 1])
  }

  lemma AllocatedLast(m: Memory, requests: seq<Request>, default: Alignment)
    requires requests != [] && AllocateAll(m, requests, default).Some?
    ensures var l := AllocateAll(m, requests, default).value;
            |l.blocks| == |requests| && End(l.blocks[|requests| - 1]) == l.rest.offset
  {
    LayoutSound(m, requests[..|requests| - 1], default);
  }

  /** Nothing is lost: blocks, padding and remainder add up to the region. */
  lemma {:induction false} BytesConserved(m: Memory, requests: seq<Request>, default: Alignment)
    requires AllocateAll(m, requests, default).Some?
    ensures var l := AllocateAll(m, requests, default).value;
            && BlockBytes(l.blocks) + Gaps(m.offset, l.blocks) + l.rest.size == m.size
            && 0 <= Gaps(m.offset, l.blocks)
  {
    if requests != [] {
      var k := |requests| - 1;
      var front := AllocateAll(m, requests[..k], default).value;
      var l := AllocateAll(m, requests, default).value;
      BytesConserved(m, requests[..k], default);
      LayoutSound(m, requests[..k], default);
      if k > 0 { AllocatedLast(m, requests[..k], default); }
      assert l.blocks[..k] == front.blocks;
    }
  }

  // ----- when allocation succeeds -----

  /** Where the last block would end. */
  function Needed(offset: nat, requests: seq<Request>, default: Alignment): nat {
    if requests == [] then offset
    else
      var k := |requests| - 1;
      var at := Needed(offset, requests[..k], default);
      at + Padding(at, AlignmentOf(requests[k], default)) + requests[k].size
  }

  /** All requests are met exactly when the last one ends inside the region. */
  lemma {:induction false} AllocatesIff(m: Memory, requests: seq<Request>, default: Alignment)
    ensures AllocateAll(m, requests, default).Some? <==> Needed(m.offset, requests, default) <= End(m)
    ensures var l := AllocateAll(m, requests, default);
            l.Some? ==> l.value.rest.offset == Needed(m.offset, requests, default) && End(l.value.rest) == End(m)
  {
    if requests != [] { AllocatesIff(m, requests[..|requests| - 1], default); }
  }

  // ----- reserve_itcm -----

  /** The offset moves up; the size is kept. */
  function Reserve(m: Memory, n: nat): Option<Memory> {
    if m.size <= n then None else Some(Memory(m.offset + n, m.size))
  }

  /** After a reservation, allocation succeeds with every block inside the original region
      exactly when the layout from the moved offset ends inside it. */
  lemma ReserveFitsIff(m: Memory, n: nat, requests: seq<Request>, default: Alignment)
    requires n < m.size
    ensures var l := AllocateAll(Reserve(m, n).value, requests, default);
            (l.Some? && forall i | 0 <= i < |l.value.blocks| :: End(l.value.blocks[i]) <= End(m))
            <==> Needed(m.offset + n, requests, default) <= End(m)
  {
    var r := Reserve(m, n).value;
    AllocatesIff(r, requests, default);
    LayoutSound(r, requests, default);
    if requests != [] && AllocateAll(r, requests, default).Some? {
      AllocatedLast(r, requests, default);
    }
  }

  lemma OneRequest(m: Memory, requests: seq<Request>, d: Alignment)
    requires |requests| == 1 && Padding(m.offset, AlignmentOf(requests[0], d)) == 0 && requests[0].size <= m.size
    ensures var l := AllocateAll(m, requests, d);
            l.Some? && |l.value.blocks| == 1 && l.value.blocks[0] == Memory(m.offset, requests[0].size)
  {
    assert requests[..0] == [];
  }

  /** The overrun occurs: with a part of the memory reserved, a block of the memory's full size
      is still handed out, and ends past it by what was reserved. */
  lemma ReserveOverrun(m: Memory, n: nat, d: Alignment)
    requires 0 < n < m.size && (m.offset + n) % d == 0
    ensures var l := AllocateAll(Reserve(m, n).value, [Request(m.size, None)], d);
            l.Some? && |l.value.blocks| == 1 && End(l.value.blocks[0]) == End(m) + n
  {
    OneRequest(Reserve(m, n).value, [Request(m.size, None)], d);
  }

  // ----- the SRAM split -----

  const TOCK_ALIGNMENT: Alignment := 4096

  function NextMultiple(n: nat, a: Alignment): nat { n + Padding(n, a) }

  function TotalSize(requests: seq<Request>): nat {
    if requests == [] then 0 else TotalSize(requests[..|requests| - 1]) + requests[|requests| - 1].size
  }

  /** How much of the SRAM the instructions get. */
  function Split(mem: Memory, requests: seq<Request>): nat {
    NextMultiple(mem.offset + TotalSize(requests), TOCK_ALIGNMENT) - mem.offset
  }

  /** The split covers the unpadded sizes and ends at the first 4 KiB boundary behind them. */
  lemma SplitRounds(mem: Memory, requests: seq<Request>)
    ensures TotalSize(requests) <= Split(mem, requests) < TotalSize(requests) + 4096
    ensures (mem.offset + Split(mem, requests)) % 4096 == 0
  {
  }

  ghost predicate DefaultAligned(requests: seq<Request>, d: Alignment) {
    forall i | 0 <= i < |requests| :: requests[i].alignment.None? && requests[i].size % d == 0
  }

  lemma MultipleSum(a: nat, b: nat, d: Alignment)
    requires a % d == 0 && b % d == 0
    ensures (a + b) % d == 0
  {
    assert a == d * (a / d) && b == d * (b / d);
    DivModUnique(a + b, d, a / d + b / d, 0);
  }

  lemma {:induction false} NeededAligned(offset: nat, requests: seq<Request>, d: Alignment)
    requires DefaultAligned(requests, d) && requests != []
    ensures Needed(offset, requests, d) == offset + Padding(offset, d) + TotalSize(requests)
    ensures Needed(offset, requests, d) % d == 0
  {
    var k := |requests| - 1;
    if k == 0 {
      assert Needed(offset, requests[..0], d) == offset && TotalSize(requests[..0]) == 0;
      MultipleSum(offset + Padding(offset, d), requests[0].size, d);
    } else {
      NeededAligned(offset, requests[..k], d);
      MultipleSum(Needed(offset, requests[..k], d), requests[k].size, d);
    }
  }

  lemma MultipleOfMultiple(n: nat, d: Alignment, e: Alignment)
    requires n % e == 0 && e % d == 0
    ensures n % d == 0
  {
    var q, r := n / e, e / d;
    assert n == e * q && e == d * r;
    assert n == d * (r * q) by { Associate(d, r, q); }
    DivModUnique(n, d, r * q, 0);
  }

  lemma Associate(a: nat, b: nat, c: nat)
    ensures a * b * c == a * (b * c)
  {
  }

  lemma MonotoneProduct(d: nat, x: nat, y: nat)
    requires x <= y
    ensures d * x <= d * y
  {
  }

  lemma {:induction false} TotalAligned(requests: seq<Request>, d: Alignment)
    requires DefaultAligned(requests, d)
    ensures TotalSize(requests) % d == 0
  {
    if requests != [] {
      var k := |requests| - 1;
      TotalAligned(requests[..k], d);
      MultipleSum(TotalSize(requests[..k]), requests[k].size, d);
    }
  }

  /** With a default alignment that divides 4096, sizes in multiples of it and no alignment of
      their own, all instruction blocks fit in the split, wherever the SRAM starts. */
  lemma SplitSuffices(mem: Memory, requests: seq<Request>, d: Alignment)
    requires DefaultAligned(requests, d) && TOCK_ALIGNMENT % d == 0
    ensures AllocateAll(Memory(mem.offset, Split(mem, requests)), requests, d).Some?
  {
    var end := mem.offset + Split(mem, requests);
    AllocatesIff(Memory(mem.offset, Split(mem, requests)), requests, d);
    if requests != [] {
      NeededAligned(mem.offset, requests, d);
      TotalAligned(requests, d);
      MultipleOfMultiple(end, d, TOCK_ALIGNMENT);
      SplitAligned(mem.offset, TotalSize(requests), d, end);
    }
  }

  lemma SplitAligned(offset: nat, total: nat, d: Alignment, end: nat)
    requires total % d == 0 && end % d == 0 && offset + total <= end
    ensures offset + Padding(offset, d) + total <= end
  {
    var need := offset + Padding(offset, d) + total;
    MultipleSum(offset + Padding(offset, d), total, d);
    if end < need {
      var x, y := end / d, need / d;
      assert end == d * x && need == d * y;
      if x + 1 <= y { MonotoneProduct(d, x + 1, y); } else { MonotoneProduct(d, y, x); }
    }
  }

  /** In general the split suffices exactly when the padded layout ends before the rounded end
      of the unpadded one. */
  lemma SplitIff(mem: Memory, requests: seq<Request>, d: Alignment)
    ensures AllocateAll(Memory(mem.offset, Split(mem, requests)), requests, d).Some?
            <==> Needed(mem.offset, requests, d) <= NextMultiple(mem.offset + TotalSize(requests), TOCK_ALIGNMENT)
  {
    AllocatesIff(Memory(mem.offset, Split(mem, requests)), requests, d);
  }

  lemma TwoRequests(offset: nat, a: Request, b: Request, d: Alignment)
    ensures TotalSize([a, b]) == a.size + b.size
    ensures var at := offset + Padding(offset, AlignmentOf(a, d)) + a.size;
            Needed(offset, [a, b], d) == at + Padding(at, AlignmentOf(b, d)) + b.size
  {
    assert [a, b][..1] == [a] && [a][..0] == [];
    assert TotalSize([a]) == a.size;
    assert Needed(offset, [a], d) == offset + Padding(offset, AlignmentOf(a, d)) + a.size;
  }

  /** Sizes that are not multiples of the default alignment can overrun it: 1 and 4095 bytes,
      aligned to 8, do not fit in the 4096 bytes set aside for them. */
  lemma SplitOverrun(mem: Memory, d: Alignment, a: Request, b: Request)
    requires mem.offset == 0 && d == 8 && a == Request(1, None) && b == Request(4095, None)
    ensures Split(mem, [a, b]) == 4096
    ensures AllocateAll(Memory(0, 4096), [a, b], d).None?
  {
    TwoRequests(0, a, b, d);
    SplitIff(mem, [a, b], d);
  }

  /** The sizes the dynamic sizing pass sets always fit. */
  lemma DynamicSizesFit(mem: Memory, sizes: seq<nat>, d: Alignment)
    requires TOCK_ALIGNMENT % d == 0
    ensures var requests := seq(|sizes|, i requires 0 <= i < |sizes| =>
                                  Request(NextMultiple(sizes[i], TOCK_ALIGNMENT), None));
            AllocateAll(Memory(mem.offset, Split(mem, requests)), requests, d).Some?
  {
    var requests := seq(|sizes|, i requires 0 <= i < |sizes| =>
                          Request(NextMultiple(sizes[i], TOCK_ALIGNMENT), None));
    forall i | 0 <= i < |requests|
      ensures requests[i].alignment.None? && requests[i].size % d == 0
    {
      MultipleOfMultiple(requests[i].size, d, TOCK_ALIGNMENT);
    }
    SplitSuffices(mem, requests, d);
  }
}
