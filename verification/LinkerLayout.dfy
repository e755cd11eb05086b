/** The linker pass that threads two trackers through the kernel and its apps. */
module LinkerLayout {
  import opened Wrappers
  import opened MemoryLayout

  class Tracker {
    var offset: nat
    var size: nat

    ghost function View(): Memory
      reads this
    {
      Memory(offset, size)
    }

    constructor (m: Memory)
      ensures View() == m
    {
      offset, size := m.offset, m.size;
    }

    /** The end of the tracker never moves, so no addition leaves the address space it starts in. */
    method Consume(bytes: nat) returns (block: Option<Memory>)
      modifies this
      ensures End(View()) == old(End(View()))
      ensures block.Some? <==> bytes <= old(size)
      ensures block.Some? ==> block.value == Memory(old(offset), bytes) && View() == Advance(old(View()), bytes)
      ensures block.None? ==> View() == old(View())
    {
      if bytes <= size {
        block := Some(Memory(offset, bytes));
        offset := offset + bytes;
        size := size - bytes;
      } else {
        block := None;
      }
    }

    method GetMemBlock(r: Request, default: Alignment) returns (block: Option<Memory>)
      modifies this
      ensures var a := Allocate(old(View()), r, default);
              && (block.Some? <==> a.Some?)
              && (a.Some? ==> (block.value, View()) == a.value)
      ensures End(View()) == old(End(View()))
    {
      var alignment := AlignmentOf(r, default);
      if offset % alignment != 0 {
        var skipped := Consume(alignment - offset % alignment);
        if skipped.None? { return None; }
      }
      block := Consume(r.size);
    }
  }

  datatype Binary = Binary(exec: Request, data: Request)

  function ExecRequests(binaries: seq<Binary>): seq<Request> {
    seq(|binaries|, i requires 0 <= i < |binaries| => binaries[i].exec)
  }

  function DataRequests(binaries: seq<Binary>): seq<Request> {
    seq(|binaries|, i requires 0 <= i < |binaries| => binaries[i].data)
  }

  datatype Plan = Plan(instructions: Layout, data: Layout)

  /** Both memories laid out on their own. */
  function PlanOf(itcm: Memory, dtcm: Memory, binaries: seq<Binary>, default: Alignment): Option<Plan> {
    var i, d := AllocateAll(itcm, ExecRequests(binaries), default), AllocateAll(dtcm, DataRequests(binaries), default);
    if i.Some? && d.Some? then Some(Plan(i.value, d.value)) else None
  }

  lemma {:induction false} FailsFrom(m: Memory, requests: seq<Request>, default: Alignment, k: nat)
    requires k <= |requests| && AllocateAll(m, requests[..k], default).None?
    ensures AllocateAll(m, requests, default).None?
  {
    if k < |requests| {
      assert requests[..|requests| - 1][..k] == requests[..k];
      FailsFrom(m, requests[..|requests| - 1], default, k);
    } else {
      assert requests[..k] == requests;
    }
  }

  lemma AllocateNext(m: Memory, requests: seq<Request>, default: Alignment, k: nat)
    requires k < |requests| && AllocateAll(m, requests[..k], default).Some?
    ensures var l := AllocateAll(m, requests[..k], default).value;
            AllocateAll(m, requests[..k + 1], default)
            == match Allocate(l.rest, requests[k], default)
               case None => None
               case Some((block, rest)) => Some(Layout(l.blocks + [block], rest))
  {
    assert requests[..k + 1][..k] == requests[..k];
  }

  /** The kernel first, then each app, taking from both trackers in turn: together they lay out
      each memory as if it were alone, and fail exactly when one of the two cannot be laid out. */
  method Generate(itcm: Memory, dtcm: Memory, binaries: seq<Binary>, default: Alignment) returns (plan: Option<Plan>)
    ensures plan == PlanOf(itcm, dtcm, binaries, default)
  {
    var instructions := new Tracker(itcm);
    var data := new Tracker(dtcm);
    var execBlocks: seq<Memory>, dataBlocks: seq<Memory> := [], [];
    ghost var execs, datas := ExecRequests(binaries), DataRequests(binaries);
    for k := 0 to |binaries|
      invariant fresh(instructions) && fresh(data) && instructions != data
      invariant AllocateAll(itcm, execs[..k], default) == Some(Layout(execBlocks, instructions.View()))
      invariant AllocateAll(dtcm, datas[..k], default) == Some(Layout(dataBlocks, data.View()))
    {
      AllocateNext(itcm, execs, default, k);
      AllocateNext(dtcm, datas, default, k);
      var block := instructions.GetMemBlock(binaries[k].exec, default);
      if block.None? {
        FailsFrom(itcm, execs, default, k + 1);
        return None;
      }
      execBlocks := execBlocks + [block.value];
      block := data.GetMemBlock(binaries[k].data, default);
      if block.None? {
        FailsFrom(dtcm, datas, default, k + 1);
        return None;
      }
      dataBlocks := dataBlocks + [block.value];
    }
    assert execs[..|binaries|] == execs && datas[..|binaries|] == datas;
    plan := Some(Plan(Layout(execBlocks, Memory(instructions.offset, instructions.size)),
                      Layout(dataBlocks, Memory(data.offset, data.size))));
  }

  /** The unpadded instruction sizes of the runtime and its apps. */
  method TotalExec(binaries: seq<Binary>) returns (total: nat)
    ensures total == TotalSize(ExecRequests(binaries))
  {
    total := 0;
    ghost var execs := ExecRequests(binaries);
    for k := 0 to |binaries|
      invariant total == TotalSize(execs[..k])
    {
      assert execs[..k + 1][..k] == execs[..k];
      total := total + binaries[k].exec.size;
    }
    assert execs[..|binaries|] == execs;
  }

  /** SRAM platforms: the split is taken from the front, the data gets what remains. */
  method GenerateInSram(mem: Memory, binaries: seq<Binary>, default: Alignment) returns (plan: Option<Plan>)
    ensures plan == var split := Split(mem, ExecRequests(binaries));
                    if split > mem.size then None
                    else PlanOf(Memory(mem.offset, split), Advance(mem, split), binaries, default)
  {
    var total := TotalExec(binaries);
    var split := NextMultiple(mem.offset + total, TOCK_ALIGNMENT) - mem.offset;
    var tracker := new Tracker(mem);
    var instructions := tracker.Consume(split);
    assert split == Split(mem, ExecRequests(binaries));
    if instructions.None? { return None; }
    assert tracker.View() == Advance(mem, split);
    plan := Generate(instructions.value, Memory(tracker.offset, tracker.size), binaries, default);
  }

  /** Binary i gets its instruction block from one memory and its data block from the other. */
  lemma PlanBlocks(itcm: Memory, dtcm: Memory, binaries: seq<Binary>, default: Alignment, i: nat)
    requires PlanOf(itcm, dtcm, binaries, default).Some? && i < |binaries|
    ensures var plan := PlanOf(itcm, dtcm, binaries, default).value;
            && i < |plan.instructions.blocks| && i < |plan.data.blocks|
            && plan.instructions.blocks[i].size == binaries[i].exec.size
            && plan.data.blocks[i].size == binaries[i].data.size
            && itcm.offset <= plan.instructions.blocks[i].offset && End(plan.instructions.blocks[i]) <= End(itcm)
            && dtcm.offset <= plan.data.blocks[i].offset && End(plan.data.blocks[i]) <= End(dtcm)
  {
    LayoutSound(itcm, ExecRequests(binaries), default);
    LayoutSound(dtcm, DataRequests(binaries), default);
  }

  /** Instructions and data never overlap on an SRAM platform, and both stay inside it. */
  lemma SramSeparates(mem: Memory, binaries: seq<Binary>, default: Alignment, i: nat, j: nat)
    requires var split := Split(mem, ExecRequests(binaries));
             split <= mem.size && PlanOf(Memory(mem.offset, split), Advance(mem, split), binaries, default).Some?
    requires i < |binaries| && j < |binaries|
    ensures var split := Split(mem, ExecRequests(binaries));
            var plan := PlanOf(Memory(mem.offset, split), Advance(mem, split), binaries, default).value;
            && |plan.instructions.blocks| == |plan.data.blocks| == |binaries|
            && mem.offset <= plan.instructions.blocks[i].offset
            && End(plan.instructions.blocks[i]) <= plan.data.blocks[j].offset
            && End(plan.data.blocks[j]) <= End(mem)
  {
    var split := Split(mem, ExecRequests(binaries));
    LayoutSound(Memory(mem.offset, split), ExecRequests(binaries), default);
    LayoutSound(Advance(mem, split), DataRequests(binaries), default);
  }
}
