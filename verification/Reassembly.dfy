/**
 Packet reassembly of the ROM's I3C mailbox (rom/src/i3c_mailbox.rs) on values: one call
 of `Receive` is one poll of the receive queue.
 */
module Reassembly {
  import opened Words
  import opened Wrappers

  const MAX_RX_WORDS := 64
  const PACKET_HEADER_SIZE := 4
  const MAX_REASSEMBLY_WORDS := 2048
  const MAX_REASSEMBLY_BYTES := 8192

  /** One read of the queue: the descriptor's length and the words the data port yields. */
  datatype Packet = Packet(dataLen: nat, port: seq<u32>)

  /** The receive buffer: as many port words as the length announces, zero after that. */
  function RxWord(p: Packet, i: nat): u32 {
    if i < |p.port| && i < Min((p.dataLen + 3) / 4, MAX_RX_WORDS) then p.port[i] else 0
  }

  function Header(p: Packet, k: nat): byte
    requires k < 4
  {
    ByteOf(RxWord(p, 0), k)
  }

  function Cmd(p: Packet): byte { Header(p, 0) }

  function Seq(p: Packet): byte { Header(p, 2) }

  function Total(p: Packet): byte { Header(p, 3) }

  /** Payload bytes this packet contributes. */
  function CopyBytes(p: Packet): nat
    requires p.dataLen >= PACKET_HEADER_SIZE
  {
    Min(p.dataLen - PACKET_HEADER_SIZE, Header(p, 1))
  }

  type Buffer = b: seq<u32> | |b| == MAX_REASSEMBLY_WORDS witness seq(2048, _ => 0)

  function ZeroBuffer(): Buffer { seq(MAX_REASSEMBLY_WORDS, _ => 0) }

  datatype State = State(buf: Buffer, len: nat, cmd: byte, total: byte, nextSeq: nat)

  function Zeroized(): State { State(ZeroBuffer(), 0, 0, 0, 0) }

  /** copy_payload_words: `n` words of the packet, after its header, from word `at` on. */
  function Copied(buf: Buffer, p: Packet, at: nat, n: nat): Buffer {
    seq(MAX_REASSEMBLY_WORDS, d requires 0 <= d < MAX_REASSEMBLY_WORDS => CopiedWord(buf, p, at, n, d))
  }

  function CopiedWord(buf: Buffer, p: Packet, at: nat, n: nat, d: nat): u32
    requires d < MAX_REASSEMBLY_WORDS
  {
    if at <= d < at + n && 1 + d - at < MAX_RX_WORDS then RxWord(p, 1 + d - at) else buf[d]
  }

  function Loaded(p: Packet, cmd: byte, total: byte, nextSeq: nat): State
    requires p.dataLen >= PACKET_HEADER_SIZE
  {
    State(Copied(ZeroBuffer(), p, 0, (CopyBytes(p) + 3) / 4), Min(CopyBytes(p), MAX_REASSEMBLY_BYTES),
          cmd, total, nextSeq)
  }

  function Appended(st: State, p: Packet): State
    requires p.dataLen >= PACKET_HEADER_SIZE && st.len <= MAX_REASSEMBLY_BYTES
  {
    var n := Min(CopyBytes(p), MAX_REASSEMBLY_BYTES - st.len);
    st.(buf := Copied(st.buf, p, st.len / 4, (n + 3) / 4), len := st.len + n, nextSeq := st.nextSeq + 1)
  }

  predicate Continues(st: State, p: Packet) {
    Seq(p) == st.nextSeq && Cmd(p) == st.cmd && Total(p) == st.total
  }

  type Output = Option<(byte, nat)>

  /** Deliver the command if the last packet has arrived. */
  function Finish(st: State): (State, Output) {
    if st.nextSeq == st.total then (st.(nextSeq := 0, total := 0), Some((st.cmd, st.len))) else (st, None)
  }

  function Receive(st: State, p: Packet): (State, Output)
    requires st.len <= MAX_REASSEMBLY_BYTES
  {
    if p.dataLen == 0 then (st, None)
    else if p.dataLen < PACKET_HEADER_SIZE || Total(p) == 0 then (Zeroized(), None)
    else if Total(p) == 1 then
      (Loaded(p, 0, 0, 0), Some((Cmd(p), Min(CopyBytes(p), MAX_REASSEMBLY_BYTES))))
    else if Seq(p) == 0 then Finish(Loaded(p, Cmd(p), Total(p), 1))
    else if Continues(st, p) then Finish(Appended(st, p))
    else (Zeroized(), None)
  }

  /** Between polls: nothing in progress, or some but not all packets received. */
  predicate Good(st: State) {
    st.len <= MAX_REASSEMBLY_BYTES && ((st.nextSeq == 0 && st.total == 0) || 1 <= st.nextSeq < st.total)
  }

  lemma ReceiveKeepsGood(st: State, p: Packet)
    requires Good(st)
    ensures Good(Receive(st, p).0)
  {
  }

  /** The state after polling `ps`; the main loop clears it after each delivered command. */
  function Stream(st: State, ps: seq<Packet>): (r: State)
    requires Good(st)
    ensures Good(r)
  {
    if ps == [] then st
    else
      var before := Stream(st, ps[..|ps| - 1]);
      ReceiveKeepsGood(before, ps[|ps| - 1]);
      var (after, out) := Receive(before, ps[|ps| - 1]);
      if out.Some? then Zeroized() else after
  }

  // ----- every delivered command was sent, packet by packet -----

  function NonEmpty(ps: seq<Packet>): seq<Packet> {
    if ps == [] then []
    else
      var rest := NonEmpty(ps[..|ps| - 1]);
      if ps[|ps| - 1].dataLen == 0 then rest else rest + [ps[|ps| - 1]]
  }

  /** Packets numbered 0, 1, 2, ... of one command. */
  predicate InOrder(ps: seq<Packet>, cmd: byte, total: byte) {
    forall i | 0 <= i < |ps| ::
      ps[i].dataLen >= PACKET_HEADER_SIZE && Cmd(ps[i]) == cmd && Seq(ps[i]) == i && Total(ps[i]) == total
  }

  function SumBytes(ps: seq<Packet>): nat
    requires forall i | 0 <= i < |ps| :: ps[i].dataLen >= PACKET_HEADER_SIZE
  {
    if ps == [] then 0 else SumBytes(ps[..|ps| - 1]) + CopyBytes(ps[|ps| - 1])
  }

  function Last<T>(s: seq<T>, n: nat): seq<T>
    requires n <= |s|
  {
    s[|s| - n..]
  }

  /** What a state in progress remembers of the packets behind it. */
  predicate Tracks(st: State, h: seq<Packet>) {
    && st.nextSeq <= |h|
    && InOrder(Last(h, st.nextSeq), st.cmd, st.total)
    && st.len == Min(SumBytes(Last(h, st.nextSeq)), MAX_REASSEMBLY_BYTES)
  }

  lemma LastSnoc<T>(h: seq<T>, p: T, n: nat)
    requires n <= |h|
    ensures Last(h + [p], n + 1) == Last(h, n) + [p]
  {
  }

  lemma TrackOpen(h: seq<Packet>, p: Packet)
    requires p.dataLen >= PACKET_HEADER_SIZE && Seq(p) == 0
    ensures Tracks(Loaded(p, Cmd(p), Total(p), 1), h + [p])
  {
    assert Last(h + [p], 1) == [p] && [p][..0] == [];
    assert SumBytes([p]) == SumBytes([]) + CopyBytes(p);
  }

  lemma TrackExtend(st: State, h: seq<Packet>, p: Packet)
    requires Good(st) && Tracks(st, h)
    requires p.dataLen >= PACKET_HEADER_SIZE && Continues(st, p)
    ensures Tracks(Appended(st, p), h + [p])
  {
    LastSnoc(h, p, st.nextSeq);
    RunSnoc(Last(h, st.nextSeq), p, st.cmd, st.total);
  }

  lemma RunSnoc(run: seq<Packet>, p: Packet, cmd: byte, total: byte)
    requires InOrder(run, cmd, total)
    requires p.dataLen >= PACKET_HEADER_SIZE && Cmd(p) == cmd && Seq(p) == |run| && Total(p) == total
    ensures InOrder(run + [p], cmd, total)
    ensures SumBytes(run + [p]) == SumBytes(run) + CopyBytes(p)
  {
    assert (run + [p])[..|run|] == run;
  }

  /** A packet that opens or extends a run is tracked too. */
  lemma TrackStep(st: State, h: seq<Packet>, p: Packet)
    requires Good(st) && (st.nextSeq > 0 ==> Tracks(st, h))
    requires p.dataLen >= PACKET_HEADER_SIZE && Total(p) > 1
    ensures Seq(p) == 0 ==> Tracks(Loaded(p, Cmd(p), Total(p), 1), h + [p])
    ensures Seq(p) != 0 && Continues(st, p) ==> Tracks(Appended(st, p), h + [p])
  {
    if Seq(p) == 0 {
      TrackOpen(h, p);
    } else if Continues(st, p) {
      TrackExtend(st, h, p);
    }
  }

  lemma {:induction false} StreamTracks(ps: seq<Packet>)
    ensures var st := Stream(Zeroized(), ps);
            st.nextSeq > 0 ==> Tracks(st, NonEmpty(ps))
  {
    if ps != [] {
      var init, p := ps[..|ps| - 1], ps[|ps| - 1];
      StreamTracks(init);
      if p.dataLen >= PACKET_HEADER_SIZE && Total(p) > 1 {
        TrackStep(Stream(Zeroized(), init), NonEmpty(init), p);
      }
    }
  }

  /** A multi-packet command is delivered only when its packets 0 .. total-1, same command
      and total, were the last non-empty reads; its length is theirs, up to the capacity. */
  lemma DeliveredWasSent(ps: seq<Packet>, p: Packet)
    requires Receive(Stream(Zeroized(), ps), p).1.Some? && Total(p) > 1
    ensures var out := Receive(Stream(Zeroized(), ps), p).1.value;
            var h := NonEmpty(ps + [p]);
            && |h| >= Total(p)
            && InOrder(Last(h, Total(p)), out.0, Total(p))
            && out.1 == Min(SumBytes(Last(h, Total(p))), MAX_REASSEMBLY_BYTES)
  {
    var st := Stream(Zeroized(), ps);
    StreamTracks(ps);
    TrackStep(st, NonEmpty(ps), p);
    assert (ps + [p])[..|ps|] == ps;
    assert NonEmpty(ps + [p]) == NonEmpty(ps) + [p];
  }

  // ----- every command sent in order is delivered -----

  /** The packet carries `chunk` as number i of n; what follows the chunk is arbitrary. */
  predicate Carries(p: Packet, cmd: byte, chunk: seq<byte>, i: nat, n: nat) {
    && |chunk| <= 4 * (MAX_RX_WORDS - 1)
    && p.dataLen >= PACKET_HEADER_SIZE + |chunk|
    && Cmd(p) == cmd && Header(p, 1) == |chunk| && Seq(p) == i && Total(p) == n
    && forall k | 0 <= k < |chunk| :: ByteOf(RxWord(p, 1 + k / 4), k % 4) == chunk[k]
  }

  function Flatten(chunks: seq<seq<byte>>): seq<byte> {
    if chunks == [] then [] else Flatten(chunks[..|chunks| - 1]) + chunks[|chunks| - 1]
  }

  predicate HoldsBytes(buf: Buffer, bs: seq<byte>) {
    |bs| <= MAX_REASSEMBLY_BYTES && forall k | 0 <= k < |bs| :: ByteAt(buf, k) == bs[k]
  }

  /** Copying a chunk to a word boundary extends the bytes held. */
  lemma CopyExtends(buf: Buffer, bs: seq<byte>, p: Packet, cmd: byte, chunk: seq<byte>, i: nat, n: nat)
    requires HoldsBytes(buf, bs) && |bs| % 4 == 0 && |bs + chunk| <= MAX_REASSEMBLY_BYTES
    requires Carries(p, cmd, chunk, i, n)
    ensures HoldsBytes(Copied(buf, p, |bs| / 4, (|chunk| + 3) / 4), bs + chunk)
  {
    var at := |bs| / 4;
    var buf' := Copied(buf, p, at, (|chunk| + 3) / 4);
    forall k | 0 <= k < |bs + chunk|
      ensures ByteAt(buf', k) == (bs + chunk)[k]
    {
      if k < |bs| {
        assert k / 4 < at;
        assert ByteAt(buf, k) == bs[k];
      } else {
        var j := k - |bs|;
        assert k / 4 == at + j / 4 && k % 4 == j % 4;
        assert buf'[k / 4] == RxWord(p, 1 + j / 4);
      }
    }
  }

  /** A command split into in-order packets, every chunk but the last a whole number of words. */
  predicate Sent(ps: seq<Packet>, cmd: byte, chunks: seq<seq<byte>>) {
    && 1 <= |chunks| <= 255 && |ps| == |chunks|
    && |Flatten(chunks)| <= MAX_REASSEMBLY_BYTES
    && (forall i | 0 <= i < |chunks| - 1 :: |chunks[i]| % 4 == 0)
    && forall i | 0 <= i < |ps| :: Carries(ps[i], cmd, chunks[i], i, |ps|)
  }

  lemma {:induction false} FlattenPrefix(chunks: seq<seq<byte>>, i: nat)
    requires i <= |chunks|
    ensures |Flatten(chunks[..i])| <= |Flatten(chunks)|
  {
    if i < |chunks| {
      FlattenPrefix(chunks[..|chunks| - 1], i);
      assert chunks[..|chunks| - 1][..i] == chunks[..i];
    } else {
      assert chunks[..i] == chunks;
    }
  }

  lemma FlattenSnoc(chunks: seq<seq<byte>>, i: nat)
    requires i < |chunks|
    ensures Flatten(chunks[..i + 1]) == Flatten(chunks[..i]) + chunks[i]
  {
    assert chunks[..i + 1][..i] == chunks[..i];
  }

  lemma {:induction false} FlattenAligned(chunks: seq<seq<byte>>, i: nat)
    requires i < |chunks| && forall j | 0 <= j < |chunks| - 1 :: |chunks[j]| % 4 == 0
    ensures |Flatten(chunks[..i])| % 4 == 0
  {
    if i > 0 {
      FlattenAligned(chunks, i - 1);
      FlattenSnoc(chunks, i - 1);
    }
  }

  /** What the state holds once the first i packets of a command have arrived. */
  predicate Holding(st: State, cmd: byte, chunks: seq<seq<byte>>, i: nat, n: nat)
    requires i <= |chunks|
  {
    && st.cmd == cmd && st.nextSeq == i && st.total == n
    && st.len == |Flatten(chunks[..i])|
    && HoldsBytes(st.buf, Flatten(chunks[..i]))
  }

  /** Taking in packet i, before the check whether it was the last. */
  function Taken(st: State, p: Packet): State
    requires Good(st) && p.dataLen >= PACKET_HEADER_SIZE
  {
    if Seq(p) == 0 then Loaded(p, Cmd(p), Total(p), 1) else Appended(st, p)
  }

  lemma TakeNext(st: State, ps: seq<Packet>, cmd: byte, chunks: seq<seq<byte>>, i: nat)
    requires Sent(ps, cmd, chunks) && i < |ps| && Good(st)
    requires i > 0 ==> Holding(st, cmd, chunks, i, |ps|)
    ensures Holding(Taken(st, ps[i]), cmd, chunks, i + 1, |ps|)
  {
    var bs := Flatten(chunks[..i]);
    FlattenSnoc(chunks, i);
    FlattenPrefix(chunks, i + 1);
    FlattenAligned(chunks, i);
    assert Carries(ps[i], cmd, chunks[i], i, |ps|);
    var buf := if i == 0 then ZeroBuffer() else st.buf;
    CopyExtends(buf, bs, ps[i], cmd, chunks[i], i, |ps|);
  }

  /** One packet of a command in order: the state it leads to and what it delivers. */
  lemma ReceiveNext(st: State, ps: seq<Packet>, cmd: byte, chunks: seq<seq<byte>>, i: nat)
    requires Sent(ps, cmd, chunks) && i < |ps| && Good(st)
    requires i > 0 ==> Holding(st, cmd, chunks, i, |ps|)
    ensures var (after, out) := Receive(st, ps[i]);
            if i + 1 < |ps| then out == None && Holding(after, cmd, chunks, i + 1, |ps|)
            else out == Some((cmd, |Flatten(chunks)|)) && HoldsBytes(after.buf, Flatten(chunks))
  {
    assert Carries(ps[i], cmd, chunks[i], i, |ps|);
    TakeNext(st, ps, cmd, chunks, i);
    if i + 1 == |ps| { assert chunks[..i + 1] == chunks; }
    if |ps| > 1 {
      assert Receive(st, ps[i]) == Finish(Taken(st, ps[i]));
    }
  }

  lemma StreamStep(st: State, ps: seq<Packet>, i: nat)
    requires Good(st) && i < |ps|
    ensures var (after, out) := Receive(Stream(st, ps[..i]), ps[i]);
            Stream(st, ps[..i + 1]) == if out.Some? then Zeroized() else after
  {
    assert ps[..i + 1][..i] == ps[..i];
  }

  lemma {:induction false} StreamHolds(st: State, ps: seq<Packet>, cmd: byte, chunks: seq<seq<byte>>, i: nat)
    requires Good(st) && Sent(ps, cmd, chunks) && i < |ps|
    ensures i > 0 ==> Holding(Stream(st, ps[..i]), cmd, chunks, i, |ps|)
  {
    if i > 0 {
      var before := Stream(st, ps[..i - 1]);
      StreamHolds(st, ps, cmd, chunks, i - 1);
      ReceiveNext(before, ps, cmd, chunks, i - 1);
      StreamStep(st, ps, i - 1);
      assert Stream(st, ps[..i]) == Receive(before, ps[i - 1]).0;
    }
  }

  /** An empty read changes nothing: only the packets behind the polls matter. */
  lemma {:induction false} EmptyReads(st: State, polls: seq<Packet>)
    requires Good(st)
    ensures Stream(st, polls) == Stream(st, NonEmpty(polls))
  {
    if polls != [] {
      var init, p := polls[..|polls| - 1], polls[|polls| - 1];
      EmptyReads(st, init);
      if p.dataLen != 0 {
        assert NonEmpty(polls)[..|NonEmpty(init)|] == NonEmpty(init);
      }
    }
  }

  /** The packets behind a prefix of the polls are a prefix of the packets. */
  lemma {:induction false} NonEmptyPrefix(polls: seq<Packet>, i: nat)
    requires i <= |polls|
    ensures NonEmpty(polls[..i]) <= NonEmpty(polls)
    ensures i < |polls| && polls[i].dataLen != 0 ==>
              && |NonEmpty(polls[..i])| < |NonEmpty(polls)|
              && NonEmpty(polls)[|NonEmpty(polls[..i])|] == polls[i]
  {
    var k := |polls| - 1;
    if i == |polls| {
      assert polls[..i] == polls;
    } else {
      assert polls[..k][..i] == polls[..i];
      NonEmptyPrefix(polls[..k], i);
    }
  }

  lemma DeliveredOnce(st: State, ps: seq<Packet>, cmd: byte, chunks: seq<seq<byte>>, i: nat)
    requires Good(st) && Sent(ps, cmd, chunks) && i < |ps|
    ensures var (after, out) := Receive(Stream(st, ps[..i]), ps[i]);
            if i + 1 < |ps| then out == None
            else out == Some((cmd, |Flatten(chunks)|)) && HoldsBytes(after.buf, Flatten(chunks))
  {
    StreamHolds(st, ps, cmd, chunks, i);
    ReceiveNext(Stream(st, ps[..i]), ps, cmd, chunks, i);
  }

  lemma PollDelivers(st: State, polls: seq<Packet>, cmd: byte, chunks: seq<seq<byte>>, i: nat)
    requires Good(st) && Sent(NonEmpty(polls), cmd, chunks) && i < |polls|
    ensures var (after, out) := Receive(Stream(st, polls[..i]), polls[i]);
            if polls[i].dataLen == 0 || |NonEmpty(polls[..i])| + 1 < |NonEmpty(polls)| then out == None
            else out == Some((cmd, |Flatten(chunks)|)) && HoldsBytes(after.buf, Flatten(chunks))
  {
    if polls[i].dataLen != 0 {
      EmptyReads(st, polls[..i]);
      NonEmptyPrefix(polls, i);
      var j := |NonEmpty(polls[..i])|;
      assert NonEmpty(polls)[..j] == NonEmpty(polls[..i]);
      DeliveredOnce(st, NonEmpty(polls), cmd, chunks, j);
    }
  }

  lemma NotTheLast(polls: seq<Packet>, i: nat)
    requires i < |polls| - 1 && polls[i].dataLen != 0 && polls[|polls| - 1].dataLen != 0
    ensures |NonEmpty(polls[..i])| + 1 < |NonEmpty(polls)|
  {
    var k := |polls| - 1;
    NonEmptyPrefix(polls[..k], i);
    assert polls[..k][..i] == polls[..i];
  }

  /** From any state of the handler, with any number of empty reads between its packets, the
      poll that reads the last packet of a command, and no earlier one, delivers it, and the
      buffer then starts with exactly the bytes that were sent. */
  lemma RoundTrip(st: State, polls: seq<Packet>, cmd: byte, chunks: seq<seq<byte>>)
    requires Good(st) && Sent(NonEmpty(polls), cmd, chunks) && polls[|polls| - 1].dataLen != 0
    ensures forall i | 0 <= i < |polls| - 1 :: Receive(Stream(st, polls[..i]), polls[i]).1 == None
    ensures var (after, out) := Receive(Stream(st, polls[..|polls| - 1]), polls[|polls| - 1]);
            out == Some((cmd, |Flatten(chunks)|)) && HoldsBytes(after.buf, Flatten(chunks))
  {
    var k := |polls| - 1;
    forall i | 0 <= i < k
      ensures Receive(Stream(st, polls[..i]), polls[i]).1 == None
    {
      PollDelivers(st, polls, cmd, chunks, i);
      if polls[i].dataLen != 0 { NotTheLast(polls, i); }
    }
    NonEmptyPrefix(polls, k);
    PollDelivers(st, polls, cmd, chunks, k);
  }

  // ----- packets as bytes on the wire -----

  function ByteOr0(bytes: seq<byte>, k: nat): byte { if k < |bytes| then bytes[k] else 0 }

  function WordOf(bytes: seq<byte>, at: nat): u32 {
    FromBytes(ByteOr0(bytes, at), ByteOr0(bytes, at + 1), ByteOr0(bytes, at + 2), ByteOr0(bytes, at + 3))
  }

  /** What a private write of these bytes looks like at the data port: little-endian words. */
  function Wire(bytes: seq<byte>): Packet {
    Packet(|bytes|, seq((|bytes| + 3) / 4, j requires j >= 0 => WordOf(bytes, 4 * j)))
  }

  lemma WireByte(bytes: seq<byte>, j: nat, k: nat)
    requires k < 4 && 4 * j + k < |bytes| <= 4 * MAX_RX_WORDS
    ensures ByteOf(RxWord(Wire(bytes), j), k) == bytes[4 * j + k]
  {
    var at := 4 * j;
    BytesRoundTrip(ByteOr0(bytes, at), ByteOr0(bytes, at + 1), ByteOr0(bytes, at + 2), ByteOr0(bytes, at + 3));
  }

  /** Command, length, number, total, then the payload; whatever follows is not part of it. */
  function PacketBytes(cmd: byte, i: byte, n: byte, chunk: seq<byte>, tail: seq<byte>): seq<byte>
    requires |chunk| < 0x100
  {
    [cmd, |chunk|, i, n] + chunk + tail
  }

  lemma WireCarries(cmd: byte, i: byte, n: byte, chunk: seq<byte>, tail: seq<byte>)
    requires 4 + |chunk| + |tail| <= 256
    ensures Carries(Wire(PacketBytes(cmd, i, n, chunk, tail)), cmd, chunk, i, n)
  {
    var bytes := PacketBytes(cmd, i, n, chunk, tail);
    WireByte(bytes, 0, 0);
    WireByte(bytes, 0, 1);
    WireByte(bytes, 0, 2);
    WireByte(bytes, 0, 3);
    var p := Wire(bytes);
    forall k | 0 <= k < |chunk|
      ensures ByteOf(RxWord(p, 1 + k / 4), k % 4) == chunk[k]
    {
      WireByte(bytes, 1 + k / 4, k % 4);
      assert 4 * (1 + k / 4) + k % 4 == 4 + k;
    }
  }

  /** From the bytes on the wire to the command: packets of at most 248 payload bytes, all but
      the last a multiple of four, in order, with empty reads anywhere in between. */
  lemma WireRoundTrip(
    st: State, polls: seq<Packet>, cmd: byte, chunks: seq<seq<byte>>, tails: seq<seq<byte>>)
    requires Good(st) && 1 <= |chunks| <= 255 && |tails| == |chunks| && |Flatten(chunks)| <= 8192
    requires forall i | 0 <= i < |chunks| :: |chunks[i]| <= 248 && |tails[i]| <= 4
    requires forall i | 0 <= i < |chunks| - 1 :: |chunks[i]| % 4 == 0
    requires NonEmpty(polls)
          == seq(|chunks|, i requires 0 <= i < |chunks| => Wire(PacketBytes(cmd, i, |chunks|, chunks[i], tails[i])))
    requires polls != [] && polls[|polls| - 1].dataLen != 0
    ensures forall i | 0 <= i < |polls| - 1 :: Receive(Stream(st, polls[..i]), polls[i]).1 == None
    ensures var (after, out) := Receive(Stream(st, polls[..|polls| - 1]), polls[|polls| - 1]);
            out == Some((cmd, |Flatten(chunks)|)) && HoldsBytes(after.buf, Flatten(chunks))
  {
    var ps := NonEmpty(polls);
    forall i | 0 <= i < |ps|
      ensures Carries(ps[i], cmd, chunks[i], i, |ps|)
    {
      WireCarries(cmd, i, |chunks|, chunks[i], tails[i]);
    }
    RoundTrip(st, polls, cmd, chunks);
  }
}
