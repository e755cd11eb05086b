/**
 The I3C mailbox handler as the ROM runs it: fields and a word buffer updated in place.
 Its methods are proved against modules Reassembly and Session; `Serve` puts both
 together, from packets on the wire to the fuses and the flash.
 */
module Mailbox {
  import opened Words
  import opened Wrappers
  import opened Reassembly
  import Session
  import Dot
  import DotDevice

  type Bytes = Session.Bytes

  /** The first `len` bytes of the buffer. */
  ghost function Payload(buf: Buffer, len: nat): Bytes
    requires len <= MAX_REASSEMBLY_BYTES
  {
    seq(len, k requires 0 <= k < len => ByteAt(buf, k))
  }

  /** One poll of the receive queue, and what the random generator would answer. */
  datatype Poll = Poll(packet: Packet, random: Option<Bytes>)

  ghost function Packets(polls: seq<Poll>): seq<Packet> {
    seq(|polls|, i requires 0 <= i < |polls| => polls[i].packet)
  }

  /** The commands the polls deliver, in order. */
  ghost function Inputs(polls: seq<Poll>): seq<Session.Input> {
    if polls == [] then []
    else
      var init, last := polls[..|polls| - 1], polls[|polls| - 1];
      var (after, out) := Receive(Stream(Zeroized(), Packets(init)), last.packet);
      Inputs(init) + (if out.Some? && out.value.1 <= MAX_REASSEMBLY_BYTES
                      then [Session.Input(out.value.0, Payload(after.buf, out.value.1), last.random)] else [])
  }

  /** copy_payload_words. */
  method CopyPayloadWords(src: array<u32>, srcStart: nat, dst: array<u32>, dstStart: nat, count: nat)
    requires src != dst && src.Length == MAX_RX_WORDS
    modifies dst
    ensures forall d | 0 <= d < dst.Length ::
      dst[d] == if dstStart <= d < dstStart + count && srcStart + d - dstStart < MAX_RX_WORDS
                then src[srcStart + d - dstStart] else old(dst[d])
  {
    for i := 0 to count
      invariant forall d | 0 <= d < dst.Length ::
        dst[d] == if dstStart <= d < dstStart + i && srcStart + d - dstStart < MAX_RX_WORDS
                  then src[srcStart + d - dstStart] else old(dst[d])
    {
      if srcStart + i < MAX_RX_WORDS && dstStart + i < dst.Length {
        dst[dstStart + i] := src[srcStart + i];
      }
    }
  }

  /** read_bytes_from_words: bytes past the end of the buffer read as zero. */
  method ReadBytesFromWords(src: array<u32>, byteOffset: nat, dst: array<byte>)
    modifies dst
    ensures forall i | 0 <= i < dst.Length ::
      dst[i] == if byteOffset + i < 4 * src.Length then ByteAt(src[..], byteOffset + i) else 0
  {
    for i := 0 to dst.Length
      invariant src[..] == old(src[..])
      invariant forall k | 0 <= k < i ::
        dst[k] == if byteOffset + k < 4 * src.Length then ByteAt(src[..], byteOffset + k) else 0
    {
      var pos := byteOffset + i;
      var w := if pos / 4 < src.Length then src[pos / 4] else 0;
      dst[i] := ByteOf(w, pos % 4);
    }
  }

  class Handler {
    const cfg: Session.Config
    const dev: DotDevice.Device
    const buf: array<u32>
    var len: nat
    var cmd: byte
    var total: byte
    var nextSeq: nat
    var pending: Option<Bytes>
    var done: bool

    constructor (cfg: Session.Config, dev: DotDevice.Device)
      ensures fresh(buf) && this.cfg == cfg && this.dev == dev && buf.Length == MAX_REASSEMBLY_WORDS
      ensures Receiving() == Zeroized() && pending == None && !done
    {
      this.cfg, this.dev := cfg, dev;
      buf := new u32[MAX_REASSEMBLY_WORDS](_ => 0);
      len, cmd, total, nextSeq, pending, done := 0, 0, 0, 0, None, false;
      new;
      assert buf[..] == ZeroBuffer();
    }

    ghost predicate Valid()
      reads this, buf, dev
    {
      && buf.Length == MAX_REASSEMBLY_WORDS
      && Good(Receiving())
      && dev.Valid() && !dev.flash.NoFlash?
      && cfg.snapshot <= dev.View().burned
    }

    ghost function Receiving(): State
      requires buf.Length == MAX_REASSEMBLY_WORDS
      reads this, buf
    {
      State(buf[..], len, cmd, total, nextSeq)
    }

    ghost function View(): Session.Session
      reads this, dev
    {
      Session.Session(dev.View(), pending, done)
    }

    method ZeroizeReassembly()
      requires buf.Length == MAX_REASSEMBLY_WORDS
      modifies this`len, this`cmd, this`total, this`nextSeq, buf
      ensures Receiving() == Zeroized()
    {
      for i := 0 to buf.Length
        invariant forall k | 0 <= k < i :: buf[k] == 0
      {
        buf[i] := 0;
      }
      len, cmd, total, nextSeq := 0, 0, 0, 0;
      assert buf[..] == ZeroBuffer();
    }

    /** Drain the port into a local buffer of 64 words. */
    method ReadFifo(p: Packet) returns (rx: array<u32>)
      ensures fresh(rx) && rx.Length == MAX_RX_WORDS
      ensures forall i | 0 <= i < MAX_RX_WORDS :: rx[i] == RxWord(p, i)
    {
      rx := new u32[MAX_RX_WORDS](_ => 0);
      var readWords := Min((p.dataLen + 3) / 4, MAX_RX_WORDS);
      for i := 0 to readWords
        invariant forall k | 0 <= k < MAX_RX_WORDS :: rx[k] == if k < i then RxWord(p, k) else 0
      {
        rx[i] := if i < |p.port| then p.port[i] else 0;
      }
    }

    method CopyIn(rx: array<u32>, p: Packet, at: nat, n: nat)
      requires buf.Length == MAX_REASSEMBLY_WORDS && rx != buf && rx.Length == MAX_RX_WORDS
      requires forall i | 0 <= i < MAX_RX_WORDS :: rx[i] == RxWord(p, i)
      modifies buf
      ensures buf[..] == Copied(old(buf[..]), p, at, n)
    {
      CopyPayloadWords(rx, 1, buf, at, n);
    }

    /** try_receive_reassembled_command. */
    method TryReceive(p: Packet) returns (out: Output)
      requires buf.Length == MAX_REASSEMBLY_WORDS && Good(Receiving())
      modifies this`len, this`cmd, this`total, this`nextSeq, buf
      ensures (Receiving(), out) == Receive(old(Receiving()), p)
    {
      if p.dataLen < PACKET_HEADER_SIZE {
        if p.dataLen != 0 { ZeroizeReassembly(); }
        return None;
      }
      var rx := ReadFifo(p);
      var pktCmd, seqNum, totalSeqs := ByteOf(rx[0], 0), ByteOf(rx[0], 2), ByteOf(rx[0], 3);
      if totalSeqs == 0 {
        ZeroizeReassembly();
        return None;
      }
      var copyBytes := Min(p.dataLen - PACKET_HEADER_SIZE, ByteOf(rx[0], 1));
      if totalSeqs == 1 {
        ZeroizeReassembly();
        len := Min(copyBytes, MAX_REASSEMBLY_BYTES);
        CopyIn(rx, p, 0, (copyBytes + 3) / 4);
        return Some((pktCmd, len));
      }
      if seqNum == 0 {
        ZeroizeReassembly();
        cmd, total, nextSeq := pktCmd, totalSeqs, 1;
        len := Min(copyBytes, MAX_REASSEMBLY_BYTES);
        CopyIn(rx, p, 0, (copyBytes + 3) / 4);
      } else if seqNum == nextSeq && pktCmd == cmd && totalSeqs == total {
        var n := Min(copyBytes, MAX_REASSEMBLY_BYTES - len);
        CopyIn(rx, p, len / 4, (n + 3) / 4);
        len := len + n;
        nextSeq := nextSeq + 1;
      } else {
        ZeroizeReassembly();
        return None;
      }
      if nextSeq == total {
        out := Some((cmd, len));
        nextSeq, total := 0, 0;
      } else {
        out := None;
      }
    }

    /** A field of the payload. */
    method Field(from: nat, n: nat, ghost payloadLen: nat) returns (bs: Bytes)
      requires buf.Length == MAX_REASSEMBLY_WORDS && from + n <= payloadLen <= MAX_REASSEMBLY_BYTES
      ensures bs == Session.Slice(Payload(buf[..], payloadLen), from, n)
    {
      var a := new byte[n](_ => 0);
      ReadBytesFromWords(buf, from, a);
      bs := a[..];
    }

    /** The delivered command as the session model sees it. */
    ghost predicate Presents(input: Session.Input, payloadLen: nat)
      reads this, buf
    {
      && buf.Length == MAX_REASSEMBLY_WORDS && payloadLen <= MAX_REASSEMBLY_BYTES
      && input.payload == Payload(buf[..], payloadLen)
    }

    method HandleRecovery(payloadLen: nat, ghost input: Session.Input) returns (r: Session.Reply)
      requires Valid() && Presents(input, payloadLen)
      modifies this`done, dev
      ensures dev.Valid()
      ensures (View(), r) == Session.Recovery(cfg, old(View()), input, dev.plan)
    {
      if payloadLen < Session.BLOB_BYTES { return Session.Reply(Session.INVALID_PAYLOAD, []); }
      var blobBytes := Field(0, Session.BLOB_BYTES, payloadLen);
      var ok := dev.RecoverBackup(cfg.snapshot, cfg.crypto.decodeBlob(blobBytes), cfg.keyType);
      done := ok;
      return Session.Reply(if ok then Session.SUCCESS else Session.ERROR, []);
    }

    method HandleUnlockChallenge(payloadLen: nat, random: Option<Bytes>, ghost input: Session.Input)
      returns (r: Session.Reply)
      requires Valid() && Presents(input, payloadLen) && input.random == random
      modifies this`pending
      ensures (View(), r) == Session.Unlock(cfg, old(View()), input)
    {
      if payloadLen < Session.UNLOCK_BYTES { return Session.Reply(Session.INVALID_PAYLOAD, []); }
      var eccKey := Field(0, Session.ECC_KEY_BYTES, payloadLen);
      var mldsaKey := Field(Session.ECC_KEY_BYTES, Session.MLDSA_KEY_BYTES, payloadLen);
      if !Dot.Odd(cfg.snapshot) || cfg.recoveryHash.None? { return Session.Reply(Session.ERROR, []); }
      if cfg.crypto.keyHash(eccKey, mldsaKey) != cfg.recoveryHash { return Session.Reply(Session.ERROR, []); }
      if random.None? { return Session.Reply(Session.ERROR, []); }
      pending := random;
      return Session.Reply(Session.SUCCESS, random.value);
    }

    method HandleOverride(payloadLen: nat, ghost input: Session.Input) returns (r: Session.Reply)
      requires Valid() && Presents(input, payloadLen)
      modifies this`pending, this`done, dev
      ensures dev.Valid()
      ensures (View(), r) == Session.Override(cfg, old(View()), input, dev.plan)
    {
      if pending.None? { return Session.Reply(Session.ERROR, []); }
      var challenge := pending.value;
      pending := None;
      if payloadLen < Session.OVERRIDE_BYTES { return Session.Reply(Session.INVALID_PAYLOAD, []); }
      var verified := VerifyResponse(payloadLen, challenge, input);
      if !verified { return Session.Reply(Session.ERROR, []); }
      var ok := dev.ApplyOverride(cfg.snapshot, cfg.keyType);
      done := ok;
      return Session.Reply(if ok then Session.SUCCESS else Session.ERROR, []);
    }

    method VerifyResponse(payloadLen: nat, challenge: Bytes, ghost input: Session.Input) returns (ok: bool)
      requires Presents(input, payloadLen) && payloadLen >= Session.OVERRIDE_BYTES
      ensures ok == Session.Verified(cfg, input.payload, challenge)
    {
      var at := 0;
      var eccKey := Field(at, Session.ECC_KEY_BYTES, payloadLen);
      at := at + Session.ECC_KEY_BYTES;
      var eccSig := Field(at, Session.ECC_SIG_BYTES, payloadLen);
      at := at + Session.ECC_SIG_BYTES;
      var mldsaKey := Field(at, Session.MLDSA_KEY_BYTES, payloadLen);
      at := at + Session.MLDSA_KEY_BYTES;
      var mldsaSig := Field(at, Session.MLDSA_SIG_BYTES, payloadLen);
      ok := && cfg.recoveryHash.Some?
            && cfg.crypto.keyHash(eccKey, mldsaKey) == cfg.recoveryHash
            && cfg.crypto.ecdsa(eccKey, eccSig, challenge)
            && cfg.crypto.mldsa(mldsaKey, mldsaSig, challenge);
    }

    method Dispatch(command: byte, payloadLen: nat, random: Option<Bytes>, ghost input: Session.Input)
      returns (r: Session.Reply)
      requires Valid() && Presents(input, payloadLen) && input.cmd == command && input.random == random
      modifies this`pending, this`done, dev
      ensures Valid()
      ensures (View(), r) == Session.Dispatch(cfg, old(View()), input, dev.plan)
    {
      Session.DispatchKeepsDevice(cfg, View(), input, dev.plan);
      if command == Session.PING {
        r := Session.Reply(Session.SUCCESS, Session.PONG);
      } else if !cfg.dotEnabled {
        r := Session.Reply(Session.INVALID_CMD, []);
      } else if command == Session.DOT_STATUS {
        var flag := if dev.enabled then 1 else 0;
        r := Session.Reply(Session.SUCCESS,
          [flag, cfg.snapshot % 2, cfg.snapshot % 256, cfg.snapshot / 256 % 256]);
      } else if command == Session.DOT_RECOVERY {
        r := HandleRecovery(payloadLen, input);
      } else if command == Session.DOT_UNLOCK_CHALLENGE {
        r := HandleUnlockChallenge(payloadLen, random, input);
      } else if command == Session.DOT_OVERRIDE {
        r := HandleOverride(payloadLen, input);
      } else {
        r := Session.Reply(Session.INVALID_CMD, []);
      }
    }

    /** One iteration of the main loop. */
    method PollOnce(poll: Poll)
      requires Valid() && !done
      modifies this, buf, dev
      ensures Valid()
      ensures Receiving() == Settled(old(Receiving()), poll.packet)
      ensures View() == Handled(cfg, old(Receiving()), old(View()), poll, dev.plan)
    {
      var out := TryReceive(poll.packet);
      if out.Some? {
        var (command, payloadLen) := out.value;
        ghost var input := Session.Input(command, Payload(buf[..], payloadLen), poll.random);
        var reply := Dispatch(command, payloadLen, poll.random, input);
        ZeroizeReassembly();
      }
    }

    /** The main loop over a bounded number of polls: what it does to the device is the
        session of the commands the packets deliver. */
    method Serve(polls: seq<Poll>)
      requires Valid() && Receiving() == Zeroized() && !done
      modifies this, buf, dev
      ensures dev.Valid()
      ensures View() == After(cfg, old(View()), polls, dev.plan)
      ensures Session.Starts(cfg, old(View())) ==> cfg.snapshot <= View().dev.burned <= cfg.snapshot + 1
    {
      if Session.Starts(cfg, View()) {
        Session.SessionBurnsAtMostOne(cfg, View(), Inputs(polls), |Inputs(polls)|, dev.plan);
      }
      for i := 0 to |polls|
        invariant Valid() && !done
        invariant Receiving() == Stream(Zeroized(), Packets(polls[..i]))
        invariant View() == After(cfg, old(View()), polls[..i], dev.plan)
      {
        AfterStep(cfg, old(View()), polls, i, dev.plan);
        PollOnce(polls[i]);
        if done {
          DoneStays(cfg, old(View()), polls, i + 1, dev.plan);
          return;
        }
      }
      assert polls[..|polls|] == polls;
    }
  }

  /** The receive state after one iteration. */
  ghost function Settled(st: State, p: Packet): State
    requires Good(st)
  {
    if Receive(st, p).1.Some? then Zeroized() else Receive(st, p).0
  }

  /** The session after one iteration. */
  ghost function Handled(cfg: Session.Config, st: State, s: Session.Session, poll: Poll, plan: Dot.FaultPlan)
    : Session.Session
    requires Good(st)
  {
    var (after, out) := Receive(st, poll.packet);
    if out.Some? && out.value.1 <= MAX_REASSEMBLY_BYTES && !s.done
    then Session.Dispatch(cfg, s, Session.Input(out.value.0, Payload(after.buf, out.value.1), poll.random), plan).0
    else s
  }

  /** The session once every delivered command has been handled. */
  ghost function After(cfg: Session.Config, s: Session.Session, polls: seq<Poll>, plan: Dot.FaultPlan)
    : Session.Session
  {
    Session.Before(cfg, s, Inputs(polls), |Inputs(polls)|, plan)
  }

  /** One more poll: the state it leads to and the command it may deliver. */
  lemma DeliveredPrefix(polls: seq<Poll>, i: nat)
    requires i < |polls|
    ensures var (after, out) := Receive(Stream(Zeroized(), Packets(polls[..i])), polls[i].packet);
            && (out.Some? ==> out.value.1 <= MAX_REASSEMBLY_BYTES)
            && Stream(Zeroized(), Packets(polls[..i + 1])) == (if out.Some? then Zeroized() else after)
            && Inputs(polls[..i + 1]) == Inputs(polls[..i])
                + (if out.Some?
                   then [Session.Input(out.value.0, Payload(after.buf, out.value.1), polls[i].random)] else [])
  {
    var ps := Packets(polls[..i + 1]);
    assert ps[..i] == Packets(polls[..i]) && ps[i] == polls[i].packet && ps[..i + 1] == ps;
    StreamStep(Zeroized(), ps, i);
    assert polls[..i + 1][..i] == polls[..i];
  }

  lemma {:induction false} BeforePrefix(
    cfg: Session.Config, s: Session.Session, a: seq<Session.Input>, b: seq<Session.Input>, i: nat,
    plan: Dot.FaultPlan)
    requires i <= |a|
    ensures Session.Before(cfg, s, a + b, i, plan) == Session.Before(cfg, s, a, i, plan)
  {
    if i > 0 { BeforePrefix(cfg, s, a, b, i - 1, plan); }
  }

  lemma BeforeSnoc(
    cfg: Session.Config, s: Session.Session, a: seq<Session.Input>, input: Session.Input, plan: Dot.FaultPlan)
    ensures var b := Session.Before(cfg, s, a, |a|, plan);
            Session.Before(cfg, s, a + [input], |a| + 1, plan)
            == if b.done then b else Session.Dispatch(cfg, b, input, plan).0
  {
    BeforePrefix(cfg, s, a, [input], |a|, plan);
  }

  lemma AfterStep(cfg: Session.Config, s: Session.Session, polls: seq<Poll>, i: nat, plan: Dot.FaultPlan)
    requires i < |polls|
    ensures var st := Stream(Zeroized(), Packets(polls[..i]));
            && Stream(Zeroized(), Packets(polls[..i + 1])) == Settled(st, polls[i].packet)
            && After(cfg, s, polls[..i + 1], plan) == Handled(cfg, st, After(cfg, s, polls[..i], plan), polls[i], plan)
  {
    DeliveredPrefix(polls, i);
    var a, b := Inputs(polls[..i]), Inputs(polls[..i + 1]);
    if b != a { BeforeSnoc(cfg, s, a, b[|a|], plan); }
  }

  /** Commands after the one that ended the session change nothing. */
  lemma {:induction false} DoneStays(
    cfg: Session.Config, s: Session.Session, polls: seq<Poll>, i: nat, plan: Dot.FaultPlan)
    requires i <= |polls| && After(cfg, s, polls[..i], plan).done
    ensures After(cfg, s, polls, plan) == After(cfg, s, polls[..i], plan)
    decreases |polls| - i
  {
    if i == |polls| {
      assert polls[..i] == polls;
    } else {
      AfterStep(cfg, s, polls, i, plan);
      DoneStays(cfg, s, polls, i + 1, plan);
    }
  }

  /** Polls that read nothing deliver nothing, however many there are. */
  lemma {:induction false} SilentPolls(polls: seq<Poll>)
    requires forall i | 0 <= i < |polls| :: polls[i].packet.dataLen == 0
    ensures Inputs(polls) == []
  {
    if polls != [] { SilentPolls(polls[..|polls| - 1]); }
  }

  // ----- from the wire to the session -----

  lemma {:induction false} NothingYet(polls: seq<Poll>, n: nat)
    requires n <= |polls|
    requires forall i | 0 <= i < n :: Receive(Stream(Zeroized(), Packets(polls)[..i]), Packets(polls)[i]).1 == None
    ensures Inputs(polls[..n]) == []
  {
    if n > 0 {
      NothingYet(polls, n - 1);
      DeliveredPrefix(polls, n - 1);
      assert Packets(polls[..n - 1]) == Packets(polls)[..n - 1];
    }
  }

  lemma PayloadIs(buf: Buffer, bytes: Bytes)
    requires HoldsBytes(buf, bytes)
    ensures Payload(buf, |bytes|) == bytes
  {
  }

  /** A command written to the bus as packets, in order and with empty reads anywhere in between,
      is the one command the session sees, byte for byte. */
  lemma WireDelivered(polls: seq<Poll>, cmd: byte, chunks: seq<Bytes>, tails: seq<Bytes>)
    requires 1 <= |chunks| <= 255 && |tails| == |chunks| && |Flatten(chunks)| <= 8192
    requires forall i | 0 <= i < |chunks| :: |chunks[i]| <= 248 && |tails[i]| <= 4
    requires forall i | 0 <= i < |chunks| - 1 :: |chunks[i]| % 4 == 0
    requires NonEmpty(Packets(polls))
          == seq(|chunks|, i requires 0 <= i < |chunks| => Wire(PacketBytes(cmd, i, |chunks|, chunks[i], tails[i])))
    requires polls != [] && polls[|polls| - 1].packet.dataLen != 0
    ensures Inputs(polls) == [Session.Input(cmd, Flatten(chunks), polls[|polls| - 1].random)]
  {
    var n := |polls| - 1;
    WireRoundTrip(Zeroized(), Packets(polls), cmd, chunks, tails);
    NothingYet(polls, n);
    DeliveredPrefix(polls, n);
    assert Packets(polls[..n]) == Packets(polls)[..n] && polls[..n + 1] == polls;
    PayloadIs(Receive(Stream(Zeroized(), Packets(polls[..n])), polls[n].packet).0.buf, Flatten(chunks));
  }
}
