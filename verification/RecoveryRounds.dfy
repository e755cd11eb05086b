/** Whole recovery sessions: what each phase waits for, and that every list of images can be
    brought over, one after the other. */
module RecoveryRounds {
  import opened Words
  import opened Wrappers
  import opened FlashFormat
  import opened FlashLookup
  import opened Recovery

  // ----- what each phase waits for -----

  /** The two low nibbles of the recovery status register. */
  lemma Nibbles(r: u32)
    ensures RecoveryStatusOf(r) == r % 0x100 % 0x10 && ImageIndexOf(r) == r % 0x100 / 0x10
  {
    var q, low := r / 0x100, r % 0x100;
    var hi := low / 0x10;
    DivModUnique(r, 0x10, 0x10 * q + hi, low % 0x10);
    DivModUnique(0x10 * q + hi, 0x10, q, hi);
  }

  /** Status 2 with index 2. */
  lemma BootingMcu(r: u32)
    ensures RecoveryStatusOf(r) == 2 && ImageIndexOf(r) == 2 <==> r % 0x100 == 0x22
  {
    Nibbles(r);
    var low := r % 0x100;
    assert low == 0x10 * (low / 0x10) + low % 0x10;
  }

  /** The machine stops only for a healthy device, or when the MCU image is booting. */
  lemma DoneReasons(flash: Bytes, find: Finder, m: Machine, a: Answer)
    requires m.phase != Done && Step(flash, find, m, a).phase == Done
    ensures || (m.phase == ReadDeviceStatus && a.deviceStatus % 0x100 == 1)
            || (m.phase == ActivateCheckRecoveryStatus && a.recoveryStatus % 0x100 == 0x22)
  {
    BootingMcu(a.recoveryStatus);
  }

  /** Bit 20 of the capabilities, then the device status, decide how a round starts. */
  lemma StartPhases(flash: Bytes, find: Finder, m: Machine, a: Answer)
    ensures var next, dev := Step(flash, find, m, a), a.deviceStatus % 0x100;
            && (m.phase == ReadProtCap ==>
                  next == if a.protCap % 0x20_0000 >= 0x10_0000 then m.(phase := ReadDeviceStatus) else m)
            && (m.phase == ReadDeviceStatus ==>
                  next == if dev == 1 then m.(phase := Done)
                          else if dev == 3 then m.(phase := WaitForRecoveryStatus) else m)
  {
    ProtCapBit(a.protCap);
  }

  /** The image asked for is the one announced and sent; one that is not there ends the run. */
  lemma SelectPhase(flash: Bytes, find: Finder, m: Machine, a: Answer)
    requires m.phase == WaitForRecoveryStatus
    ensures var next, index := Step(flash, find, m, a), a.recoveryStatus % 0x100 / 0x10;
            if a.recoveryStatus % 0x10 != 1 then next == m
            else
              && next.index == index && next.activated == m.activated
              && (next.phase == if a.flashWorks && find(index).Some? then TransferringImage else NoImage)
              && (next.phase == TransferringImage ==> next.region == find(index).value && next.transferred == 0)
  {
    Nibbles(a.recoveryStatus);
  }

  /** A transfer pass: the end, a full FIFO, a read that fails, or at most 256 bytes more. */
  lemma TransferPhase(flash: Bytes, find: Finder, m: Machine, a: Answer)
    requires m.phase == TransferringImage
    ensures var next, left := Step(flash, find, m, a), m.region.size - m.transferred;
            if left <= 0 then next == m.(phase := WaitForRecoveryPending, log := m.log + [PayloadDone])
            else if !a.fifoEmpty then next == m
            else if !a.flashWorks || m.region.offset + m.transferred + 256 > |flash|
            then next == m.(phase := ReadFailed)
            else
              && next.transferred == m.transferred + (if left < 256 then left else 256)
              && next == m.(transferred := next.transferred, log := next.log)
              && |next.log| == |m.log| + (if left < 256 then (left + 3) / 4 else 64)
  {
  }

  /** Pending, activate once, booting; then the next image, the end, or wait on. */
  lemma ActivationPhases(flash: Bytes, find: Finder, m: Machine, a: Answer)
    ensures var next, dev, rec := Step(flash, find, m, a).phase, a.deviceStatus % 0x100, a.recoveryStatus % 0x10;
            && (m.phase == WaitForRecoveryPending ==> next == if dev == 4 then Activate else WaitForRecoveryPending)
            && (m.phase == Activate ==> next == CheckFwActivation)
            && (m.phase == CheckFwActivation ==>
                  next == if rec == 2 then ActivateCheckRecoveryStatus else CheckFwActivation)
            && (m.phase == ActivateCheckRecoveryStatus ==>
                  next == if rec == 1 then ReadDeviceStatus
                          else if a.recoveryStatus % 0x100 == 0x22 then Done else ActivateCheckRecoveryStatus)
  {
    BootingMcu(a.recoveryStatus);
  }

  lemma ProtCapBit(w: u32)
    ensures DeviceStatusSupported(w) <==> w % 0x20_0000 >= 0x10_0000
  {
    var q := w / 0x20_0000;
    var r := w % 0x20_0000;
    assert w == 0x20_0000 * q + r;
    assert w / 0x10_0000 == 2 * q + r / 0x10_0000;
  }

  // ----- a whole round -----

  function Says(dev: u32, rec: u32): Answer { Answer(0x10_0000, dev, rec, true, true) }

  lemma {:induction false} ResumeSplit(flash: Bytes, find: Finder, m: Machine, xs: seq<Answer>, ys: seq<Answer>)
    ensures Resume(flash, find, m, xs + ys) == Resume(flash, find, Resume(flash, find, m, xs), ys)
    decreases xs
  {
    if xs == [] {
      assert xs + ys == ys;
    } else {
      ResumeSplit(flash, find, Step(flash, find, m, xs[0]), xs[1..], ys);
      assert (xs + ys)[1..] == xs[1..] + ys;
    }
  }

  lemma ResumeTwo(flash: Bytes, find: Finder, m: Machine, a: Answer, b: Answer)
    ensures Resume(flash, find, m, [a, b]) == Step(flash, find, Step(flash, find, m, a), b)
  {
    assert [a, b][1..] == [b] && [b][1..] == [];
    var m1 := Step(flash, find, m, a);
    assert Resume(flash, find, m1, [b]) == Resume(flash, find, Step(flash, find, m1, b), []);
  }

  lemma IndexNibble(index: nat)
    requires index < 0x10
    ensures RecoveryStatusOf(1 + 0x10 * index) == 1 && ImageIndexOf(1 + 0x10 * index) == index
  {
  }

  lemma OpenRound(flash: Bytes, find: Finder, m: Machine, index: nat) returns (answers: seq<Answer>)
    requires m.phase == ReadDeviceStatus && Inv(flash, find, m) && index < 0x10 && find(index).Some?
    ensures var t := Resume(flash, find, m, answers);
            && t.phase == TransferringImage && Inv(flash, find, t)
            && t.index == index && t.transferred == 0 && t.activated == m.activated
  {
    var a, b := Says(3, 0), Says(0, 1 + 0x10 * index);
    answers := [a, b];
    ResumeTwo(flash, find, m, a, b);
    IndexNibble(index);
    var m1 := Step(flash, find, m, a);
    StepKeeps(flash, find, m, a);
    StepKeeps(flash, find, m1, b);
    Selects(flash, find, m1, b, index);
  }

  lemma Selects(flash: Bytes, find: Finder, m: Machine, a: Answer, index: nat)
    requires m.phase == WaitForRecoveryStatus && RecoveryStatusOf(a.recoveryStatus) == 1
    requires ImageIndexOf(a.recoveryStatus) == index && find(index).Some? && a.flashWorks
    ensures var t := Step(flash, find, m, a);
            t.phase == TransferringImage && t.index == index && t.transferred == 0 && t.activated == m.activated
  {
  }

  lemma Activates(flash: Bytes, find: Finder, m: Machine, a: Answer, b: Answer)
    requires m.phase == WaitForRecoveryPending && a.deviceStatus == 4
    ensures Step(flash, find, Step(flash, find, m, a), b)
         == m.(phase := CheckFwActivation, log := m.log + [ActivateImage], activated := m.activated + [m.index])
  {
  }

  lemma Confirms(flash: Bytes, find: Finder, m: Machine, c: Answer, d: Answer)
    requires m.phase == CheckFwActivation && c.recoveryStatus == 2 && d.recoveryStatus == 1
    ensures Step(flash, find, Step(flash, find, m, c), d) == m.(phase := ReadDeviceStatus)
  {
  }

  lemma CloseSteps(flash: Bytes, find: Finder, m: Machine) returns (answers: seq<Answer>)
    requires m.phase == WaitForRecoveryPending
    ensures var t := Resume(flash, find, m, answers);
            t.phase == ReadDeviceStatus && t.activated == m.activated + [m.index]
  {
    var a, b, c, d := Says(4, 0), Says(0, 0), Says(0, 2), Says(0, 1);
    answers := [a, b] + [c, d];
    ResumeSplit(flash, find, m, [a, b], [c, d]);
    ResumeTwo(flash, find, m, a, b);
    Activates(flash, find, m, a, b);
    var m2 := Resume(flash, find, m, [a, b]);
    ResumeTwo(flash, find, m2, c, d);
    Confirms(flash, find, m2, c, d);
  }

  lemma CloseRound(flash: Bytes, find: Finder, m: Machine) returns (answers: seq<Answer>)
    requires m.phase == WaitForRecoveryPending && Inv(flash, find, m)
    ensures var t := Resume(flash, find, m, answers);
            t.phase == ReadDeviceStatus && Inv(flash, find, t) && t.activated == m.activated + [m.index]
  {
    answers := CloseSteps(flash, find, m);
    ResumeKeeps(flash, find, m, answers);
  }

  /** One image: asked for, sent, activated, and the device back for more. */
  lemma OneRound(flash: Bytes, find: Finder, m: Machine, index: nat) returns (answers: seq<Answer>)
    requires m.phase == ReadDeviceStatus && Inv(flash, find, m)
    requires index < 0x10 && Streamable(flash, find, index)
    ensures var t := Resume(flash, find, m, answers);
            t.phase == ReadDeviceStatus && Inv(flash, find, t) && t.activated == m.activated + [index]
  {
    var xs := OpenRound(flash, find, m, index);
    var m1 := Resume(flash, find, m, xs);
    var ys := seq((m1.region.size + 255) / CHUNK + 1, _ => Says(0, 0));
    TransferCompletes(flash, find, m1, ys);
    var m2 := Resume(flash, find, m1, ys);
    var zs := CloseRound(flash, find, m2);
    answers := xs + (ys + zs);
    ResumeSplit(flash, find, m, xs, ys + zs);
    ResumeSplit(flash, find, m1, ys, zs);
  }

  lemma {:induction false} ManyRounds(flash: Bytes, find: Finder, indices: seq<nat>) returns (answers: seq<Answer>)
    requires forall i | 0 <= i < |indices| :: indices[i] < 0x10 && Streamable(flash, find, indices[i])
    ensures var t := Run(flash, find, answers);
            t.phase == ReadDeviceStatus && Inv(flash, find, t) && t.activated == indices
  {
    if indices == [] {
      answers := [Says(0, 0)];
      assert [Says(0, 0)][1..] == [];
      var t := Step(flash, find, START, Says(0, 0));
      assert Resume(flash, find, t, []) == t;
      ResumeKeeps(flash, find, START, answers);
    } else {
      var k := |indices| - 1;
      var xs := ManyRounds(flash, find, indices[..k]);
      var ys := OneRound(flash, find, Run(flash, find, xs), indices[k]);
      answers := xs + ys;
      ResumeSplit(flash, find, START, xs, ys);
      assert indices[..k] + [indices[k]] == indices;
    }
  }

  /** Every list of images that are there can be brought over: some answers make the machine
      send and activate exactly these, in order, and finish. */
  lemma AllImagesActivated(flash: Bytes, find: Finder, indices: seq<nat>) returns (answers: seq<Answer>)
    requires forall i | 0 <= i < |indices| :: indices[i] < 0x10 && Streamable(flash, find, indices[i])
    ensures var t := Run(flash, find, answers);
            t.phase == Done && t.activated == indices && t.log == Rounds(flash, find, indices)
  {
    var xs := ManyRounds(flash, find, indices);
    var last := [Says(1, 0)];
    answers := xs + last;
    ResumeSplit(flash, find, START, xs, last);
    var m := Run(flash, find, xs);
    assert last[1..] == [];
    var t := Step(flash, find, m, Says(1, 0));
    assert Resume(flash, find, t, []) == t;
    ResumeKeeps(flash, find, START, answers);
  }

  lemma ThreeRounds(flash: Bytes, find: Finder)
    requires Streamable(flash, find, 0) && Streamable(flash, find, 1) && Streamable(flash, find, 2)
    ensures Rounds(flash, find, [0, 1, 2])
         == Sent(flash, find, 0) + [ActivateImage] + Sent(flash, find, 1) + [ActivateImage]
            + Sent(flash, find, 2) + [ActivateImage]
  {
    assert [0, 1, 2][..2] == [0, 1];
    assert [0, 1][..1] == [0];
    assert [0][..0] == [];
    assert Rounds(flash, find, [0]) == Sent(flash, find, 0) + [ActivateImage];
    assert Rounds(flash, find, [0, 1]) == Rounds(flash, find, [0]) + Sent(flash, find, 1) + [ActivateImage];
  }

  /** The three images of a device: Caliptra firmware, SoC manifest, MCU runtime. */
  lemma ThreeImagesActivated(flash: Bytes, find: Finder) returns (answers: seq<Answer>)
    requires Streamable(flash, find, 0) && Streamable(flash, find, 1) && Streamable(flash, find, 2)
    ensures var t := Run(flash, find, answers);
            && t.phase == Done && t.activated == [0, 1, 2]
            && t.log == Sent(flash, find, 0) + [ActivateImage] + Sent(flash, find, 1) + [ActivateImage]
                        + Sent(flash, find, 2) + [ActivateImage]
  {
    answers := AllImagesActivated(flash, find, [0, 1, 2]);
    ThreeRounds(flash, find);
  }
}
