/**
 The ownership-transfer flows as the ROM runs them: on the eight words of the fuse array
 and the flash, one write at a time.  Each method is proved to refine the counter-level
 flow of module Dot; the link is that the array stays a thermometer.
 */
module DotDevice {
  import opened Words
  import opened Wrappers
  import opened Thermometer
  import opened Dot
  import opened DotSafety

  const FUSE_WORDS := 8

  ghost function SumTo(f: nat -> nat, n: nat): nat {
    if n == 0 then 0 else SumTo(f, n - 1) + f(n - 1)
  }

  /** Group k of four terms of f adds up to term k of g. */
  ghost predicate FourAre(f: nat -> nat, g: nat -> nat, k: nat) {
    f(4 * k) + f(4 * k + 1) + f(4 * k + 2) + f(4 * k + 3) == g(k)
  }

  lemma SumFour(f: nat -> nat, i: nat)
    ensures SumTo(f, i + 4) == SumTo(f, i) + f(i) + f(i + 1) + f(i + 2) + f(i + 3)
  {
    assert SumTo(f, i + 2) == SumTo(f, i) + f(i) + f(i + 1);
  }

  lemma {:induction false} SumByFours(f: nat -> nat, g: nat -> nat, j: nat)
    requires forall k | 0 <= k < j :: FourAre(f, g, k)
    ensures SumTo(f, 4 * j) == SumTo(g, j)
  {
    if j > 0 {
      SumByFours(f, g, j - 1);
      SumFour(f, 4 * (j - 1));
      assert FourAre(f, g, j - 1);
    }
  }

  /** The set bits of byte i, and of word k. */
  ghost function BytePop(ws: seq<u32>): nat -> nat {
    (i: nat) => if i < 4 * |ws| then PopCount(ByteAt(ws, i)) else 0
  }

  ghost function WordPop(ws: seq<u32>): nat -> nat {
    (k: nat) => if k < |ws| then PopCount(ws[k]) else 0
  }

  lemma BytesOfWord(ws: seq<u32>, k: nat)
    requires k < |ws|
    ensures FourAre(BytePop(ws), WordPop(ws), k)
  {
    PopCountBytes(ws[k]);
    ByteInWord(ws, k, 0);
    ByteInWord(ws, k, 1);
    ByteInWord(ws, k, 2);
    ByteInWord(ws, k, 3);
  }

  lemma {:induction false} CountIsSum(ws: seq<u32>, j: nat)
    requires j <= |ws|
    ensures Count(ws[..j]) == SumTo(WordPop(ws), j)
  {
    if j > 0 {
      CountIsSum(ws, j - 1);
      CountSnoc(ws[..j - 1], ws[j - 1]);
      assert ws[..j] == ws[..j - 1] + [ws[j - 1]];
    }
  }

  /** Counting byte by byte is counting word by word. */
  lemma BytesCount(ws: seq<u32>)
    ensures SumTo(BytePop(ws), 4 * |ws|) == Count(ws)
  {
    forall k | 0 <= k < |ws|
      ensures FourAre(BytePop(ws), WordPop(ws), k)
    {
      BytesOfWord(ws, k);
    }
    SumByFours(BytePop(ws), WordPop(ws), |ws|);
    CountIsSum(ws, |ws|);
    assert ws[..|ws|] == ws;
  }

  lemma {:induction false} CountSnoc(ws: seq<nat>, w: nat)
    ensures Count(ws + [w]) == Count(ws) + PopCount(w)
  {
    if ws == [] {
      CountCons(w, []);
    } else {
      CountSnoc(ws[1..], w);
      assert (ws + [w])[1..] == ws[1..] + [w];
    }
  }

  /** Burning bit `snapshot` on a thermometer moves the counter to at least snapshot + 1. */
  lemma BurnRefinesCounter(ws: seq<nat>, snapshot: nat)
    requires |ws| == FUSE_WORDS && IsThermometer(ws) && snapshot <= Count(ws) && snapshot < TOTAL_FUSES
    ensures var ws' := SetBit(ws, snapshot);
            IsThermometer(ws') && Count(ws') == Max(Count(ws), snapshot + 1)
  {
    var n := Count(ws);
    EncodeWords(n, FUSE_WORDS);
    CountBound(ws);
    if snapshot == n {
      SetNext(n, FUSE_WORDS);
      CountEncode(n + 1, FUSE_WORDS);
    } else {
      SetOld(n, FUSE_WORDS, snapshot);
    }
  }

  /** No bit is cleared. */
  ghost predicate Keeps(a: seq<nat>, b: seq<nat>)
    requires |a| == |b|
  {
    forall i | 0 <= i < 32 * |a| :: BitAt(a, i) ==> BitAt(b, i)
  }

  lemma BurnThermometer(ws: seq<nat>, n: nat)
    requires |ws| == FUSE_WORDS && AreWords(ws) && PrefixOfOnes(ws) && n == Count(ws) < TOTAL_FUSES
    ensures IsThermometer(SetBit(ws, n)) && Count(SetBit(ws, n)) == n + 1
  {
    ThermometerBits(ws);
    BurnRefinesCounter(ws, n);
  }

  /** Bit by bit: on a prefix of ones a burn leaves a prefix of ones, one longer, so the parity
      flips and nothing is cleared. */
  lemma BurnExtendsPrefix(ws: seq<nat>, n: nat)
    requires |ws| == FUSE_WORDS && AreWords(ws) && PrefixOfOnes(ws) && n == Count(ws) < TOTAL_FUSES
    ensures AreWords(SetBit(ws, n)) && PrefixOfOnes(SetBit(ws, n)) && Keeps(ws, SetBit(ws, n))
    ensures Count(SetBit(ws, n)) == n + 1 && Odd(Count(SetBit(ws, n))) != Odd(n)
  {
    BurnThermometer(ws, n);
    PrefixOfThermometer(SetBit(ws, n));
    BurnClearsNothing(ws);
    ParityFlips(n);
  }

  lemma ParityFlips(n: nat)
    ensures Odd(n + 1) != Odd(n)
  {
  }

  lemma PrefixOfThermometer(ws: seq<nat>)
    requires |ws| == FUSE_WORDS && IsThermometer(ws)
    ensures AreWords(ws) && PrefixOfOnes(ws)
  {
    EncodeWords(Count(ws), FUSE_WORDS);
    ThermometerBits(ws);
  }

  lemma BurnClearsNothing(ws: seq<nat>)
    requires |ws| == FUSE_WORDS && Count(ws) < TOTAL_FUSES
    ensures Keeps(ws, SetBit(ws, Count(ws)))
  {
    BurnOnAnyArray(ws);
  }

  lemma BurntWord(w: u32, i: nat)
    requires i < 32
    ensures Or(w, Pow2(i)) < 0x1_0000_0000
  {
    Pow2At32();
    Pow2Monotone(i + 1, 32);
    OrBound(w, Pow2(i), 32);
  }

  /** On an array in any condition, burning at the current count never clears a bit, adds
      at most one, and adds one exactly when the bit numbered by the count is still clear. */
  lemma BurnOnAnyArray(ws: seq<nat>)
    requires |ws| == FUSE_WORDS && Count(ws) < TOTAL_FUSES
    ensures var ws' := SetBit(ws, Count(ws));
            && (Count(ws') == Count(ws) + 1 <==> !BitAt(ws, Count(ws)))
            && Count(ws) <= Count(ws') <= Count(ws) + 1
            && forall i | 0 <= i < TOTAL_FUSES :: BitAt(ws', i) == (BitAt(ws, i) || i == Count(ws))
  {
    CountSetBit(ws, Count(ws));
    forall i | 0 <= i < TOTAL_FUSES
      ensures BitAt(SetBit(ws, Count(ws)), i) == (BitAt(ws, i) || i == Count(ws))
    {
      SetBitKeepsOthers(ws, Count(ws), i);
    }
  }

  /** The writes of a command, spelled out as the arms of the command match. */
  lemma ProgramList(sec: Section, cmd: byte, n: nat)
    requires cmd <= DISABLE
    ensures Program(sec, cmd, n)
         == if cmd == LOCK && !Odd(n) then [Write(Seal(IDevId, n, OwnerFields(sec.cak, sec.lak))), Burn(n)]
            else if cmd == DISABLE && !Odd(n) then [Write(Seal(IDevId, n, OwnerFields(ZERO_HASH, sec.lak))), Burn(n)]
            else if cmd == UNLOCK && Odd(n) then [Write(Seal(IDevId, n + 1, OwnerFields(ZERO_HASH, sec.lak))), Burn(n)]
            else if cmd == ROTATE && n < sec.minFuseCount
            then [Burn(n), Burn(n + 1), Write(Seal(IDevId, n + 2, OwnerFields(sec.cak, sec.lak)))]
            else []
  {
  }

  class Device {
    const plan: FaultPlan
    const enabled: bool
    var fuses: seq<u32>
    var flash: Flash
    var clock: nat

    ghost predicate Valid()
      reads this
    {
      |fuses| == FUSE_WORDS && IsThermometer(fuses)
    }

    ghost function View(): State
      reads this
    {
      State(enabled, Count(fuses), flash, clock)
    }

    constructor Fresh(enabled: bool, flash: Flash, plan: FaultPlan)
      ensures Valid() && View() == State(enabled, 0, flash, 0)
      ensures this.plan == plan && this.enabled == enabled
    {
      this.enabled, this.flash, this.plan, this.clock := enabled, flash, plan, 0;
      fuses := seq(FUSE_WORDS, _ => 0);
      new;
      CountEncode(0, FUSE_WORDS);
      assert fuses == Encode(0, FUSE_WORDS);
    }

    /** DotFuses::load_from_otp: the set bits of the 32 raw bytes. */
    method LoadBurned() returns (n: nat)
      requires |fuses| == FUSE_WORDS
      ensures n == Count(fuses)
    {
      n := 0;
      for i := 0 to 4 * FUSE_WORDS
        invariant n == SumTo(BytePop(fuses), i)
      {
        n := n + PopCount(ByteAt(fuses, i));
      }
      BytesCount(fuses);
    }

    /** burn_dot_lock_fuse: set the bit numbered by the caller's snapshot. */
    method BurnLockFuse(snapshot: nat) returns (ok: bool)
      requires Valid() && snapshot <= Count(fuses)
      modifies this
      ensures Valid()
      ensures Run(View(), ok) == Do(old(View()), Burn(snapshot), plan)
    {
      if snapshot >= TOTAL_FUSES {
        return false;
      }
      BurnRefinesCounter(fuses, snapshot);
      var word := snapshot / 32;
      BurntWord(fuses[word], snapshot % 32);
      var next: seq<u32> := fuses[word := Or(fuses[word], Pow2(snapshot % 32))];
      assert next == SetBit(fuses, snapshot);
      var fault := plan(clock);
      clock := clock + 1;
      if !fault.Lost? { fuses := next; }
      return fault.Works?;
    }

    method WriteFlash(blob: Blob) returns (ok: bool)
      requires Valid() && !flash.NoFlash?
      modifies this
      ensures Valid()
      ensures Run(View(), ok) == Do(old(View()), Write(blob), plan)
    {
      var fault := plan(clock);
      clock := clock + 1;
      if !fault.Lost? {
        flash := Holds(blob);
      }
      return fault.Works?;
    }

    /** create_and_seal_dot_blob: without a flash device there is nothing to write. */
    method CreateAndSeal(burned: nat, cak: KeyHash, lak: KeyHash) returns (ok: bool)
      requires Valid()
      modifies this
      ensures Valid()
      ensures Run(View(), ok) == Do(old(View()), Write(Seal(IDevId, burned, OwnerFields(cak, lak))), plan)
    {
      if flash.NoFlash? {
        return true;
      }
      ok := WriteFlash(Seal(IDevId, burned, OwnerFields(cak, lak)));
    }

    /** The body of the command loop for a command that applies to an enabled device. */
    method RunCommand(sec: Section, cmd: byte) returns (ok: bool)
      requires Valid() && cmd <= DISABLE
      modifies this
      ensures Valid()
      ensures Run(View(), ok) == Exec(old(View()), Program(sec, cmd, old(View()).burned), plan)
    {
      var n := LoadBurned();
      ProgramList(sec, cmd, n);
      if cmd == LOCK && !Odd(n) {
        ok := SealThenBurn(n, sec.cak, sec.lak, n);
      } else if cmd == DISABLE && !Odd(n) {
        ok := SealThenBurn(n, ZERO_HASH, sec.lak, n);
      } else if cmd == UNLOCK && Odd(n) {
        ok := SealThenBurn(n + 1, ZERO_HASH, sec.lak, n);
      } else if cmd == ROTATE && n < sec.minFuseCount {
        ok := Rotate(n, Seal(IDevId, n + 2, OwnerFields(sec.cak, sec.lak)), sec.cak, sec.lak);
      } else {
        ok := true;
      }
    }

    method SealThenBurn(count: nat, cak: KeyHash, lak: KeyHash, n: nat) returns (ok: bool)
      requires Valid() && n == Count(fuses)
      modifies this
      ensures Valid()
      ensures Run(View(), ok)
              == Exec(old(View()), [Write(Seal(IDevId, count, OwnerFields(cak, lak))), Burn(n)], plan)
    {
      Exec2(View(), Write(Seal(IDevId, count, OwnerFields(cak, lak))), Burn(n), plan);
      ok := CreateAndSeal(count, cak, lak);
      if ok { ok := BurnLockFuse(n); }
    }

    method Rotate(n: nat, ghost blob: Blob, cak: KeyHash, lak: KeyHash) returns (ok: bool)
      requires Valid() && n == Count(fuses) && blob == Seal(IDevId, n + 2, OwnerFields(cak, lak))
      modifies this
      ensures Valid()
      ensures Run(View(), ok) == Exec(old(View()), [Burn(n), Burn(n + 1), Write(blob)], plan)
    {
      Exec3(View(), Burn(n), Burn(n + 1), Write(blob), plan);
      ok := BurnLockFuse(n);
      if !ok { return; }
      var n1 := LoadBurned();
      ok := BurnThenSeal(n1, blob, cak, lak);
    }

    /** The second half of a rotation: the seal is for the count just arrived at. */
    method BurnThenSeal(n: nat, ghost blob: Blob, cak: KeyHash, lak: KeyHash) returns (ok: bool)
      requires Valid() && n == Count(fuses) && blob == Seal(IDevId, n + 1, OwnerFields(cak, lak))
      modifies this
      ensures Valid()
      ensures Run(View(), ok) == Exec(old(View()), [Burn(n), Write(blob)], plan)
    {
      Exec2(View(), Burn(n), Write(blob), plan);
      ok := BurnLockFuse(n);
      if !ok { return; }
      var n1 := LoadBurned();
      ok := CreateAndSeal(n1, cak, lak);
    }

    /** process_fw_manifest_dot_commands. */
    method ProcessManifest(sec: Section) returns (ok: bool)
      requires Valid()
      modifies this
      ensures Valid()
      ensures Run(View(), ok) == RunManifest(sec, old(View()), plan)
    {
      if sec.magic != MAGIC { return true; }
      if !ChecksumOk(sec) || sec.version != 1 || sec.numCommands > MAX_COMMANDS { return false; }
      var cmds := Commands(sec);
      if Locks(cmds) && UNLOCK in cmds { return false; }
      ok := RunAll(sec, cmds);
    }

    method RunAll(sec: Section, cmds: seq<byte>) returns (ok: bool)
      requires Valid()
      modifies this
      ensures Valid()
      ensures Run(View(), ok) == RunCommands(sec, cmds, old(View()), plan)
    {
      for i := 0 to |cmds|
        invariant Valid()
        invariant RunCommands(sec, cmds[i..], View(), plan) == RunCommands(sec, cmds, old(View()), plan)
      {
        var cmd := cmds[i];
        assert cmds[i..][0] == cmd && cmds[i..][1..] == cmds[i + 1..];
        if !enabled && cmd != NOP { return true; }
        if cmd > DISABLE { return false; }
        ok := RunCommand(sec, cmd);
        if !ok { return; }
      }
      ok := true;
    }

    /** The flash part of cold boot together with dot_flow. */
    method BootOwner(kt: KeyType, fuseOwner: Option<KeyHash>) returns (r: Result<Option<KeyHash>, ()>)
      requires Valid()
      modifies this
      ensures Valid()
      ensures Boot(View(), r) == ColdBoot(old(View()), kt, fuseOwner, plan)
    {
      var n := LoadBurned();
      if flash.NoFlash? { return Success(fuseOwner); }
      if flash.Blank? {
        if enabled && Odd(n) { return Failure(()); }
        return Success(fuseOwner);
      }
      var blob := flash.blob;
      if !Authentic(kt, n, blob) { return Failure(()); }
      if enabled && !Odd(n) && !IsZero(blob.fields.cak) && !IsZero(blob.fields.lak) {
        Exec1(View(), Burn(n), plan);
        var ok := BurnLockFuse(n);
        if !ok { return Failure(()); }
      }
      if enabled && Odd(n) && !IsZero(blob.fields.cak) { return Success(Some(blob.fields.cak)); }
      return Success(fuseOwner);
    }

    /** apply_override, on the fuse snapshot taken when the session began. */
    method ApplyOverride(snapshot: nat, kt: KeyType) returns (ok: bool)
      requires Valid() && snapshot <= Count(fuses) && !flash.NoFlash?
      modifies this
      ensures Valid()
      ensures Run(View(), ok) == Override(old(View()), snapshot, kt, plan)
    {
      Exec2(View(), Burn(snapshot), Write(Seal(kt, snapshot + 1, EMPTY_FIELDS)), plan);
      ok := BurnLockFuse(snapshot);
      if ok { ok := WriteFlash(Seal(kt, snapshot + 1, EMPTY_FIELDS)); }
    }

    /** verify_and_write_recovery_blob. */
    method RecoverBackup(snapshot: nat, backup: Blob, kt: KeyType) returns (ok: bool)
      requires Valid() && !flash.NoFlash?
      modifies this
      ensures Valid()
      ensures Run(View(), ok) == Recover(old(View()), snapshot, backup, kt, plan)
    {
      if !Authentic(kt, snapshot, backup) { return false; }
      Exec1(View(), Write(backup), plan);
      ok := WriteFlash(backup);
    }
  }
}
