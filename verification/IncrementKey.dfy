/** Stepping of signature keys (mdCore/mdIncrementKey.h) and the key schedule of the
    hash context list that calls it once per block (mdCore/mdHashContextList.h). */
module IncrementKey {
  import opened Bytes
  import opened Common
  import opened Sums

  datatype KeyMode = NoInc | Dec | Inc

  /** The big integer that is exported back; exporting drops the sign. */
  function Stepped(v: nat, n: nat, mode: KeyMode): nat {
    match mode
    case NoInc => v
    case Dec => if n <= v then v - n else n - v
    case Inc => v + n
  }

  function StepKey(key: Bytes, n: nat, mode: KeyMode): (k: Bytes)
    ensures |k| == |key|
  {
    Fit(Stepped(Value(key), n, mode), |key|)
  }

  /** Steps the key in place. What is behind the key belongs to the caller's register struct:
      padding overwrites one byte of it, and a carry out of the key runs over. */
  method IncrementByteblock(blocksize: nat, byteblock: array<byte>, blocknumber: nat, mode: KeyMode)
    requires blocksize <= byteblock.Length
    requires |Export(Stepped(Value(byteblock[..blocksize]), blocknumber, mode))| <= byteblock.Length
    modifies byteblock
    ensures byteblock[..blocksize] == StepKey(old(byteblock[..blocksize]), blocknumber, mode)
    ensures byteblock[blocksize..]
         == Behind(old(byteblock[..]), Export(Stepped(Value(old(byteblock[..blocksize])), blocknumber, mode)),
                   blocksize)
  {
    var keyblockInt: int := Value(byteblock[..blocksize]);
    if mode == Dec {
      keyblockInt := keyblockInt - blocknumber;
    } else if mode == Inc {
      keyblockInt := keyblockInt + blocknumber;
    }
    var outside := ExportPadded(byteblock, blocksize, if keyblockInt < 0 then -keyblockInt else keyblockInt);
  }

  function Signed(n: nat, mode: KeyMode): int {
    match mode
    case NoInc => 0
    case Dec => 0 - n
    case Inc => n
  }

  /** A step adds or subtracts exactly on the big-endian value precisely when the result is
      not negative and still fits the key. */
  lemma {:induction false} StepIsExact(key: Bytes, n: nat, mode: KeyMode)
    ensures Value(StepKey(key, n, mode)) == Value(key) + Signed(n, mode)
            <==> 0 <= Value(key) + Signed(n, mode) < Pow2(8 * |key|)
  {
    ValueBound(key);
    var s := Stepped(Value(key), n, mode);
    FitValue(s, |key|);
    ValueBound(StepKey(key, n, mode));
  }

  /** A run of steps with the given counters. */
  function RunKey(key: Bytes, ns: seq<nat>, mode: KeyMode): (k: Bytes)
    ensures |k| == |key|
  {
    if ns == [] then key else StepKey(RunKey(key, ns[..|ns| - 1], mode), ns[|ns| - 1], mode)
  }

  /** A run totals the sum of its counters exactly when that total stays in range; the
      intermediate keys then stay in range by themselves. */
  lemma {:induction false} RunIsExact(key: Bytes, ns: seq<nat>, mode: KeyMode)
    ensures Value(RunKey(key, ns, mode)) == Value(key) + Signed(Total(ns, |ns|), mode)
            <==> 0 <= Value(key) + Signed(Total(ns, |ns|), mode) < Pow2(8 * |key|)
  {
    ValueBound(key);
    ValueBound(RunKey(key, ns, mode));
    if 0 <= Value(key) + Signed(Total(ns, |ns|), mode) < Pow2(8 * |key|) && ns != [] {
      var front := ns[..|ns| - 1];
      TotalOfFront(ns);
      RunIsExact(key, front, mode);
      StepIsExact(RunKey(key, front, mode), ns[|ns| - 1], mode);
    }
  }

  /** Decrementing undoes incrementing: any two runs with the same total cancel. */
  lemma {:induction false} DecrementUndoesIncrement(key: Bytes, ns: seq<nat>, ms: seq<nat>)
    requires Total(ns, |ns|) == Total(ms, |ms|) && Value(key) + Total(ns, |ns|) < Pow2(8 * |key|)
    ensures RunKey(RunKey(key, ns, Inc), ms, Dec) == key
  {
    var up := RunKey(key, ns, Inc);
    var down := RunKey(up, ms, Dec);
    RunIsExact(key, ns, Inc);
    ValueBound(up);
    ValueBound(key);
    RunIsExact(up, ms, Dec);
    FixedOfValue(down);
    FixedOfValue(key);
  }

  /** The counters of the first i steps: 1, 2, ..., i. */
  function Counters(i: nat): (ns: seq<nat>)
    ensures |ns| == i
  {
    if i == 0 then [] else Counters(i - 1) + [i]
  }

  lemma {:induction false} SumOfCounters(i: nat)
    ensures Total(Counters(i), i) == i * (i + 1) / 2
  {
    if i != 0 {
      SumOfCounters(i - 1);
      assert Counters(i)[..i - 1] == Counters(i - 1);
      TotalOfFront(Counters(i));
      assert i * (i + 1) == (i - 1) * i + 2 * i;
    }
  }

  /** The key under which block i is signed. */
  function KeyOfBlock(key: Bytes, mode: KeyMode, i: nat): (k: Bytes)
    ensures |k| == |key|
  {
    RunKey(key, Counters(i), mode)
  }

  lemma {:induction false} KeyOfNextBlock(key: Bytes, mode: KeyMode, i: nat)
    ensures KeyOfBlock(key, mode, 0) == key
    ensures KeyOfBlock(key, mode, i + 1) == StepKey(KeyOfBlock(key, mode, i), i + 1, mode)
  {
    assert Counters(i + 1)[..i] == Counters(i);
  }

  /** Block i is signed with the start key plus or minus i(i+1)/2 while that is in range. */
  lemma {:induction false} KeyOfBlockValue(key: Bytes, mode: KeyMode, i: nat)
    ensures Value(KeyOfBlock(key, mode, i)) == Value(key) + Signed(i * (i + 1) / 2, mode)
            <==> 0 <= Value(key) + Signed(i * (i + 1) / 2, mode) < Pow2(8 * |key|)
  {
    SumOfCounters(i);
    RunIsExact(key, Counters(i), mode);
  }

  // ---------- the hash context list: signature numbers, keys and block counter ----------

  const SIP40 := 30
  const SIP48 := 31
  const SIP_KEY_BYTES: nat := 16

  type KeyRegister = map<nat, Bytes>

  predicate IsStepped(id: nat) {
    id == SIP40 || id == SIP48
  }

  predicate SipKeysPresent(ids: seq<nat>, keys: KeyRegister) {
    forall id :: id in ids && IsStepped(id) ==> id in keys && |keys[id]| == SIP_KEY_BYTES
  }

  predicate Distinct(ids: seq<nat>) {
    forall i, j :: 0 <= i < j < |ids| ==> ids[i] != ids[j]
  }

  function NextKey(ids: seq<nat>, id: nat, key: Bytes, n: nat, mode: KeyMode): Bytes {
    if id in ids && IsStepped(id) then StepKey(key, n, mode) else key
  }

  function ScheduledKey(ids: seq<nat>, id: nat, key: Bytes, mode: KeyMode, i: nat): Bytes {
    if id in ids && IsStepped(id) then KeyOfBlock(key, mode, i) else key
  }

  lemma {:induction false} ScheduledKeyAdvances(ids: seq<nat>, id: nat, key: Bytes, mode: KeyMode, i: nat)
    ensures ScheduledKey(ids, id, key, mode, 0) == key
    ensures ScheduledKey(ids, id, key, mode, i + 1)
         == NextKey(ids, id, ScheduledKey(ids, id, key, mode, i), i + 1, mode)
  {
    KeyOfNextBlock(key, mode, i);
  }

  /** All keys after stepping those of the listed siphash signatures once. */
  function StepRegister(ids: seq<nat>, keys: KeyRegister, n: nat, mode: KeyMode): (r: KeyRegister)
    ensures r.Keys == keys.Keys
  {
    map id | id in keys :: NextKey(ids, id, keys[id], n, mode)
  }

  /** All keys in force for block i. */
  function RegisterOfBlock(ids: seq<nat>, keys: KeyRegister, mode: KeyMode, i: nat): (r: KeyRegister)
    ensures r.Keys == keys.Keys
  {
    map id | id in keys :: ScheduledKey(ids, id, keys[id], mode, i)
  }

  lemma {:induction false} RegisterOfFirstBlock(ids: seq<nat>, keys: KeyRegister, mode: KeyMode)
    ensures RegisterOfBlock(ids, keys, mode, 0) == keys
  {
    forall id | id in keys
      ensures ScheduledKey(ids, id, keys[id], mode, 0) == keys[id]
    {
      ScheduledKeyAdvances(ids, id, keys[id], mode, 0);
    }
  }

  lemma {:induction false} RegisterOfNextBlock(ids: seq<nat>, keys: KeyRegister, mode: KeyMode, i: nat)
    ensures RegisterOfBlock(ids, keys, mode, i + 1)
         == StepRegister(ids, RegisterOfBlock(ids, keys, mode, i), i + 1, mode)
  {
    forall id | id in keys
      ensures ScheduledKey(ids, id, keys[id], mode, i + 1)
           == NextKey(ids, id, ScheduledKey(ids, id, keys[id], mode, i), i + 1, mode)
    {
      ScheduledKeyAdvances(ids, id, keys[id], mode, i);
    }
  }

  lemma {:induction false} NoIncKeepsRegister(ids: seq<nat>, keys: KeyRegister, n: nat)
    ensures StepRegister(ids, keys, n, NoInc) == keys
  {
    forall id | id in keys
      ensures NextKey(ids, id, keys[id], n, NoInc) == keys[id]
    {
      NoIncKeepsKey(keys[id], n);
    }
  }

  lemma {:induction false} NoIncKeepsKey(key: Bytes, n: nat)
    ensures StepKey(key, n, NoInc) == key
  {
    ValueBound(key);
    ExportLength(Value(key), |key|);
    FixedOfValue(key);
  }

  lemma {:induction false} CarryIsOneByte(key: Bytes, n: nat, mode: KeyMode)
    requires n <= Pow2(8 * |key|)
    ensures |Export(Stepped(Value(key), n, mode))| <= |key| + 1
  {
    ValueBound(key);
    Pow2Byte(|key|);
    ExportLength(Stepped(Value(key), n, mode), |key| + 1);
  }

  // ---------- the same in numbers ----------

  /** 2^128 */
  const KEY_LIMIT: nat := 0x1_0000_0000_0000_0000_0000_0000_0000_0000

  lemma KeyLimitIsPower()
    ensures Pow2(8 * SIP_KEY_BYTES) == KEY_LIMIT
  {
    Pow2Words();
    Pow2Add(64, 64);
  }

  /** A key of 16 bytes after n was added to its big-endian number or subtracted from it: the
      sign of a negative result is lost, and of a result of 17 bytes the last byte. */
  ghost predicate KeyMoved(before: Bytes, after: Bytes, n: nat, mode: KeyMode) {
    var v: int := if mode == Inc then Value(before) + n else if mode == Dec then Value(before) - n else Value(before);
    var digits := if v < 0 then -v else v;
    |after| == 16 && Value(after) == if digits < KEY_LIMIT then digits else digits / 256
  }

  /** The listed keys of signatures 30 and 31 moved by n, all others stayed. */
  ghost predicate SipKeysMoved(ids: seq<nat>, before: KeyRegister, after: KeyRegister, n: nat, mode: KeyMode) {
    && after.Keys == before.Keys
    && (forall id :: id in before && (id !in ids || (id != 30 && id != 31)) ==> after[id] == before[id])
    && (forall id :: id in before && id in ids && (id == 30 || id == 31) ==> KeyMoved(before[id], after[id], n, mode))
  }

  lemma {:induction false} FitCutsLastDigit(v: nat, n: nat)
    requires |Export(v)| == n + 1
    ensures Value(Fit(v, n)) == v / 256
  {
    var front := Export(v / 256);
    assert Export(v) == front + [v % 256];
    assert Export(v)[..n] == front;
    ExportLength(v / 256, n);
    FitValue(v / 256, n);
    FixedPads(v / 256, n);
    assert Zeros(0) + front == front;
  }

  lemma {:induction false} StepInNumbers(key: Bytes, n: nat, mode: KeyMode)
    requires |key| == SIP_KEY_BYTES && n <= KEY_LIMIT
    ensures KeyMoved(key, StepKey(key, n, mode), n, mode)
  {
    KeyLimitIsPower();
    var v := Stepped(Value(key), n, mode);
    ValueBound(key);
    CarryIsOneByte(key, n, mode);
    ExportLength(v, |key|);
    FitValue(v, |key|);
    if v >= KEY_LIMIT {
      FitCutsLastDigit(v, |key|);
    }
  }

  lemma {:induction false} UnmovedSipKeys(ids: seq<nat>, keys: KeyRegister, n: nat, mode: KeyMode)
    requires SipKeysPresent(ids, keys) && (n == 0 || mode == NoInc)
    ensures SipKeysMoved(ids, keys, keys, n, mode)
  {
    forall id | id in keys && id in ids && (id == 30 || id == 31)
      ensures KeyMoved(keys[id], keys[id], n, mode)
    {
      assert IsStepped(id);
      ValueBound(keys[id]);
      KeyLimitIsPower();
    }
  }

  /** One step moves the keys of the listed signatures 30 and 31 by the counter and no other. */
  lemma {:induction false} StepMovesSipKeys(ids: seq<nat>, keys: KeyRegister, n: nat, mode: KeyMode)
    requires SipKeysPresent(ids, keys) && n <= KEY_LIMIT
    ensures SipKeysMoved(ids, keys, StepRegister(ids, keys, n, mode), n, mode)
  {
    forall id | id in keys && id in ids && (id == 30 || id == 31)
      ensures KeyMoved(keys[id], StepRegister(ids, keys, n, mode)[id], n, mode)
    {
      assert IsStepped(id);
      StepInNumbers(keys[id], n, mode);
    }
  }

  /** The key was moved by t exactly if that stays in range. */
  ghost predicate MovedInRange(start: nat, key: nat, mode: KeyMode, t: int) {
    match mode
    case NoInc => key == start
    case Dec => key == start - t <==> t <= start
    case Inc => key == start + t <==> start + t < KEY_LIMIT
  }

  lemma {:induction false} BlockKeyByTotal(ids: seq<nat>, keys: KeyRegister, mode: KeyMode, i: nat, id: nat, t: nat)
    requires SipKeysPresent(ids, keys) && id in ids && (id == 30 || id == 31) && t == Total(Counters(i), i)
    ensures id in keys && id in RegisterOfBlock(ids, keys, mode, i)
    ensures |keys[id]| == |RegisterOfBlock(ids, keys, mode, i)[id]| == 16
    ensures MovedInRange(Value(keys[id]), Value(RegisterOfBlock(ids, keys, mode, i)[id]), mode, t)
  {
    assert IsStepped(id);
    RunIsExact(keys[id], Counters(i), mode);
    ValueBound(keys[id]);
    KeyRange(Value(keys[id]), Value(KeyOfBlock(keys[id], mode, i)), t, mode);
  }

  /** Under signature 30 or 31 block i is signed with the start key plus (minus) i(i+1)/2
      exactly as long as that is below 2^128 (not below 0). */
  lemma {:induction false} BlockKeyInNumbers(ids: seq<nat>, keys: KeyRegister, mode: KeyMode, i: nat, id: nat)
    requires SipKeysPresent(ids, keys) && id in ids && (id == 30 || id == 31)
    ensures id in keys && id in RegisterOfBlock(ids, keys, mode, i)
    ensures |keys[id]| == |RegisterOfBlock(ids, keys, mode, i)[id]| == 16
    ensures MovedInRange(Value(keys[id]), Value(RegisterOfBlock(ids, keys, mode, i)[id]), mode, i * (i + 1) / 2)
  {
    SumOfCounters(i);
    BlockKeyByTotal(ids, keys, mode, i, id, Total(Counters(i), i));
  }

  lemma KeyRange(start: nat, key: nat, t: nat, mode: KeyMode)
    requires start < Pow2(8 * SIP_KEY_BYTES)
    requires key == start + Signed(t, mode) <==> 0 <= start + Signed(t, mode) < Pow2(8 * SIP_KEY_BYTES)
    ensures MovedInRange(start, key, mode, t)
  {
    KeyLimitIsPower();
  }

  /** No other key ever changes, and none at all in the first block or without stepping. */
  lemma {:induction false} OtherKeysStay(ids: seq<nat>, keys: KeyRegister, mode: KeyMode, i: nat, id: nat)
    requires id in keys && (id !in ids || (id != 30 && id != 31) || i == 0 || mode == NoInc)
    ensures id in RegisterOfBlock(ids, keys, mode, i) && RegisterOfBlock(ids, keys, mode, i)[id] == keys[id]
  {
    if i == 0 {
      RegisterOfFirstBlock(ids, keys, mode);
    } else if mode == NoInc {
      OtherKeysStay(ids, keys, mode, i - 1, id);
      RegisterOfNextBlock(ids, keys, mode, i - 1);
      NoIncKeepsRegister(ids, RegisterOfBlock(ids, keys, mode, i - 1), i);
    }
  }

  class HashContextList {
    const ids: seq<nat>
    var keys: KeyRegister
    var blocknumber: nat
    var incrementKey: KeyMode

    ghost predicate Valid()
      reads this
    {
      Distinct(ids) && SipKeysPresent(ids, keys)
    }

    constructor (ids: seq<nat>, keys: KeyRegister)
      requires Distinct(ids) && SipKeysPresent(ids, keys)
      ensures Valid() && this.ids == ids && this.keys == keys && blocknumber == 0
    {
      this.ids, this.keys, blocknumber, incrementKey := ids, keys, 0, NoInc;
    }

    /** Called once per block before the block is signed or searched. */
    method IncrementBlockNum(incKey: KeyMode)
      requires Valid() && blocknumber <= Pow2(8 * SIP_KEY_BYTES)
      modifies this
      ensures Valid() && blocknumber == old(blocknumber) + 1 && incrementKey == incKey
      ensures keys == if old(blocknumber) >= 1 && incKey != NoInc
                      then StepRegister(ids, old(keys), old(blocknumber), incKey) else old(keys)
      ensures SipKeysMoved(ids, old(keys), keys, old(blocknumber), incKey)
    {
      incrementKey := incKey;
      if blocknumber >= 1 && incKey != NoInc {
        IncrementBlockKeyList();
      } else {
        UnmovedSipKeys(ids, keys, blocknumber, incKey);
      }
      blocknumber := blocknumber + 1;
    }

    /** The key in its register struct; what is behind it there is not part of the key. */
    method StepOneKey(id: nat)
      requires id in keys && |keys[id]| == SIP_KEY_BYTES && blocknumber <= Pow2(8 * SIP_KEY_BYTES)
      modifies `keys
      ensures keys == old(keys)[id := StepKey(old(keys)[id], blocknumber, incrementKey)]
    {
      var register := new byte[SIP_KEY_BYTES + 1];
      var key := keys[id];
      forall i | 0 <= i < SIP_KEY_BYTES {
        register[i] := key[i];
      }
      assert register[..SIP_KEY_BYTES] == key;
      CarryIsOneByte(key, blocknumber, incrementKey);
      IncrementByteblock(SIP_KEY_BYTES, register, blocknumber, incrementKey);
      keys := keys[id := register[..SIP_KEY_BYTES]];
    }

    method IncrementBlockKeyList()
      requires Valid() && blocknumber <= Pow2(8 * SIP_KEY_BYTES)
      modifies `keys
      ensures Valid()
      ensures keys == StepRegister(ids, old(keys), blocknumber, incrementKey)
      ensures SipKeysMoved(ids, old(keys), keys, blocknumber, incrementKey)
    {
      var k := 0;
      while k < |ids|
        invariant 0 <= k <= |ids|
        invariant keys.Keys == old(keys).Keys
        invariant forall id :: id in keys ==>
                    keys[id] == NextKey(ids[..k], id, old(keys)[id], blocknumber, incrementKey)
      {
        var id := ids[k];
        assert id !in ids[..k];
        if IsStepped(id) {
          StepOneKey(id);
        }
        assert ids[..k + 1] == ids[..k] + [id];
        k := k + 1;
      }
      assert ids[..k] == ids;
      KeyLimitIsPower();
      StepMovesSipKeys(ids, old(keys), blocknumber, incrementKey);
    }
  }

  /** Two lists that start with the same signatures and keys and step once per block in the
      same mode hold the same keys at every block: what one call does is a function of the
      block counter alone. */
  lemma {:induction false} ScheduleAdvances(ids: seq<nat>, keys: KeyRegister, mode: KeyMode, i: nat,
                                            before: KeyRegister)
    requires before == RegisterOfBlock(ids, keys, mode, if i == 0 then 0 else i - 1)
    ensures (if i >= 1 && mode != NoInc then StepRegister(ids, before, i, mode) else before)
         == RegisterOfBlock(ids, keys, mode, i)
  {
    RegisterOfFirstBlock(ids, keys, mode);
    if i >= 1 {
      RegisterOfNextBlock(ids, keys, mode, i - 1);
      NoIncKeepsRegister(ids, before, i);
    }
  }
}
