/** The CRC-protected EEPROM record of the house state (rw_helpers.ino). */
module Eeprom {

  // ---- avr-libc's _crc16_update: polynomial 0xA001, low bit first

  function Shift(crc: bv16): bv16 {
    if crc & 1 == 1 then (crc >> 1) ^ 0xA001 else crc >> 1
  }

  function Shift2(crc: bv16): bv16 { Shift(Shift(crc)) }

  function Shift4(crc: bv16): bv16 { Shift2(Shift2(crc)) }

  function Shift8(crc: bv16): bv16 { Shift4(Shift4(crc)) }

  /** Exclusive or, the difference of two registers or two bytes. */
  function Diff16(x: bv16, y: bv16): bv16 { x ^ y }

  function Diff8(a: bv8, b: bv8): bv8 { a ^ b }

  function Wide(a: bv8): bv16 { a as bv16 }

  function Update(crc: bv16, a: bv8): bv16 { Shift8(Diff16(crc, Wide(a))) }

  /** The checksum register after `data`, from `crc`. */
  function Crc(crc: bv16, data: seq<bv8>): bv16
    decreases |data|
  {
    if data == [] then crc else Crc(Update(crc, data[0]), data[1..])
  }

  function Low(crc: bv16): bv8 { (crc & 0xff) as bv8 }

  function High(crc: bv16): bv8 { ((crc >> 8) & 0xff) as bv8 }

  // ---- one update is linear over exclusive or, and loses nothing

  function Branchless(x: bv16): bv16 { (x >> 1) ^ ((0 - (x & 1)) & 0xA001) }

  lemma LowBit(x: bv16)
    ensures x & 1 == 0 || x & 1 == 1
    ensures x & 1 == 1 ==> (0 - (x & 1)) & 0xA001 == 0xA001
    ensures x & 1 == 0 ==> (0 - (x & 1)) & 0xA001 == 0
  {
  }

  lemma XorZero(x: bv16)
    ensures x ^ 0 == x
  {
  }

  lemma ShiftIsBranchless(x: bv16)
    ensures Shift(x) == Branchless(x)
  {
    LowBit(x);
    XorZero(x >> 1);
  }

  lemma BranchlessLinear(x: bv16, y: bv16)
    ensures Branchless(x ^ y) == Branchless(x) ^ Branchless(y)
  {
  }

  lemma ShiftLinear(x: bv16, y: bv16)
    ensures Shift(Diff16(x, y)) == Diff16(Shift(x), Shift(y))
  {
    hide Shift;
    hide Branchless;
    ShiftIsBranchless(x);
    ShiftIsBranchless(y);
    ShiftIsBranchless(x ^ y);
    BranchlessLinear(x, y);
  }

  lemma Shift2Linear(x: bv16, y: bv16)
    ensures Shift2(Diff16(x, y)) == Diff16(Shift2(x), Shift2(y))
  {
    hide Shift;
    hide Diff16;
    ShiftLinear(x, y);
    ShiftLinear(Shift(x), Shift(y));
  }

  lemma Shift4Linear(x: bv16, y: bv16)
    ensures Shift4(Diff16(x, y)) == Diff16(Shift4(x), Shift4(y))
  {
    hide Shift2;
    hide Diff16;
    Shift2Linear(x, y);
    Shift2Linear(Shift2(x), Shift2(y));
  }

  lemma Shift8Linear(x: bv16, y: bv16)
    ensures Shift8(Diff16(x, y)) == Diff16(Shift8(x), Shift8(y))
  {
    hide Shift4;
    hide Diff16;
    Shift4Linear(x, y);
    Shift4Linear(Shift4(x), Shift4(y));
  }

  lemma DiffSwap(c: bv16, d: bv16, a: bv8, b: bv8)
    ensures Diff16(Diff16(c, d), Wide(Diff8(a, b))) == Diff16(Diff16(c, Wide(a)), Diff16(d, Wide(b)))
  {
  }

  lemma UpdateLinear(c: bv16, d: bv16, a: bv8, b: bv8)
    ensures Update(Diff16(c, d), Diff8(a, b)) == Diff16(Update(c, a), Update(d, b))
  {
    hide Shift8;
    hide Diff16;
    hide Diff8;
    hide Wide;
    DiffSwap(c, d, a, b);
    Shift8Linear(Diff16(c, Wide(a)), Diff16(d, Wide(b)));
  }

  lemma Shift8OfZero()
    ensures Shift8(0) == 0
  {
  }

  /** Only the zero register shifts to zero. */
  lemma Shift8Zero(x: bv16)
    ensures Shift8(x) == 0 ==> x == 0
  {
  }

  /** Eight steps on a non-zero value below 256 end with a non-zero high byte. */
  lemma BurstLeavesHighByte(x: bv16)
    requires 0 < x < 0x100
    ensures Shift8(x) >= 0x100
  {
  }

  /** Eight steps on a value with a zero low byte just move its high byte down. */
  lemma HighByteMovesDown(x: bv16)
    requires x & 0xff == 0
    ensures Shift8(x) == x >> 8
  {
  }

  lemma DiffSelf(x: bv16)
    ensures Diff16(x, x) == 0
  {
  }

  lemma DiffZero(x: bv16, y: bv16)
    requires Diff16(x, y) == 0
    ensures x == y
  {
  }

  lemma DiffWithZero(x: bv16)
    ensures Diff16(x, 0) == x && Diff16(0, x) == x
  {
  }

  lemma DiffByte(a: bv8, b: bv8)
    ensures Diff8(a, b) == 0 <==> a == b
  {
  }

  function Diff(s: seq<bv8>, t: seq<bv8>): (r: seq<bv8>)
    requires |s| == |t|
  {
    seq(|s|, i requires 0 <= i < |s| => Diff8(s[i], t[i]))
  }

  // ---- whole records

  /** The checksum of a difference is the difference of the checksums. */
  lemma {:induction false} CrcLinear(c: bv16, d: bv16, s: seq<bv8>, t: seq<bv8>)
    requires |s| == |t|
    ensures Crc(Diff16(c, d), Diff(s, t)) == Diff16(Crc(c, s), Crc(d, t))
    decreases |s|
  {
    hide Update;
    hide Diff16;
    hide Diff8;
    if s != [] {
      UpdateLinear(c, d, s[0], t[0]);
      CrcLinear(Update(c, s[0]), Update(d, t[0]), s[1..], t[1..]);
      assert Diff(s, t)[1..] == Diff(s[1..], t[1..]);
    }
  }

  lemma {:induction false} CrcConcat(c: bv16, s: seq<bv8>, t: seq<bv8>)
    ensures Crc(c, s + t) == Crc(Crc(c, s), t)
    decreases |s|
  {
    hide Update;
    if s == [] {
      assert s + t == t;
    } else {
      CrcConcat(Update(c, s[0]), s[1..], t);
      assert (s + t)[0] == s[0] && (s + t)[1..] == s[1..] + t;
    }
  }

  predicate AllZero(s: seq<bv8>) { forall i :: 0 <= i < |s| ==> s[i] == 0 }

  lemma UpdateByZero(c: bv16)
    ensures Update(c, 0) == 0 <==> c == 0
  {
    hide Shift8;
    hide Diff16;
    DiffWithZero(c);
    Shift8Zero(c);
    Shift8OfZero();
  }

  /** Zero bytes keep a non-zero register non-zero. */
  lemma {:induction false} CrcOverZeros(c: bv16, s: seq<bv8>)
    requires AllZero(s)
    ensures Crc(c, s) == 0 <==> c == 0
    decreases |s|
  {
    hide Update;
    if s != [] {
      UpdateByZero(c);
      CrcOverZeros(Update(c, 0), s[1..]);
    }
  }

  /** Two records of one length have the same checksum exactly when their difference has checksum 0. */
  lemma SameCrc(s: seq<bv8>, t: seq<bv8>)
    requires |s| == |t|
    ensures Crc(0, s) == Crc(0, t) <==> Crc(0, Diff(s, t)) == 0
  {
    hide Update;
    hide Diff16;
    hide Diff8;
    CrcLinear(0, 0, s, t);
    DiffSelf(0);
    DiffSelf(Crc(0, s));
    if Diff16(Crc(0, s), Crc(0, t)) == 0 {
      DiffZero(Crc(0, s), Crc(0, t));
    }
  }

  /** `s` and `t` differ, and only at `p` and perhaps `p + 1`. */
  predicate DifferAt(s: seq<bv8>, t: seq<bv8>, p: nat)
    requires |s| == |t|
  {
    s != t && forall i :: 0 <= i < |s| && s[i] != t[i] ==> i == p || i == p + 1
  }

  /** Two updates from zero bring the register back to zero only for two zero bytes. */
  lemma TwoUpdates(a: bv8, b: bv8)
    ensures Update(Update(0, a), b) == 0 <==> a == 0 && b == 0
  {
    hide Shift8;
    hide Diff16;
    DiffWithZero(Wide(a));
    Shift8OfZero();
    if a == 0 {
      UpdateByZero(0);
      DiffWithZero(Wide(b));
      Shift8Zero(Wide(b));
    } else {
      var x := Shift8(Wide(a));
      BurstLeavesHighByte(Wide(a));
      Shift8Zero(Diff16(x, Wide(b)));
      if Diff16(x, Wide(b)) == 0 {
        DiffZero(x, Wide(b));
        assert false;
      }
    }
  }

  /** Zero bytes, then two bytes, then zero bytes: only all zeros has checksum zero. */
  lemma BurstCrc(e: seq<bv8>, p: nat)
    requires p < |e| && forall i :: 0 <= i < |e| && e[i] != 0 ==> i == p || i == p + 1
    ensures Crc(0, e) == 0 <==> AllZero(e)
  {
    hide Update;
    var x := e[..p];
    assert e == x + e[p..];
    CrcConcat(0, x, e[p..]);
    CrcOverZeros(0, x);
    if p + 1 == |e| {
      assert e[p..] == [e[p]] && Crc(0, [e[p]]) == Update(0, e[p]);
      TwoUpdates(e[p], 0);
      UpdateByZero(Update(0, e[p]));
    } else {
      var z := e[p + 2..];
      assert e[p..][1..][1..] == z;
      assert Crc(0, e[p..]) == Crc(Update(Update(0, e[p]), e[p + 1]), z);
      CrcOverZeros(Update(Update(0, e[p]), e[p + 1]), z);
      TwoUpdates(e[p], e[p + 1]);
    }
  }

  /** Changing one byte or two adjacent bytes always changes the checksum. */
  lemma BurstDetected(s: seq<bv8>, t: seq<bv8>, p: nat)
    requires |s| == |t| && DifferAt(s, t, p)
    ensures Crc(0, s) != Crc(0, t)
  {
    hide Update;
    hide Diff8;
    var e := Diff(s, t);
    forall i | 0 <= i < |s| ensures e[i] == 0 <==> s[i] == t[i] { DiffByte(s[i], t[i]); }
    var k :| 0 <= k < |s| && s[k] != t[k];
    BurstCrc(e, p);
    SameCrc(s, t);
  }

  /** The data followed by its checksum, low byte first. */
  function Seal(data: seq<bv8>): seq<bv8> { data + [Low(Crc(0, data)), High(Crc(0, data))] }

  lemma LowHigh(c: bv16)
    ensures Diff16(c, Wide(Low(c))) & 0xff == 0
    ensures Diff16(c, Wide(Low(c))) >> 8 == c >> 8
    ensures c >> 8 == Wide(High(c))
  {
  }

  lemma SealSteps(c: bv16)
    ensures Update(Update(c, Low(c)), High(c)) == 0
  {
    hide Shift8;
    hide Diff16;
    hide Wide;
    hide Low;
    hide High;
    LowHigh(c);
    HighByteMovesDown(Diff16(c, Wide(Low(c))));
    DiffSelf(Wide(High(c)));
    Shift8OfZero();
  }

  /** A record checks exactly when it is sealed with its own checksum. */
  lemma SealedIff(data: seq<bv8>, lo: bv8, hi: bv8)
    ensures Crc(0, data + [lo, hi]) == 0 <==> data + [lo, hi] == Seal(data)
  {
    hide Update;
    hide Low;
    hide High;
    var c := Crc(0, data);
    var good := [Low(c), High(c)];
    CrcConcat(0, data, good);
    SealSteps(c);
    assert good[1..] == [High(c)] && good[1..][1..] == [];
    assert Crc(c, good) == Crc(Update(c, Low(c)), [High(c)]);
    if [lo, hi] != good {
      var (s, t) := (data + [lo, hi], data + good);
      assert s[|data|] == lo && t[|data|] == good[0] && s[|data| + 1] == hi && t[|data| + 1] == good[1];
      BurstDetected(s, t, |data|);
    }
  }

  lemma CrcThree(crc: bv16, a: bv8, b: bv8, c: bv8, rest: seq<bv8>)
    ensures Crc(crc, [a, b, c] + rest) == Crc(Update(Update(Update(crc, a), b), c), rest)
  {
    hide Update;
    hide Crc;
    var (s1, s2, s3) := ([a, b, c] + rest, [b, c] + rest, [c] + rest);
    assert s1 == [a] + s2 && s2 == [b] + s3;
    CrcCons(crc, a, s2);
    CrcCons(Update(crc, a), b, s3);
    CrcCons(Update(Update(crc, a), b), c, rest);
  }

  lemma CrcCons(crc: bv16, a: bv8, rest: seq<bv8>)
    ensures Crc(crc, [a] + rest) == Crc(Update(crc, a), rest)
  {
    hide Update;
    assert ([a] + rest)[1..] == rest;
  }

  lemma FirstDigits()
    ensures Update(Update(Update(0, 49), 50), 51) == 0xBA04
  {
    assert Update(0, 49) == 0xD4C1;
    assert Update(0xD4C1, 50) == 0x4594;
    assert Update(0x4594, 51) == 0xBA04;
  }

  lemma MiddleDigits()
    ensures Update(Update(Update(0xBA04, 52), 53), 54) == 0x29E4
  {
    assert Update(0xBA04, 52) == 0x14BA;
    assert Update(0x14BA, 53) == 0xA455;
    assert Update(0xA455, 54) == 0x29E4;
  }

  lemma LastDigits()
    ensures Update(Update(Update(0x29E4, 55), 56), 57) == 0xBB3D
  {
    assert Update(0x29E4, 55) == 0x9D68;
    assert Update(0x9D68, 56) == 0x3C9D;
    assert Update(0x3C9D, 57) == 0xBB3D;
  }

  /** The check value of CRC-16/ARC: the digits 1 to 9 give 0xBB3D. */
  lemma CheckValue()
    ensures Crc(0, [49, 50, 51, 52, 53, 54, 55, 56, 57]) == 0xBB3D
  {
    hide Update;
    hide Crc;
    FirstDigits();
    MiddleDigits();
    LastDigits();
    var (none: seq<bv8>, tail: seq<bv8>, rest: seq<bv8>) := ([], [55, 56, 57], [52, 53, 54, 55, 56, 57]);
    CrcThree(0, 49, 50, 51, rest);
    CrcThree(0xBA04, 52, 53, 54, tail);
    CrcThree(0x29E4, 55, 56, 57, none);
    CrcOfNone(0xBB3D);
    assert [49, 50, 51] + rest == [49, 50, 51, 52, 53, 54, 55, 56, 57];
    assert [52, 53, 54] + tail == rest && [55, 56, 57] + none == tail;
  }

  lemma CrcOfNone(crc: bv16)
    ensures Crc(crc, []) == crc
  {
  }

  // ---- the record of rw_helpers.ino

  const STATE_ADDR := 0
  const TARGET_IP_ADDR := 1
  const TARGET_IP_SIZE := 4
  const DATA_SIZE := 5
  const RECORD_SIZE := 7

  datatype Loaded = Loaded(state: bv8, ip: seq<bv8>)

  const DEFAULTS := Loaded(0, [0xff, 0xff, 0xff, 0xff])

  /** What `readStateFromEeprom` makes of the first seven cells. */
  function Decode(rec: seq<bv8>): Loaded
    requires |rec| == RECORD_SIZE
  {
    if Crc(0, rec) != 0 then DEFAULTS else Loaded(rec[STATE_ADDR], rec[TARGET_IP_ADDR..DATA_SIZE])
  }

  predicate Valid(rec: seq<bv8>) { |rec| == RECORD_SIZE && Crc(0, rec) == 0 }

  lemma SealValid(data: seq<bv8>)
    ensures Crc(0, Seal(data)) == 0
  {
    SealedIff(data, Low(Crc(0, data)), High(Crc(0, data)));
  }

  /** What was saved is read back. */
  lemma SaveThenRead(state: bv8, ip: seq<bv8>)
    requires |ip| == TARGET_IP_SIZE
    ensures Valid(Seal([state] + ip)) && Decode(Seal([state] + ip)) == Loaded(state, ip)
    ensures Seal([state] + ip)[0] == state && Seal([state] + ip)[1..5] == ip
  {
    SealValid([state] + ip);
    assert Seal([state] + ip)[TARGET_IP_ADDR..DATA_SIZE] == ip;
  }

  /** A valid record with one byte or two adjacent bytes changed reads as the defaults. */
  lemma CorruptionLoadsDefaults(rec: seq<bv8>, bad: seq<bv8>, p: nat)
    requires Valid(rec) && |bad| == |rec| && DifferAt(rec, bad, p)
    ensures Decode(bad) == Loaded(0, [0xff, 0xff, 0xff, 0xff])
  {
    BurstDetected(rec, bad, p);
  }

  // ---- a save that power loss cuts short

  /** The cells after `k` rounds of the write loop. */
  function Torn(was: seq<bv8>, now: seq<bv8>, k: nat): seq<bv8>
    requires |was| == |now| && k <= |now|
  {
    now[..k] + was[k..]
  }

  function Data(rec: seq<bv8>): seq<bv8>
    requires |rec| == RECORD_SIZE
  {
    rec[..DATA_SIZE]
  }

  lemma SameDataSameRecord(a: seq<bv8>, b: seq<bv8>)
    requires Valid(a) && Valid(b) && Data(a) == Data(b)
    ensures a == b
  {
    assert a == Data(a) + [a[5], a[6]] && b == Data(b) + [b[5], b[6]];
    SealedIff(Data(a), a[5], a[6]);
    SealedIff(Data(b), b[5], b[6]);
  }

  /** A record torn inside its data checks exactly when the part already written differs from the old
      bytes by something with checksum zero. */
  lemma TornValid(was: seq<bv8>, now: seq<bv8>, k: nat)
    requires Valid(was) && Valid(now) && k <= DATA_SIZE
    ensures Valid(Torn(was, now, k)) <==> Crc(0, Diff(was[..k], now[..k])) == 0
  {
    hide Update;
    hide Diff8;
    var t := Torn(was, now, k);
    var zeros := seq(RECORD_SIZE - k, i => 0 as bv8);
    forall i | 0 <= i < RECORD_SIZE ensures Diff(was, t)[i] == (Diff(was[..k], now[..k]) + zeros)[i] {
      if i >= k { DiffByte(was[i], t[i]); }
    }
    assert Diff(was, t) == Diff(was[..k], now[..k]) + zeros;
    CrcConcat(0, Diff(was[..k], now[..k]), zeros);
    CrcOverZeros(Crc(0, Diff(was[..k], now[..k])), zeros);
    SameCrc(was, t);
  }

  /** Torn between the two checksum bytes, a record is the new one or it does not check. */
  lemma TornInChecksum(was: seq<bv8>, now: seq<bv8>, k: nat)
    requires Valid(was) && Valid(now) && DATA_SIZE <= k <= RECORD_SIZE
    ensures Valid(Torn(was, now, k)) <==> Torn(was, now, k) == now
  {
    var t := Torn(was, now, k);
    assert Data(t) == Data(now);
    if Valid(t) { SameDataSameRecord(t, now); }
  }

  /** Exactly when an interrupted save reads back as the old record, the new one, or as invalid:
      unless the written part has a difference with checksum zero while bytes on both sides of the
      tear were to change. */
  lemma TornSafeIff(was: seq<bv8>, now: seq<bv8>, k: nat)
    requires Valid(was) && Valid(now) && k <= RECORD_SIZE
    ensures var t := Torn(was, now, k);
            (Crc(0, t) != 0 || t == was || t == now)
            <==> (k >= DATA_SIZE || Crc(0, Diff(was[..k], now[..k])) != 0
                  || was[..k] == now[..k] || was[k..DATA_SIZE] == now[k..DATA_SIZE])
  {
    var t := Torn(was, now, k);
    if k >= DATA_SIZE {
      TornInChecksum(was, now, k);
    } else {
      TornValid(was, now, k);
      assert t[..k] == now[..k] && t[k..] == was[k..];
      assert was == was[..k] + was[k..] && now == now[..k] + now[k..];
      if t == now { assert was[k..DATA_SIZE] == t[k..DATA_SIZE]; }
      if was[k..DATA_SIZE] == now[k..DATA_SIZE] && Valid(t) {
        assert Data(t) == now[..k] + now[k..DATA_SIZE] == Data(now);
        SameDataSameRecord(t, now);
      }
    }
  }

  /** If the data of two valid records differ in one byte or two adjacent ones, an interrupted save
      never leaves a mixture. */
  lemma TornSafe(was: seq<bv8>, now: seq<bv8>, p: nat, k: nat)
    requires Valid(was) && Valid(now) && k <= RECORD_SIZE
    requires DifferAt(Data(was), Data(now), p)
    ensures Decode(Torn(was, now, k)) in {Decode(was), Decode(now), DEFAULTS}
  {
    TornSafeIff(was, now, k);
    if k < DATA_SIZE && was[..k] != now[..k] {
      var (s, t) := (was[..k], now[..k]);
      forall i | 0 <= i < k && s[i] != t[i] ensures i == p || i == p + 1 {
        assert Data(was)[i] == s[i] && Data(now)[i] == t[i];
      }
      BurstDetected(s, t, p);
      SameCrc(s, t);
    }
  }

  /** Three bytes that differ by a multiple of the polynomial are enough for a mixture: state and half
      of the address are new, the rest is old, and the checksum does not notice. */
  lemma MixtureExample()
    ensures var (was, now) := (Seal([0, 0, 0, 0, 0]), Seal([1, 0xC1, 0xC0, 7, 0]));
            && Valid(was) && Valid(now) && Valid(Torn(was, now, 3))
            && Decode(Torn(was, now, 3)) == Loaded(1, [0xC1, 0xC0, 0, 0])
  {
    hide Crc;
    hide Diff;
    hide Low;
    hide High;
    var (was, now) := (Seal([0, 0, 0, 0, 0]), Seal([1, 0xC1, 0xC0, 7, 0]));
    SealValid([0, 0, 0, 0, 0]);
    SealValid([1, 0xC1, 0xC0, 7, 0]);
    MixtureChecks();
    assert was[..3] == [0, 0, 0] && now[..3] == [1, 0xC1, 0xC0];
    TornValid(was, now, 3);
    var t := Torn(was, now, 3);
    assert t[0] == 1 && t[1] == 0xC1 && t[2] == 0xC0 && t[3] == was[3] == 0 && t[4] == was[4] == 0;
    assert t[TARGET_IP_ADDR..DATA_SIZE] == [0xC1, 0xC0, 0, 0];
  }

  lemma MixtureDiff()
    ensures Diff([0, 0, 0], [1, 0xC1, 0xC0]) == [1, 0xC1, 0xC0]
  {
    assert Diff8(0, 1) == 1 && Diff8(0, 0xC1) == 0xC1 && Diff8(0, 0xC0) == 0xC0;
  }

  lemma MixtureChecks()
    ensures Crc(0, Diff([0, 0, 0], [1, 0xC1, 0xC0])) == 0
  {
    MixtureDiff();
    MixtureCrc();
  }

  lemma MixtureCrc()
    ensures Crc(0, [1, 0xC1, 0xC0]) == 0
  {
    var d: seq<bv8> := [1, 0xC1, 0xC0];
    assert d[1..] == [0xC1, 0xC0] && d[1..][1..] == [0xC0] && d[1..][1..][1..] == [];
    assert Update(0, 1) == 0xC0C1;
    assert Update(0xC0C1, 0xC1) == 0xC0;
    assert Update(0xC0, 0xC0) == 0;
  }
}
