/** Saving and loading the house state, in place (rw_helpers.ino). */
module EepromStore {
  import opened Eeprom

  /** `_crc16_update`, as avr-libc documents it. */
  method Crc16Update(crc0: bv16, a: bv8) returns (crc: bv16)
    ensures crc == Update(crc0, a)
  {
    hide Shift;
    hide Diff16;
    crc := Diff16(crc0, Wide(a));
    ghost var x := crc;
    var i := 0;
    while i < 8
      invariant 0 <= i <= 8
      invariant crc == Shifted(x, i)
    {
      crc := Shift(crc);
      i := i + 1;
    }
    ShiftedEight(x);
  }

  ghost function Shifted(x: bv16, n: nat): bv16 { if n == 0 then x else Shift(Shifted(x, n - 1)) }

  lemma ShiftedEight(x: bv16)
    ensures Shifted(x, 8) == Shift8(x)
  {
    hide Shift;
    var y := Shift4(x);
    assert Shifted(x, 1) == Shift(x) && Shifted(x, 2) == Shift2(x);
    assert Shifted(x, 4) == Shift(Shift(Shifted(x, 2))) == y;
    assert Shifted(x, 6) == Shift(Shift(Shifted(x, 4))) == Shift2(y);
    assert Shifted(x, 8) == Shift(Shift(Shifted(x, 6))) == Shift2(Shift2(y));
  }

  method CrcCalc(data: array<bv8>, len: nat) returns (crc: bv16)
    requires len <= data.Length
    ensures crc == Crc(0, data[..len])
  {
    hide Update;
    crc := 0;
    for index := 0 to len
      invariant crc == Crc(0, data[..index])
    {
      CrcConcat(0, data[..index], [data[index]]);
      assert data[..index + 1] == data[..index] + [data[index]];
      assert [data[index]][1..] == [];
      crc := Crc16Update(crc, data[index]);
    }
  }

  method CrcWrite(data: array<bv8>, len: nat)
    requires len + 2 <= data.Length
    modifies data
    ensures data[..len + 2] == Seal(old(data[..len])) && data[len + 2..] == old(data[len + 2..])
  {
    var crc := CrcCalc(data, len);
    data[len] := Low(crc);
    data[len + 1] := High(crc);
    assert data[..len] == old(data[..len]);
  }

  class House {
    const eeprom: array<bv8>
    const targetIp: array<bv8>
    var state: bv8

    ghost predicate Ready() { eeprom.Length >= RECORD_SIZE && targetIp.Length == TARGET_IP_SIZE && eeprom != targetIp }

    constructor (cells: array<bv8>, ip: array<bv8>)
      requires cells.Length >= RECORD_SIZE && ip.Length == TARGET_IP_SIZE && cells != ip
      ensures Ready() && eeprom == cells && targetIp == ip
    {
      eeprom, targetIp, state := cells, ip, 0;
    }

    /** The write loop: cell by cell, changed cells only. Power may fail after any number of rounds. */
    method WriteChanged(cur: array<bv8>, updated: array<bv8>, rounds: nat)
      requires Ready() && cur.Length == updated.Length == RECORD_SIZE && rounds <= RECORD_SIZE
      requires cur != eeprom && updated != eeprom && cur[..] == eeprom[..RECORD_SIZE]
      modifies eeprom
      ensures eeprom[..RECORD_SIZE] == Torn(cur[..], updated[..], rounds)
      ensures eeprom[RECORD_SIZE..] == old(eeprom[RECORD_SIZE..])
    {
      for i := 0 to rounds
        invariant forall k :: 0 <= k < RECORD_SIZE ==> eeprom[k] == if k < i then updated[k] else cur[k]
        invariant eeprom[RECORD_SIZE..] == old(eeprom[RECORD_SIZE..])
      {
        if updated[i] != cur[i] {
          eeprom[i] := updated[i];
        }
      }
    }

    /** `saveStateToEeprom`, cut short after `rounds` rounds of its write loop; 7 is a whole save. */
    method SaveStateToEeprom(rounds: nat)
      requires Ready() && rounds <= RECORD_SIZE
      modifies eeprom
      ensures eeprom[..RECORD_SIZE] == Torn(old(eeprom[..RECORD_SIZE]), Seal([state] + targetIp[..]), rounds)
      ensures eeprom[RECORD_SIZE..] == old(eeprom[RECORD_SIZE..])
      ensures rounds == RECORD_SIZE ==> Decode(eeprom[..RECORD_SIZE]) == Loaded(state, targetIp[..])
    {
      var cur := new bv8[RECORD_SIZE];
      var updated := new bv8[RECORD_SIZE];
      updated[STATE_ADDR] := state;
      for i := 0 to TARGET_IP_SIZE
        invariant updated[STATE_ADDR] == state
        invariant forall k :: 0 <= k < i ==> updated[TARGET_IP_ADDR + k] == targetIp[k]
        modifies updated
      {
        updated[TARGET_IP_ADDR + i] := targetIp[i];
      }
      assert updated[..DATA_SIZE] == [state] + targetIp[..];
      CrcWrite(updated, DATA_SIZE);
      assert updated[..] == updated[..DATA_SIZE + 2];
      for i := 0 to RECORD_SIZE
        invariant forall k :: 0 <= k < i ==> cur[k] == eeprom[k]
        modifies cur
      {
        cur[i] := eeprom[i];
      }
      ghost var rec := Seal([state] + targetIp[..]);
      assert updated[..] == rec && cur[..] == old(eeprom[..RECORD_SIZE]);
      WriteChanged(cur, updated, rounds);
      assert updated[..] == rec;
      SaveThenRead(state, targetIp[..]);
      assert rounds == RECORD_SIZE ==> Torn(cur[..], rec, rounds) == rec;
    }

    method ReadStateFromEeprom()
      requires Ready()
      modifies this, targetIp
      ensures Loaded(state, targetIp[..]) == Decode(eeprom[..RECORD_SIZE])
    {
      var cells := new bv8[RECORD_SIZE];
      for i := 0 to RECORD_SIZE
        invariant forall k :: 0 <= k < i ==> cells[k] == eeprom[k]
        modifies cells
      {
        cells[i] := eeprom[i];
      }
      assert cells[..] == cells[..RECORD_SIZE] == eeprom[..RECORD_SIZE];
      ghost var rec := eeprom[..RECORD_SIZE];
      var crc := CrcCalc(cells, RECORD_SIZE);
      if crc != 0 {
        state := 0;
        forall i | 0 <= i < TARGET_IP_SIZE { targetIp[i] := 0xff; }
        assert targetIp[..] == DEFAULTS.ip && eeprom[..RECORD_SIZE] == rec;
      } else {
        state := cells[STATE_ADDR];
        forall i | 0 <= i < TARGET_IP_SIZE { targetIp[i] := cells[TARGET_IP_ADDR + i]; }
        assert targetIp[..] == rec[TARGET_IP_ADDR..DATA_SIZE] && eeprom[..RECORD_SIZE] == rec;
      }
    }
  }
}
