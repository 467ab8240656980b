/** wire/cotp.go: the rack/slot part of a TSAP. */
module Tsap {
  import opened Bytes

  datatype RangeError = BadRack | BadSlot

  function ValidateRackSlot(rack: int, slot: int): Option<RangeError> {
    if rack < 0 || rack > 7 then Some(BadRack)
    else if slot < 0 || slot > 31 then Some(BadSlot)
    else None
  }

  /** ((rack & 0x07) << 5) | (slot & 0x1F): the two fields do not overlap, so the bitwise or is a sum. */
  function EncodeRackSlotTSAP(rack: byte, slot: byte): byte {
    (rack % 8) * 32 + slot % 32
  }

  /** The connection type is cut to the eight bits its shift leaves room for. */
  function BuildTSAP(connType: int, rack: int, slot: int): (r: Result<u16, RangeError>)
    ensures r.Ok? <==> ValidateRackSlot(rack, slot).None?
  {
    match ValidateRackSlot(rack, slot)
    case Some(e) => Err(e)
    case None => Ok((connType % 0x100) * 0x100 + EncodeRackSlotTSAP(rack, slot))
  }

  function RackOf(tsap: u16): int { tsap % 0x100 / 32 }
  function SlotOf(tsap: u16): int { tsap % 32 }

  /** A TSAP is derived exactly for racks 0 to 7 and slots 0 to 31, and names its connection type (modulo 256), rack and slot. */
  lemma TsapRoundTrip(connType: int, rack: int, slot: int)
    ensures BuildTSAP(connType, rack, slot).Ok? <==> 0 <= rack <= 7 && 0 <= slot <= 31
    ensures BuildTSAP(connType, rack, slot).Ok? ==>
              var t := BuildTSAP(connType, rack, slot).value;
              t / 0x100 == connType % 0x100 && RackOf(t) == rack && SlotOf(t) == slot
  {
    if BuildTSAP(connType, rack, slot).Ok? {
      assert rack % 8 == rack && slot % 32 == slot;
      Packed(connType % 0x100, rack, slot);
    }
  }

  lemma Packed(c: nat, rack: nat, slot: nat)
    requires c < 0x100 && rack < 8 && slot < 32
    ensures var t := c * 0x100 + (rack * 32 + slot);
            t < 0x1_0000 && t / 0x100 == c && t % 0x100 / 32 == rack && t % 32 == slot
  {
    var t, low := c * 0x100 + (rack * 32 + slot), rack * 32 + slot;
    assert t % 0x100 == low && low / 32 == rack;
    assert t == 32 * (c * 8 + rack) + slot;
  }

  // ---------------------------------------------------------------- the bitwise reading

  function Or(a: nat, b: nat): nat
    decreases a + b
  {
    if a == 0 then b else if b == 0 then a
    else 2 * Or(a / 2, b / 2) + if a % 2 == 1 || b % 2 == 1 then 1 else 0
  }

  function And(a: nat, b: nat): nat {
    if a == 0 || b == 0 then 0
    else 2 * And(a / 2, b / 2) + if a % 2 == 1 && b % 2 == 1 then 1 else 0
  }

  function Shl(a: nat, k: nat): nat {
    if k == 0 then a else 2 * Shl(a, k - 1)
  }

  lemma {:induction false} OrOfDisjoint(a: nat, b: nat, k: nat)
    requires b < Shl(1, k)
    ensures Or(Shl(a, k), b) == Shl(a, k) + b
    decreases k
  {
    if k > 0 {
      OrOfDisjoint(a, b / 2, k - 1);
    }
  }

  /** The low k bits. */
  function Low(x: nat, k: nat): nat {
    if k == 0 then 0 else 2 * Low(x / 2, k - 1) + x % 2
  }

  lemma {:induction false} AndOfMask(x: nat, k: nat, mask: nat)
    requires mask + 1 == Shl(1, k)
    ensures And(x, mask) == Low(x, k)
    decreases k
  {
    if k > 0 {
      var half := Shl(1, k - 1) - 1;
      assert mask == 2 * half + 1;
      AndOfMask(x / 2, k - 1, half);
      if x == 0 {
        LowOfZero(k);
      }
    }
  }

  lemma {:induction false} LowOfZero(k: nat)
    ensures Low(0, k) == 0
    decreases k
  {
    if k > 0 {
      LowOfZero(k - 1);
    }
  }

  /** The packed byte is ((rack & 0x07) << 5) | (slot & 0x1F), for every rack and slot byte. */
  lemma PackingIsBitwise(rack: byte, slot: byte)
    ensures EncodeRackSlotTSAP(rack, slot) == Or(Shl(And(rack, 0x07), 5), And(slot, 0x1F))
  {
    Shifts(1);
    AndOfMask(rack, 3, 0x07);
    AndOfMask(slot, 5, 0x1F);
    ThreeLowBits(rack);
    FiveLowBits(slot);
    Shifts(rack % 8);
    OrOfDisjoint(rack % 8, slot % 32, 5);
  }

  lemma ThreeLowBits(x: nat)
    ensures Low(x, 3) == x % 8
  {
    TwoLowBits(x / 2);
    assert Low(x, 3) == 2 * Low(x / 2, 2) + x % 2;
  }

  lemma FourLowBits(x: nat)
    ensures Low(x, 4) == x % 16
  {
    ThreeLowBits(x / 2);
    assert Low(x, 4) == 2 * Low(x / 2, 3) + x % 2;
  }

  lemma FiveLowBits(x: nat)
    ensures Low(x, 5) == x % 32
  {
    FourLowBits(x / 2);
    assert Low(x, 5) == 2 * Low(x / 2, 4) + x % 2;
  }

  lemma TwoLowBits(x: nat)
    ensures Low(x, 2) == x % 4
  {
    assert Low(x / 2, 1) == 2 * Low(x / 2 / 2, 0) + x / 2 % 2;
    assert Low(x, 2) == 2 * Low(x / 2, 1) + x % 2;
  }

  lemma Shifts(a: nat)
    ensures Shl(a, 3) == 8 * a && Shl(a, 5) == 32 * a
  {
    assert Shl(a, 1) == 2 * Shl(a, 0) && Shl(a, 2) == 2 * Shl(a, 1);
    assert Shl(a, 3) == 2 * Shl(a, 2) && Shl(a, 4) == 2 * Shl(a, 3) && Shl(a, 5) == 2 * Shl(a, 4);
  }
}
