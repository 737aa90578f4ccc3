/** The `registers` exercise: four raw stores to GPIOE's bit set/reset
    register BSRR, which switch the North (PE9) and East (PE11) LEDs on and
    then off again.

    The port's output state is its sixteen pins, high or low. A store to
    BSRR sets the pins named by bits 0..15 of the value and resets the pins
    named by bits 16..31; a pin named in both halves is set. */
module Registers {
  import opened Ints

  /** Base address of the GPIOE register block. */
  const GPIOE_BASE: u32 := 0x4800_1000

  /** Offset of BSRR within a GPIO register block. */
  const BSRR_OFFSET: u32 := 0x18

  /** `const GPIOE_BSRR: u32 = 0x48001018` */
  const GPIOE_BSRR: u32 := 0x4800_1018

  /** Pins per port. */
  const PINS: nat := 16

  /** The pins of port E wired to the North and East LEDs. */
  const NORTH: nat := 9
  const EAST: nat := 11

  /** The address the program stores to is BSRR of the GPIOE block. */
  lemma BsrrAddress()
    ensures GPIOE_BASE + BSRR_OFFSET == GPIOE_BSRR
  {
  }

  function Pow2(n: nat): (p: nat)
    ensures p >= 1
  {
    if n == 0 then 1 else 2 * Pow2(n - 1)
  }

  /** Bit `k` of `v`. */
  predicate BitAt(v: nat, k: nat) {
    if k == 0 then v % 2 == 1 else BitAt(v / 2, k - 1)
  }

  /** `1 << n` has bit `n` set and no other. */
  lemma {:induction false} OnlyBit(n: nat, k: nat)
    ensures BitAt(Pow2(n), k) <==> k == n
  {
    if n == 0 {
      if k > 0 {
        NoBits(k - 1);
      }
    } else if k > 0 {
      OnlyBit(n - 1, k - 1);
    }
  }

  lemma {:induction false} NoBits(k: nat)
    ensures !BitAt(0, k)
  {
    if k > 0 {
      NoBits(k - 1);
    }
  }

  lemma {:induction false} Pow2Grows(n: nat, m: nat)
    requires n < m
    ensures Pow2(n) < Pow2(m)
  {
    if n < m - 1 {
      Pow2Grows(n, m - 1);
    }
  }

  lemma {:induction false} Pow2Add(a: nat, b: nat)
    ensures Pow2(a + b) == Pow2(a) * Pow2(b)
  {
    if b > 0 {
      Pow2Add(a, b - 1);
      assert Pow2(a + b) == 2 * Pow2(a + b - 1);
    }
  }

  lemma Pow2Known()
    ensures Pow2(PINS) == 0x1_0000 && Pow2(32) == 0x1_0000_0000
  {
    assert Pow2(8) == 0x100;
    Pow2Add(8, 8);
    Pow2Add(16, 16);
  }

  /** Bits 0..15 lie below 0x1_0000 and bits 16..31 above it, all within 32 bits. */
  lemma Pow2Range(n: nat)
    requires n < 32
    ensures Pow2(n) < 0x1_0000_0000
    ensures n < PINS <==> Pow2(n) < 0x1_0000
  {
    Pow2Known();
    Pow2Grows(n, 32);
    if n < PINS {
      Pow2Grows(n, PINS);
    } else if n > PINS {
      Pow2Grows(PINS, n);
    }
  }

  /** `1 << n`: the 32-bit value with only bit `n` set. */
  function Shl(n: nat): (v: u32)
    requires n < 32
    ensures v == Pow2(n) && (n < PINS <==> v < 0x1_0000)
  {
    Pow2Range(n);
    Pow2(n)
  }

  /** The pin states after a store of `v` to BSRR. */
  function BsrrEffect(odr: seq<bool>, v: u32): (r: seq<bool>)
    requires |odr| == PINS
    ensures |r| == PINS
  {
    seq(PINS, m requires 0 <= m < PINS => if BitAt(v, m) then true else if BitAt(v, m + PINS) then false else odr[m])
  }

  /** The pin states after the stores `vs` to BSRR, in order. */
  function Replay(odr: seq<bool>, vs: seq<u32>): (r: seq<bool>)
    requires |odr| == PINS
    ensures |r| == PINS
  {
    if vs == [] then odr else BsrrEffect(Replay(odr, vs[..|vs| - 1]), vs[|vs| - 1])
  }

  /** Writing `1 << n` drives pin `n` high and leaves every other pin as it was. */
  lemma SetDrivesHigh(odr: seq<bool>, n: nat)
    requires |odr| == PINS && n < PINS
    ensures BsrrEffect(odr, Shl(n)) == odr[n := true]
  {
    forall m | 0 <= m < PINS
      ensures BsrrEffect(odr, Shl(n))[m] == odr[n := true][m]
    {
      OnlyBit(n, m);
      OnlyBit(n, m + PINS);
    }
  }

  /** Writing `1 << (n + 16)` drives pin `n` low and leaves every other pin as it was. */
  lemma ResetDrivesLow(odr: seq<bool>, n: nat)
    requires |odr| == PINS && n < PINS
    ensures BsrrEffect(odr, Shl(n + PINS)) == odr[n := false]
  {
    var v := Shl(n + PINS);
    forall m | 0 <= m < PINS
      ensures BsrrEffect(odr, v)[m] == odr[n := false][m]
    {
      OnlyBit(n + PINS, m);
      OnlyBit(n + PINS, m + PINS);
    }
  }

  /** The set and reset values of a pin share no bit: one lies in the set
      half of the register, the other in the reset half. */
  lemma MasksDisjoint(n: nat, k: nat)
    requires n < PINS
    ensures !(BitAt(Shl(n), k) && BitAt(Shl(n + PINS), k))
    ensures Shl(n) < 0x1_0000 <= Shl(n + PINS)
  {
    OnlyBit(n, k);
    OnlyBit(n + PINS, k);
  }

  /** The four stores of `main`, in program order. */
  const MAIN_STORES: seq<u32> := [Shl(NORTH), Shl(EAST), Shl(NORTH + PINS), Shl(EAST + PINS)]

  /** The values of the four stores: `1 << 9` and `1 << 11` set PE9 and PE11,
      `1 << (9 + 16)` and `1 << (11 + 16)` reset them. */
  lemma MainStoreValues()
    ensures MAIN_STORES == [0x200, 0x800, 0x200_0000, 0x800_0000]
  {
    assert Pow2(9) == 0x200 && Pow2(11) == 0x800;
    Pow2Add(9, 16);
    Pow2Add(11, 16);
    Pow2Known();
  }

  /** Port E's pins, with every store the program makes to its BSRR. */
  class GpioE {
    /** Pin `n` of the port is high when `odr[n]` holds. */
    var odr: seq<bool>
    /** The values stored to BSRR so far, oldest first. */
    var stores: seq<u32>

    constructor (odr: seq<bool>)
      requires |odr| == PINS
      ensures this.odr == odr && stores == []
    {
      this.odr, stores := odr, [];
    }

    /** `*(GPIOE_BSRR as *mut u32) = v` */
    method WriteBsrr(v: u32)
      requires |odr| == PINS
      modifies this
      ensures odr == BsrrEffect(old(odr), v)
      ensures stores == old(stores) + [v]
    {
      odr, stores := BsrrEffect(odr, v), stores + [v];
    }
  }

  /** The `unsafe` block of `main`: North on, East on, North off, East off. */
  method RegistersMain(gpio: GpioE)
    requires |gpio.odr| == PINS
    modifies gpio
    ensures gpio.stores == old(gpio.stores) + MAIN_STORES
    ensures gpio.odr == Replay(old(gpio.odr), MAIN_STORES)
  {
    ghost var odr0 := gpio.odr;
    gpio.WriteBsrr(Shl(NORTH));
    gpio.WriteBsrr(Shl(EAST));
    gpio.WriteBsrr(Shl(NORTH + PINS));
    gpio.WriteBsrr(Shl(EAST + PINS));
    ReplayFour(odr0, Shl(NORTH), Shl(EAST), Shl(NORTH + PINS), Shl(EAST + PINS));
  }

  /** The states after two and after four stores, store by store. */
  lemma {:induction false} ReplayFour(odr: seq<bool>, a: u32, b: u32, c: u32, d: u32)
    requires |odr| == PINS
    ensures Replay(odr, [a, b, c, d][..2]) == BsrrEffect(BsrrEffect(odr, a), b)
    ensures Replay(odr, [a, b, c, d]) == BsrrEffect(BsrrEffect(Replay(odr, [a, b, c, d][..2]), c), d)
  {
    var p := [a, b, c, d];
    assert p[..1][..0] == [];
    assert Replay(odr, p[..1]) == BsrrEffect(odr, a);
    assert p[..2][..1] == p[..1];
    assert p[..3][..2] == p[..2];
    assert p[..|p| - 1] == p[..3];
  }

  /** Setting pins `n` and `e` and then resetting them, in that order, first
      drives both high and then leaves both low, touching no other pin. */
  lemma SetThenReset(odr: seq<bool>, n: nat, e: nat)
    requires |odr| == PINS && n < PINS && e < PINS
    ensures Replay(odr, [Shl(n), Shl(e), Shl(n + PINS), Shl(e + PINS)][..2]) == odr[n := true][e := true]
    ensures Replay(odr, [Shl(n), Shl(e), Shl(n + PINS), Shl(e + PINS)]) == odr[n := false][e := false]
  {
    ReplayFour(odr, Shl(n), Shl(e), Shl(n + PINS), Shl(e + PINS));
    SetBoth(odr, n, e);
    ResetBoth(odr[n := true][e := true], n, e);
    assert odr[n := true][e := true][n := false][e := false] == odr[n := false][e := false];
  }

  lemma SetBoth(odr: seq<bool>, n: nat, e: nat)
    requires |odr| == PINS && n < PINS && e < PINS
    ensures BsrrEffect(BsrrEffect(odr, Shl(n)), Shl(e)) == odr[n := true][e := true]
  {
    SetDrivesHigh(odr, n);
    SetDrivesHigh(odr[n := true], e);
  }

  lemma ResetBoth(odr: seq<bool>, n: nat, e: nat)
    requires |odr| == PINS && n < PINS && e < PINS
    ensures BsrrEffect(BsrrEffect(odr, Shl(n + PINS)), Shl(e + PINS)) == odr[n := false][e := false]
  {
    ResetDrivesLow(odr, n);
    ResetDrivesLow(odr[n := false], e);
  }

  /** After the first two stores PE9 and PE11 are high; after all four both
      are low; no other pin of the port changes. */
  lemma MainLeavesLedsOff(odr: seq<bool>)
    requires |odr| == PINS
    ensures Replay(odr, MAIN_STORES[..2]) == odr[NORTH := true][EAST := true]
    ensures Replay(odr, MAIN_STORES) == odr[NORTH := false][EAST := false]
  {
    SetThenReset(odr, NORTH, EAST);
  }
}
