/**
 * FileCipher: a keystream XOR over a process-wide pad buffer. The pad is
 * grown on demand; each new pad byte is the low byte of a 32-bit
 * recurrence, drawn until that low byte is 0. Every pad byte is therefore
 * 0 and CipherFile returns a copy of its input, whatever the key.
 *
 * The static fields (pad, seed, x, previous) are the fields of one
 * FileCipher object that every caller shares.
 */
module FileCipher {
  import opened Machine

  /** The low k bits of a ^ b, bit by bit from bit 0. */
  function XorBits(a: nat, b: nat, k: nat): (r: nat)
    ensures r < TwoTo(k)
  {
    if k == 0 then 0 else (a % 2 + b % 2) % 2 + 2 * XorBits(a / 2, b / 2, k - 1)
  }

  /** (byte)(a ^ b). */
  function Xor(a: byte, b: byte): (r: byte)
  {
    XorBits(a, b, 8)
  }

  /** XOR with 0 keeps a value of k bits. */
  lemma {:induction false} XorBitsZero(a: nat, k: nat)
    requires a < TwoTo(k)
    ensures XorBits(a, 0, k) == a
  {
    if k > 0 {
      XorBitsZero(a / 2, k - 1);
    }
  }

  /** bit 0 and the rest of bit + 2 * rest. */
  lemma SplitBit(bit: int, rest: int)
    requires 0 <= bit <= 1
    ensures (bit + 2 * rest) % 2 == bit && (bit + 2 * rest) / 2 == rest
  {
  }

  /** Adding the same bit twice modulo 2 gives back the first. */
  lemma ParityTwice(p: int, q: int)
    requires 0 <= p <= 1 && 0 <= q <= 1
    ensures ((p + q) % 2 + q) % 2 == p
  {
  }

  /** XOR twice with the same b gives back a value of k bits. */
  lemma {:induction false} XorBitsTwice(a: nat, b: nat, k: nat)
    requires a < TwoTo(k)
    ensures XorBits(XorBits(a, b, k), b, k) == a
  {
    if k > 0 {
      var p, q := a % 2, b % 2;
      var bit := (p + q) % 2;
      var rest := XorBits(a / 2, b / 2, k - 1);
      SplitBit(bit, rest);
      assert XorBits(a, b, k) == bit + 2 * rest;
      assert XorBits(bit + 2 * rest, b, k) == (bit + q) % 2 + 2 * XorBits(rest, b / 2, k - 1);
      assert a / 2 < TwoTo(k - 1);
      XorBitsTwice(a / 2, b / 2, k - 1);
      ParityTwice(p, q);
      assert a == p + 2 * (a / 2);
    }
  }

  /**
   * One step of the pad recurrence: (int)((0x13793A1F2 + (x >> 5) * 0xFF7AB) & 0xFFFFFFFF).
   * The product (x >> 5) * 0xFF7AB is an int product that wraps modulo
   * 2^32 before the sum widens it to a long; the wrap only changes it by a
   * multiple of 2^32, so the result, taken modulo 2^32 by & 0xFFFFFFFF, is
   * the one of the exact product used here. x >> 5 on an int is floor
   * division by 32 and & 0xFFFFFFFF the non-negative remainder modulo
   * 2^32, both Dafny's / and % for a positive divisor.
   */
  function NextX(x: i32): i32
  {
    Int32((0x1_3793_A1F2 + (x / 32) * 0xF_F7AB) % TWO_32)
  }

  /**
   * The do-while of PreparePad from x, run for at most fuel steps: the
   * first value after x whose low byte (x & 0xFF) is 0, or None when the
   * fuel ran out first.
   */
  function Spin(x: i32, fuel: nat): Option<i32>
    decreases fuel
  {
    if fuel == 0 then None
    else
      var y := NextX(x);
      if y % 256 == 0 then Some(y) else Spin(y, fuel - 1)
  }

  /** The value of x after count pad bytes have been drawn from x, each within fuel steps. */
  function Fill(x: i32, count: nat, fuel: nat): Option<i32>
  {
    if count == 0 then Some(x)
    else
      match Fill(x, count - 1, fuel)
      case None => None
      case Some(y) => Spin(y, fuel)
  }

  /** CipherFile of count bytes gets its pad: the pad is long enough already, or its new bytes are drawn within fuel steps. */
  predicate PadReady(padLength: int, x: i32, count: nat, fuel: nat)
  {
    count <= padLength || Fill(x, count, fuel).Some?
  }

  /** Once a pad byte could not be drawn, no later count of bytes can be drawn either. */
  lemma {:induction false} FillStuck(x: i32, n: nat, m: nat, fuel: nat)
    requires n <= m && Fill(x, n, fuel).None?
    ensures Fill(x, m, fuel).None?
    decreases m
  {
    if m > n {
      FillStuck(x, n, m - 1, fuel);
    }
  }

  /** The do-while only exits on a value whose low byte is 0: the pad byte it yields is 0. */
  lemma {:induction false} SpinLowByte(x: i32, fuel: nat)
    ensures Spin(x, fuel).Some? ==> Spin(x, fuel).value % 256 == 0
    decreases fuel
  {
    if fuel > 0 && NextX(x) % 256 != 0 {
      SpinLowByte(NextX(x), fuel - 1);
    }
  }

  /** XOR with a zero pad byte keeps the byte; XOR with the same pad byte twice gives it back. */
  lemma XorInvolution(a: byte, b: byte)
    ensures Xor(a, 0) == a
    ensures Xor(Xor(a, b), b) == a
  {
    assert TwoTo(8) == 256;
    XorBitsZero(a, 8);
    XorBitsTwice(a, b, 8);
  }

  class FileCipher {
    var pad: array<byte>
    /** The key of the last call; stored and never read. */
    var seed: int
    var x: i32
    var previous: int

    /** Every pad byte is 0, and previous never exceeds the pad's length. */
    ghost predicate Valid()
      reads this, pad
    {
      && 0 <= previous <= pad.Length
      && forall i :: 0 <= i < pad.Length ==> pad[i] == 0
    }

    /** The static initial state: an empty pad, seed, x and previous all 0. */
    constructor ()
      ensures Valid() && pad.Length == 0 && seed == 0 && x == 0 && previous == 0
    {
      pad := new byte[0];
      seed := 0;
      x := 0;
      previous := 0;
    }

    /** The do-while of PreparePad: one pad value, drawn within fuel steps. */
    method DrawPadValue(fuel: nat) returns (found: bool)
      modifies this
      ensures found == Spin(old(x), fuel).Some?
      ensures found ==> x == Spin(old(x), fuel).value
      ensures pad == old(pad) && seed == old(seed) && previous == old(previous)
    {
      var left: nat := fuel;
      found := false;
      while !found && left > 0
        invariant left <= fuel && pad == old(pad) && seed == old(seed) && previous == old(previous)
        invariant found ==> Spin(old(x), fuel) == Some(x)
        invariant !found ==> Spin(old(x), fuel) == Spin(x, left)
      {
        x := NextX(x);
        left := left - 1;
        found := x % 256 == 0;
      }
    }

    /** Array.Resize(ref pad, l) for a longer l: a new array holding the old bytes, then zeros. */
    method Resize(l: int)
      requires Valid() && l > pad.Length
      modifies this
      ensures Valid() && fresh(pad) && pad.Length == l
      ensures seed == old(seed) && x == old(x) && previous == old(previous)
    {
      var grown := new byte[l](i reads this, pad => if 0 <= i < pad.Length then pad[i] else 0);
      pad := grown;
    }

    /**
     * PreparePad(l): nothing when the pad already holds l bytes; otherwise
     * Array.Resize to l and draw the bytes from previous to l. done is
     * false when a do-while ran out of fuel, where the program would spin.
     */
    method PreparePad(l: int, fuel: nat) returns (done: bool)
      requires Valid()
      modifies this
      ensures Valid() && seed == old(seed)
      ensures l <= old(pad.Length) ==> done && pad == old(pad) && x == old(x) && previous == old(previous)
      ensures l > old(pad.Length) ==>
        && fresh(pad) && pad.Length == l
        && done == Fill(old(x), l - old(previous), fuel).Some?
        && (done ==> x == Fill(old(x), l - old(previous), fuel).value && previous == l)
    {
      done := true;
      if l > pad.Length {
        Resize(l);
        var grown := pad;
        var i := previous;
        while i < l
          invariant old(previous) <= i <= l && pad == grown && pad.Length == l
          invariant previous == old(previous) && seed == old(seed)
          invariant Fill(old(x), i - old(previous), fuel) == Some(x)
          invariant forall j :: 0 <= j < l ==> pad[j] == 0
        {
          var before := x;
          var found := DrawPadValue(fuel);
          if !found {
            assert Fill(old(x), i + 1 - old(previous), fuel).None?;
            FillStuck(old(x), i + 1 - old(previous), l - old(previous), fuel);
            return false;
          }
          SpinLowByte(before, fuel);
          pad[i] := x % 256;
          i := i + 1;
        }
        previous := l;
      }
    }

    /**
     * CipherFile(file, key): newFile[i] = file[i] ^ pad[i] over a pad
     * prepared from previous = 0. None stands for a pad loop that ran out
     * of fuel. The key is only stored.
     */
    method CipherFile(file: array<byte>, key: int, fuel: nat) returns (r: Option<array<byte>>)
      requires Valid()
      modifies this
      ensures Valid() && seed == key
      ensures r.Some? <==> PadReady(old(pad.Length), old(x), file.Length, fuel)
      ensures r.Some? ==>
        && fresh(r.value) && r.value.Length == file.Length && file.Length <= pad.Length
        && (forall i :: 0 <= i < file.Length ==> r.value[i] == Xor(file[i], pad[i]))
        && r.value[..] == file[..]
    {
      var newFile := new byte[file.Length];
      seed := key;
      previous := 0;
      var done := PreparePad(file.Length, fuel);
      if !done {
        return None;
      }
      assert newFile != pad;
      var i := 0;
      ghost var prepared, last := pad, previous;
      while i < file.Length
        invariant 0 <= i <= file.Length <= pad.Length && pad == prepared && previous == last && seed == key
        invariant Valid()
        invariant forall j :: 0 <= j < i ==> newFile[j] == Xor(file[j], pad[j]) == file[j]
      {
        XorInvolution(file[i], pad[i]);
        newFile[i] := Xor(file[i], pad[i]);
        i := i + 1;
      }
      return Some(newFile);
    }
  }
}
