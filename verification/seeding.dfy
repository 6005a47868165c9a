/** The seeding computation of the constructor: `wolframToBinary` derives
    eight "bits" from the code by repeated divisibility checks and
    subtractions, then flattens them into a string. In Java `2^k` is the
    bitwise exclusive-or of 2 and k, not a power of two, so the divisors and
    subtrahends are the constants below, and the string keeps only the digit
    written last. */
module Seeding {
  import opened Java
  import opened JavaText
  import opened Rule

  /** The value of the Java expression `2^k` for k = 0, ..., 7. */
  const Carets: seq<nat> := [2, 3, 0, 1, 6, 7, 4, 5]

  /** `2^k` in Java is exclusive-or, and takes the values listed in `Carets`. */
  lemma CaretValues(k: nat)
    requires k <= 7
    ensures Xor(2, k) == Carets[k]
  {
    match k
    case 0 => assert Xor(2, 0) == 2;
    case 1 => assert Xor(2, 1) == 2 * Xor(1, 0) + 1;
    case 2 => assert Xor(2, 2) == 2 * Xor(1, 1) + 0;
    case 3 => assert Xor(2, 3) == 2 * Xor(1, 1) + 1;
    case 4 => assert Xor(2, 4) == 2 * Xor(1, 2) + 0;
    case 5 => assert Xor(2, 5) == 2 * Xor(1, 2) + 1;
    case 6 => assert Xor(2, 6) == 2 * Xor(1, 3) + 0;
    case 7 => assert Xor(2, 7) == 2 * Xor(1, 3) + 1;
  }

  /** The divisor of the check for bit k: `2^k`, except the literal 4 written
      in the check for bit 2. */
  function Divisor(k: nat): (d: nat)
    requires k <= 7
    ensures 1 <= d && d == (if k == 2 then 4 else Carets[k])
  {
    CaretValues(k);
    if k == 2 then 4 else Xor(2, k)
  }

  /** The amount taken off the running value when bit k is set: `2^k`. */
  function Subtrahend(k: nat): (s: Int32)
    requires k <= 7
    ensures s == Carets[k]
  {
    CaretValues(k);
    Xor(2, k)
  }

  /** One check-and-subtract pair: bit k is 1 exactly when the running value is
      divisible by `Divisor(k)`, in which case `Subtrahend(k)` is taken off
      it with `int` wrap-around. Returns the bit and the new running value. */
  function ExtractBit(w: Int32, k: nat): (r: (int, Int32))
    requires k <= 7
    ensures IsBit(r.0)
    ensures r.0 == 1 <==> w % Divisor(k) == 0
    ensures r.0 == 1 ==> r.1 == Sub(w, Carets[k])
    ensures r.0 == 0 ==> r.1 == w
  {
    var bit := if Rem(w, Divisor(k)) == 0 then 1 else 0;
    (bit, if bit == 1 then Sub(w, Subtrahend(k)) else w)
  }

  /** Bits k, k - 1, ..., 0 in the order the source computes them, starting
      from the running value `w`; the result is indexed by bit number. */
  function ExtractBits(w: Int32, k: int): (bits: seq<int>)
    requires -1 <= k <= 7
    ensures |bits| == k + 1
    ensures forall j :: 0 <= j < |bits| ==> IsBit(bits[j])
    ensures 3 <= k ==> bits[3] == 1
    decreases k + 1
  {
    if k < 0 then []
    else
      var step := ExtractBit(w, k);
      ExtractBits(step.1, k - 1) + [step.0]
  }

  /** The array `bits` that `wolframToBinary` fills from `code`. */
  function Bits(code: Int32): (bits: seq<int>)
    ensures |bits| == 8
    ensures forall j :: 0 <= j < 8 ==> IsBit(bits[j])
    ensures bits[3] == 1
    ensures bits[7] == 1 <==> code % 5 == 0
  {
    var bits := ExtractBits(code, 7);
    assert bits[7] == ExtractBit(code, 7).0;
    bits
  }

  /** The check for bit 2 subtracts `2^2`, which is 0: it never changes the
      running value. */
  lemma BitTwoKeepsValue(w: Int32)
    ensures ExtractBit(w, 2).1 == w
  {
  }

  /** Bit 3 is checked against `2^3`, which is 1, so it is always set. */
  lemma BitThreeAlwaysSet(w: Int32)
    ensures ExtractBit(w, 3).0 == 1
  {
  }

  /** Binary digit k of n, for n in 0..255. */
  function BinaryDigit(n: nat, k: nat): int
    requires k <= 7
  {
    (n / Pow2(k)) % 2
  }

  /** The bits are not the binary digits of the code: for 18 (binary
      00010010) the source sets bits 3 and 4 instead of bits 1 and 4. */
  lemma BitsOfEighteen()
    ensures Bits(18) == [0, 0, 0, 1, 1, 0, 0, 0]
    ensures BinaryDigit(18, 1) == 1 && Bits(18)[1] == 0
  {
    var s7 := ExtractBit(18, 7);
    assert s7 == (0, 18);
    var s6 := ExtractBit(18, 6);
    assert s6 == (0, 18);
    var s5 := ExtractBit(18, 5);
    assert s5 == (0, 18);
    var s4 := ExtractBit(18, 4);
    assert s4 == (1, 12);
    var s3 := ExtractBit(12, 3);
    assert s3 == (1, 11);
    var s2 := ExtractBit(11, 2);
    assert s2 == (0, 11);
    var s1 := ExtractBit(11, 1);
    assert s1 == (0, 11);
    var s0 := ExtractBit(11, 0);
    assert s0 == (0, 11);
    assert ExtractBits(11, -1) == [];
    assert ExtractBits(11, 0) == [0];
    assert ExtractBits(11, 1) == [0, 0];
    assert ExtractBits(11, 2) == [0, 0, 0];
    assert ExtractBits(12, 3) == [0, 0, 0, 1];
    assert ExtractBits(18, 4) == [0, 0, 0, 1, 1];
    assert ExtractBits(18, 5) == [0, 0, 0, 1, 1, 0];
    assert ExtractBits(18, 6) == [0, 0, 0, 1, 1, 0, 0];
    assert Pow2(1) == 2;
  }

  /** `wolframToBinary(code)`: each pass of the loop over `bits` replaces the
      string instead of appending to it, so what is returned is the last
      digit visited, `bits[7]`, followed by one space. */
  method WolframToBinary(code: Int32) returns (initialState: string)
    ensures initialState == (if code % 5 == 0 then "1 " else "0 ")
  {
    initialState := "";
    var bits := Bits(code);
    for i := 0 to |bits|
      invariant 0 < i ==> initialState == IntToString(bits[i - 1]) + " "
    {
      initialState := "" + IntToString(bits[i]) + " ";
    }
  }
}
