/** The local transition rule: the next value of a cell from its
    (left, centre, right) neighbourhood. */
module Rule {
  import opened Java

  predicate IsBit(x: int) { x == 0 || x == 1 }

  function ToBit(b: bool): int { if b then 1 else 0 }

  function Pow2(k: nat): (p: nat)
    ensures 1 <= p
  {
    if k == 0 then 1 else 2 * Pow2(k - 1)
  }

  /** Wolfram's numbering of the elementary rules: under rule `number`, a
      cell whose neighbourhood reads (l, c, r) becomes bit 4l + 2c + r of
      `number`. */
  function WolframRule(number: nat, l: int, c: int, r: int): (n: int)
    requires IsBit(l) && IsBit(c) && IsBit(r)
    ensures IsBit(n)
  {
    (number / Pow2(4 * l + 2 * c + r)) % 2
  }

  /** The same transition on truth values: a cell is on next when exactly one
      of "left on and centre off" and "right on" holds. */
  predicate Rule154(l: bool, c: bool, r: bool) { (l && !c) != r }

  /** `calculateNextState(l, c, r)`: `(l * c + l + r) % 2` on Java `int`s,
      each operation wrapping and the remainder truncating. */
  function CalculateNextState(l: Int32, c: Int32, r: Int32): (n: Int32)
    ensures -1 <= n <= 1
    ensures IsBit(l) && IsBit(c) && IsBit(r) ==> IsBit(n)
  {
    Rem(Wrap(Wrap(Wrap(l * c) + l) + r), 2)
  }

  /** On bits no operation wraps and the remainder is the usual one. */
  lemma CalculateNextStateOnBits(l: int, c: int, r: int)
    requires IsBit(l) && IsBit(c) && IsBit(r)
    ensures CalculateNextState(l, c, r) == (l * c + l + r) % 2
  {
    var p := l * c;
    assert p == if l == 1 && c == 1 then 1 else 0;
    assert Wrap(p) == p;
    assert Wrap(p + l) == p + l;
    assert Wrap(p + l + r) == p + l + r;
  }

  /** On bits the formula is rule 154 of Wolfram's numbering, whatever code
      the automaton was built with. */
  lemma {:induction false} CalculateNextStateIsWolfram154(l: int, c: int, r: int)
    requires IsBit(l) && IsBit(c) && IsBit(r)
    ensures CalculateNextState(l, c, r) == WolframRule(154, l, c, r)
  {
    CalculateNextStateTable(l, c, r);
    WolframTable(l, c, r);
  }

  lemma WolframTable(l: int, c: int, r: int)
    requires IsBit(l) && IsBit(c) && IsBit(r)
    ensures WolframRule(154, l, c, r) == RuleTable[4 * l + 2 * c + r]
  {
    var k := 4 * l + 2 * c + r;
    assert 0 <= k < 8;
    assert WolframRule(154, l, c, r) == (154 / Pow2(k)) % 2;
    RuleTableIs154(k);
  }

  /** `RuleTable` lists the binary digits of 154, least significant first. */
  lemma RuleTableIs154(k: nat)
    requires k < 8
    ensures (154 / Pow2(k)) % 2 == RuleTable[k]
  {
    match k
    case 0 => assert Pow2(0) == 1;
    case 1 => assert Pow2(1) == 2;
    case 2 => assert Pow2(2) == 2 * Pow2(1) == 4;
    case 3 => assert Pow2(3) == 2 * Pow2(2) == 8;
    case 4 => assert Pow2(4) == 2 * Pow2(3) == 16;
    case 5 => assert Pow2(5) == 2 * Pow2(4) == 32;
    case 6 => assert Pow2(6) == 2 * Pow2(5) == 64;
    case 7 => assert Pow2(7) == 2 * Pow2(6) == 128;
  }

  /** On bits the formula is (l and not c) xor r. */
  lemma CalculateNextStateIsBooleanRule(l: bool, c: bool, r: bool)
    ensures CalculateNextState(ToBit(l), ToBit(c), ToBit(r)) == ToBit(Rule154(l, c, r))
  {
    CalculateNextStateTable(ToBit(l), ToBit(c), ToBit(r));
    BooleanTable(l, c, r);
  }

  lemma BooleanTable(l: bool, c: bool, r: bool)
    ensures ToBit(Rule154(l, c, r)) == RuleTable[4 * ToBit(l) + 2 * ToBit(c) + ToBit(r)]
  {
    var k := 4 * ToBit(l) + 2 * ToBit(c) + ToBit(r);
    if l && !c {
      assert k == 4 + ToBit(r) && Rule154(l, c, r) == !r;
    } else {
      assert Rule154(l, c, r) == r;
    }
  }

  /** The rule's table, indexed by the neighbourhood (l, c, r) read as the
      binary number 4l + 2c + r: 000, 001, 010, 011, 100, 101, 110, 111. */
  const RuleTable: seq<int> := [0, 1, 0, 1, 1, 0, 0, 1]

  /** Each neighbourhood of bits gets the value listed in the table. */
  lemma CalculateNextStateTable(l: int, c: int, r: int)
    requires IsBit(l) && IsBit(c) && IsBit(r)
    ensures CalculateNextState(l, c, r) == RuleTable[4 * l + 2 * c + r]
  {
    CalculateNextStateOnBits(l, c, r);
    FormulaTable(l, c, r);
  }

  lemma FormulaTable(l: int, c: int, r: int)
    requires IsBit(l) && IsBit(c) && IsBit(r)
    ensures (l * c + l + r) % 2 == RuleTable[4 * l + 2 * c + r]
  {
    if l == 0 {
      assert l * c + l + r == r;
    } else if c == 0 {
      assert l * c + l + r == 1 + r;
    } else {
      assert l * c + l + r == 2 + r;
    }
  }
}
