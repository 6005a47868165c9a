/** The automaton: a row of `NumberOfCells + 1` cells seeded from a code,
    advanced one generation at a time by the rule, reset to a two-spike row
    and rendered as a line of text. The Java object is modelled as an
    immutable value: each mutator returns the automaton it leaves behind. */
module CellularAutomaton {
  import opened Java
  import opened JavaText
  import opened Rule
  import opened Seeding

  const NumberOfCells: nat := 50

  /** The length of the state array: one cell more than `NumberOfCells`. */
  const Width: nat := NumberOfCells + 1

  type Row = seq<Int32>

  predicate Binary(s: Row) { forall i :: 0 <= i < |s| ==> IsBit(s[i]) }

  /** The fields of the Java object. */
  datatype Automaton = Automaton(wolframCode: Int32, state: Row)

  /** What every automaton satisfies: the state array has its fixed length. */
  predicate Valid(a: Automaton) { |a.state| == Width }

  /** The indices of the cells that are on. */
  function Ones(s: Row): set<int>
  {
    set i | 0 <= i < |s| && s[i] == 1
  }

  // ---------------------------------------------------------------------
  // Construction

  /** `fillState(initialState)`: split the string at spaces and store the
      parsed pieces in cells 0, 1, ... in order; an unparsable piece or a
      piece past the end of the array throws. */
  method FillState(state: Row, initialState: string) returns (r: Result<Row>)
    ensures var pieces := Split(initialState);
      r.Return? <==> |pieces| <= |state| && forall j :: 0 <= j < |pieces| ==> ParseInt(pieces[j]).Return?
    ensures var pieces := Split(initialState);
      r.Return? ==>
        && |r.value| == |state|
        && forall j :: 0 <= j < |state| ==>
             r.value[j] == if j < |pieces| then ParseInt(pieces[j]).value else state[j]
  {
    var str := Split(initialState);
    var cells := state;
    var i := 0;
    while i < |str|
      invariant 0 <= i <= |str| && i <= |state|
      invariant |cells| == |state|
      invariant forall j :: 0 <= j < i ==> ParseInt(str[j]).Return?
      invariant forall j :: 0 <= j < |state| ==>
        cells[j] == if j < i then ParseInt(str[j]).value else state[j]
    {
      var bit := ParseInt(str[i]);
      if bit.Throw? {
        return Throw(bit.exception);
      }
      if i >= |cells| {
        return Throw(ArrayIndexOutOfBoundsException);
      }
      cells := cells[i := bit.value];
      i := i + 1;
    }
    return Return(cells);
  }

  /** `new Automaton(wolframCode)`: a zeroed state array whose cell 0 is
      then set from the seeding string. The code is stored unchanged (the
      seeding works on its own copy), and no exception is ever thrown. */
  method New(wolframCode: Int32) returns (a: Automaton)
    ensures Valid(a) && Binary(a.state)
    ensures a.wolframCode == wolframCode
    ensures a.state[0] == 1 <==> wolframCode % 5 == 0
    ensures forall i :: 1 <= i < Width ==> a.state[i] == 0
  {
    var state: Row := seq(Width, _ => 0);
    var initialState := WolframToBinary(wolframCode);
    var digit := IntToString(Bits(wolframCode)[7]);
    SplitTokenThenSpace(digit);
    ParseIntOfIntToString(Bits(wolframCode)[7]);
    var filled := FillState(state, initialState);
    a := Automaton(wolframCode, filled.value);
  }

  // ---------------------------------------------------------------------
  // One generation

  /** The left neighbour of cell i; the cell left of cell 0 reads as 0. */
  function LeftOf(s: Row, i: nat): Int32
    requires i < |s|
  {
    if i == 0 then 0 else s[i - 1]
  }

  /** The next generation, cell by cell: each of cells 0 .. NumberOfCells-1
      follows the rule from its neighbourhood in the old row, and the last
      cell is never written, so it keeps the 0 of the fresh array. */
  function NextGeneration(s: Row): (t: Row)
    requires |s| == Width
    ensures |t| == Width
    ensures Binary(s) ==> Binary(t)
  {
    seq(Width, i requires 0 <= i < Width =>
      if i < NumberOfCells then CalculateNextState(LeftOf(s, i), s[i], s[i + 1]) else 0)
  }

  /** `update()`: slide a (left, center, right) window over the old row,
      writing each result into a fresh zeroed array that then replaces the
      state. */
  method Update(a: Automaton) returns (b: Automaton)
    requires Valid(a)
    ensures Valid(b) && b.wolframCode == a.wolframCode
    ensures b.state == NextGeneration(a.state)
    ensures b.state[NumberOfCells] == 0
    ensures Binary(a.state) ==> Binary(b.state)
  {
    var state := a.state;
    var nextState: Row := seq(|state|, _ => 0);
    var left: Int32 := 0;
    var center := state[0];
    for i := 0 to NumberOfCells
      invariant |nextState| == Width
      invariant left == LeftOf(state, i) && center == state[i]
      invariant forall j :: 0 <= j < i ==> nextState[j] == NextGeneration(state)[j]
      invariant forall j :: i <= j < Width ==> nextState[j] == 0
    {
      var right := state[i + 1];
      nextState := nextState[i := CalculateNextState(left, center, right)];
      left := center;
      center := right;
    }
    b := a.(state := nextState);
  }

  // ---------------------------------------------------------------------
  // Reset

  /** The two cells that `reset` turns on. */
  const FirstSpike: nat := NumberOfCells / 3
  const SecondSpike: nat := 2 * (NumberOfCells / 3)

  /** `reset()`: zero every cell, then turn on cells `NumberOfCells / 3` and
      `2 * (NumberOfCells / 3)`. */
  function Reset(a: Automaton): (b: Automaton)
    requires Valid(a)
    ensures Valid(b) && b.wolframCode == a.wolframCode && Binary(b.state)
    ensures forall i :: 0 <= i < Width ==> (b.state[i] == 1 <==> i == FirstSpike || i == SecondSpike)
  {
    var cleared: Row := seq(|a.state|, _ => 0);
    a.(state := cleared[FirstSpike := 1][SecondSpike := 1])
  }

  // ---------------------------------------------------------------------
  // Rendering

  function Glyph(v: Int32): char { if v == 1 then '*' else ' ' }

  /** The line `print()` writes (without its line terminator): one
      character per cell, `*` for a cell holding 1 and a blank otherwise. */
  function Render(s: Row): (line: string)
    ensures |line| == |s|
    ensures forall i :: 0 <= i < |s| ==> (line[i] == '*' <==> s[i] == 1)
    ensures forall i :: 0 <= i < |s| ==> (line[i] == ' ' <==> s[i] != 1)
  {
    if |s| == 0 then "" else [Glyph(s[0])] + Render(s[1..])
  }

  /** Reads a rendered line back as a row of bits. */
  function ReadLine(line: string): (s: Row)
    ensures |s| == |line|
  {
    seq(|line|, i requires 0 <= i < |line| => if line[i] == '*' then 1 else 0)
  }
}
