# Elementary cellular automaton (Automaton.java) in Dafny

This project models `Automaton`, a one-dimensional cellular automaton of
`numberOfCells + 1 = 51` integer cells. Its operations are:

- a constructor that stores a "Wolfram code" and seeds the row from it,
- `update`, which advances the row one generation under the fixed formula
  `(l * c + l + r) % 2`,
- `reset`, which zeroes the row and turns on cells 16 and 32,
- `print`, which writes the row as a line of `*` and blanks.

The Java object becomes the immutable value `CellularAutomaton.Automaton`,
with a field for each of the two mutable Java fields, `wolframCode` and
`state`. The final field `numberOfCells`, always 50, becomes the module
constant `NumberOfCells`. `Update` returns the next automaton and `Reset`
returns the reset one. The row is a `seq<Int32>` of fixed length
`Width = 51`.

Modules, following the code's layers:

- `Java` (java.dfy): the `int` type and the operators the code relies on.
  `-` wraps around in 32 bits, `%` truncates toward zero, and `^` is bitwise
  exclusive-or. It also has the exceptions the code can throw.
- `JavaText` (java_text.dfy): `"" + n`, `String.split(" ")` and
  `Integer.parseInt`. Parsing a printed `int` gives it back, and joining the
  pieces between single spaces restores the string. `Split`, which also drops
  trailing empty pieces, is stated by its contract and by the one-token case
  the constructor uses.
- `Rule` (rule.dfy): `calculateNextState`, and the proof that on bits it is
  rule 154 of Wolfram's numbering, which is `(l and not c) xor r`.
- `Seeding` (seeding.dfy): `wolframToBinary`, modelled as written.
- `CellularAutomaton` (automaton.dfy): the constructor, `fillState`,
  `update`, `reset` and the rendering behind `print`.
- `AutomatonProperties` (properties.dfy): lemmas that relate the operations
  to each other.

What the seeding code computes, as written:

- In Java, `2^k` is exclusive-or. So the eight divisibility checks use the
  divisors 5, 4, 7, 6, 1, 4, 3, 2. The check for bit 2 uses the literal 4.
- The subtrahends are 5, 4, 7, 6, 1, 0, 3, 2.
- Bit 3 is therefore always 1, and the bit-2 step never changes the running
  value.
- The loop `for (int b : bits) initialState = "" + b + " ";` replaces the
  string on each pass instead of appending. The for-each visits `bits[0]`
  through `bits[7]`, so the result is the digit `bits[7]` followed by one
  space.
- `bits[7]` is 1 exactly when the code is divisible by 5.
- `fillState` therefore writes only cell 0. A new automaton has cell 0 equal
  to 1 exactly when `wolframCode % 5 == 0`, and every other cell 0.
- The code is never used by `update`.

Two of the source's own comments describe something other than what the
code does. The model follows the code:

- Seed string. The comment at Automaton.java:31 says `wolframToBinary`
  converts the code into binary digits. It does not: for 18 it sets bits 3
  and 4 where binary would give bits 1 and 4 (`Seeding.BitsOfEighteen`), and
  the string it returns holds only one of them.
- Reset seed. The comment at Automaton.java:137 speaks of a single cell
  being turned on, but lines 138-139 turn on two, cells 16 and 32
  (`AutomatonProperties.ResetOnes`).

Two further facts about the code:

- Transition rule. The formula at line 128 is fixed. On bits it maps the
  neighbourhoods 000 to 111 to 0, 1, 0, 1, 1, 0, 0, 1, which is rule 154 of
  Wolfram's numbering, whatever code the automaton was built with.
- Last cell. `update` writes into a fresh zero-filled array, and its loop
  stops at index 49. Cell 50 is therefore 0 after every update, whatever it
  held before.

## Model

| member | source | states |
|---|---|---|
| Java.Wrap | Automaton.java:48-69 | narrowing to `int` keeps in-range values and changes the others only by a multiple of 2^32 |
| Java.Sub | Automaton.java:48-69 | `wolframCode -= k` is exact inside the `int` range and wraps by 2^32 below or above it |
| Java.Rem | Automaton.java:47-68 | Java `%` is smaller than the divisor in magnitude, takes the dividend's sign, and is 0 exactly when Dafny's Euclidean `%` is 0 |
| Java.RemZeroIsDivisibility | Automaton.java:47-68 | a divisibility check `x % k == 0` has the same truth value under truncating and Euclidean remainder |
| Java.Xor | Automaton.java:47-69 | `a ^ b` has the parity of `a + b` (the low bit is the exclusive-or of the low bits) |
| JavaText.NatToString | Automaton.java:73 | the decimal numeral is a non-empty digit string without leading zero, one digit long exactly for values below 10 |
| JavaText.IntToString | Automaton.java:73 | `"" + n` is the single digit for 0..9 and starts with `-` exactly for negative n |
| JavaText.ParseInt | Automaton.java:88 | `Integer.parseInt` throws NumberFormatException on the empty string, and a negative result comes only from a leading `-` |
| JavaText.DigitsValueOfNatToString | Automaton.java:73 | reading a decimal numeral back gives the number it was written from |
| JavaText.ParseIntOfIntToString | Automaton.java:88 | `Integer.parseInt("" + n)` returns n for every `int` n |
| JavaText.Fields | Automaton.java:85 | the pieces between spaces are at least one and contain no space |
| JavaText.JoinFields | Automaton.java:85 | joining the pieces with single spaces restores the original string |
| JavaText.DropTrailingEmpty | Automaton.java:85 | the result is a prefix of the input, ends in a non-empty piece, and only empty pieces were removed |
| JavaText.Split | Automaton.java:85 | `split(" ")` returns space-free pieces, and a string without a space as its only piece |
| JavaText.SplitTokenThenSpace | Automaton.java:85 | a non-empty space-free token followed by one space splits into exactly that token |
| Rule.CalculateNextState | Automaton.java:127-129 | the result lies in -1..1 for every `int` neighbourhood and is 0 or 1 when all three inputs are |
| Rule.CalculateNextStateOnBits | Automaton.java:127-129 | on bits no operation wraps and the result is the ordinary remainder of `l*c + l + r` by 2 |
| Rule.CalculateNextStateIsWolfram154 | Automaton.java:127-129 | on bits the result is bit 4l+2c+r of 154: the formula is elementary rule 154, independent of the code |
| Rule.CalculateNextStateIsBooleanRule | Automaton.java:127-129 | on truth values the result is `(l and not c) xor r` |
| Rule.RuleTableIs154 | Automaton.java:127-129 | entry k of the rule table is binary digit k of 154 |
| Rule.CalculateNextStateTable | Automaton.java:127-129 | the eight neighbourhoods 000..111 map to 0,1,0,1,1,0,0,1 |
| Seeding.CaretValues | Automaton.java:47-69 | Java `2^k` for k = 0..7 is 2,3,0,1,6,7,4,5, never the power of two |
| Seeding.Divisor | Automaton.java:47-68 | the check for bit k divides by `2^k`, except the literal 4 for bit 2, and never by 0 |
| Seeding.Subtrahend | Automaton.java:48-69 | the amount subtracted for bit k is the value of `2^k` |
| Seeding.ExtractBit | Automaton.java:47-48 | a check-and-subtract pair yields a bit that is 1 exactly when the running value is divisible by the divisor; a set bit takes `2^k` (2,3,0,1,6,7,4,5 for k = 0..7) off the running value with `int` wrap-around, and a clear bit leaves it alone |
| Seeding.ExtractBits | Automaton.java:46-69 | the bits from position k down to 0 are k+1 values, all 0 or 1, with bit 3 always 1 |
| Seeding.Bits | Automaton.java:38-69 | the eight bits are 0 or 1, bit 3 is always 1, and bit 7 is 1 exactly when the code is divisible by 5 |
| Seeding.BitTwoKeepsValue | Automaton.java:62-63 | the bit-2 step subtracts `2^2 = 0` and never changes the running value |
| Seeding.BitThreeAlwaysSet | Automaton.java:59-60 | the bit-3 check divides by `2^3 = 1` and is always true |
| Seeding.BitsOfEighteen | Automaton.java:46-69 | for code 18 the bits are 0,0,0,1,1,0,0,0, which differ from the binary digits of 18 |
| Seeding.WolframToBinary | Automaton.java:34-78 | the returned string is one digit and a space, "1 " when the code is divisible by 5 and "0 " otherwise: only the last pass of the loop, for `bits[7]`, survives |
| CellularAutomaton.FillState | Automaton.java:84-92 | it succeeds exactly when every piece parses and no piece lands past the end; then cell j holds piece j and later cells are unchanged |
| CellularAutomaton.New | Automaton.java:22-28 | construction never throws, keeps the code, has 51 bit cells, and only cell 0 can be 1, which happens exactly when the code is divisible by 5 |
| CellularAutomaton.NextGeneration | Automaton.java:113-125 | the next row has 51 cells and is all bits when the old row is |
| CellularAutomaton.Update | Automaton.java:113-125 | the sliding window yields exactly `NextGeneration` of the old row, the cell-by-cell definition in which cell i < 50 is the rule applied to old cells i-1 (0 for cell 0), i and i+1; the code and length are kept, bits stay bits, and cell 50 becomes 0 |
| CellularAutomaton.Reset | Automaton.java:134-140 | after reset the length and code are kept, every cell is a bit, and a cell is 1 exactly when its index is 50/3 or 2*(50/3) |
| CellularAutomaton.Render | Automaton.java:97-108 | the printed line has one character per cell: `*` exactly where the cell is 1 and a blank exactly where it is not |
| AutomatonProperties.NextGenerationIsRule154 | Automaton.java:116-123 | on a bit row every updated cell is Wolfram rule 154 applied to (left, centre, right), with 0 left of cell 0 |
| AutomatonProperties.ResetForgetsHistory | Automaton.java:134-140 | the state after reset does not depend on the state before it |
| AutomatonProperties.ResetIdempotent | Automaton.java:134-140 | a second reset gives the same automaton as the first |
| AutomatonProperties.ResetOnes | Automaton.java:134-140 | after reset exactly cells 16 and 32 are on: two cells |
| AutomatonProperties.NextGenerationCell | Automaton.java:116-123 | cell i < 50 of the next generation is `calculateNextState` of old cells i-1 (0 for cell 0), i and i+1 |
| AutomatonProperties.CellAfterResetThenUpdate | Automaton.java:113-140 | one update after reset, a given cell is 1 exactly when it is 15, 17, 31 or 33 |
| AutomatonProperties.ResetThenUpdate | Automaton.java:113-140 | one update after reset turns on exactly cells 15, 17, 31 and 33 |
| AutomatonProperties.RenderAfterReset | Automaton.java:97-140 | the line printed after reset has 51 characters with `*` in columns 16 and 32 and blanks elsewhere |
| AutomatonProperties.ReadLineRender | Automaton.java:99-106 | a bit row can be read back from its printed line, so rendering loses nothing |
| AutomatonProperties.RunKeepsInvariant | Automaton.java:113-125 | any number of updates keeps the code and keeps every cell a bit, and once one update has happened the last cell is 0 |

## Left out

- Console output: `print` writes to `System.out`. `CellularAutomaton.Render` models the characters of the line; the output stream and the trailing line terminator are left out.
- The loop at lines 39-41 that zeroes `bits`: every entry is overwritten at lines 47-68 before it is read, so `Seeding.Bits` builds the array directly.
- In-place mutation: the Java object is mutated, while the model returns new values. The result is the same because `update` builds its new array completely before the assignment at line 124.
- Partial effects of `fillState` before an exception: an exception would escape the constructor, so no caller can see them. `CellularAutomaton.New` proves the exception never occurs.
- Java.Xor: defined only for non-negative operands; every `^` in the code has operands 2 and 0..7.
- JavaText.ParseInt: accepts only ASCII `0`-`9` as digits, while Java also accepts other Unicode decimal digits. The strings it parses here are produced by the `int` conversion, so they contain only ASCII digits.
- JavaText.Split: models `split` only for the one-space pattern `" "` used here, not general regular-expression splitting.
