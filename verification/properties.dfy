/** Properties relating the automaton's operations to each other and to
    independent descriptions of what they compute. */
module AutomatonProperties {
  import opened Java
  import opened Rule
  import opened CellularAutomaton

  /** On a row of bits every computed cell of the next generation is rule 154
      of Wolfram's numbering applied to its neighbourhood, whatever the
      automaton's code. */
  lemma {:induction false} NextGenerationIsRule154(s: Row)
    requires |s| == Width && Binary(s)
    ensures forall i :: 0 <= i < NumberOfCells ==>
      NextGeneration(s)[i] == WolframRule(154, LeftOf(s, i), s[i], s[i + 1])
  {
    forall i | 0 <= i < NumberOfCells
      ensures NextGeneration(s)[i] == WolframRule(154, LeftOf(s, i), s[i], s[i + 1])
    {
      var l, c, r := LeftOf(s, i), s[i], s[i + 1];
      assert IsBit(l) && IsBit(c) && IsBit(r);
      NextGenerationCell(s, i);
      CalculateNextStateTable(l, c, r);
      WolframTable(l, c, r);
    }
  }

  /** The state after `reset` depends on nothing that came before. */
  lemma ResetForgetsHistory(a: Automaton, b: Automaton)
    requires Valid(a) && Valid(b) && a.wolframCode == b.wolframCode
    ensures Reset(a) == Reset(b)
  {
    assert Reset(a).state == Reset(b).state;
  }

  /** A second `reset` changes nothing. */
  lemma ResetIdempotent(a: Automaton)
    requires Valid(a)
    ensures Reset(Reset(a)) == Reset(a)
  {
    ResetForgetsHistory(Reset(a), a);
  }

  /** After `reset` exactly two cells are on. */
  lemma ResetOnes(a: Automaton)
    requires Valid(a)
    ensures Ones(Reset(a).state) == {16, 32}
    ensures |Ones(Reset(a).state)| == 2
  {
    var t := Reset(a).state;
    forall i | i in Ones(t) ensures i in {16, 32} {
    }
    assert t[16] == 1 && t[32] == 1;
  }

  /** The cells next to the two spikes that `reset` sets. */
  predicate BesideSpike(i: int) { i == 15 || i == 17 || i == 31 || i == 33 }

  /** One generation after `reset`, each spike has turned into the pair of
      cells around it: cells 15, 17, 31 and 33 are on and all others off. */
  lemma ResetThenUpdate(a: Automaton)
    requires Valid(a)
    ensures Ones(NextGeneration(Reset(a).state)) == {15, 17, 31, 33}
  {
    var n := NextGeneration(Reset(a).state);
    forall i | 0 <= i < |n| ensures n[i] == 1 <==> BesideSpike(i) {
      CellAfterResetThenUpdate(a, i);
    }
    OnesBesideSpikes(n);
  }

  lemma CellAfterResetThenUpdate(a: Automaton, i: int)
    requires Valid(a) && 0 <= i < Width
    ensures NextGeneration(Reset(a).state)[i] == if BesideSpike(i) then 1 else 0
  {
    var t := Reset(a).state;
    if i < NumberOfCells {
      var l, c, r := LeftOf(t, i), t[i], t[i + 1];
      assert l == (if i == 17 || i == 33 then 1 else 0) by {
        if i > 0 { ResetCell(a, i - 1); }
      }
      assert c == (if i == 16 || i == 32 then 1 else 0) by { ResetCell(a, i); }
      assert r == (if i == 15 || i == 31 then 1 else 0) by { ResetCell(a, i + 1); }
      NextGenerationCell(t, i);
      CalculateNextStateTable(l, c, r);
      SpikeNeighbourhood(i);
    }
  }

  lemma ResetCell(a: Automaton, j: int)
    requires Valid(a) && 0 <= j < Width
    ensures Reset(a).state[j] == if j == 16 || j == 32 then 1 else 0
  {
  }

  lemma NextGenerationCell(s: Row, i: int)
    requires |s| == Width && 0 <= i < NumberOfCells
    ensures NextGeneration(s)[i] == CalculateNextState(LeftOf(s, i), s[i], s[i + 1])
  {
  }

  /** The table entry for the neighbourhood of cell i in the reset row. */
  lemma SpikeNeighbourhood(i: int)
    ensures var l := if i == 17 || i == 33 then 1 else 0;
      var c := if i == 16 || i == 32 then 1 else 0;
      var r := if i == 15 || i == 31 then 1 else 0;
      RuleTable[4 * l + 2 * c + r] == if BesideSpike(i) then 1 else 0
  {
  }

  lemma OnesBesideSpikes(s: Row)
    requires |s| == Width
    requires forall i :: 0 <= i < |s| ==> (s[i] == 1 <==> BesideSpike(i))
    ensures Ones(s) == {15, 17, 31, 33}
  {
    assert s[15] == 1 && s[17] == 1 && s[31] == 1 && s[33] == 1;
  }

  /** The line printed right after `reset`: a `*` in columns 16 and 32, blanks
      elsewhere, 51 characters in all. */
  lemma RenderAfterReset(a: Automaton)
    requires Valid(a)
    ensures |Render(Reset(a).state)| == 51
    ensures forall i :: 0 <= i < 51 ==>
      Render(Reset(a).state)[i] == if i == 16 || i == 32 then '*' else ' '
  {
  }

  /** A rendered row of bits can be read back: rendering loses nothing. */
  lemma ReadLineRender(s: Row)
    requires Binary(s)
    ensures ReadLine(Render(s)) == s
  {
    var back := ReadLine(Render(s));
    forall i | 0 <= i < |s| ensures back[i] == s[i] {
    }
  }

  /** The automaton after k calls of `update`. */
  function Run(a: Automaton, k: nat): (b: Automaton)
    requires Valid(a)
    ensures Valid(b)
    decreases k
  {
    if k == 0 then a else Run(a.(state := NextGeneration(a.state)), k - 1)
  }

  /** Any number of updates keeps the code, keeps every cell a bit, and
      leaves the last cell 0 once at least one update has happened. */
  lemma {:induction false} RunKeepsInvariant(a: Automaton, k: nat)
    requires Valid(a) && Binary(a.state)
    ensures Run(a, k).wolframCode == a.wolframCode
    ensures Binary(Run(a, k).state)
    ensures 1 <= k ==> Run(a, k).state[NumberOfCells] == 0
    decreases k
  {
    if k > 0 {
      var b := a.(state := NextGeneration(a.state));
      RunKeepsInvariant(b, k - 1);
      if k > 1 {
        assert Run(a, k) == Run(b, k - 1);
      }
    }
  }
}
