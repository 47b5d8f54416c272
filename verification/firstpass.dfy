/**
  Pass 1 of main.cpp (`firstPass`): one walk over the source lines that
  records, for every label, the value the address counter has on the line
  defining it. The counter starts at 0 and moves by 4 on each line that has
  code and is not label-only.

  The walk reads two things off each line, gathered in `LineInfo`; the
  lemmas are stated over those and then over the lines themselves.
  The counter is an `unsigned int` in the source and the table stores
  `int`; both are unbounded here.
*/
module FirstPass {
  import opened Wrappers
  import opened LineSyntax

  /** The label table and the address counter after a prefix of the source. */
  datatype State = State(symbols: map<string, int>, addr: nat)

  /** What pass 1 reads off one line: the label it defines and whether it takes up a word. */
  datatype LineInfo = LineInfo(defines: Option<string>, advances: bool)

  /** A line takes up an instruction word in pass 1: it has code and is not label-only. */
  predicate Advances(line: string) {
    HasCode(line) && !LabelOnly(line)
  }

  function Classify(line: string): LineInfo {
    LineInfo(DefinedLabel(line), Advances(line))
  }

  function Infos(lines: seq<string>): (r: seq<LineInfo>)
    ensures |r| == |lines|
    ensures forall k :: 0 <= k < |lines| ==> r[k] == Classify(lines[k])
  {
    seq(|lines|, k requires 0 <= k < |lines| => Classify(lines[k]))
  }

  /** One iteration of the `while (getline(...))` loop of `firstPass`. */
  function Step(st: State, info: LineInfo): State {
    var symbols := if info.defines.Some? then st.symbols[info.defines.value := st.addr] else st.symbols;
    State(symbols, if info.advances then st.addr + 4 else st.addr)
  }

  /** The loop over a sequence of classified lines, from an empty table and a zero counter. */
  function Walk(infos: seq<LineInfo>): State
    decreases |infos|
  {
    if infos == [] then State(map[], 0)
    else Step(Walk(infos[..|infos| - 1]), infos[|infos| - 1])
  }

  /** `firstPass` over the whole source. */
  function Run(lines: seq<string>): State {
    Walk(Infos(lines))
  }

  // ------------------------------------------------------ reference counts

  /** How many of the lines take up a word, counted from the front. */
  function Words(infos: seq<LineInfo>): nat
    decreases |infos|
  {
    if infos == [] then 0 else (if infos[0].advances then 1 else 0) + Words(infos[1..])
  }

  /** The address pass 1 gives line `k`: four bytes for every earlier line that takes up a word. */
  function AddressOf(lines: seq<string>, k: nat): nat
    requires k <= |lines|
  {
    4 * Words(Infos(lines)[..k])
  }

  lemma {:induction false} WordsAppend(infos: seq<LineInfo>, info: LineInfo)
    ensures Words(infos + [info]) == Words(infos) + (if info.advances then 1 else 0)
    decreases |infos|
  {
    if infos == [] {
      assert [] + [info] == [info];
      assert [info][1..] == [];
    } else {
      assert (infos + [info])[1..] == infos[1..] + [info];
      WordsAppend(infos[1..], info);
    }
  }

  lemma {:induction false} WalkCountsWords(infos: seq<LineInfo>)
    ensures Walk(infos).addr == 4 * Words(infos)
    decreases |infos|
  {
    if infos != [] {
      var init := infos[..|infos| - 1];
      WalkCountsWords(init);
      assert infos == init + [infos[|infos| - 1]];
      WordsAppend(init, infos[|infos| - 1]);
    }
  }

  /** The counter after the source is four bytes per line that has code and is not label-only. */
  lemma CounterCountsWords(lines: seq<string>)
    ensures Run(lines).addr == AddressOf(lines, |lines|)
  {
    WalkCountsWords(Infos(lines));
    assert Infos(lines)[..|lines|] == Infos(lines);
  }

  /**
    The counter moves by 4 across a line exactly when the line has code and
    is not label-only; blank, comment-only and label-only lines leave it.
  */
  lemma AddressStep(lines: seq<string>, k: nat)
    requires k < |lines|
    ensures AddressOf(lines, k + 1) == AddressOf(lines, k) + (if HasCode(lines[k]) && !LabelOnly(lines[k]) then 4 else 0)
  {
    var infos := Infos(lines);
    assert infos[..k + 1] == infos[..k] + [infos[k]];
    WordsAppend(infos[..k], infos[k]);
  }

  /** Consecutive label-only lines, and the line after them, share one address. */
  lemma LabelOnlyLinesShare(lines: seq<string>, i: nat, j: nat)
    requires i <= j < |lines|
    requires forall k :: i <= k < j ==> LabelOnly(lines[k])
    ensures AddressOf(lines, j) == AddressOf(lines, i)
    decreases j - i
  {
    if i < j {
      AddressStep(lines, j - 1);
      LabelOnlyLinesShare(lines, i, j - 1);
    }
  }

  // ------------------------------------------------------------ the table

  lemma {:induction false} WalkHoldsLabels(infos: seq<LineInfo>, name: string)
    ensures name in Walk(infos).symbols <==> exists k :: 0 <= k < |infos| && infos[k].defines == Some(name)
    decreases |infos|
  {
    if infos != [] {
      var n := |infos| - 1;
      var init := infos[..n];
      WalkHoldsLabels(init, name);
      if exists k :: 0 <= k < |infos| && infos[k].defines == Some(name) {
        var k :| 0 <= k < |infos| && infos[k].defines == Some(name);
        if k < n {
          assert init[k] == infos[k];
        }
      }
      if name in Walk(init).symbols {
        var k :| 0 <= k < n && init[k].defines == Some(name);
        assert init[k] == infos[k];
      }
    }
  }

  lemma {:induction false} WalkLastDefinition(infos: seq<LineInfo>, name: string, k: nat)
    requires k < |infos| && infos[k].defines == Some(name)
    requires forall j :: k < j < |infos| ==> infos[j].defines != Some(name)
    ensures name in Walk(infos).symbols && Walk(infos).symbols[name] == 4 * Words(infos[..k])
    decreases |infos|
  {
    var n := |infos| - 1;
    var init := infos[..n];
    if k == n {
      WalkCountsWords(init);
    } else {
      assert init[k] == infos[k];
      assert forall j :: k < j < n ==> init[j] == infos[j];
      WalkLastDefinition(init, name, k);
      assert init[..k] == infos[..k];
    }
  }

  /** The table holds exactly the labels that some line defines. */
  lemma TableHoldsDefinedLabels(lines: seq<string>, name: string)
    ensures name in Run(lines).symbols <==> exists k :: 0 <= k < |lines| && DefinedLabel(lines[k]) == Some(name)
  {
    var infos := Infos(lines);
    WalkHoldsLabels(infos, name);
    if exists k :: 0 <= k < |lines| && DefinedLabel(lines[k]) == Some(name) {
      var k :| 0 <= k < |lines| && DefinedLabel(lines[k]) == Some(name);
      assert infos[k].defines == Some(name);
    }
  }

  /**
    A label maps to the address of the LAST line that defines it: a
    repeated label overwrites the earlier entry.
  */
  lemma LastDefinitionWins(lines: seq<string>, name: string, k: nat)
    requires k < |lines| && DefinedLabel(lines[k]) == Some(name)
    requires forall j :: k < j < |lines| ==> DefinedLabel(lines[j]) != Some(name)
    ensures name in Run(lines).symbols && Run(lines).symbols[name] == AddressOf(lines, k)
  {
    var infos := Infos(lines);
    assert forall j :: k < j < |lines| ==> infos[j].defines != Some(name);
    WalkLastDefinition(infos, name, k);
  }
}
