/**
  The whole assembler (`main` in main.cpp): pass 1 builds the label table,
  pass 2 reads the source again with that table and produces the listing
  rows. The lemmas here tie the two passes together: the address pass 2
  gives an instruction against the address pass 1 gave its line, and the
  value a `j` or `beq` receives for a label against the line that defines
  the label.
*/
module Assembler {
  import opened Decimal
  import opened Wrappers
  import opened Definitions
  import opened Encoder
  import opened LineSyntax
  import opened Shapes
  import FirstPass
  import opened SecondPass

  /** Both passes over the source. */
  function Assemble(lines: seq<string>, mode: Mode): State {
    SecondPass.Run(lines, FirstPass.Run(lines).symbols, mode)
  }

  // --------------------------------------------------------------- labels

  /** The last of the first `n` classified lines that defines `name`, if any. */
  function LastDefinition(infos: seq<FirstPass.LineInfo>, name: string, n: nat): (r: Option<nat>)
    requires n <= |infos|
    ensures r.Some? ==> r.value < n && infos[r.value].defines == Some(name)
    ensures r.Some? ==> forall j :: r.value < j < n ==> infos[j].defines != Some(name)
    ensures r.None? ==> forall j :: 0 <= j < n ==> infos[j].defines != Some(name)
    decreases n
  {
    if n == 0 then None
    else if infos[n - 1].defines == Some(name) then Some(n - 1)
    else LastDefinition(infos, name, n - 1)
  }

  /**
    The value `labelAddrMap[name]` yields in pass 2: the pass-1 address of
    the last line defining the label, and 0 for a label no line defines.
  */
  function LabelValue(lines: seq<string>, name: string): int {
    match LastDefinition(FirstPass.Infos(lines), name, |lines|)
    case Some(d) => FirstPass.AddressOf(lines, d)
    case None => 0
  }

  /**
    Whatever pass 2 has added to the table by the time it looks `name` up,
    the lookup yields the label's value.
  */
  lemma LookupGivesLabelValue(lines: seq<string>, name: string, table: map<string, int>)
    requires Extends(FirstPass.Run(lines).symbols, table)
    ensures Lookup(table, name).0 == LabelValue(lines, name)
  {
    var base := FirstPass.Run(lines).symbols;
    FirstPass.TableHoldsDefinedLabels(lines, name);
    match LastDefinition(FirstPass.Infos(lines), name, |lines|)
    case Some(d) =>
      FirstPass.LastDefinitionWins(lines, name, d);
    case None =>
  }

  lemma {:induction false} LastDefinitionOf(infos: seq<FirstPass.LineInfo>, name: string, d: nat, n: nat)
    requires d < n <= |infos| && infos[d].defines == Some(name)
    requires forall j :: d < j < n ==> infos[j].defines != Some(name)
    ensures LastDefinition(infos, name, n) == Some(d)
    decreases n
  {
    if n - 1 != d {
      LastDefinitionOf(infos, name, d, n - 1);
    }
  }

  /** The last line that defines a label is the one `LastDefinition` finds. */
  lemma LastDefinitionIs(lines: seq<string>, name: string, d: nat)
    requires d < |lines| && DefinedLabel(lines[d]) == Some(name)
    requires forall j :: d < j < |lines| ==> DefinedLabel(lines[j]) != Some(name)
    ensures LastDefinition(FirstPass.Infos(lines), name, |lines|) == Some(d)
  {
    var infos := FirstPass.Infos(lines);
    forall j | d < j < |lines|
      ensures infos[j].defines != Some(name)
    {
      assert infos[j] == FirstPass.Classify(lines[j]);
    }
    LastDefinitionOf(infos, name, d, |lines|);
  }

  // ------------------------------------------------------------ addresses

  /** How many of the lines before `k` have no code (blank or comment-only). */
  function SilentBefore(lines: seq<string>, k: nat): nat
    requires k <= |lines|
    decreases k
  {
    if k == 0 then 0 else SilentBefore(lines, k - 1) + (if HasCode(lines[k - 1]) then 0 else 1)
  }

  /** How many of the classified lines have no code. */
  function Silent(views: seq<LineView>): nat
    decreases |views|
  {
    if views == [] then 0 else Silent(views[..|views| - 1]) + (if views[|views| - 1].hasCode then 0 else 1)
  }

  /** The two passes classified the same lines: pass 1 takes up a word exactly where pass 2 sees code that is not label-only. */
  predicate Aligned(views: seq<LineView>, infos: seq<FirstPass.LineInfo>) {
    && |views| == |infos|
    && forall j :: 0 <= j < |views| ==>
         && infos[j].advances == (views[j].hasCode && !views[j].labelOnly)
         && (views[j].labelOnly ==> views[j].hasCode)
  }

  lemma {:induction false} TicksAgainstWordsOf(views: seq<LineView>, infos: seq<FirstPass.LineInfo>)
    requires Aligned(views, infos)
    ensures TickCount(Corrected, views) == FirstPass.Words(infos)
    ensures TickCount(AsWritten, views) == FirstPass.Words(infos) + Silent(views)
    decreases |views|
  {
    if views != [] {
      var n := |views| - 1;
      assert Aligned(views[..n], infos[..n]);
      TicksAgainstWordsOf(views[..n], infos[..n]);
      assert views == views[..n] + [views[n]];
      assert infos == infos[..n] + [infos[n]];
      TickCountAppend(Corrected, views[..n], views[n]);
      TickCountAppend(AsWritten, views[..n], views[n]);
      FirstPass.WordsAppend(infos[..n], infos[n]);
    }
  }

  lemma ViewsAligned(lines: seq<string>)
    ensures Aligned(Views(lines), FirstPass.Infos(lines))
  {
  }

  lemma {:induction false} SilentOfViews(views: seq<LineView>, lines: seq<string>, k: nat)
    requires k <= |views| && k <= |lines|
    requires forall j :: 0 <= j < k ==> views[j].hasCode == HasCode(lines[j])
    ensures Silent(views[..k]) == SilentBefore(lines, k)
    decreases k
  {
    if k > 0 {
      SilentOfViews(views, lines, k - 1);
      assert views[..k][..k - 1] == views[..k - 1];
    }
  }

  /**
    Before line `k`, the corrected pass-2 counter has moved as often as the
    pass-1 counter; the counter as written has moved once more for every
    line without code.
  */
  lemma TicksAgainstWords(lines: seq<string>, k: nat)
    requires k <= |lines|
    ensures TickCount(Corrected, Views(lines)[..k]) == FirstPass.Words(FirstPass.Infos(lines)[..k])
    ensures TickCount(AsWritten, Views(lines)[..k]) == FirstPass.Words(FirstPass.Infos(lines)[..k]) + SilentBefore(lines, k)
  {
    ViewsAligned(lines);
    assert Aligned(Views(lines)[..k], FirstPass.Infos(lines)[..k]);
    TicksAgainstWordsOf(Views(lines)[..k], FirstPass.Infos(lines)[..k]);
    SilentOfViews(Views(lines), lines, k);
  }

  /**
    The address pass 2 gives an instruction row. Corrected, it is the
    address pass 1 gave the line; as written, it runs four bytes ahead for
    every earlier line without code.
  */
  lemma RowAddress(lines: seq<string>, mode: Mode, k: nat)
    requires k < |lines| && k < |Assemble(lines, mode).rows| && Assemble(lines, mode).rows[k].Instruction?
    ensures mode == Corrected ==> Assemble(lines, mode).rows[k].address == FirstPass.AddressOf(lines, k)
    ensures mode == AsWritten ==>
              Assemble(lines, mode).rows[k].address == FirstPass.AddressOf(lines, k) + 4 * SilentBefore(lines, k)
  {
    WalkRowCount(Views(lines), FirstPass.Run(lines).symbols, mode);
    RowAt(Views(lines), FirstPass.Run(lines).symbols, mode, k);
    TicksAgainstWords(lines, k);
  }

  /** Corrected, the two passes agree on every instruction's address. */
  lemma AddressesAgree(lines: seq<string>, k: nat)
    requires k < |lines| && k < |Assemble(lines, Corrected).rows| && Assemble(lines, Corrected).rows[k].Instruction?
    ensures Assemble(lines, Corrected).rows[k].address == FirstPass.AddressOf(lines, k)
  {
    RowAddress(lines, Corrected, k);
  }

  /**
    As written, an instruction after a blank or comment-only line is listed
    at a larger address than pass 1 gave it (and than its labels hold).
  */
  lemma AddressesDrift(lines: seq<string>, k: nat)
    requires k < |lines| && k < |Assemble(lines, AsWritten).rows| && Assemble(lines, AsWritten).rows[k].Instruction?
    requires exists j :: 0 <= j < k && !HasCode(lines[j])
    ensures Assemble(lines, AsWritten).rows[k].address > FirstPass.AddressOf(lines, k)
  {
    RowAddress(lines, AsWritten, k);
    var j :| 0 <= j < k && !HasCode(lines[j]);
    SilentCounted(lines, k, j);
  }

  /** A line without code before `k` is counted. */
  lemma {:induction false} SilentCounted(lines: seq<string>, k: nat, j: nat)
    requires j < k <= |lines| && !HasCode(lines[j])
    ensures SilentBefore(lines, k) > 0
    decreases k
  {
    if j < k - 1 {
      SilentCounted(lines, k - 1, j);
    }
  }

  // -------------------------------------------------------- label operands

  /** A line with a shape gets an instruction row. */
  lemma InstructionRow(lines: seq<string>, mode: Mode, k: nat)
    requires k < |lines| && k < |Assemble(lines, mode).rows|
    requires LineShape(lines[k]) != NoShape
    ensures Assemble(lines, mode).rows[k].Instruction?
  {
    RowsFollowLines(lines, FirstPass.Run(lines).symbols, mode);
  }

  /**
    The row of a `beq a, b, L` line: the registers swapped into
    `{beq, b, a, offset}`, the offset computed from the value of `L`, and
    the word carrying opcode 4, rs = a, rt = b and the offset's low 16 bits.
  */
  lemma BranchRow(lines: seq<string>, mode: Mode, k: nat, a: string, b: string, c: string)
    requires k < |lines| && k < |Assemble(lines, mode).rows|
    requires LineShape(lines[k]) == Triple("beq", a, b, c)
    ensures Assemble(lines, mode).rows[k].Instruction?
    ensures var row := Assemble(lines, mode).rows[k];
            var offset := BranchOffset(mode, LabelValue(lines, c), row.address);
            && row.parts == ["beq", b, a, IntToString(offset)]
            && (InInt(offset) ==>
                  && OpcodeOf(row.word) == 0x04 && RsOf(row.word) == Reg(a) && RtOf(row.word) == Reg(b)
                  && ImmOf(row.word) == Low16(offset))
  {
    var symbols := FirstPass.Run(lines).symbols;
    RowResolved(Views(lines), symbols, mode, k);
    var row := Assemble(lines, mode).rows[k];
    var table :| Extends(symbols, table) && row.parts == Resolve(Triple("beq", a, b, c), table, row.address, mode).0;
    LookupGivesLabelValue(lines, c, table);
    var offset := BranchOffset(mode, LabelValue(lines, c), row.address);
    assert row.parts == ["beq", b, a, IntToString(offset)];
    if InInt(offset) {
      BranchEncoding(b, a, offset);
    }
  }

  /**
    The row of a `j L` line: `{j, value(L) / 4}`, and the word carrying
    opcode 2 and the low 26 bits of that quotient.
  */
  lemma JumpRow(lines: seq<string>, mode: Mode, k: nat, target: string)
    requires k < |lines| && k < |Assemble(lines, mode).rows|
    requires LineShape(lines[k]) == Pair("j", target)
    ensures Assemble(lines, mode).rows[k].Instruction?
    ensures var row := Assemble(lines, mode).rows[k];
            var index := TruncDiv(LabelValue(lines, target), 4);
            && row.parts == ["j", IntToString(index)]
            && (InInt(index) ==> OpcodeOf(row.word) == 0x02 && TargetOf(row.word) == Low26(index))
  {
    var symbols := FirstPass.Run(lines).symbols;
    RowResolved(Views(lines), symbols, mode, k);
    var row := Assemble(lines, mode).rows[k];
    var table :| Extends(symbols, table) && row.parts == Resolve(Pair("j", target), table, row.address, mode).0;
    LookupGivesLabelValue(lines, target, table);
    var index := TruncDiv(LabelValue(lines, target), 4);
    assert row.parts == ["j", IntToString(index)];
    if InInt(index) {
      JumpEncoding(index);
    }
  }

  /** A branch and a target a whole number of words apart. */
  lemma BranchOverWords(target: int, at: int, words: int)
    requires target - at == 4 * words
    ensures BranchTarget(at, BranchOffset(Corrected, target, at)) == target
    ensures BranchTarget(at, BranchOffset(AsWritten, target, at)) == target + 8
  {
    BranchLands(target, at);
    BranchOvershoots(target, at);
  }

  /**
    Where a `beq` placed `extra` words past line `k`'s pass-1 address goes,
    when its label's last definition is line `d`.
  */
  lemma BranchFromLine(lines: seq<string>, mode: Mode, k: nat, extra: nat, c: string, d: nat, at: int)
    requires k < |lines| && at == FirstPass.AddressOf(lines, k) + 4 * extra
    requires d < |lines| && DefinedLabel(lines[d]) == Some(c)
    requires forall j :: d < j < |lines| ==> DefinedLabel(lines[j]) != Some(c)
    ensures mode == Corrected ==> BranchTarget(at, BranchOffset(mode, LabelValue(lines, c), at)) == FirstPass.AddressOf(lines, d)
    ensures mode == AsWritten ==> BranchTarget(at, BranchOffset(mode, LabelValue(lines, c), at)) == FirstPass.AddressOf(lines, d) + 8
  {
    var target := FirstPass.AddressOf(lines, d);
    assert LabelValue(lines, c) == target by {
      LastDefinitionIs(lines, c, d);
    }
    var words := FirstPass.Words(FirstPass.Infos(lines)[..d]) - FirstPass.Words(FirstPass.Infos(lines)[..k]) - extra;
    BranchOverWords(target, at, words);
  }

  /**
    Corrected, a `beq` to a label some line defines branches to the address
    pass 1 gave that label.
  */
  lemma BranchReachesLabel(lines: seq<string>, k: nat, a: string, b: string, c: string, d: nat)
    requires k < |lines| && k < |Assemble(lines, Corrected).rows|
    requires LineShape(lines[k]) == Triple("beq", a, b, c)
    requires d < |lines| && DefinedLabel(lines[d]) == Some(c)
    requires forall j :: d < j < |lines| ==> DefinedLabel(lines[j]) != Some(c)
    ensures Assemble(lines, Corrected).rows[k].Instruction?
    ensures var row := Assemble(lines, Corrected).rows[k];
            BranchTarget(row.address, BranchOffset(Corrected, LabelValue(lines, c), row.address)) == FirstPass.AddressOf(lines, d)
  {
    InstructionRow(lines, Corrected, k);
    RowAddress(lines, Corrected, k);
    BranchFromLine(lines, Corrected, k, 0, c, d, Assemble(lines, Corrected).rows[k].address);
  }

  /**
    As written, the same `beq` branches two instructions past the label,
    measured from the address pass 2 gives the branch.
  */
  lemma BranchPassesLabel(lines: seq<string>, k: nat, a: string, b: string, c: string, d: nat)
    requires k < |lines| && k < |Assemble(lines, AsWritten).rows|
    requires LineShape(lines[k]) == Triple("beq", a, b, c)
    requires d < |lines| && DefinedLabel(lines[d]) == Some(c)
    requires forall j :: d < j < |lines| ==> DefinedLabel(lines[j]) != Some(c)
    ensures Assemble(lines, AsWritten).rows[k].Instruction?
    ensures var row := Assemble(lines, AsWritten).rows[k];
            BranchTarget(row.address, BranchOffset(AsWritten, LabelValue(lines, c), row.address)) == FirstPass.AddressOf(lines, d) + 8
  {
    InstructionRow(lines, AsWritten, k);
    RowAddress(lines, AsWritten, k);
    BranchFromLine(lines, AsWritten, k, SilentBefore(lines, k), c, d, Assemble(lines, AsWritten).rows[k].address);
  }

  // ------------------------------------------------------------- examples

  /** `lw $t4, 4($t5)` has the based shape and is reordered to `{lw, $t4, $t5, 4}`. */
  lemma LoadWordLine(symbols: map<string, int>, count: int, mode: Mode)
    ensures LineShape("lw $t4, 4($t5)") == Based("lw", "$t4", "4", "$t5")
    ensures Resolve(LineShape("lw $t4, 4($t5)"), symbols, count, mode).0 == ["lw", "$t4", "$t5", "4"]
  {
    LoadWordShape();
  }

  lemma LoadWordShape()
    ensures LineShape("lw $t4, 4($t5)") == Based("lw", "$t4", "4", "$t5")
  {
    var s := Based("lw", "$t4", "4", "$t5");
    CanonicalLine(s, "lw $t4, 4($t5)");
  }

  /**
    `add $t2,$t1,$t1` with no blank after the commas is one operand token:
    the two-token shape wins and the word keeps only the function code.
  */
  lemma CommaJoinedLine(symbols: map<string, int>, count: int, mode: Mode)
    ensures LineShape("add $t2,$t1,$t1") == Pair("add", "$t2,$t1,$t1")
    ensures Encode(Resolve(LineShape("add $t2,$t1,$t1"), symbols, count, mode).0) == Word(0x0000_0020)
  {
    CommaJoinedShape();
    CommaJoinedExample();
  }

  lemma CommaJoinedShape()
    ensures LineShape("add $t2,$t1,$t1") == Pair("add", "$t2,$t1,$t1")
  {
    var s := Pair("add", "$t2,$t1,$t1");
    CanonicalLine(s, "add $t2,$t1,$t1");
  }

  /** A line written exactly as a well-formed, plain shape renders has that shape. */
  lemma CanonicalLine(s: Shape, line: string)
    requires WellFormed(s) && Plain(Render(s)) && line == Render(s)
    ensures LineShape(line) == s
  {
    assert SourceLine(None, s, "") == line by {
      assert CodePart(None, s, "") == Render(s);
    }
    SourceLineRoundTrip(None, s, "");
  }
}
