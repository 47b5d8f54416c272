/**
  Pass 2 of main.cpp (`secondPass`): each line is classified, its label
  references are resolved against the table pass 1 built, the resulting
  token list is encoded, and a listing row is produced. The instruction
  counter starts at 0 and moves by 4 after every line that is not
  label-only.

  Two steps of the source are reported as defects (see the README): the
  `beq` offset and the counter's advance on blank and comment-only lines.
  `Mode` selects between the code as written and the corrected behaviour,
  so that both can be stated and compared.
*/
module SecondPass {
  import opened Wrappers
  import opened Decimal
  import opened Encoder
  import opened LineSyntax
  import opened Shapes

  datatype Mode = AsWritten | Corrected

  // ----------------------------------------------------------- resolution

  /**
    The `beq` offset put in the immediate for a branch at `at` to `target`.
    As written: `(target - at) / 4 + 1` with C++ truncating division.
    Corrected: the MIPS32 rule, target = at + 4 + 4 * offset.
  */
  function BranchOffset(mode: Mode, target: int, at: int): int {
    match mode
    case AsWritten => TruncDiv(target - at, 4) + 1
    case Corrected => TruncDiv(target - at - 4, 4)
  }

  /** Where a MIPS32 branch at `at` with offset field `offset` goes (section "BEQ" of the MIPS32 Vol. II). */
  function BranchTarget(at: int, offset: int): int {
    at + 4 + 4 * offset
  }

  /** The key pass 2 looks up with `labelAddrMap[...]`, if the shape has one. */
  function LookupKey(shape: Shape): Option<string> {
    match shape
    case Pair(m, o) => if m == "j" then Some(o) else None
    case Triple(m, _, _, c) => if m == "beq" then Some(c) else None
    case _ => None
  }

  /** `labelAddrMap[key]`: the stored address, or 0 after inserting `key` with 0. */
  function Lookup(symbols: map<string, int>, key: string): (r: (int, map<string, int>))
    ensures r.1.Keys == symbols.Keys + {key}
    ensures key in r.1 && r.0 == r.1[key]
    ensures forall k :: k in symbols ==> r.1[k] == symbols[k]
    ensures key !in symbols ==> r.0 == 0
  {
    if key in symbols then (symbols[key], symbols) else (0, symbols[key := 0])
  }

  /**
    The token list `result` that the four shape branches build, and the
    table after their lookups: `j L` becomes `{j, map[L]/4}`, `beq a, b, L`
    becomes `{beq, b, a, offset}`, `m r, N(b)` becomes `{m, r, b, N}`.
  */
  function Resolve(shape: Shape, symbols: map<string, int>, count: int, mode: Mode): (r: (seq<string>, map<string, int>))
    ensures r.0 == [] <==> shape.NoShape?
    ensures |r.0| == 0 || |r.0| == 1 || |r.0| == 2 || |r.0| == 4
    ensures LookupKey(shape).None? ==> r.1 == symbols
    ensures LookupKey(shape).Some? ==> r.1 == Lookup(symbols, LookupKey(shape).value).1
  {
    match shape
    case NoShape => ([], symbols)
    case Bare(m) => ([m], symbols)
    case Pair(m, o) =>
      if m == "j" then
        var (target, table) := Lookup(symbols, o);
        ([m, IntToString(TruncDiv(target, 4))], table)
      else ([m, o], symbols)
    case Based(m, reg, off, base) => ([m, reg, base, off], symbols)
    case Triple(m, a, b, c) =>
      if m == "beq" then
        var (target, table) := Lookup(symbols, c);
        ([m, b, a, IntToString(BranchOffset(mode, target, count))], table)
      else ([m, a, b, c], symbols)
  }

  /** The lists pass 2 builds never have three tokens, so the encoder is defined on them. */
  lemma ResolvedEncodable(shape: Shape, symbols: map<string, int>, count: int, mode: Mode)
    ensures Encodable(Resolve(shape, symbols, count, mode).0)
  {
  }

  // ------------------------------------------------------------- the walk

  /** What pass 2 reads off one line. `tag` is the `\S*:` text, empty without a label. */
  datatype LineView = LineView(shape: Shape, tag: string, comment: string, labelOnly: bool, hasCode: bool)

  /** The label as the listing shows it, colon included. */
  function ListingLabel(line: string): string {
    match DefinedLabel(line)
    case Some(name) => name + ":"
    case None => []
  }

  function View(line: string): LineView {
    LineView(LineShape(line), ListingLabel(line), Comment(line), LabelOnly(line), HasCode(line))
  }

  function Views(lines: seq<string>): (r: seq<LineView>)
    ensures |r| == |lines|
    ensures forall k :: 0 <= k < |lines| ==> r[k] == View(lines[k])
  {
    seq(|lines|, k requires 0 <= k < |lines| => View(lines[k]))
  }

  /** One listing line: an encoded instruction at its address, or just the label and comment. */
  datatype Row =
    | Instruction(address: int, parts: seq<string>, word: bv32, tag: string, comment: string)
    | Remark(tag: string, comment: string)

  /**
    The rows so far, the table, the counter, and whether `std::stoi` threw
    (an uncaught exception: the program ends and no further line is read).
  */
  datatype State = State(rows: seq<Row>, symbols: map<string, int>, count: int, aborted: bool)

  /** Whether the counter moves by 4 after the line. */
  predicate Ticks(mode: Mode, view: LineView) {
    match mode
    case AsWritten => !view.labelOnly
    case Corrected => view.hasCode && !view.labelOnly
  }

  /**
    The listing row for a line, given the table and counter as they stand;
    None when `std::stoi` throws on the resolved token list.
  */
  function Emit(st: State, view: LineView, mode: Mode): Option<Row> {
    var parts := Resolve(view.shape, st.symbols, st.count, mode).0;
    ResolvedEncodable(view.shape, st.symbols, st.count, mode);
    if parts == [] then Some(Remark(view.tag, view.comment))
    else
      match Encode(parts)
      case Word(w) => Some(Instruction(st.count, parts, w, view.tag, view.comment))
      case Crash => None
  }

  /** One iteration of the `while (getline(...))` loop of `secondPass`. */
  function Step(st: State, view: LineView, mode: Mode): State {
    if st.aborted then st
    else
      var table := Resolve(view.shape, st.symbols, st.count, mode).1;
      match Emit(st, view, mode)
      case None => State(st.rows, table, st.count, true)
      case Some(row) => State(st.rows + [row], table, if Ticks(mode, view) then st.count + 4 else st.count, false)
  }

  /** The loop over classified lines, from the table of pass 1 and a zero counter. */
  function Walk(views: seq<LineView>, symbols: map<string, int>, mode: Mode): State
    decreases |views|
  {
    if views == [] then State([], symbols, 0, false)
    else Step(Walk(views[..|views| - 1], symbols, mode), views[|views| - 1], mode)
  }

  /** `secondPass` over the whole source with the table `symbols`. */
  function Run(lines: seq<string>, symbols: map<string, int>, mode: Mode): State {
    Walk(Views(lines), symbols, mode)
  }

  // ------------------------------------------------------ reference counts

  /** How many of the lines move the counter, counted from the front. */
  function TickCount(mode: Mode, views: seq<LineView>): nat
    decreases |views|
  {
    if views == [] then 0 else (if Ticks(mode, views[0]) then 1 else 0) + TickCount(mode, views[1..])
  }

  lemma {:induction false} TickCountAppend(mode: Mode, views: seq<LineView>, view: LineView)
    ensures TickCount(mode, views + [view]) == TickCount(mode, views) + (if Ticks(mode, view) then 1 else 0)
    decreases |views|
  {
    if views == [] {
      assert [] + [view] == [view];
      assert [view][1..] == [];
    } else {
      assert (views + [view])[1..] == views[1..] + [view];
      TickCountAppend(mode, views[1..], view);
    }
  }

  /** A table that keeps every entry of `base` and adds only zero entries. */
  predicate Extends(base: map<string, int>, table: map<string, int>) {
    && base.Keys <= table.Keys
    && (forall k :: k in base ==> table[k] == base[k])
    && (forall k :: k in table && k !in base ==> table[k] == 0)
  }

  // ----------------------------------------------------- walk invariants

  /** What one iteration does to the rows, the counter and the table. */
  lemma StepEffect(st: State, view: LineView, mode: Mode)
    ensures var r := Step(st, view, mode);
            && (st.aborted ==> r == st)
            && (!st.aborted && r.aborted ==> r.rows == st.rows)
            && (!st.aborted && !r.aborted ==>
                  && |r.rows| == |st.rows| + 1 && r.rows[..|st.rows|] == st.rows
                  && Emit(st, view, mode) == Some(r.rows[|st.rows|])
                  && r.count == st.count + (if Ticks(mode, view) then 4 else 0))
            && (!st.aborted ==> r.symbols == Resolve(view.shape, st.symbols, st.count, mode).1)
  {
    if !st.aborted && !Step(st, view, mode).aborted {
      var r := Step(st, view, mode);
      assert r.rows[..|st.rows|] == st.rows;
    }
  }

  /**
    The row of a line: an instruction row exactly for a line with a shape,
    addressed by the counter, holding the resolved token list and its
    encoding; label and comment are carried over.
  */
  lemma EmitRow(st: State, view: LineView, mode: Mode)
    requires Emit(st, view, mode).Some?
    ensures var row := Emit(st, view, mode).value;
            var resolved := Resolve(view.shape, st.symbols, st.count, mode).0;
            && (row.Instruction? <==> view.shape != NoShape)
            && (row.Instruction? ==> row.address == st.count && row.parts == resolved && Encode(resolved) == Word(row.word))
            && row.tag == view.tag && row.comment == view.comment
  {
  }

  /** Until `stoi` throws, pass 2 gives one row per line. */
  lemma {:induction false} WalkRowCount(views: seq<LineView>, symbols: map<string, int>, mode: Mode)
    ensures var st := Walk(views, symbols, mode);
            |st.rows| <= |views| && (!st.aborted ==> |st.rows| == |views|)
    decreases |views|
  {
    if views != [] {
      var n := |views| - 1;
      WalkRowCount(views[..n], symbols, mode);
      StepEffect(Walk(views[..n], symbols, mode), views[n], mode);
    }
  }

  /** Until `stoi` throws, the counter is four bytes per line that moved it. */
  lemma {:induction false} WalkCounter(views: seq<LineView>, symbols: map<string, int>, mode: Mode)
    ensures var st := Walk(views, symbols, mode);
            !st.aborted ==> st.count == 4 * TickCount(mode, views)
    decreases |views|
  {
    if views != [] {
      var n := |views| - 1;
      WalkCounter(views[..n], symbols, mode);
      StepEffect(Walk(views[..n], symbols, mode), views[n], mode);
      assert TickCount(mode, views) == TickCount(mode, views[..n]) + (if Ticks(mode, views[n]) then 1 else 0) by {
        assert views == views[..n] + [views[n]];
        TickCountAppend(mode, views[..n], views[n]);
      }
    }
  }

  /** The table only gains zero entries. */
  lemma {:induction false} WalkTable(views: seq<LineView>, symbols: map<string, int>, mode: Mode)
    ensures Extends(symbols, Walk(views, symbols, mode).symbols)
    decreases |views|
  {
    if views != [] {
      var n := |views| - 1;
      WalkTable(views[..n], symbols, mode);
      var before := Walk(views[..n], symbols, mode);
      StepEffect(before, views[n], mode);
      if !before.aborted {
        var key := LookupKey(views[n].shape);
        if key.Some? {
          var table := Lookup(before.symbols, key.value).1;
          assert Extends(symbols, table);
        }
      }
    }
  }

  /**
    Until `stoi` throws, pass 2 gives one row per line; the counter is four
    bytes per line that moved it; the table only gains zero entries.
  */
  lemma WalkInvariant(views: seq<LineView>, symbols: map<string, int>, mode: Mode)
    ensures var st := Walk(views, symbols, mode);
            && |st.rows| <= |views|
            && (!st.aborted ==> |st.rows| == |views| && st.count == 4 * TickCount(mode, views))
            && Extends(symbols, st.symbols)
  {
    WalkRowCount(views, symbols, mode);
    WalkCounter(views, symbols, mode);
    WalkTable(views, symbols, mode);
  }

  /** One iteration adds at most one row, and only one that `Emit` built. */
  lemma StepRows(st: State, view: LineView, mode: Mode)
    ensures var r := Step(st, view, mode).rows;
            && |st.rows| <= |r| <= |st.rows| + 1 && r[..|st.rows|] == st.rows
            && (|r| > |st.rows| ==> !st.aborted && Emit(st, view, mode) == Some(r[|st.rows|]))
  {
    StepEffect(st, view, mode);
  }

  /** Rows, once written, stay: a longer source only appends rows. */
  lemma {:induction false} WalkRowsPrefix(views: seq<LineView>, symbols: map<string, int>, mode: Mode, k: nat)
    requires k <= |views|
    ensures var rows := Walk(views, symbols, mode).rows;
            var early := Walk(views[..k], symbols, mode).rows;
            |early| <= |rows| && rows[..|early|] == early
    decreases |views|
  {
    if k < |views| {
      var n := |views| - 1;
      var before := Walk(views[..n], symbols, mode);
      var early := Walk(views[..k], symbols, mode).rows;
      assert views[..n][..k] == views[..k];
      WalkRowsPrefix(views[..n], symbols, mode, k);
      StepRows(before, views[n], mode);
      PrefixOfPrefix(Step(before, views[n], mode).rows, before.rows, early);
    } else {
      assert views[..k] == views;
    }
  }

  lemma PrefixOfPrefix<T>(a: seq<T>, b: seq<T>, c: seq<T>)
    requires |b| <= |a| && a[..|b|] == b
    requires |c| <= |b| && b[..|c|] == c
    ensures |c| <= |a| && a[..|c|] == c
  {
    assert a[..|c|] == b[..|c|];
  }

  /** Row `k` is the row `Emit` built from line `k`, under the state the walk had reached there. */
  lemma {:induction false} RowOfLine(views: seq<LineView>, symbols: map<string, int>, mode: Mode, k: nat)
    requires k < |views| && k < |Walk(views, symbols, mode).rows|
    ensures var before := Walk(views[..k], symbols, mode);
            && !before.aborted
            && Emit(before, views[k], mode) == Some(Walk(views, symbols, mode).rows[k])
    decreases |views|
  {
    var n := |views| - 1;
    var init := views[..n];
    var prior := Walk(init, symbols, mode);
    WalkRowCount(init, symbols, mode);
    StepRows(prior, views[n], mode);
    if k < |prior.rows| {
      RowOfLine(init, symbols, mode, k);
      assert init[..k] == views[..k];
      assert init[k] == views[k];
      KeptRow(Step(prior, views[n], mode).rows, prior.rows, k);
    } else {
      assert k == n;
      assert views[..k] == init;
    }
  }

  lemma KeptRow<T>(a: seq<T>, b: seq<T>, k: nat)
    requires |b| <= |a| && a[..|b|] == b && k < |b|
    ensures a[k] == b[k]
  {
    assert a[..|b|][k] == a[k];
  }

  /**
    Row `k` of the listing: an instruction row exactly for a line with a
    shape, addressed by the counter at that line, holding the token list
    resolved under the table as it stood then, and that list's encoding.
  */
  lemma RowAt(views: seq<LineView>, symbols: map<string, int>, mode: Mode, k: nat)
    requires k < |views| && k < |Walk(views, symbols, mode).rows|
    ensures var before := Walk(views[..k], symbols, mode);
            var row := Walk(views, symbols, mode).rows[k];
            var resolved := Resolve(views[k].shape, before.symbols, before.count, mode).0;
            && before.count == 4 * TickCount(mode, views[..k])
            && Extends(symbols, before.symbols)
            && (row.Instruction? <==> views[k].shape != NoShape)
            && (row.Instruction? ==> row.address == before.count && row.parts == resolved && Encode(resolved) == Word(row.word))
            && row.tag == views[k].tag && row.comment == views[k].comment
  {
    var before := Walk(views[..k], symbols, mode);
    RowOfLine(views, symbols, mode, k);
    WalkCounter(views[..k], symbols, mode);
    WalkTable(views[..k], symbols, mode);
    EmitRow(before, views[k], mode);
  }

  /**
    An instruction row holds its line's shape resolved at the row's address
    under a table that extends the one pass 2 started from, and the
    encoding of that token list.
  */
  lemma RowResolved(views: seq<LineView>, symbols: map<string, int>, mode: Mode, k: nat)
    requires k < |views| && k < |Walk(views, symbols, mode).rows|
    requires views[k].shape != NoShape
    ensures Walk(views, symbols, mode).rows[k].Instruction?
    ensures var row := Walk(views, symbols, mode).rows[k];
            && Encodable(row.parts) && Encode(row.parts) == Word(row.word)
            && exists table :: Extends(symbols, table) && row.parts == Resolve(views[k].shape, table, row.address, mode).0
  {
    RowAt(views, symbols, mode, k);
    var before := Walk(views[..k], symbols, mode);
    ResolvedEncodable(views[k].shape, before.symbols, before.count, mode);
  }

  // ------------------------------------------------------------ the lines

  /** Until `stoi` throws, the listing has one row per line, an instruction row exactly for the lines with a shape. */
  lemma RowsFollowLines(lines: seq<string>, symbols: map<string, int>, mode: Mode)
    ensures var st := Run(lines, symbols, mode);
            && |st.rows| <= |lines|
            && (!st.aborted ==> |st.rows| == |lines|)
            && forall k :: 0 <= k < |st.rows| ==> (st.rows[k].Instruction? <==> LineShape(lines[k]) != NoShape)
  {
    var views := Views(lines);
    WalkInvariant(views, symbols, mode);
    forall k | 0 <= k < |Run(lines, symbols, mode).rows|
      ensures Run(lines, symbols, mode).rows[k].Instruction? <==> LineShape(lines[k]) != NoShape
    {
      RowAt(views, symbols, mode, k);
    }
  }

  /** Pass 2 never changes an entry pass 1 made; it only adds zero entries for unknown labels. */
  lemma TableOnlyGrows(lines: seq<string>, symbols: map<string, int>, mode: Mode)
    ensures Extends(symbols, Run(lines, symbols, mode).symbols)
  {
    WalkInvariant(Views(lines), symbols, mode);
  }

  // -------------------------------------------------------------- branches

  /** As written, a `beq` to an aligned target lands two words past it. */
  lemma BranchOvershoots(target: int, at: int)
    requires (target - at) % 4 == 0
    ensures BranchTarget(at, BranchOffset(AsWritten, target, at)) == target + 8
  {
  }

  /** Corrected, a `beq` to an aligned target lands on it. */
  lemma BranchLands(target: int, at: int)
    requires (target - at) % 4 == 0
    ensures BranchTarget(at, BranchOffset(Corrected, target, at)) == target
  {
  }

  /** A branch at 0 to a label at 8: the offset written is 3, so the branch goes to 16. */
  lemma BranchOvershootExample()
    ensures BranchOffset(AsWritten, 8, 0) == 3 && BranchTarget(0, 3) == 16
    ensures BranchOffset(Corrected, 8, 0) == 1 && BranchTarget(0, 1) == 8
  {
  }
}
