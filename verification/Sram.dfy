// fakeramTile/mem_generator.py: the flat reference memory, the memory composed
// from 32 x 32 macros, the generator that lays the macros out, and the proof
// that at every clock edge of every trace both show the same data.

module Sram {
  import opened DivMod
  import opened PowersOfTwo

  const FAKERAM_DEPTH := 32
  const FAKERAM_DW := 32

  /** A word of bits, bit 0 first. */
  type Word = seq<bool>

  function Zeros(n: nat): (w: Word)
    ensures |w| == n
  {
    seq(n, _ => false)
  }

  /** The inputs of a memory at one clock edge. */
  datatype Input = Input(a: nat, di: Word, bw: Word, ce: bool, rdwen: bool)

  /** The inputs fit a memory of the given widths. */
  predicate Fits(i: Input, addrW: nat, dataW: nat) {
    i.a < Pow2(addrW) && |i.di| == dataW && |i.bw| == dataW
  }

  // ---------------------------------------------------------------------
  // The flat memory
  // ---------------------------------------------------------------------

  /** Contents and the output register. */
  datatype Flat = Flat(mem: seq<Word>, out: Word)

  predicate Shaped(s: Flat, depth: nat, dataW: nat) {
    |s.mem| == depth && |s.out| == dataW && forall a :: 0 <= a < depth ==> |s.mem[a]| == dataW
  }

  /** (DI & BW) | (mem & ~BW), bit by bit. */
  function Masked(old_: Word, di: Word, bw: Word): Word {
    seq(|old_|, b requires 0 <= b < |old_| => if b < |bw| && b < |di| && bw[b] then di[b] else old_[b])
  }

  /** One clock edge: a masked write, a read into the output register, or nothing. */
  function FlatStep(s: Flat, i: Input): Flat {
    if !i.ce || i.a >= |s.mem| then s
    else if !i.rdwen then s.(mem := s.mem[i.a := Masked(s.mem[i.a], i.di, i.bw)])
    else s.(out := s.mem[i.a])
  }

  // ---------------------------------------------------------------------
  // The composed memory
  // ---------------------------------------------------------------------

  /** One macro: its bank, its column, and the slice [hi:lo] of the data that it holds. */
  datatype Instance = Instance(row: nat, col: nat, lo: nat, hi: nat)

  /** One item of the concatenation that forms DO: the low bits of a column's read data. */
  datatype Part = Part(col: nat, bits: nat)

  /** The netlist; parts are listed most significant first, as in the Verilog concatenation. */
  datatype Netlist = Netlist(nRows: nat, nCols: nat, instances: seq<Instance>, parts: seq<Part>)

  /** State of the composed memory: one flat 32 x 32 memory per instance, and the registered row select. */
  datatype Composed = Composed(macros: seq<Flat>, rowSel: nat)

  /** Bits lo to hi of w, zero-padded to the width of a macro. */
  function PadSlice(w: Word, lo: nat, hi: nat): Word {
    if lo <= hi < |w| && hi - lo < FAKERAM_DW then w[lo..hi + 1] + Zeros(FAKERAM_DW - (hi - lo + 1))
    else Zeros(FAKERAM_DW)
  }

  /** The inputs that reach an instance: chip enable only for the bank that the address selects. */
  function MacroInput(n: Netlist, x: Instance, i: Input): Input {
    Input(i.a % FAKERAM_DEPTH, PadSlice(i.di, x.lo, x.hi), PadSlice(i.bw, x.lo, x.hi),
          i.ce && (n.nRows > 1 ==> i.a / FAKERAM_DEPTH == x.row), i.rdwen)
  }

  function ComposedStep(n: Netlist, s: Composed, i: Input): Composed {
    Composed(
      seq(|s.macros|, q requires 0 <= q < |s.macros| =>
        if q < |n.instances| then FlatStep(s.macros[q], MacroInput(n, n.instances[q], i)) else s.macros[q]),
      if n.nRows > 1 && i.ce && i.rdwen then i.a / FAKERAM_DEPTH else s.rowSel)
  }

  /** Read data of column c: that of the registered row, or of the only row. */
  function ColumnOut(n: Netlist, s: Composed, c: nat): Word {
    var q := (if n.nRows > 1 then s.rowSel else 0) * n.nCols + c;
    if (n.nRows > 1 ==> s.rowSel < n.nRows) && q < |s.macros| then s.macros[q].out else Zeros(FAKERAM_DW)
  }

  function PartOut(n: Netlist, s: Composed, p: Part): Word {
    var w := ColumnOut(n, s, p.col);
    if p.bits <= |w| then w[..p.bits] else w
  }

  /** The concatenation of parts, least significant bit first. */
  function Concat(n: Netlist, s: Composed, parts: seq<Part>): Word {
    if parts == [] then [] else Concat(n, s, parts[1..]) + PartOut(n, s, parts[0])
  }

  function ComposedOut(n: Netlist, s: Composed): Word {
    Concat(n, s, n.parts)
  }

  // ---------------------------------------------------------------------
  // The generator
  // ---------------------------------------------------------------------

  function CeilDiv(a: nat, b: nat): nat
    requires b > 0
  {
    (a + b - 1) / b
  }

  function Rows(addrW: nat): nat {
    CeilDiv(Pow2(addrW), FAKERAM_DEPTH)
  }

  function Cols(dataW: nat): nat {
    CeilDiv(dataW, FAKERAM_DW)
  }

  function SliceLow(c: nat): nat {
    c * FAKERAM_DW
  }

  function SliceHigh(c: nat, dataW: nat): int {
    (if (c + 1) * FAKERAM_DW <= dataW then (c + 1) * FAKERAM_DW else dataW) - 1
  }

  /** Position of the instance of bank r and column c. */
  function Slot(nCols: nat, r: nat, c: nat): nat {
    r * nCols + c
  }

  /** The first n banks hold every column, with the column's slice of the data. */
  ghost predicate BanksLaidOut(instances: seq<Instance>, n: nat, nCols: nat, dataW: nat) {
    && |instances| == n * nCols
    && forall r: nat, c: nat :: r < n && c < nCols ==>
         && Slot(nCols, r, c) < |instances|
         && instances[Slot(nCols, r, c)].row == r && instances[Slot(nCols, r, c)].col == c
         && instances[Slot(nCols, r, c)].lo == SliceLow(c) && instances[Slot(nCols, r, c)].hi == SliceHigh(c, dataW)
  }

  /** The parts are the columns from the highest to the lowest, each with its slice's width. */
  predicate PartsFrom(parts: seq<Part>, c: nat, nCols: nat, dataW: nat) {
    && c <= nCols && |parts| == nCols - c
    && forall k: nat :: k < nCols - c ==>
         parts[k].col == nCols - 1 - k
         && parts[k].bits == SliceHigh(nCols - 1 - k, dataW) - SliceLow(nCols - 1 - k) + 1
  }

  /** What the generator lays out for the given widths. */
  ghost predicate LaysOut(n: Netlist, addrW: nat, dataW: nat) {
    && n.nRows == Rows(addrW) && n.nCols == Cols(dataW)
    && BanksLaidOut(n.instances, n.nRows, n.nCols, dataW)
    && PartsFrom(n.parts, 0, n.nCols, dataW)
  }

  lemma ColumnBounds(dataW: nat, c: nat)
    requires c < Cols(dataW)
    ensures SliceLow(c) <= SliceHigh(c, dataW) < dataW && SliceHigh(c, dataW) - SliceLow(c) < FAKERAM_DW
    ensures c + 1 < Cols(dataW) ==> SliceHigh(c, dataW) == SliceLow(c) + FAKERAM_DW - 1
    ensures c + 1 == Cols(dataW) ==> SliceHigh(c, dataW) == dataW - 1
  {
  }

  /** Adding bank r behind the banks before it. */
  lemma BankAppended(instances: seq<Instance>, bank: seq<Instance>, r: nat, nCols: nat, dataW: nat)
    requires BanksLaidOut(instances, r, nCols, dataW) && |bank| == nCols
    requires forall c: nat :: c < nCols ==>
               SliceHigh(c, dataW) >= 0 && bank[c] == Instance(r, c, SliceLow(c), SliceHigh(c, dataW))
    ensures BanksLaidOut(instances + bank, r + 1, nCols, dataW)
  {
    var all := instances + bank;
    assert (r + 1) * nCols == r * nCols + nCols;
    forall r': nat, c: nat | r' < r + 1 && c < nCols
      ensures Slot(nCols, r', c) < |all|
      ensures var x := all[Slot(nCols, r', c)];
              x.row == r' && x.col == c && x.lo == SliceLow(c) && x.hi == SliceHigh(c, dataW)
    {
      if r' == r {
        assert all[Slot(nCols, r, c)] == bank[c];
      } else {
        assert Slot(nCols, r', c) < |instances|;
        assert all[Slot(nCols, r', c)] == instances[Slot(nCols, r', c)];
      }
    }
  }

  /** The inner loop over the columns of one bank. */
  method ComposeBank(r: nat, nCols: nat, dataW: nat) returns (bank: seq<Instance>)
    requires nCols == Cols(dataW)
    ensures |bank| == nCols
    ensures forall c: nat :: c < nCols ==>
               SliceHigh(c, dataW) >= 0 && bank[c] == Instance(r, c, SliceLow(c), SliceHigh(c, dataW))
  {
    bank := [];
    for c := 0 to nCols
      invariant |bank| == c
      invariant forall c': nat :: c' < c ==>
                  SliceHigh(c', dataW) >= 0 && bank[c'] == Instance(r, c', SliceLow(c'), SliceHigh(c', dataW))
    {
      ColumnBounds(dataW, c);
      bank := bank + [Instance(r, c, SliceLow(c), SliceHigh(c, dataW))];
    }
  }

  /** The loop over the columns in reverse that collects the parts of DO. */
  method ComposeParts(nCols: nat, dataW: nat) returns (parts: seq<Part>)
    requires nCols == Cols(dataW)
    ensures PartsFrom(parts, 0, nCols, dataW)
  {
    parts := [];
    var c := nCols;
    while c > 0
      invariant PartsFrom(parts, c, nCols, dataW)
    {
      c := c - 1;
      ColumnBounds(dataW, c);
      parts := parts + [Part(c, SliceHigh(c, dataW) - SliceLow(c) + 1)];
    }
  }

  /** The generator, for all widths. */
  method Compose(addrW: nat, dataW: nat) returns (n: Netlist)
    ensures LaysOut(n, addrW, dataW)
  {
    var nRows, nCols := Rows(addrW), Cols(dataW);
    var instances: seq<Instance> := [];
    for r := 0 to nRows
      invariant BanksLaidOut(instances, r, nCols, dataW)
    {
      var bank := ComposeBank(r, nCols, dataW);
      BankAppended(instances, bank, r, nCols, dataW);
      instances := instances + bank;
    }
    var parts := ComposeParts(nCols, dataW);
    n := Netlist(nRows, nCols, instances, parts);
  }

  // ---------------------------------------------------------------------
  // Bank and slice arithmetic
  // ---------------------------------------------------------------------

  /** Bank and row within the bank name each address once, and each column and bit each data bit once. */
  lemma AddressSplits(a: nat, addrW: nat)
    requires a < Pow2(addrW)
    ensures a / FAKERAM_DEPTH < Rows(addrW) && a == a / FAKERAM_DEPTH * FAKERAM_DEPTH + a % FAKERAM_DEPTH
    ensures Rows(addrW) == 1 ==> a < FAKERAM_DEPTH
  {
  }

  lemma BitSplits(b: nat, dataW: nat)
    requires b < dataW
    ensures var c := b / FAKERAM_DW;
            c < Cols(dataW) && SliceLow(c) + b % FAKERAM_DW == b && b <= SliceHigh(c, dataW)
  {
  }

  /** The least number of parts of size d that cover n. */
  lemma Covers(n: nat, d: nat)
    requires d > 0
    ensures var q := CeilDiv(n, d); n <= q * d && (n > 0 ==> (q - 1) * d < n)
  {
    var m := n + d - 1;
    assert m == m / d * d + m % d;
    assert (m / d - 1) * d == m / d * d - d;
  }

  /** How many macros there are and what each one is: enough banks and columns and no more, bank by bank, each macro
      with thirty-two bits of the data, the last column of a bank with what is left. */
  lemma Layout(n: Netlist, addrW: nat, dataW: nat, q: nat)
    requires LaysOut(n, addrW, dataW)
    ensures (n.nRows - 1) * 32 < Pow2(addrW) <= n.nRows * 32
    ensures dataW <= n.nCols * 32 && (dataW > 0 ==> (n.nCols - 1) * 32 < dataW)
    ensures |n.instances| == n.nRows * n.nCols && |n.parts| == n.nCols
    ensures q < |n.instances| ==>
              var x := n.instances[q];
              && x.row < n.nRows && x.col < n.nCols && x.row * n.nCols + x.col == q
              && x.lo == 32 * x.col && x.hi == (if x.col + 1 < n.nCols then 32 * x.col + 31 else dataW - 1)
  {
    Covers(Pow2(addrW), FAKERAM_DEPTH);
    Covers(dataW, FAKERAM_DW);
    if q < |n.instances| {
      var r, c := RowAndColumn(q, n.nRows, n.nCols);
      ColumnBounds(dataW, c);
      assert Slot(n.nCols, r, c) == q;
    }
  }

  lemma RowAndColumn(q: nat, rows: nat, cols: nat) returns (r: nat, c: nat)
    requires q < rows * cols
    ensures r < rows && c < cols && q == r * cols + c
  {
    assert cols > 0;
    r, c := q / cols, q % cols;
    if r >= rows {
      MulMonotone(rows, r, cols);
    }
  }

  lemma SlotInside(nRows: nat, nCols: nat, r: nat, c: nat)
    requires r < nRows && c < nCols
    ensures Slot(nCols, r, c) < nRows * nCols
  {
    MulMonotone(r + 1, nRows, nCols);
  }

  // ---------------------------------------------------------------------
  // The flat memory that a composed memory stands for
  // ---------------------------------------------------------------------

  /** A state of the composed memory: all macros 32 x 32, and a row select that fits its register. */
  ghost predicate Good(n: Netlist, s: Composed) {
    && |s.macros| == |n.instances|
    && (forall q :: 0 <= q < |s.macros| ==> Shaped(s.macros[q], FAKERAM_DEPTH, FAKERAM_DW))
    && (n.nRows > 1 ==> s.rowSel < n.nRows)
  }

  /** Bit b of word a of the composed memory. */
  function BitAt(n: Netlist, s: Composed, a: nat, b: nat): bool {
    var q := Slot(n.nCols, a / FAKERAM_DEPTH, b / FAKERAM_DW);
    q < |s.macros| && a % FAKERAM_DEPTH < |s.macros[q].mem|
    && b % FAKERAM_DW < |s.macros[q].mem[a % FAKERAM_DEPTH]| && s.macros[q].mem[a % FAKERAM_DEPTH][b % FAKERAM_DW]
  }

  /** Word a of the composed memory. */
  function WordAt(n: Netlist, s: Composed, a: nat, dataW: nat): Word {
    seq(dataW, b requires 0 <= b => BitAt(n, s, a, b))
  }

  /** The flat memory with the same contents and the same data at the output. */
  function Abstract(n: Netlist, s: Composed, addrW: nat, dataW: nat): Flat {
    Flat(seq(Pow2(addrW), a requires 0 <= a => WordAt(n, s, a, dataW)), ComposedOut(n, s))
  }

  /** The instance that holds bit b of word a, and the bit of its data that is bit b. */
  lemma InstanceOf(n: Netlist, s: Composed, addrW: nat, dataW: nat, r: nat, b: nat)
    requires LaysOut(n, addrW, dataW) && Good(n, s) && r < n.nRows && b < dataW
    ensures var c := b / FAKERAM_DW;
            var q := Slot(n.nCols, r, c);
            && c < n.nCols && q < |s.macros| && Shaped(s.macros[q], FAKERAM_DEPTH, FAKERAM_DW)
            && n.instances[q].row == r && n.instances[q].lo == b - b % FAKERAM_DW
            && n.instances[q].lo <= b <= n.instances[q].hi < dataW && n.instances[q].hi - n.instances[q].lo < FAKERAM_DW
  {
    BitSplits(b, dataW);
    var c := b / FAKERAM_DW;
    SlotInside(n.nRows, n.nCols, r, c);
    ColumnBounds(dataW, c);
    assert n.instances[Slot(n.nCols, r, c)].row == r;
  }

  lemma PadSliceBit(w: Word, lo: nat, hi: nat, b: nat)
    requires lo <= b <= hi < |w| && hi - lo < FAKERAM_DW
    ensures |PadSlice(w, lo, hi)| == FAKERAM_DW && PadSlice(w, lo, hi)[b - lo] == w[b]
  {
  }

  // ---------------------------------------------------------------------
  // The output
  // ---------------------------------------------------------------------

  lemma {:induction false} ConcatBits(n: Netlist, s: Composed, dataW: nat, c: nat)
    requires n.nCols == Cols(dataW) && PartsFrom(n.parts, 0, n.nCols, dataW) && c <= n.nCols
    requires forall k: nat :: k < n.nCols ==> |ColumnOut(n, s, k)| == FAKERAM_DW
    ensures var w := Concat(n, s, n.parts[n.nCols - c..]);
            && |w| == (if c == n.nCols then dataW else c * FAKERAM_DW)
            && forall b: nat :: b < |w| ==>
                b / FAKERAM_DW < n.nCols && w[b] == ColumnOut(n, s, b / FAKERAM_DW)[b % FAKERAM_DW]
  {
    hide ColumnOut;
    if c > 0 {
      ConcatBits(n, s, dataW, c - 1);
      var rest := n.parts[n.nCols - c..];
      assert rest[0] == n.parts[n.nCols - c] && rest[1..] == n.parts[n.nCols - (c - 1)..];
      ColumnBounds(dataW, c - 1);
    }
  }

  /** Bit b of DO is bit b % 32 of column b / 32. */
  lemma OutBits(n: Netlist, s: Composed, addrW: nat, dataW: nat)
    requires LaysOut(n, addrW, dataW) && Good(n, s)
    ensures var w := ComposedOut(n, s);
            && |w| == dataW
            && forall b: nat :: b < dataW ==>
                b / FAKERAM_DW < n.nCols && w[b] == ColumnOut(n, s, b / FAKERAM_DW)[b % FAKERAM_DW]
  {
    forall k: nat | k < n.nCols
      ensures |ColumnOut(n, s, k)| == FAKERAM_DW
    {
      RowsPositive(addrW);
      SlotInside(n.nRows, n.nCols, if n.nRows > 1 then s.rowSel else 0, k);
    }
    ConcatBits(n, s, dataW, n.nCols);
    assert n.parts[0..] == n.parts;
  }

  lemma RowsPositive(addrW: nat)
    ensures Rows(addrW) >= 1 && Pow2(addrW) >= 1
  {
  }

  // ---------------------------------------------------------------------
  // One clock edge
  // ---------------------------------------------------------------------

  lemma StepKeepsGood(n: Netlist, s: Composed, i: Input, addrW: nat, dataW: nat)
    requires LaysOut(n, addrW, dataW) && Good(n, s) && Fits(i, addrW, dataW)
    ensures Good(n, ComposedStep(n, s, i))
  {
    AddressSplits(i.a, addrW);
  }

  /** Every bit of every word changes as in the flat memory. */
  lemma StepBit(n: Netlist, s: Composed, i: Input, addrW: nat, dataW: nat, a: nat, b: nat)
    requires LaysOut(n, addrW, dataW) && Good(n, s) && Fits(i, addrW, dataW) && a < Pow2(addrW) && b < dataW
    ensures BitAt(n, ComposedStep(n, s, i), a, b) ==
            if i.ce && !i.rdwen && i.a == a && i.bw[b] then i.di[b] else BitAt(n, s, a, b)
  {
    var r := a / FAKERAM_DEPTH;
    AddressSplits(a, addrW);
    AddressSplits(i.a, addrW);
    InstanceOf(n, s, addrW, dataW, r, b);
    var q := Slot(n.nCols, r, b / FAKERAM_DW);
    var x := n.instances[q];
    PadSliceBit(i.di, x.lo, x.hi, b);
    PadSliceBit(i.bw, x.lo, x.hi, b);
    hide LaysOut, Slot, PadSlice;
    assert ComposedStep(n, s, i).macros[q] == FlatStep(s.macros[q], MacroInput(n, x, i));
  }

  /** A read puts the addressed word at the output; otherwise the output stands. */
  lemma StepOut(n: Netlist, s: Composed, i: Input, addrW: nat, dataW: nat, b: nat)
    requires LaysOut(n, addrW, dataW) && Good(n, s) && Fits(i, addrW, dataW) && b < dataW
    ensures var c := b / FAKERAM_DW;
            && |ColumnOut(n, s, c)| == FAKERAM_DW && |ColumnOut(n, ComposedStep(n, s, i), c)| == FAKERAM_DW
            && ColumnOut(n, ComposedStep(n, s, i), c)[b % FAKERAM_DW] ==
                 if i.ce && i.rdwen then BitAt(n, s, i.a, b) else ColumnOut(n, s, c)[b % FAKERAM_DW]
  {
    var c, s' := b / FAKERAM_DW, ComposedStep(n, s, i);
    AddressSplits(i.a, addrW);
    RowsPositive(addrW);
    var r := if n.nRows > 1 then s'.rowSel else 0;
    var r0 := if n.nRows > 1 then s.rowSel else 0;
    InstanceOf(n, s, addrW, dataW, r, b);
    InstanceOf(n, s, addrW, dataW, r0, b);
    var q := Slot(n.nCols, r, c);
    hide LaysOut, PadSlice, Masked;
    assert s'.macros[q] == FlatStep(s.macros[q], MacroInput(n, n.instances[q], i));
    if i.ce && i.rdwen {
      assert r == i.a / FAKERAM_DEPTH;
    }
  }

  /** Only the bank that an address selects is enabled, if there is more than one: the others stay as they are, and so
      do all without chip enable. */
  lemma OneBankMoves(n: Netlist, s: Composed, i: Input, addrW: nat, dataW: nat, q: nat)
    requires LaysOut(n, addrW, dataW) && Good(n, s) && Fits(i, addrW, dataW) && q < |s.macros|
    requires !i.ce || i.a / 32 != n.instances[q].row
    ensures ComposedStep(n, s, i).macros[q] == s.macros[q]
  {
    hide PadSlice, Masked;
    AddressSplits(i.a, addrW);
    Layout(n, addrW, dataW, q);
  }

  /** What a macro does not hold of the data is zero at its inputs. */
  lemma PaddingIsZero(w: Word, lo: nat, hi: nat, b: nat)
    requires lo <= hi < |w| && hi - lo < 32 && hi - lo < b < 32
    ensures |PadSlice(w, lo, hi)| == 32 && !PadSlice(w, lo, hi)[b]
  {
  }

  /** The composed memory's clock edge is the flat memory's clock edge. */
  lemma StepCommutes(n: Netlist, s: Composed, i: Input, addrW: nat, dataW: nat)
    requires LaysOut(n, addrW, dataW) && Good(n, s) && Fits(i, addrW, dataW)
    ensures Abstract(n, ComposedStep(n, s, i), addrW, dataW) == FlatStep(Abstract(n, s, addrW, dataW), i)
  {
    var s' := ComposedStep(n, s, i);
    var f, f' := Abstract(n, s, addrW, dataW), Abstract(n, s', addrW, dataW);
    var g := FlatStep(f, i);
    hide ComposedStep, LaysOut, BitAt;
    forall a: nat | a < Pow2(addrW)
      ensures f'.mem[a] == g.mem[a]
    {
      forall b: nat | b < dataW
        ensures f'.mem[a][b] == g.mem[a][b]
      {
        StepBit(n, s, i, addrW, dataW, a, b);
      }
      assert |f'.mem[a]| == |g.mem[a]| == dataW;
    }
    assert f'.mem == g.mem;
    StepKeepsGood(n, s, i, addrW, dataW);
    OutBits(n, s, addrW, dataW);
    OutBits(n, s', addrW, dataW);
    forall b: nat | b < dataW
      ensures f'.out[b] == g.out[b]
    {
      StepOut(n, s, i, addrW, dataW, b);
    }
    assert |f'.out| == |g.out| == dataW;
    assert f'.out == g.out;
  }

  // ---------------------------------------------------------------------
  // Whole traces
  // ---------------------------------------------------------------------

  /** What a memory shows at its output after each clock edge of a trace. */
  function FlatTrace(s: Flat, trace: seq<Input>): (r: seq<Word>)
    ensures |r| == |trace|
    decreases |trace|
  {
    if trace == [] then [] else
      var s' := FlatStep(s, trace[0]);
      [s'.out] + FlatTrace(s', trace[1..])
  }

  function ComposedTrace(n: Netlist, s: Composed, trace: seq<Input>): (r: seq<Word>)
    ensures |r| == |trace|
    decreases |trace|
  {
    if trace == [] then [] else
      var s' := ComposedStep(n, s, trace[0]);
      [ComposedOut(n, s')] + ComposedTrace(n, s', trace[1..])
  }

  /** For all widths, all contents and registers at power-up, and every trace: the composed memory shows what the flat
      memory with the same contents shows, at every clock edge. */
  lemma {:induction false} TracesAgree(n: Netlist, s: Composed, trace: seq<Input>, addrW: nat, dataW: nat)
    requires LaysOut(n, addrW, dataW) && Good(n, s) && forall i :: i in trace ==> Fits(i, addrW, dataW)
    ensures ComposedTrace(n, s, trace) == FlatTrace(Abstract(n, s, addrW, dataW), trace)
    decreases |trace|
  {
    if trace != [] {
      assert trace[0] in trace;
      assert forall i :: i in trace[1..] ==> i in trace;
      StepKeepsGood(n, s, trace[0], addrW, dataW);
      StepCommutes(n, s, trace[0], addrW, dataW);
      TracesAgree(n, ComposedStep(n, s, trace[0]), trace[1..], addrW, dataW);
    }
  }

  predicate IsRead(i: Input) {
    i.ce && i.rdwen
  }

  /** The state after a trace. */
  function FlatRun(s: Flat, trace: seq<Input>): Flat
    decreases |trace|
  {
    if trace == [] then s else FlatRun(FlatStep(s, trace[0]), trace[1..])
  }

  function ComposedRun(n: Netlist, s: Composed, trace: seq<Input>): Composed
    decreases |trace|
  {
    if trace == [] then s else ComposedRun(n, ComposedStep(n, s, trace[0]), trace[1..])
  }

  lemma {:induction false} RunCommutes(n: Netlist, s: Composed, trace: seq<Input>, addrW: nat, dataW: nat)
    requires LaysOut(n, addrW, dataW) && Good(n, s) && forall i :: i in trace ==> Fits(i, addrW, dataW)
    ensures Abstract(n, ComposedRun(n, s, trace), addrW, dataW) == FlatRun(Abstract(n, s, addrW, dataW), trace)
    decreases |trace|
  {
    hide LaysOut, Good, Abstract, ComposedStep, FlatStep;
    if trace != [] {
      assert trace[0] in trace;
      assert forall i :: i in trace[1..] ==> i in trace;
      StepKeepsGood(n, s, trace[0], addrW, dataW);
      StepCommutes(n, s, trace[0], addrW, dataW);
      RunCommutes(n, ComposedStep(n, s, trace[0]), trace[1..], addrW, dataW);
    }
  }

  /** Two flat memories of equal contents show the same from a read on, whatever came before. */
  lemma {:induction false} FlatSettles(f: Flat, g: Flat, trace: seq<Input>, k: nat)
    requires f.mem == g.mem && k < |trace| && IsRead(trace[k]) && trace[k].a < |f.mem|
    ensures forall j :: k <= j < |trace| ==> FlatTrace(f, trace)[j] == FlatTrace(g, trace)[j]
    ensures FlatRun(f, trace) == FlatRun(g, trace)
    decreases |trace|
  {
    hide Masked;
    if k == 0 {
      assert FlatStep(f, trace[0]) == FlatStep(g, trace[0]);
    } else {
      FlatSettles(FlatStep(f, trace[0]), FlatStep(g, trace[0]), trace[1..], k - 1);
    }
  }

  /** Whatever the registers hold at power-up, two memories of equal contents agree from the first read on, writes
      before it included: their outputs at that clock edge and all later ones, and all they hold in the end. */
  lemma ReadSettlesOutput(n: Netlist, s: Composed, f: Flat, trace: seq<Input>, k: nat, addrW: nat, dataW: nat)
    requires LaysOut(n, addrW, dataW) && Good(n, s) && forall i :: i in trace ==> Fits(i, addrW, dataW)
    requires f.mem == Abstract(n, s, addrW, dataW).mem && k < |trace| && IsRead(trace[k])
    ensures forall j :: k <= j < |trace| ==> ComposedTrace(n, s, trace)[j] == FlatTrace(f, trace)[j]
    ensures Abstract(n, ComposedRun(n, s, trace), addrW, dataW) == FlatRun(f, trace)
  {
    hide LaysOut, Good, ComposedTrace, FlatTrace, ComposedRun, FlatRun, WordAt;
    TracesAgree(n, s, trace, addrW, dataW);
    RunCommutes(n, s, trace, addrW, dataW);
    assert Fits(trace[k], addrW, dataW);
    FlatSettles(Abstract(n, s, addrW, dataW), f, trace, k);
  }

  /** After any trace the row-select register names the bank of the last read, however many other edges followed it. */
  lemma {:induction false} RowSelectNamesLastRead(n: Netlist, s: Composed, trace: seq<Input>, k: nat, addrW: nat,
                                                  dataW: nat)
    requires LaysOut(n, addrW, dataW) && n.nRows > 1 && forall i :: i in trace ==> Fits(i, addrW, dataW)
    requires k < |trace| && IsRead(trace[k]) && forall j :: k < j < |trace| ==> !IsRead(trace[j])
    ensures ComposedRun(n, s, trace).rowSel == trace[k].a / FAKERAM_DEPTH < n.nRows
    decreases |trace|
  {
    assert trace[k] in trace && forall i :: i in trace[1..] ==> i in trace;
    if k > 0 {
      RowSelectNamesLastRead(n, ComposedStep(n, s, trace[0]), trace[1..], k - 1, addrW, dataW);
    } else {
      AddressSplits(trace[0].a, addrW);
      RowSelectStands(n, ComposedStep(n, s, trace[0]), trace[1..]);
    }
  }

  lemma {:induction false} RowSelectStands(n: Netlist, s: Composed, trace: seq<Input>)
    requires forall j :: 0 <= j < |trace| ==> !IsRead(trace[j])
    ensures ComposedRun(n, s, trace).rowSel == s.rowSel
    decreases |trace|
  {
    if trace != [] {
      RowSelectStands(n, ComposedStep(n, s, trace[0]), trace[1..]);
    }
  }

  /** Distinct bits of the address space lie in distinct places of distinct macros. */
  lemma PlacesDistinct(addrW: nat, dataW: nat, a: nat, b: nat, a': nat, b': nat)
    requires a < Pow2(addrW) && a' < Pow2(addrW) && b < dataW && b' < dataW
    requires Slot(Cols(dataW), a / FAKERAM_DEPTH, b / FAKERAM_DW) ==
             Slot(Cols(dataW), a' / FAKERAM_DEPTH, b' / FAKERAM_DW)
    requires a % FAKERAM_DEPTH == a' % FAKERAM_DEPTH && b % FAKERAM_DW == b' % FAKERAM_DW
    ensures a == a' && b == b'
  {
    BitSplits(b, dataW);
    BitSplits(b', dataW);
    var q := Slot(Cols(dataW), a / FAKERAM_DEPTH, b / FAKERAM_DW);
    DivModUnique(q, Cols(dataW), a / FAKERAM_DEPTH, b / FAKERAM_DW);
    DivModUnique(q, Cols(dataW), a' / FAKERAM_DEPTH, b' / FAKERAM_DW);
  }
}
