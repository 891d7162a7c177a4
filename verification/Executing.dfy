/** What the processor decodes after exec: from a line of the source to the meaning of
    its operand, and from a branch to its target, in the running process. */
module Executing {
  import opened Codec
  import opened Kernel
  import opened KernelInv
  import opened Memory
  import Cpu
  import Ranges
  import ObjectText
  import opened Image
  import Assembler
  import Agreement
  import Layout
  import Passes
  import opened Program
  import opened Running
  import Isolation
  import Protection
  import opened Emission

  /** The descriptor through which the process reaches segment `segno`. */
  function Reached(r: Sys, segno: nat): CSeg
    requires Shape(r) && Lookup(r, segno).1.Found?
  {
    Lookup(r, segno).1.desc
  }

  /** Bytes found one by one stand together, inside the segment. */
  lemma {:induction false} FoundStands(r: Sys, m: seq<Byte>, segno: nat, flags: nat, addr: nat, bytes: seq<Byte>)
    requires Shape(r) && |bytes| > 0
    requires forall x :: 0 <= x < |bytes| ==> Finds(r, m, segno, flags, addr + x, bytes[x])
    ensures Lookup(r, segno).1.Found?
    ensures var c := Reached(r, segno);
            && c.base + addr >= 0 && Stands(m, c.base + addr, bytes) && addr + |bytes| <= c.len
            && c.flags == SetBit(flags, VALID) % P18
  {
    assert Finds(r, m, segno, flags, addr + 0, bytes[0]);
    var c, n := Reached(r, segno), |bytes|;
    assert Finds(r, m, segno, flags, addr + (n - 1), bytes[n - 1]);
    forall x | 0 <= x < n
      ensures m[c.base + addr..c.base + addr + n][x] == bytes[x]
    {
      assert Finds(r, m, segno, flags, addr + x, bytes[x]);
    }
  }

  /** Marking a descriptor VALID keeps its permissions. */
  lemma {:induction false} ExecKept(flags: nat)
    ensures Bit(SetBit(flags, VALID) % P18, EXEC) <==> Bit(flags, EXEC)
  {
    var f := SetBit(flags, VALID);
    var g := f % P18;
    assert f == f / P18 * 0x2_0000 * (2 * EXEC) + g;
    BitAbove(f / P18 * 0x2_0000, EXEC, g);
    if f != flags {
      assert f == 0x1_0000 * (2 * EXEC) + flags;
      BitAbove(0x1_0000, EXEC, flags);
    }
  }

  /** A line of the program after exec, its segment the first of its number. */
  ghost predicate LineIn(line: Layout.Line, p: Layout.State, at: Layout.Placement, osegs: seq<ObjSeg>, r: Sys,
                         m: seq<Byte>)
    requires Layout.Grammatical(line.op) && Shape(r)
  {
    && at.At? && at.addr + Layout.Length(line.op) < P64 && Layout.Completed(line.op, at)
    && LineRead(line, p, at, osegs, r, m) && FirstOfNumber(osegs, at.seg)
  }

  lemma {:induction false} LineStandsIn(line: Layout.Line, p: Layout.State, at: Layout.Placement, osegs: seq<ObjSeg>,
                                        r: Sys, m: seq<Byte>)
    requires Layout.Grammatical(line.op) && Shape(r) && LineIn(line, p, at, osegs, r, m) && Layout.Length(line.op) > 0
    ensures Lookup(r, osegs[at.seg].segno).1.Found?
    ensures var c, bytes := Reached(r, osegs[at.seg].segno), Layout.Output(line.op, at).value;
            && c.base + at.addr >= 0 && Stands(m, c.base + at.addr, bytes) && at.addr + |bytes| <= c.len
            && (Bit(c.flags, EXEC) <==> Bit(osegs[at.seg].flags, EXEC))
  {
    FoundStands(r, m, osegs[at.seg].segno, osegs[at.seg].flags, at.addr, Layout.Output(line.op, at).value);
    ExecKept(osegs[at.seg].flags);
  }

  /** A branch of the source, in the running process: at the address of its line the
      processor finds a branch of its condition to its target. */
  lemma {:induction false} BranchInProcess(line: Layout.Line, p: Layout.State, at: Layout.Placement,
                                           osegs: seq<ObjSeg>, r: Sys, m: seq<Byte>)
    requires Layout.Grammatical(line.op) && Shape(r) && LineIn(line, p, at, osegs, r, m)
    requires Passes.BranchesThere(line.op, at) && line.op.target < P64
    ensures Lookup(r, osegs[at.seg].segno).1.Found?
    ensures var c := Reached(r, osegs[at.seg].segno);
            c.base + at.addr >= 0 && BranchReads(m, c.base + at.addr, line.op.op, at.addr, line.op.target)
  {
    LineStandsIn(line, p, at, osegs, r, m);
    BranchStands(line.op, at, m, Reached(r, osegs[at.seg].segno).base + at.addr);
  }

  /** The processor's address of a line: what the current table has for its segment. */
  lemma {:induction false} LineAddress(r: Sys, st: Cpu.State, segno: nat, addr: nat)
    requires Protection.Mapped(r, st) && Lookup(r, segno).1.Found? && segno != FLAT
    requires addr <= Reached(r, segno).len && (Bit(Reached(r, segno).flags, SUPER) ==> Cpu.Super(st))
    ensures Cpu.AddrOf(st, Cpu.AReg(segno, addr)) == Cpu.Ok(Cpu.Addr(Reached(r, segno), addr))
  {
    Isolation.LookupIsDirect(r, segno);
  }

  /** An operand of the source, in the running process: at the address of its line the
      processor finds its opcode and decodes the operand as meant. */
  lemma {:induction false} OperandInProcess(line: Layout.Line, p: Layout.State, at: Layout.Placement,
                                            osegs: seq<ObjSeg>, r: Sys, st: Cpu.State, z: Agreement.Sizing)
    requires Layout.Grammatical(line.op) && Shape(r) && LineIn(line, p, at, osegs, r, st.mem) && line.op.Operand?
    requires Cpu.Wf(st) && Bit(osegs[at.seg].flags, EXEC) && Agreement.Sized(z)
    requires Agreement.Unsized(z) == line.op.unsized && Suits(line.op.opcode, line.op.second, z)
    requires Agreement.Accepted(line.op.second, line.op.osz)
    requires Agreement.Faithful(line.op.second, line.op.osz, z)
    ensures Lookup(r, osegs[at.seg].segno).1.Found?
    ensures var ip := Cpu.Addr(Reached(r, osegs[at.seg].segno), at.addr);
            OperandReads(st, ip, line.op.opcode, line.op.second, line.op.osz, z,
                         |Assembler.Ea(line.op.second, line.op.osz, line.op.unsized).ext|)
  {
    OutputSome(line.op, at);
    LineStandsIn(line, p, at, osegs, r, st.mem);
    OperandMeans(line.op, at, st, Cpu.Addr(Reached(r, osegs[at.seg].segno), at.addr), z);
  }

  lemma {:induction false} OutputSome(op: Layout.Op, at: Layout.Placement)
    requires Layout.Grammatical(op) && Layout.Completed(op, at) && (op.Operand? || op.RegisterList?)
    ensures Layout.Length(op) > 0
  {
  }

  /** ... and a register list, with its mask. */
  lemma {:induction false} ListInProcess(line: Layout.Line, p: Layout.State, at: Layout.Placement, osegs: seq<ObjSeg>,
                                         r: Sys, st: Cpu.State)
    requires Layout.Grammatical(line.op) && Shape(r) && LineIn(line, p, at, osegs, r, st.mem) && line.op.RegisterList?
    requires Cpu.Wf(st) && Bit(osegs[at.seg].flags, EXEC) && line.op.opcode % 0x40 == 0
    requires Agreement.Accepted(line.op.second, line.op.osz)
    requires Agreement.Faithful(line.op.second, line.op.osz, Agreement.Unread(true))
    ensures Lookup(r, osegs[at.seg].segno).1.Found?
    ensures var ip, n := Cpu.Addr(Reached(r, osegs[at.seg].segno), at.addr),
                         |Assembler.Ea(line.op.second, line.op.osz, true).ext|;
            && OperandReads(st, ip, line.op.opcode, line.op.second, line.op.osz, Agreement.Unread(true), n)
            && WordReads(st, ip, 1 + n, line.op.mask)
  {
    OutputSome(line.op, at);
    LineStandsIn(line, p, at, osegs, r, st.mem);
    ListMeans(line.op, at, st, Cpu.Addr(Reached(r, osegs[at.seg].segno), at.addr));
  }

  /** Every placed line of a program that was assembled, dumped, parsed, loaded and
      mapped by exec is such a line. */
  lemma {:induction false} LinesAfterExec(lines: seq<Layout.Line>, hs: seq<Head>, start: Option<ObjectText.Entry>,
                                          p: Layout.State, src: seq<Ranges.Insn>, osegs: seq<ObjSeg>, m: seq<Byte>,
                                          k: Sys, ino: nat, r: Sys, m': seq<Byte>, table: nat, i: nat)
    requires Assembled(lines, hs, p, src) && Programmed(src, hs, start) && ObjectOf(src, hs, start, osegs)
    requires Executed(k, m, ino, osegs, r, m', table)
    requires i < |lines| && p.placed[i].At?
    ensures p.placed[i].seg < |osegs|
    ensures FirstOfNumber(osegs, p.placed[i].seg) ==> LineIn(lines[i], p, p.placed[i], osegs, r, m')
  {
    LineAfterExec(lines, hs, start, p, src, osegs, m, k, ino, r, m', table, i);
    CompletedLine(lines, p.placed, i);
  }

  lemma {:induction false} CompletedLine(lines: seq<Layout.Line>, placed: seq<Layout.Placement>, i: nat)
    requires Layout.Source(lines) && |placed| == |lines| && Layout.Pass2(lines, placed).Some? && i < |lines|
    ensures Layout.Completed(lines[i].op, placed[i])
    decreases |lines|
  {
    if i < |lines| - 1 {
      CompletedLine(lines[..|lines| - 1], placed[..|lines| - 1], i);
    }
  }
}
