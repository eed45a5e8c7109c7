/**
 * One 16M half of the external memory as a ring of words.
 *
 * A ring that is only ever appended to is described by the stream of all words written to it: its cells
 * hold the last RING of them.
 */
module Ring {
  import opened Words

  /** Words in one half of the memory: 16M bytes. */
  const RING: nat := 0x40_0000

  const MEM_SIZE: nat := 0x200_0000
  const MEM_RX_BUF: nat := 0x100_0000

  /** The cell of a stream position. */
  function Cell(n: int): (s: nat)
    ensures s < RING
  {
    n % RING
  }

  /** The cell that an address selects within its half: addresses count bytes, modulo 16M. */
  function Slot(addr: int): (s: nat)
    ensures s < RING
  {
    Cell(addr / 4)
  }

  lemma SlotAdd(addr: int, k: int)
    ensures Slot(addr + 4 * k) == Cell(Slot(addr) + k)
  {
    assert (addr + 4 * k) / 4 == addr / 4 + k;
  }

  /** 32-bit overflow of an address leaves its cell alone. */
  lemma SlotOfU32(addr: int)
    ensures Slot(U32(addr)) == Slot(addr)
  {
    var q := addr / TWO32;
    assert addr == U32(addr) + 4 * (q * 0x4000_0000);
    SlotAdd(U32(addr), q * 0x4000_0000);
    assert q * 0x4000_0000 == q * 0x100 * RING;
    AddRings(Slot(U32(addr)), q * 0x100);
  }

  lemma AddRings(s: int, q: int)
    ensures Cell(s + q * RING) == Cell(s)
  {}

  lemma CellAdd(a: int, k: int)
    ensures Cell(Cell(a) + k) == Cell(a + k)
  {
    AddRings(a % RING + k, a / RING);
    assert a == a % RING + a / RING * RING;
  }

  /** An address moved on by `k` words, modulo 2^32. */
  lemma SlotStep(addr: nat, k: nat)
    ensures Slot(U32(addr + 4 * k)) == Cell(Slot(addr) + k)
    ensures U32(addr + 4 * k) < TWO32 && (addr % 4 == 0 ==> U32(addr + 4 * k) % 4 == 0)
  {
    hide Slot, Cell;
    SlotAdd(addr, k);
    SlotOfU32(addr + 4 * k);
    if addr % 4 == 0 {
      Aligned(addr + 4 * k);
    }
  }

  lemma Aligned(addr: nat)
    requires addr % 4 == 0
    ensures U32(addr) % 4 == 0
  {}

  lemma CellOf(cell: nat)
    requires cell < RING
    ensures Cell(cell) == cell
  {}

  lemma CellOfSlot(addr: int)
    ensures Cell(Slot(addr)) == Slot(addr)
  {}

  lemma U32Twice(a: int, b: int)
    ensures U32(U32(a) + b) == U32(a + b)
  {}

  /** The next word of the receive half: the software pointers wrap at the end of memory. */
  function NextRxAddr(addr: nat): nat {
    if U32(addr + 4) == MEM_SIZE then MEM_RX_BUF else U32(addr + 4)
  }

  lemma NextRxSlot(addr: nat)
    requires addr % 4 == 0
    ensures Slot(NextRxAddr(addr)) == Cell(Slot(addr) + 1)
    ensures NextRxAddr(addr) % 4 == 0 && NextRxAddr(addr) < TWO32
    ensures MEM_RX_BUF <= addr < MEM_SIZE ==> MEM_RX_BUF <= NextRxAddr(addr) < MEM_SIZE
  {
    SlotStep(addr, 1);
    assert Slot(MEM_SIZE) == Slot(MEM_RX_BUF);
  }

  // Plain 32M addresses.

  lemma ModOfU32(a: nat)
    ensures U32(a) % MEM_SIZE == a % MEM_SIZE
  {}

  lemma InHalf(p: nat, r: nat)
    requires p < 2 && r < RING
    ensures MEM_RX_BUF <= (MEM_RX_BUF * (1 + p) + 4 * r) % MEM_SIZE <==> p == 0
  {}

  lemma ModMultiple(a: int, k: int)
    ensures (a - k * MEM_SIZE) % MEM_SIZE == a % MEM_SIZE
  {}

  /** Two stream positions less than a ring apart lie in different cells. */
  lemma Apart(base: int, j: int, k: int)
    requires j < k < j + RING
    ensures Cell(base + j) != Cell(base + k)
  {}

  /** The cells hold the last RING words of the stream `w` that started at cell `base`. */
  predicate Window(cells: seq<Word>, base: nat, w: seq<Word>) {
    && |cells| == RING
    && forall k | 0 <= k < |w| && |w| - RING <= k :: cells[Cell(base + k)] == w[k]
  }

  /** A word that has not been overwritten is read back. */
  lemma WindowRead(cells: seq<Word>, base: nat, w: seq<Word>, k: nat)
    requires Window(cells, base, w) && k < |w| && |w| - RING <= k
    ensures cells[Cell(base + k)] == w[k]
  {}

  /** Writing at the end of the stream extends it, whatever it overwrites. */
  lemma WindowAppend(cells: seq<Word>, base: nat, w: seq<Word>, x: Word)
    requires Window(cells, base, w)
    ensures Window(cells[Cell(base + |w|) := x], base, w + [x])
  {
    var c, v := cells[Cell(base + |w|) := x], w + [x];
    forall k | 0 <= k < |v| && |v| - RING <= k
      ensures c[Cell(base + k)] == v[k]
    {
      if k < |w| {
        Apart(base, k, |w|);
      }
    }
  }

  /** Rewriting a word that is still in the window changes that word of the stream only. */
  lemma WindowPatch(cells: seq<Word>, base: nat, w: seq<Word>, p: nat, x: Word)
    requires Window(cells, base, w) && p < |w| && |w| - RING <= p
    ensures Window(cells[Cell(base + p) := x], base, w[p := x])
  {
    var c, v := cells[Cell(base + p) := x], w[p := x];
    forall k | 0 <= k < |v| && |v| - RING <= k
      ensures c[Cell(base + k)] == v[k]
    {
      if k < p {
        Apart(base, k, p);
      } else if k > p {
        Apart(base, p, k);
      }
    }
  }

  /** The last stream position below `n` that shares its cell with position `k`. */
  function Latest(n: nat, k: nat): (p: nat)
    requires k < n
    ensures k <= p < n && n - RING <= p
    ensures p == k <==> n - RING <= k
    decreases n - k
  {
    if k + RING < n then Latest(n, k + RING) else k
  }

  /** What a reader finds at any earlier position: the latest word written to that cell. */
  lemma {:induction false} ReadGives(cells: seq<Word>, base: nat, w: seq<Word>, k: nat)
    requires Window(cells, base, w) && k < |w|
    ensures cells[Cell(base + k)] == w[Latest(|w|, k)]
    decreases |w| - k
  {
    if k + RING < |w| {
      ReadGives(cells, base, w, k + RING);
      AddRings(base + k, 1);
    }
  }

  /** A position can be read back under every content exactly while it is not overrun. */
  lemma ReadableIff(base: nat, n: nat, k: nat)
    requires k < n
    ensures (forall cells, w | |w| == n && Window(cells, base, w) :: cells[Cell(base + k)] == w[k])
      <==> n - RING <= k
  {
    if n - RING > k {
      var w := seq(n, i requires 0 <= i < n => if i == k then 1 as Word else 0);
      var cells := seq(RING, i requires 0 <= i < RING => 0 as Word);
      assert Window(cells, base, w);
      assert cells[Cell(base + k)] != w[k];
    }
  }

  /** Consecutive words written from stream position `at` on. */
  function WriteAll(cells: seq<Word>, at: nat, ws: seq<Word>): (r: seq<Word>)
    requires |cells| == RING
    ensures |r| == RING
    decreases |ws|
  {
    if ws == [] then cells else WriteAll(cells[Cell(at) := ws[0]], at + 1, ws[1..])
  }

  lemma {:induction false} WriteAllCell(cells: seq<Word>, at: nat, ws: seq<Word>)
    requires |cells| == RING
    ensures WriteAll(cells, Cell(at), ws) == WriteAll(cells, at, ws)
    decreases |ws|
  {
    if ws != [] {
      var c := cells[Cell(at) := ws[0]];
      CellAdd(at, 0);
      CellAdd(at, 1);
      WriteAllCell(c, Cell(at) + 1, ws[1..]);
      WriteAllCell(c, at + 1, ws[1..]);
    }
  }

  /** Words written at the end of a stream extend it. */
  lemma {:induction false} WriteAllWindow(cells: seq<Word>, base: nat, w: seq<Word>, ws: seq<Word>)
    requires Window(cells, base, w)
    ensures Window(WriteAll(cells, base + |w|, ws), base, w + ws)
    decreases |ws|
  {
    if ws == [] {
      assert w + ws == w;
    } else {
      WindowAppend(cells, base, w, ws[0]);
      WriteAllWindow(cells[Cell(base + |w|) := ws[0]], base, w + [ws[0]], ws[1..]);
      assert w + [ws[0]] + ws[1..] == w + ws;
    }
  }

  lemma {:induction false} WriteAllSnoc(cells: seq<Word>, at: nat, ws: seq<Word>, w: Word)
    requires |cells| == RING
    ensures WriteAll(cells, at, ws + [w]) == WriteAll(cells, at, ws)[Cell(at + |ws|) := w]
    decreases |ws|
  {
    hide Cell;
    if ws == [] {
      assert ws + [w] == [w] && [w][1..] == [];
    } else {
      WriteAllSnoc(cells[Cell(at) := ws[0]], at + 1, ws[1..], w);
      assert (ws + [w])[1..] == ws[1..] + [w];
    }
  }

  lemma {:induction false} WriteAllAppend(cells: seq<Word>, at: nat, a: seq<Word>, b: seq<Word>)
    requires |cells| == RING
    ensures WriteAll(WriteAll(cells, at, a), at + |a|, b) == WriteAll(cells, at, a + b)
    decreases |a|
  {
    hide Cell;
    if a == [] {
      assert a + b == b;
    } else {
      WriteAllAppend(cells[Cell(at) := a[0]], at + 1, a[1..], b);
      assert (a + b)[1..] == a[1..] + b;
    }
  }

  /** Cell `c` is among the `n` cells from cell `at` on, around the ring. */
  predicate Within(c: int, at: int, n: nat) {
    Cell(c - at) < n
  }

  /** One step into a range. */
  lemma WithinTail(c: int, at: nat, n: nat)
    requires 0 <= c < RING && n > 0 && !Within(c, at, n)
    ensures c != Cell(at) && !Within(c, at + 1, n - 1)
  {
    hide Cell;
    CellDifference(c, at, 0);
    CellTwice(c);
    StepBack(c - at);
    SameCell(c, at);
  }

  lemma StepBack(d: int)
    ensures Cell(d) > 0 ==> Cell(d - 1) == Cell(d) - 1
  {}

  lemma SameCell(c: int, at: nat)
    ensures c == Cell(at) ==> Cell(c - at) == 0
  {
    if c == Cell(at) {
      CellDifference(at, at, 0);
      CellOf(0);
    }
  }

  /** Cells that the words do not reach stay. */
  lemma {:induction false} WriteAllOther(cells: seq<Word>, at: nat, ws: seq<Word>, c: nat)
    requires |cells| == RING && c < RING && !Within(c, at, |ws|)
    ensures WriteAll(cells, at, ws)[c] == cells[c]
    decreases |ws|
  {
    hide Cell, Within;
    if ws != [] {
      WithinTail(c, at, |ws|);
      WriteAllOther(cells[Cell(at) := ws[0]], at + 1, ws[1..], c);
    }
  }

  /** Cells that they reach do not depend on what was there. */
  lemma {:induction false} WriteAllCovers(cells: seq<Word>, at: nat, ws: seq<Word>, c: nat, x: Word)
    requires |cells| == RING && c < RING && Within(c, at, |ws|)
    ensures WriteAll(cells[c := x], at, ws)[c] == WriteAll(cells, at, ws)[c]
    decreases |ws|
  {
    hide Cell, Within;
    if ws == [] {
      NotInNothing(c, at);
    } else if c == Cell(at) {
      assert cells[c := x][c := ws[0]] == cells[c := ws[0]];
    } else {
      WithinRest(c, at, |ws|);
      assert cells[c := x][Cell(at) := ws[0]] == cells[Cell(at) := ws[0]][c := x];
      WriteAllCovers(cells[Cell(at) := ws[0]], at + 1, ws[1..], c, x);
    }
  }

  lemma NotInNothing(c: int, at: nat)
    ensures !Within(c, at, 0)
  {}

  lemma WithinRest(c: int, at: nat, n: nat)
    requires 0 <= c < RING && n > 0 && Within(c, at, n) && c != Cell(at)
    ensures Within(c, at + 1, n - 1)
  {
    hide Cell;
    if Cell(c - at) == 0 {
      NoDistance(c, at);
    }
    StepBack(c - at);
    assert c - at - 1 == c - (at + 1);
  }

  lemma NoDistance(c: int, at: nat)
    requires 0 <= c < RING && Cell(c - at) == 0
    ensures c == Cell(at)
  {
    var q := (c - at) / RING;
    assert at == c - q * RING;
    AddRings(c, -q);
  }

  /** What the next cell of a stream holds before it is written: what was there first, or the word of one round before. */
  function Held(cells: seq<Word>, at: nat, w: seq<Word>): Word
    requires |cells| == RING
  {
    if |w| < RING then cells[Cell(at + |w|)] else w[|w| - RING]
  }

  lemma BehindEnd(at: nat, n: nat)
    requires n < RING
    ensures !Within(Cell(at + n), at, n)
  {
    hide Cell;
    CellDifference(at, at, n);
    SumBelow(0, n);
    CellOf(0);
    assert at - at == 0;
  }

  lemma HeldIs(cells: seq<Word>, at: nat, w: seq<Word>)
    requires |cells| == RING
    ensures WriteAll(cells, at, w)[Cell(at + |w|)] == Held(cells, at, w)
  {
    hide WriteAll;
    if |w| < RING {
      BehindEnd(at, |w|);
      WriteAllOther(cells, at, w, Cell(at + |w|));
    } else {
      StreamInCells(cells, at, w);
      AddRings(at + |w| - RING, 1);
      WindowRead(WriteAll(cells, at, w), at, w, |w| - RING);
    }
  }

  /** Words written from somewhere on are a stream. */
  lemma StreamInCells(cells: seq<Word>, at: nat, w: seq<Word>)
    requires |cells| == RING
    ensures Window(WriteAll(cells, at, w), at, w)
  {
    hide Cell;
    var none: seq<Word> := [];
    WriteAllWindow(cells, at, none, w);
    assert none + w == w && at + |none| == at;
  }

  // Disjoint address ranges.

  /** The `n` cells from `at` on and the `m` cells from `to` on have none in common. */
  predicate Disjoint(at: nat, n: nat, to: nat, m: nat) {
    n == 0 || m == 0 || (Cell(to - at) >= n && Cell(at - to) >= m)
  }

  /** The distance the other way round the ring. */
  lemma Opposite(d: int)
    ensures Cell(-d) == if Cell(d) == 0 then 0 else RING - Cell(d)
  {
    var q, r := d / RING, d % RING;
    assert d == q * RING + r;
    if r > 0 {
      assert -d == RING - r + (-q - 1) * RING;
      AddRings(RING - r, -q - 1);
    } else {
      assert -d == -q * RING;
      AddRings(0, -q);
    }
  }

  lemma CellDifference(a: int, b: int, k: int)
    ensures Cell(Cell(a + k) - b) == Cell(Cell(a - b) + k)
  {
    CellAdd(a + k, -b);
    CellAdd(a - b, k);
  }

  /** The `j`-th cell from `to` on is among the `n` cells from `at` on. */
  predicate Meets(at: nat, n: nat, to: nat, j: nat) {
    Within(Cell(to + j), at, n)
  }

  /** The condition on addresses and lengths is exact. */
  lemma DisjointIff(at: nat, n: nat, to: nat, m: nat)
    ensures Disjoint(at, n, to, m) <==> forall j: nat | j < m :: !Meets(at, n, to, j)
  {
    hide Meets;
    if Disjoint(at, n, to, m) {
      forall j: nat | j < m
        ensures !Meets(at, n, to, j)
      {
        NotWithin(at, n, to, m, j);
      }
    } else {
      var j := Common(at, n, to, m);
      assert Meets(at, n, to, j);
    }
  }

  lemma NotWithin(at: nat, n: nat, to: nat, m: nat, j: nat)
    requires Disjoint(at, n, to, m) && j < m
    ensures !Meets(at, n, to, j)
  {
    hide Cell;
    CellDifference(to, at, j);
    if n > 0 {
      Opposite(to - at);
      assert -(to - at) == at - to;
      SumBelow(Cell(to - at), j);
    }
  }

  lemma SumBelow(d: nat, j: nat)
    requires d + j < RING
    ensures Cell(d + j) == d + j
  {}

  /** If the ranges are not disjoint, one of the two starts lies in the other range. */
  lemma Common(at: nat, n: nat, to: nat, m: nat) returns (j: nat)
    requires !Disjoint(at, n, to, m)
    ensures j < m && Meets(at, n, to, j)
  {
    hide Cell;
    if Cell(to - at) < n {
      j := 0;
      CellDifference(to, at, 0);
      CellTwice(to - at);
    } else {
      j := Cell(at - to);
      CellDifference(to, at, j);
      Opposite(to - at);
      assert -(to - at) == at - to;
      Around(Cell(to - at), j);
    }
  }

  lemma CellTwice(d: int)
    ensures Cell(Cell(d) + 0) == Cell(d)
  {}

  lemma Around(d: nat, j: nat)
    requires d < RING && j == if d == 0 then 0 else RING - d
    ensures Cell(d + j) == 0
  {}

  lemma DisjointTail(at: nat, n: nat, to: nat, m: nat)
    requires Disjoint(at, n, to, m) && m > 0
    ensures Disjoint(at, n, Cell(to + 1), m - 1)
  {
    hide Disjoint, Cell;
    DisjointIff(at, n, to, m);
    var next := Cell(to + 1);
    DisjointIff(at, n, next, m - 1);
    forall j: nat | j < m - 1
      ensures !Meets(at, n, next, j)
    {
      CellAdd(to + 1, j);
      assert !Meets(at, n, to, j + 1);
    }
  }

  lemma WriteAllRead(cells: seq<Word>, at: nat, ws: seq<Word>, i: nat)
    requires |cells| == RING && |ws| <= RING && i < |ws|
    ensures WriteAll(cells, at, ws)[Cell(at + i)] == ws[i]
  {
    hide Cell;
    var none: seq<Word> := [];
    WriteAllWindow(cells, at, none, ws);
    assert none + ws == ws && at + |none| == at;
    WindowRead(WriteAll(cells, at, ws), at, ws, i);
  }
}

/** The hardware access to one half of the memory: two pointers that step and wrap by themselves. */
module Memory {
  import opened Words
  import opened Ring

  class Bank {
    var cells: seq<Word>
    var rd: nat
    var wr: nat

    ghost predicate Valid()
      reads this
    {
      |cells| == RING && rd < RING && wr < RING
    }

    constructor ()
      ensures Valid()
    {
      cells := seq(RING, i requires 0 <= i < RING => 0);
      rd, wr := 0, 0;
    }

    method SetRd(addr: nat)
      requires Valid()
      modifies this`rd
      ensures Valid() && rd == Slot(addr)
    {
      rd := Slot(addr);
    }

    method SetWr(addr: nat)
      requires Valid()
      modifies this`wr
      ensures Valid() && wr == Slot(addr)
    {
      wr := Slot(addr);
    }

    method Read() returns (w: Word)
      requires Valid()
      modifies this`rd
      ensures Valid() && w == cells[old(rd)] && rd == Cell(old(rd) + 1)
    {
      w := cells[rd];
      rd := Cell(rd + 1);
    }

    method Write(w: Word)
      requires Valid()
      modifies this`cells, this`wr
      ensures Valid() && cells == old(cells)[old(wr) := w] && wr == Cell(old(wr) + 1)
    {
      cells := cells[wr := w];
      wr := Cell(wr + 1);
    }
  }
}
