/** The systolic matrix multiply of the lookside accelerator, and the multiply in software it
  * is checked against. */
module Systolic {
  import opened Arith
  import opened Words

  /** A C int after a 32-bit operation. */
  function Wrap(x: int): (w: int)
    ensures -0x8000_0000 <= w < 0x8000_0000
  {
    (x + 0x8000_0000) % WORD32 - 0x8000_0000
  }

  lemma {:induction false} WrapDiffers(x: int)
    ensures exists k: int :: x - Wrap(x) == k * WORD32
  {
    var k := (x + 0x8000_0000) / WORD32;
    assert x - Wrap(x) == k * WORD32;
  }

  lemma {:induction false} WrapUnique(x: int, y: int, k: int)
    requires x - y == k * WORD32
    ensures Wrap(x) == Wrap(y)
  {
    ModAddMultiple(y + 0x8000_0000, k, WORD32);
  }

  /** Wrapping the parts first makes no difference. */
  lemma {:induction false} WrapAdd(x: int, y: int)
    ensures Wrap(Wrap(x) + Wrap(y)) == Wrap(x + y)
    ensures Wrap(Wrap(x) + y) == Wrap(x + y)
  {
    WrapDiffers(x);
    WrapDiffers(y);
    var j: int :| x - Wrap(x) == j * WORD32;
    var k: int :| y - Wrap(y) == k * WORD32;
    WrapUnique(x + y, Wrap(x) + Wrap(y), j + k);
    WrapUnique(x + y, Wrap(x) + y, j);
  }

  // -------- row-major square matrices --------

  function At(n: nat, i: nat, j: nat): (t: nat)
    requires i < n && j < n
    ensures t < n * n && t / n == i && t % n == j
  {
    MulLe(i, n - 1, n);
    DivModUnique(i * n + j, n, i, j);
    i * n + j
  }

  lemma {:induction false} AtAll(n: nat, t: nat)
    requires t < n * n
    ensures n > 0 && t / n < n && t % n < n && At(n, t / n, t % n) == t
  {
    if t / n >= n {
      MulLe(n, t / n, n);
    }
  }

  ghost predicate Square(m: seq<int>, n: nat) {
    |m| == n * n
  }

  /** The sum of the first `len` products of row i and column j, as an integer. */
  function Dot(a: seq<int>, b: seq<int>, n: nat, i: nat, j: nat, len: nat): int
    requires Square(a, n) && Square(b, n) && i < n && j < n && len <= n
    decreases len
  {
    if len == 0 then 0
    else Dot(a, b, n, i, j, len - 1) + a[At(n, i, len - 1)] * b[At(n, len - 1, j)]
  }

  // -------- the kernel --------

  /** One cell after `len` rounds of the outer loop. */
  function Cell(a: seq<int>, b: seq<int>, n: nat, aRow: int, bCol: int, i: nat, j: nat, len: nat): int
    requires Square(a, n) && Square(b, n) && i < n && j < n && len <= n
  {
    if i < aRow && j < bCol then Wrap(Dot(a, b, n, i, j, len)) else 0
  }

  /** The cell at index t of the row-major result. */
  function CellAt(a: seq<int>, b: seq<int>, n: nat, aRow: int, aCol: nat, bCol: int, t: nat): int
    requires Square(a, n) && Square(b, n) && aCol <= n && t < |a|
  {
    AtAll(n, t);
    Cell(a, b, n, aRow, bCol, t / n, t % n, aCol)
  }

  function Product(a: seq<int>, b: seq<int>, n: nat, aRow: int, aCol: nat, bCol: int): (c: seq<int>)
    requires Square(a, n) && Square(b, n) && aCol <= n
    ensures Square(c, n)
  {
    seq(|a|, t requires 0 <= t < |a| => CellAt(a, b, n, aRow, aCol, bCol, t))
  }

  /** What the kernel leaves: the inner product over the first aCol terms inside aRow by bCol,
    * zero outside. */
  lemma {:induction false} ProductCell(a: seq<int>, b: seq<int>, n: nat, aRow: int, aCol: nat, bCol: int, i: nat,
                                       j: nat)
    requires Square(a, n) && Square(b, n) && aCol <= n && i < n && j < n
    ensures Product(a, b, n, aRow, aCol, bCol)[At(n, i, j)]
            == if i < aRow && j < bCol then Wrap(Dot(a, b, n, i, j, aCol)) else 0
  {
  }

  function Identity(n: nat): (m: seq<int>)
    ensures Square(m, n)
  {
    seq(n * n, t requires 0 <= t < n * n => AtAll(n, t); if t / n == t % n then 1 else 0)
  }

  lemma {:induction false} IdentityAt(n: nat, i: nat, j: nat)
    requires i < n && j < n
    ensures Identity(n)[At(n, i, j)] == if i == j then 1 else 0
  {
  }

  lemma {:induction false} DotIdentity(m: seq<int>, n: nat, i: nat, j: nat, len: nat)
    requires Square(m, n) && i < n && j < n && len <= n
    ensures Dot(m, Identity(n), n, i, j, len) == if j < len then m[At(n, i, j)] else 0
    ensures Dot(Identity(n), m, n, i, j, len) == if i < len then m[At(n, i, j)] else 0
    decreases len
  {
    hide At, Identity;
    if len > 0 {
      DotIdentity(m, n, i, j, len - 1);
      IdentityAt(n, len - 1, j);
      IdentityAt(n, i, len - 1);
    }
  }

  /** The identity matrix is neutral on both sides: every cell is the operand's own, as a C int. */
  lemma {:induction false} IdentityNeutral(m: seq<int>, n: nat, i: nat, j: nat)
    requires Square(m, n) && i < n && j < n
    ensures Product(m, Identity(n), n, n, n, n)[At(n, i, j)] == Wrap(m[At(n, i, j)])
    ensures Product(Identity(n), m, n, n, n, n)[At(n, i, j)] == Wrap(m[At(n, i, j)])
  {
    hide Identity, At, Wrap, Dot;
    ProductCell(m, Identity(n), n, n, n, n, i, j);
    ProductCell(Identity(n), m, n, n, n, n, i, j);
    DotIdentity(m, n, i, j, n);
  }

  /** A C int keeps its value, and wrapping is modulo 2^32. */
  lemma {:induction false} WrapIs(x: int)
    ensures -0x8000_0000 <= x < 0x8000_0000 ==> Wrap(x) == x
    ensures Wrap(x) % WORD32 == x % WORD32
  {
    WrapDiffers(x);
    var k: int :| x - Wrap(x) == k * WORD32;
    ModAddMultiple(Wrap(x), k, WORD32);
  }

  /** One masked update moves a cell on by one round. */
  lemma {:induction false} CellStep(a: seq<int>, b: seq<int>, n: nat, aRow: int, bCol: int, i: nat, j: nat, k: nat)
    requires Square(a, n) && Square(b, n) && i < n && j < n && k < n
    ensures var last := if k == 0 then 0 else Cell(a, b, n, aRow, bCol, i, j, k);
            var aVal := if i < aRow then a[At(n, i, k)] else 0;
            var bVal := if j < bCol then b[At(n, k, j)] else 0;
            Wrap(last + Wrap(aVal * bVal)) == Cell(a, b, n, aRow, bCol, i, j, k + 1)
  {
    var x, y := a[At(n, i, k)], b[At(n, k, j)];
    var d := Dot(a, b, n, i, j, k);
    assert Dot(a, b, n, i, j, k + 1) == d + x * y;
    hide At, Dot;
    if i < aRow && j < bCol {
      WrapAdd(d, x * y);
      assert k == 0 ==> d == 0 by { DotNone(a, b, n, i, j); }
    } else {
      assert (if i < aRow then x else 0) * (if j < bCol then y else 0) == 0;
    }
  }

  lemma {:induction false} DotNone(a: seq<int>, b: seq<int>, n: nat, i: nat, j: nat)
    requires Square(a, n) && Square(b, n) && i < n && j < n
    ensures Dot(a, b, n, i, j, 0) == 0
  {
  }

  /** The kernel: operands are copied in, the outer loop runs over k and updates every cell in
    * place, the result is copied out. */
  method Mmult(n: nat, mem: array<int>, a: nat, b: nat, c: nat, aRow: int, aCol: nat, bCol: int)
    requires 1 <= aCol <= n
    requires a + n * n <= mem.Length && b + n * n <= mem.Length && c + n * n <= mem.Length
    modifies mem
    ensures mem[c..c + n * n] == Product(old(mem[a..a + n * n]), old(mem[b..b + n * n]), n, aRow, aCol, bCol)
    ensures forall t :: 0 <= t < mem.Length && !(c <= t < c + n * n) ==> mem[t] == old(mem[t])
  {
    hide At, Dot, Wrap, Cell;
    var localA, localB := mem[a..a + n * n], mem[b..b + n * n];
    var localC := new int[n, n];
    for k := 0 to aCol
      modifies localC
      invariant forall i, j :: 0 <= i < n && 0 <= j < n && k > 0 ==>
                  localC[i, j] == Cell(localA, localB, n, aRow, bCol, i, j, k)
    {
      for i := 0 to n
        modifies localC
        invariant forall r, j :: 0 <= r < i && 0 <= j < n ==>
                    localC[r, j] == Cell(localA, localB, n, aRow, bCol, r, j, k + 1)
        invariant forall r, j :: i <= r < n && 0 <= j < n && k > 0 ==>
                    localC[r, j] == Cell(localA, localB, n, aRow, bCol, r, j, k)
      {
        UpdateRow(n, localA, localB, localC, aRow, aCol, bCol, k, i);
      }
    }
    ghost var want := Product(localA, localB, n, aRow, aCol, bCol);
    forall t | 0 <= t < n * n
      ensures n > 0 && 0 <= t / n < n && 0 <= t % n < n && want[t] == localC[t / n, t % n]
    {
      CellsAreProduct(localA, localB, n, aRow, aCol, bCol, t);
    }
    CopyOut(n, want, localC, mem, c);
  }

  method UpdateRow(n: nat, localA: seq<int>, localB: seq<int>, localC: array2<int>,
                   aRow: int, aCol: nat, bCol: int, k: nat, i: nat)
    requires Square(localA, n) && Square(localB, n) && localC.Length0 == localC.Length1 == n
    requires k < aCol <= n && i < n
    requires forall j :: 0 <= j < n && k > 0 ==> localC[i, j] == Cell(localA, localB, n, aRow, bCol, i, j, k)
    modifies localC
    ensures forall j :: 0 <= j < n ==> localC[i, j] == Cell(localA, localB, n, aRow, bCol, i, j, k + 1)
    ensures forall r, j :: 0 <= r < n && r != i && 0 <= j < n ==> localC[r, j] == old(localC[r, j])
  {
    hide At, Dot, Wrap, Cell;
    var bRow := aCol;
    for j := 0 to n
      invariant forall q :: 0 <= q < j ==> localC[i, q] == Cell(localA, localB, n, aRow, bCol, i, q, k + 1)
      invariant forall q :: j <= q < n && k > 0 ==> localC[i, q] == Cell(localA, localB, n, aRow, bCol, i, q, k)
      invariant forall r, q :: 0 <= r < n && r != i && 0 <= q < n ==> localC[r, q] == old(localC[r, q])
    {
      var last := if k == 0 then 0 else localC[i, j];
      var aVal := if i < aRow && k < aCol then localA[At(n, i, k)] else 0;
      var bVal := if k < bRow && j < bCol then localB[At(n, k, j)] else 0;
      CellStep(localA, localB, n, aRow, bCol, i, j, k);
      localC[i, j] := Wrap(last + Wrap(aVal * bVal));
    }
  }

  lemma {:induction false} CellsAreProduct(a: seq<int>, b: seq<int>, n: nat, aRow: int, aCol: nat, bCol: int, t: nat)
    requires Square(a, n) && Square(b, n) && aCol <= n && t < n * n
    ensures n > 0 && 0 <= t / n < n && 0 <= t % n < n
    ensures Product(a, b, n, aRow, aCol, bCol)[t] == Cell(a, b, n, aRow, bCol, t / n, t % n, aCol)
  {
    hide At, Dot, Wrap, Cell;
    AtAll(n, t);
  }

  /** Row-major copy of the local result to memory. */
  method CopyOut(n: nat, ghost want: seq<int>, localC: array2<int>, mem: array<int>, c: nat)
    requires Square(want, n) && localC.Length0 == localC.Length1 == n
    requires c + n * n <= mem.Length
    requires forall t :: 0 <= t < |want| ==>
               n > 0 && 0 <= t / n < n && 0 <= t % n < n && want[t] == localC[t / n, t % n]
    modifies mem
    ensures mem[c..c + n * n] == want
    ensures forall t :: 0 <= t < mem.Length && !(c <= t < c + n * n) ==> mem[t] == old(mem[t])
  {
    var all := n * n;
    for t := 0 to all
      invariant forall q :: 0 <= q < t ==> mem[c + q] == want[q]
      invariant forall q :: 0 <= q < mem.Length && !(c <= q < c + all) ==> mem[q] == old(mem[q])
    {
      assert want[t] == localC[t / n, t % n];
      mem[c + t] := localC[t / n, t % n];
    }
  }

  // -------- the same in software --------

  function SoftwareAt(in1: seq<int>, in2: seq<int>, out: seq<int>, n: nat, t: nat): int
    requires Square(in1, n) && Square(in2, n) && Square(out, n) && t < |out|
  {
    AtAll(n, t);
    Wrap(out[t] + Dot(in1, in2, n, t / n, t % n, n))
  }

  function Software(in1: seq<int>, in2: seq<int>, out: seq<int>, n: nat): (c: seq<int>)
    requires Square(in1, n) && Square(in2, n) && Square(out, n)
    ensures Square(c, n)
  {
    seq(|out|, t requires 0 <= t < |out| => SoftwareAt(in1, in2, out, n, t))
  }

  /** Row by row, each cell's products accumulated into what the output array held. */
  method SoftwareMmult(n: nat, in1: seq<int>, in2: seq<int>, out: array<int>)
    requires Square(in1, n) && Square(in2, n) && Square(out[..], n)
    requires forall t :: 0 <= t < out.Length ==> Wrap(out[t]) == out[t]
    modifies out
    ensures out[..] == Software(in1, in2, old(out[..]), n)
  {
    hide At, Dot, Wrap;
    ghost var want := Software(in1, in2, old(out[..]), n);
    for i := 0 to n
      invariant forall t :: 0 <= t < out.Length ==> out[t] == if t / n < i then want[t] else old(out[t])
    {
      for j := 0 to n
        invariant forall t :: 0 <= t < out.Length ==>
                    out[t] == if t / n < i || (t / n == i && t % n < j) then want[t] else old(out[t])
      {
        Accumulate(n, in1, in2, out, i, j);
        assert forall t :: 0 <= t < out.Length && t / n == i && t % n == j ==> t == At(n, i, j) by {
          OnlyAt(n, i, j);
        }
      }
    }
    forall t | 0 <= t < out.Length
      ensures out[t] == want[t]
    {
      AtAll(n, t);
    }
  }

  lemma {:induction false} OnlyAt(n: nat, i: nat, j: nat)
    requires i < n && j < n
    ensures forall t :: 0 <= t < n * n && t / n == i && t % n == j ==> t == At(n, i, j)
  {
    hide At;
    forall t | 0 <= t < n * n && t / n == i && t % n == j
      ensures t == At(n, i, j)
    {
      AtAll(n, t);
    }
  }

  method Accumulate(n: nat, in1: seq<int>, in2: seq<int>, out: array<int>, i: nat, j: nat)
    requires Square(in1, n) && Square(in2, n) && Square(out[..], n) && i < n && j < n
    requires Wrap(out[At(n, i, j)]) == out[At(n, i, j)]
    modifies out
    ensures out[At(n, i, j)] == Wrap(old(out[At(n, i, j)]) + Dot(in1, in2, n, i, j, n))
    ensures forall t :: 0 <= t < out.Length && t != At(n, i, j) ==> out[t] == old(out[t])
  {
    hide At, Wrap;
    var at := At(n, i, j);
    for k := 0 to n
      invariant out[at] == Wrap(old(out[at]) + Dot(in1, in2, n, i, j, k))
      invariant forall t :: 0 <= t < out.Length && t != at ==> out[t] == old(out[t])
    {
      var x, y := in1[At(n, i, k)], in2[At(n, k, j)];
      WrapAdd(old(out[at]) + Dot(in1, in2, n, i, j, k), x * y);
      out[at] := Wrap(out[at] + Wrap(x * y));
    }
  }

  function Zeros(n: nat): (z: seq<int>)
    ensures Square(z, n)
  {
    seq(n * n, t => 0)
  }

  /** At full size the kernel's result is the software result started from zeros. */
  lemma {:induction false} FullSizeAgrees(a: seq<int>, b: seq<int>, n: nat, aRow: int, bCol: int)
    requires Square(a, n) && Square(b, n) && aRow >= n && bCol >= n
    ensures Product(a, b, n, aRow, n, bCol) == Software(a, b, Zeros(n), n)
  {
    hide At, Dot, Wrap;
    var p, s := Product(a, b, n, aRow, n, bCol), Software(a, b, Zeros(n), n);
    forall t | 0 <= t < n * n
      ensures p[t] == s[t]
    {
      AtAll(n, t);
      assert Zeros(n)[t] == 0;
    }
  }
}
