/** Pixels of an `h` by `w` grid, their neighbourhoods and raster order. */
module Grids {

  datatype Pixel = Pixel(row: int, col: int)

  /** The value of a labelled grid: one entry for every pixel inside it. */
  type Labels = map<Pixel, int>

  predicate Within(p: Pixel, h: nat, w: nat) {
    0 <= p.row < h && 0 <= p.col < w
  }

  function Domain(h: nat, w: nat): (d: set<Pixel>)
    ensures forall p :: p in d <==> Within(p, h, w)
  {
    set r: int, c: int | 0 <= r < h && 0 <= c < w :: Pixel(r, c)
  }

  /** The current contents of an array, as a value. */
  function Cells<T>(a: array2<T>): (m: map<Pixel, T>)
    reads a
    ensures forall p :: p in m <==> Within(p, a.Length0, a.Length1)
    ensures forall p :: Within(p, a.Length0, a.Length1) ==> m[p] == a[p.row, p.col]
  {
    map p | p in Domain(a.Length0, a.Length1) :: a[p.row, p.col]
  }

  method Zeros(h: nat, w: nat) returns (a: array2<int>)
    ensures fresh(a) && a.Length0 == h && a.Length1 == w
    ensures forall p :: p in Cells(a) ==> Cells(a)[p] == 0
  {
    a := new int[h, w]((i, j) => 0);
  }

  predicate RasterBefore(p: Pixel, q: Pixel) {
    p.row < q.row || (p.row == q.row && p.col < q.col)
  }

  predicate Adjacent4(p: Pixel, q: Pixel) {
    (p.row == q.row && (p.col == q.col + 1 || q.col == p.col + 1)) ||
    (p.col == q.col && (p.row == q.row + 1 || q.row == p.row + 1))
  }

  predicate Adjacent8(p: Pixel, q: Pixel) {
    p != q && -1 <= p.row - q.row <= 1 && -1 <= p.col - q.col <= 1
  }

  /** The eight neighbours, in the order in which the code visits them. */
  function Neighbours(p: Pixel): (n: seq<Pixel>)
    ensures forall q :: q in n <==> Adjacent8(p, q)
  {
    var x, y := p.row, p.col;
    var n := [Pixel(x - 1, y - 1), Pixel(x, y - 1), Pixel(x + 1, y - 1),
              Pixel(x - 1, y), Pixel(x + 1, y),
              Pixel(x - 1, y + 1), Pixel(x, y + 1), Pixel(x + 1, y + 1)];
    assert forall q :: Adjacent8(p, q) ==> q == n[0] || q == n[1] || q == n[2] || q == n[3]
                                           || q == n[4] || q == n[5] || q == n[6] || q == n[7];
    n
  }

  /** Column by column, from top to bottom. */
  lemma NeighboursInOrder(p: Pixel, i: nat, j: nat)
    requires i < j < |Neighbours(p)|
    ensures var n := Neighbours(p); n[i].col < n[j].col || (n[i].col == n[j].col && n[i].row < n[j].row)
  {
  }

  /** One step between 4-adjacent pixels of `s`. */
  ghost function Step4(s: set<Pixel>): (Pixel, Pixel) -> bool {
    (p: Pixel, q: Pixel) => p in s && q in s && Adjacent4(p, q)
  }
}
