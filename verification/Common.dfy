/** Types and page arithmetic shared by several models. */
module Common {

  const PGSIZE: nat := 4096
  const MAXVA: nat := 0x40_0000_0000   // one past the highest virtual address
  const UINT64: nat := 0x1_0000_0000_0000_0000
  const BSIZE: nat := 1024
  const NDIRECT: nat := 12
  const NINDIRECT: nat := 256          // BSIZE / sizeof(uint)
  const MAXFILE: nat := 268            // NDIRECT + NINDIRECT
  const MAXOPBLOCKS: nat := 10

  type byte = b: int | 0 <= b < 256

  datatype Option<T> = None | Some(value: T)

  predicate Distinct(q: seq<int>)
  {
    forall i, j :: 0 <= i < j < |q| ==> q[i] != q[j]
  }

  function PageDown(a: nat): (p: nat)
    ensures p <= a < p + PGSIZE && p % PGSIZE == 0
  {
    a - a % PGSIZE
  }

  function PageUp(a: nat): (p: nat)
    ensures a <= p < a + PGSIZE && p % PGSIZE == 0
  {
    PageDown(a + PGSIZE - 1)
  }
}
