/** What several modules share: the 32-bit word of the machine, and optional values. */
module Common {

  const LIMIT := 0x1_0000_0000

  type Word = x: int | 0 <= x < LIMIT witness 0

  /** What signed jumps make of a 32-bit word. */
  function Signed(w: int): int {
    if w < 0x8000_0000 then w else w - LIMIT
  }

  datatype Option<T> = None | Some(value: T)

  lemma Overwrite<T>(m: map<int, T>, k: int, a: T, b: T)
    ensures m[k := a][k := b] == m[k := b]
  {
  }
}
