/** What several modules share: optional results, the machine word and the page size. */
module Basics {

  datatype Option<T> = None | Some(value: T)

  const WORD: nat := 0x1_0000_0000_0000_0000
  const PGSIZE: nat := 4096

  function Max(a: int, b: int): int { if a > b then a else b }
  function Min(a: int, b: int): int { if a < b then a else b }
}
