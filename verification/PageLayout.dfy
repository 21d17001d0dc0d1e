/** Sizes that pages of all kinds share. */
module PageLayout {

  const PAGEHDRSZ := 16
  const NODESIZE := 8
  const PGNOSIZE := 8

  /** The next even number. */
  function Round(x: int): int {
    (x + 1) / 2 * 2
  }
}
