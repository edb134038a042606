/** Integer helpers shared by the diff and the monitor. */
module Numbers {
  function Min(x: int, y: int): int {
    if x <= y then x else y
  }
}
