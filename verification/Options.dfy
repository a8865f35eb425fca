module Options {
  datatype Option<+T> = None | Some(value: T)

  function Min(a: nat, b: nat): nat { if a < b then a else b }

  function Max(a: int, b: int): int { if a < b then b else a }
}
