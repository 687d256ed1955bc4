/** Durations and instants are natural numbers of nanoseconds. */
module Time {

  const SECOND: nat := 1_000_000_000
  const MILLISECOND: nat := 1_000_000

  function Min(a: nat, b: nat): nat { if a < b then a else b }

  function Max(a: nat, b: nat): nat { if a < b then b else a }
}
