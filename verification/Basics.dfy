/** What the modules share. */
module Basics {
  datatype Option<+T> = None | Some(value: T)

  function Exp2(n: nat): (r: nat)
    ensures r >= 1
  {
    if n == 0 then 1 else 2 * Exp2(n - 1)
  }

  /** A definition of the form `forall o :: Open(o) ==> P` means P, but a proof meets P only where it says Open. */
  ghost predicate Open(o: int) { true }

  /** The same, for a definition that has such a definition inside. */
  ghost predicate Shown(o: int) { true }
}
