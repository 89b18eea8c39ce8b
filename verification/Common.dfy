/** Bytes, optional values and the C-string vocabulary shared by the other modules. */
module Common {

  type byte = b: int | 0 <= b < 0x100

  const NUL: byte := 0
  const NEWLINE: byte := 10
  const RETURN: byte := 13
  const SPACE: byte := 32

  /** The number of values of a 32-bit word. */
  const WORD: nat := 0x1_0000_0000

  /** The text screen. */
  const COLS: nat := 80
  const ROWS: nat := 25

  datatype Option<+T> = None | Some(value: T)

  function Min(a: int, b: int): int {
    if a <= b then a else b
  }

  /** Position of the first `stop` at or after `from`, or |s| when there is none. */
  function Find(s: seq<byte>, stop: byte, from: nat): (k: nat)
    requires from <= |s|
    ensures from <= k <= |s|
    ensures forall j :: from <= j < k ==> s[j] != stop
    ensures k < |s| ==> s[k] == stop
    decreases |s| - from
  {
    if from == |s| || s[from] == stop then from else Find(s, stop, from + 1)
  }

  /** The postcondition of `Find` determines its result. */
  lemma FindUnique(s: seq<byte>, stop: byte, from: nat, k: nat)
    requires from <= k <= |s|
    requires forall j :: from <= j < k ==> s[j] != stop
    requires k < |s| ==> s[k] == stop
    ensures Find(s, stop, from) == k
  {
    var f := Find(s, stop, from);
    assert !(f < k);
  }

  /** A C string at an offset of a buffer. */
  ghost predicate Holds(mem: seq<byte>, at: nat, s: seq<byte>) {
    at + |s| < |mem| && mem[at..at + |s|] == s && mem[at + |s|] == NUL && NUL !in s
  }
}
