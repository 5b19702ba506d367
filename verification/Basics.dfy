/** Small shared vocabulary: optional values, results with an error, and Go's integer division. */
module Basics {

  datatype Option<+T> = None | Some(value: T) {
    function GetOr(default: T): T {
      match this
      case Some(v) => v
      case None => default
    }
  }

  datatype Result<+T, +E> = Ok(value: T) | Err(error: E)

  type uint8 = x: int | 0 <= x < 0x100
  type uint16 = x: int | 0 <= x < 0x1_0000
  type uint32 = x: int | 0 <= x < 0x1_0000_0000

  /** Go's `/` on integers, which truncates toward zero where Dafny's rounds down. */
  function TruncDiv(a: int, b: int): int
    requires b > 0
  {
    if a >= 0 then a / b else -((-a) / b)
  }

  /** Rounding down for what is not negative, and symmetric about zero. */
  lemma TruncDivMeans(a: int, b: int)
    requires b > 0
    ensures a >= 0 ==> TruncDiv(a, b) * b <= a < (TruncDiv(a, b) + 1) * b
    ensures TruncDiv(-a, b) == -TruncDiv(a, b)
  {
  }

  /** The last `n` elements of `s`, or all of them if there are fewer. */
  function LastN<T>(s: seq<T>, n: nat): (r: seq<T>)
    ensures |r| <= n && |r| <= |s|
  {
    if |s| <= n then s else s[|s| - n..]
  }

  lemma LastNMeans<T>(s: seq<T>, n: nat)
    ensures |LastN(s, n)| == (if |s| <= n then |s| else n) && LastN(s, n) == s[|s| - |LastN(s, n)|..]
  {
  }
}
