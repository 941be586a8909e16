/** What every module shares: optional values, results, bytes, 16-bit numbers in network order. */
module Common {

  datatype Option<+T> = None | Some(value: T)

  datatype Result<+T> = Ok(value: T) | Err

  type Byte = b: int | 0 <= b < 256

  function U16(n: nat): (s: seq<Byte>)
    ensures |s| == 2
  {
    [n / 256 % 256, n % 256]
  }

  function ReadU16(buf: seq<Byte>, pos: nat): (n: nat)
    requires pos + 2 <= |buf|
    ensures n < 65536
  {
    var high: int, low: int := buf[pos], buf[pos + 1];
    256 * high + low
  }
}
