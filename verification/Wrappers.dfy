/** The types the other modules share. */
module Wrappers {

  datatype Option<+T> = None | Some(value: T)

  /** A value, or the error the source raises instead. */
  datatype Result<+T, +E> = Ok(value: T) | Err(error: E)

  newtype Octet = b: int | 0 <= b < 256

  /** The octets of a text in ASCII. */
  function Ascii(text: string): (r: seq<Octet>)
    requires forall i :: 0 <= i < |text| ==> text[i] as int < 128
    ensures |r| == |text| && forall i :: 0 <= i < |text| ==> r[i] as int == text[i] as int
  {
    seq(|text|, i requires 0 <= i < |text| => text[i] as int as Octet)
  }
}
