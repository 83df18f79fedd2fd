/** Small building blocks shared by the scanner and the server model:
    optional values, results with an error message, bytes, Go's
    strings.HasPrefix, and Go's byte-for-byte conversion string(data). */
module Common {

  datatype Option<+T> = None | Some(value: T)

  /** A Go `(value, error)` pair: either a value or the error's text. */
  datatype Result<+T> = Ok(value: T) | Err(error: string)

  newtype byte = x: int | 0 <= x < 256

  /** strings.HasPrefix(s, p). */
  predicate HasPrefix(s: string, p: string)
  {
    |p| <= |s| && s[..|p|] == p
  }

  /** Go's string(data): a Go string is a sequence of bytes, so the
      conversion keeps every byte. A byte is represented by the character
      whose code is that byte. */
  function BytesToText(data: seq<byte>): (t: string)
    ensures |t| == |data|
    ensures forall i :: 0 <= i < |t| ==> t[i] as int == data[i] as int
  {
    if data == [] then "" else [(data[0] as int) as char] + BytesToText(data[1..])
  }

  /** Reads back the bytes of a text in which every character stands for a byte. */
  function TextToBytes(t: string): (data: seq<byte>)
    requires forall i :: 0 <= i < |t| ==> t[i] as int < 256
    ensures |data| == |t|
    ensures forall i :: 0 <= i < |t| ==> data[i] as int == t[i] as int
  {
    if t == [] then [] else [(t[0] as int) as byte] + TextToBytes(t[1..])
  }

  /** The text handed back to a client holds the file's bytes verbatim:
      they can be read back from it unchanged. */
  lemma {:induction false} BytesToTextRoundTrip(data: seq<byte>)
    ensures forall i :: 0 <= i < |BytesToText(data)| ==> BytesToText(data)[i] as int < 256
    ensures TextToBytes(BytesToText(data)) == data
  {
    if data != [] {
      BytesToTextRoundTrip(data[1..]);
      var t := BytesToText(data);
      assert t[1..] == BytesToText(data[1..]);
    }
  }

  /** The decimal rendering Go's %d verb gives a non-negative integer. */
  function Decimal(n: nat): (s: string)
    ensures |s| >= 1
    ensures forall i :: 0 <= i < |s| ==> '0' <= s[i] <= '9'
  {
    if n < 10 then [DigitChar(n)] else Decimal(n / 10) + [DigitChar(n % 10)]
  }

  function DigitChar(d: nat): char
    requires d < 10
  {
    (('0' as int) + d) as char
  }

  /** The number a string of decimal digits denotes. */
  function DigitsValue(s: string): nat
    requires forall i :: 0 <= i < |s| ==> '0' <= s[i] <= '9'
  {
    if s == [] then 0
    else DigitsValue(s[..|s| - 1]) * 10 + ((s[|s| - 1] as int) - ('0' as int))
  }

  /** %d is faithful: the digits it prints denote the number, and only
      "0" itself starts with the digit 0. */
  lemma {:induction false} DecimalRoundTrip(n: nat)
    ensures DigitsValue(Decimal(n)) == n
    ensures Decimal(n)[0] == '0' ==> n == 0
  {
    if n >= 10 {
      DecimalRoundTrip(n / 10);
      var s := Decimal(n);
      assert s[..|s| - 1] == Decimal(n / 10);
    }
  }
}
