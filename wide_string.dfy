/** The wide-string adapter: the platform API takes text as a zero-terminated
    sequence of UTF-16 code units. */
module WideString {

  newtype u16 = x: int | 0 <= x < 0x1_0000

  /** The code units handed to the platform, terminator included. */
  datatype WideString = WideString(units: seq<u16>)

  /** `WideString::from`: the encoding of `s` followed by one zero code unit.
      The UTF-16 encoder of the standard library is not modelled; it is the
      parameter `encode`. */
  function From(encode: string -> seq<u16>, s: string): (w: WideString)
    ensures |w.units| == |encode(s)| + 1
    ensures w.units[|w.units| - 1] == 0
    ensures w.units[..|encode(s)|] == encode(s)
  {
    WideString(encode(s) + [0])
  }

  /** The number of code units the platform reads as the string: those
      before the first zero unit, or all of them when there is none. */
  function TextLength(units: seq<u16>): (n: nat)
    ensures n <= |units|
    ensures forall i :: 0 <= i < n ==> units[i] != 0
    ensures n < |units| ==> units[n] == 0
  {
    if units == [] || units[0] == 0 then 0 else 1 + TextLength(units[1..])
  }

  /** The terminator keeps the platform inside the buffer: it never reads
      more code units than the encoding has, and it reads the whole encoding
      exactly when the encoding holds no zero unit. */
  lemma PlatformReadsEncoding(encode: string -> seq<u16>, s: string)
    ensures TextLength(From(encode, s).units) <= |encode(s)|
    ensures TextLength(From(encode, s).units) == |encode(s)| <==> 0 !in encode(s)
  {
    var e := encode(s);
    var w := From(encode, s).units;
    var n := TextLength(w);
    if 0 in e {
      var j :| 0 <= j < |e| && e[j] == 0;
      assert w[j] == 0;
    } else {
      forall i | 0 <= i < |e| ensures w[i] != 0 {
        assert w[i] == e[i];
      }
    }
  }
}
