/**
 * `charsToString` of the kernel package: the kernel release string out of the
 * NUL-terminated `[]int8` field `utsname.Release` returned by uname(2).
 */
module Kernel {

  /** A C `char` as Go's syscall package declares it on Linux. */
  newtype Int8 = x: int | -128 <= x < 128

  /** A byte of a Go string. */
  newtype Byte = x: int | 0 <= x < 256

  /** `uint8(c)`: the byte with the same two's-complement bits, that is `c` modulo 256. */
  function ToUint8(c: Int8): (b: Byte)
    ensures (b as int - c as int) % 256 == 0
    ensures 0 <= c ==> b as int == c as int
    ensures b == 0 <==> c == 0
  {
    (c as int % 256) as Byte
  }

  /** `int8(b)`: reads a byte back as a C `char`; the inverse of `ToUint8`. */
  function ToInt8(b: Byte): (c: Int8)
    ensures ToUint8(c) == b
    ensures c == 0 <==> b == 0
  {
    if b < 128 then b as int as Int8 else (b as int - 256) as Int8
  }

  /**
   * The string `charsToString(ca)` returns: the bytes of `ca` up to, not including, the
   * first zero (all of `ca` if there is none), each reinterpreted as unsigned.
   */
  function CharsToString(ca: seq<Int8>): (s: seq<Byte>)
    ensures |s| <= |ca|
    ensures |s| < |ca| ==> ca[|s|] == 0
    ensures forall i :: 0 <= i < |s| ==> ca[i] != 0 && s[i] == ToUint8(ca[i])
    ensures forall i :: 0 <= i < |s| ==> s[i] != 0
    decreases |ca|
  {
    if |ca| == 0 || ca[0] == 0 then []
    else [ToUint8(ca[0])] + CharsToString(ca[1..])
  }

  /** `s` is what a NUL-terminated read of `ca` yields. */
  ghost predicate IsCString(ca: seq<Int8>, s: seq<Byte>)
  {
    && |s| <= |ca|
    && (forall i :: 0 <= i < |s| ==> ca[i] != 0 && s[i] == ToUint8(ca[i]))
    && (|s| == |ca| || ca[|s|] == 0)
  }

  /** `CharsToString` yields exactly the NUL-terminated read, and nothing else does. */
  lemma CharsToStringCharacterized(ca: seq<Int8>, s: seq<Byte>)
    ensures IsCString(ca, s) <==> s == CharsToString(ca)
  {
    var t := CharsToString(ca);
    if IsCString(ca, s) {
      // Each read stops at a zero the other would have had to read past.
      assert |s| == |t|;
    }
  }

  /**
   * The loop of `charsToString`: fills a buffer as long as the input, stops at the first
   * zero, and returns the filled prefix.
   */
  method CharsToStringLoop(ca: seq<Int8>) returns (s: seq<Byte>)
    ensures IsCString(ca, s)
    ensures s == CharsToString(ca)
  {
    var buf: seq<Byte> := seq(|ca|, _ => 0);
    var lens := 0;
    while lens < |ca|
      invariant 0 <= lens <= |ca|
      invariant |buf| == |ca|
      invariant forall i :: 0 <= i < lens ==> ca[i] != 0 && buf[i] == ToUint8(ca[i])
      decreases |ca| - lens
    {
      if ca[lens] == 0 {
        break;
      }
      buf := buf[lens := ToUint8(ca[lens])];
      lens := lens + 1;
    }
    s := buf[..lens];
    CharsToStringCharacterized(ca, s);
  }

  /** Whatever follows a zero does not change the result. */
  lemma {:induction false} CharsToStringIgnoresTail(ca: seq<Int8>, cb: seq<Int8>, k: nat)
    requires k < |ca| && k < |cb| && ca[k] == 0
    requires ca[..k + 1] == cb[..k + 1]
    ensures CharsToString(ca) == CharsToString(cb)
    decreases k
  {
    assert ca[0] == cb[0] by { assert ca[..k + 1][0] == cb[..k + 1][0]; }
    if ca[0] != 0 {
      assert k > 0;
      assert ca[1..][..k] == cb[1..][..k] by {
        assert forall i :: 0 <= i < k ==> ca[1..][i] == ca[..k + 1][i + 1] && cb[1..][i] == cb[..k + 1][i + 1];
      }
      CharsToStringIgnoresTail(ca[1..], cb[1..], k - 1);
    }
  }

  /** A Go string written out as C `char`s. */
  function Encode(s: seq<Byte>): (ca: seq<Int8>)
    ensures |ca| == |s|
    ensures forall i :: 0 <= i < |s| ==> ToUint8(ca[i]) == s[i]
  {
    seq(|s|, i requires 0 <= i < |s| => ToInt8(s[i]))
  }

  /**
   * A string without zero bytes survives being written into the field and read back,
   * whether the field ends right after it or holds a terminator and arbitrary padding.
   */
  lemma CharsToStringRoundTrip(s: seq<Byte>, pad: seq<Int8>)
    requires forall i :: 0 <= i < |s| ==> s[i] != 0
    ensures CharsToString(Encode(s)) == s
    ensures CharsToString(Encode(s) + [0] + pad) == s
  {
    var ca := Encode(s);
    var cz := ca + [0] + pad;
    assert forall i :: 0 <= i < |s| ==> ca[i] != 0 by {
      forall i | 0 <= i < |s| ensures ca[i] != 0 { assert ToUint8(ca[i]) == s[i]; }
    }
    CharsToStringCharacterized(ca, s);
    assert forall i :: 0 <= i < |s| ==> cz[i] == ca[i];
    CharsToStringCharacterized(cz, s);
  }
}
