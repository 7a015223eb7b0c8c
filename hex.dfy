/**
 * Lowercase hexadecimal rendering of a byte string, used to show the token
 * of a SUBMITTED response (HexString in src/client/ct.cc), with its inverse.
 */
module HexEncoding {
  import opened Wire

  /** The digit table the source indexes with each nibble. */
  const Nibble: string := "0123456789abcdef"

  /** The two digits of one byte: high nibble, then low nibble. */
  function HexByte(b: byte): (r: string)
    ensures |r| == 2
  {
    [Nibble[b as int / 16], Nibble[b as int % 16]]
  }

  /** The hex rendering of data, built byte by byte from the front. */
  function Hex(data: seq<byte>): (r: string)
    ensures |r| == 2 * |data|
  {
    if data == [] then "" else Hex(data[..|data| - 1]) + HexByte(data[|data| - 1])
  }

  /** Characters 2i and 2i+1 of the rendering are the digits of the high and
      low nibble of data[i]; every character is drawn from the digit table. */
  lemma {:induction false} HexAt(data: seq<byte>)
    ensures forall i :: 0 <= i < |data| ==>
      Hex(data)[2 * i] == Nibble[data[i] as int / 16] &&
      Hex(data)[2 * i + 1] == Nibble[data[i] as int % 16]
    ensures forall k :: 0 <= k < |Hex(data)| ==> Hex(data)[k] in Nibble
  {
    if data != [] {
      var init := data[..|data| - 1];
      HexAt(init);
      forall i | 0 <= i < |data|
        ensures Hex(data)[2 * i] == Nibble[data[i] as int / 16]
        ensures Hex(data)[2 * i + 1] == Nibble[data[i] as int % 16]
      {
        if i < |data| - 1 {
          assert data[i] == init[i];
        }
      }
      forall k | 0 <= k < |Hex(data)|
        ensures Hex(data)[k] in Nibble
      {
        if k < |Hex(init)| {
          assert Hex(data)[k] == Hex(init)[k];
        }
      }
    }
  }

  /** The value of a lowercase hex digit. */
  function DigitValue(c: char): (r: Option<nat>)
    ensures r.Some? ==> r.value < 16
  {
    if '0' <= c <= '9' then Some(c as int - '0' as int)
    else if 'a' <= c <= 'f' then Some(c as int - 'a' as int + 10)
    else None
  }

  lemma NibbleDigit(v: nat)
    requires v < 16
    ensures DigitValue(Nibble[v]) == Some(v)
  {
  }

  /** Parses a rendering back into bytes, two digits per byte. */
  function Unhex(s: string): Option<seq<byte>>
  {
    if s == [] then Some([])
    else if |s| < 2 then None
    else
      var init := Unhex(s[..|s| - 2]);
      var hi, lo := DigitValue(s[|s| - 2]), DigitValue(s[|s| - 1]);
      if init.Some? && hi.Some? && lo.Some? then Some(init.value + [(hi.value * 16 + lo.value) as byte])
      else None
  }

  /** One step of Unhex: two more digits append one more byte. */
  lemma UnhexStep(s: string, init: seq<byte>, hi: nat, lo: nat)
    requires 2 <= |s| && hi < 16 && lo < 16
    requires Unhex(s[..|s| - 2]) == Some(init)
    requires DigitValue(s[|s| - 2]) == Some(hi) && DigitValue(s[|s| - 1]) == Some(lo)
    ensures Unhex(s) == Some(init + [(hi * 16 + lo) as byte])
  {
  }

  /** The rendering loses nothing: parsing it gives back the bytes. */
  lemma {:induction false} UnhexHex(data: seq<byte>)
    ensures Unhex(Hex(data)) == Some(data)
  {
    if data != [] {
      var init := data[..|data| - 1];
      var last := data[|data| - 1];
      var s := Hex(data);
      var hi, lo := last as int / 16, last as int % 16;
      UnhexHex(init);
      assert s == Hex(init) + HexByte(last);
      assert HexByte(last) == [Nibble[hi], Nibble[lo]];
      assert s[..|s| - 2] == Hex(init);
      assert s[|s| - 2] == Nibble[hi] && s[|s| - 1] == Nibble[lo];
      NibbleDigit(hi);
      NibbleDigit(lo);
      UnhexStep(s, init, hi, lo);
      assert hi * 16 + lo == last as int;
      assert data == init + [last];
    }
  }

  /** HexString: appends the two digits of each byte in turn; what the
      result looks like character by character is HexAt. */
  method HexString(data: seq<byte>) returns (ret: string)
    ensures ret == Hex(data)
    ensures |ret| == 2 * |data|
  {
    ret := "";
    for i := 0 to |data|
      invariant ret == Hex(data[..i])
    {
      ret := ret + [Nibble[data[i] as int / 16]];
      ret := ret + [Nibble[data[i] as int % 16]];
      assert data[..i + 1][..i] == data[..i];
    }
    assert data[..|data|] == data;
  }
}
