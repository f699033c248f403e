/** The identifier and length octets of one element, written and read back together. */
module Headers {
  import opened Octets
  import opened Tags
  import opened Lengths

  function EncHeader(cl: Class, fm: Form, code: nat, len: nat): (s: seq<byte>)
  {
    TagOctets(cl, fm, code) + EncDefLen(len)
  }

  /** `BDecTag` then `BDecLen`, as every element decoder starts. */
  function DecHeader(s: seq<byte>): (d: Dec<(nat, nat)>)
    ensures d.Got? ==> |d.rest| + 2 <= |s| && d.n == |s| - |d.rest|
  {
    var (tag, n, s1) :- DecTag(s);
    var (len, m, s2) :- DecLen(s1);
    Got((tag, len), n + m, s2)
  }

  /** Reading a header back consumes exactly its octets and yields tag and length. */
  lemma HeaderRoundTrip(cl: Class, fm: Form, code: nat, len: nat, rest: seq<byte>)
    requires code < 0x20_0000 && len < TWO_32
    ensures var h := EncHeader(cl, fm, code, len);
      DecHeader(h + rest) == Got((MakeTagId(cl, fm, code), len), |h|, rest)
  {
    hide TagOctets, EncDefLen, DecTag, DecLen, MakeTagId, TagByteLen;
    var t, l := TagOctets(cl, fm, code), EncDefLen(len);
    assert (t + l) + rest == t + (l + rest);
    DecTagTagOctets(cl, fm, code, l + rest);
    DecLenEncDefLen(len, rest);
  }
}
