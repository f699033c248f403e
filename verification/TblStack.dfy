/** The whole runtime stack: a table written into blocks of any size and read back from them. */
module TblStack {
  import opened Octets
  import opened ExpBufs
  import opened Lengths
  import opened OctetStrings
  import opened Tbl
  import opened TblEncode
  import opened TblDecodeSpec
  import opened TblDecode
  import opened TblRoundTrip

  /** Encodes a table into a fresh buffer list and decodes it from the first block with data, if all names are right. */
  method EncodeAndDecode(v: TBL, blkSize: nat, initialStk: nat, growStk: nat)
    returns (written: Option<nat>, r: Result<TBL>, n: nat)
    requires blkSize >= 1 && growStk >= 1 && |EncTBL(v)| < INDEFINITE_LEN
    ensures written.Some? <==> Named(v)
    ensures written.Some? ==> written.value == n == |EncTBL(v)| && r == Ok(NormTBL(v))
    ensures written.Some? ==> (r == Ok(v) <==> Canonical(v))
  {
    var b := new BufHandle(blkSize);
    var stk := new StrStk(initialStk, growStk);
    written := BEncTBL(b, v);
    if written.None? {
      return None, Jump(0), 0;
    }
    b.StartRead();
    assert EncTBL(v) + [] == EncTBL(v);
    TBLRoundTrip(v, []);
    TBLFixed(v);
    hide BufHandle.WriteValid, BufHandle.ReadValid, StrStk.Valid, EncTBL, DecTBL, NormTBL, Canonical;
    r, n := BDecTBL(b, stk, 0);
  }
}
