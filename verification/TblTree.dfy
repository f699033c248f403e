/** What the octets of a type table are, read by a reader that knows nothing of type tables. */
module TblTrees {
  import opened Octets
  import opened Lengths
  import opened Tags
  import opened Ints
  import opened Tbl

  /** An element by its first octet: a primitive one with its contents, a constructed one with the elements in it. */
  datatype Tree = Leaf(first: byte, content: seq<byte>) | Branch(first: byte, children: seq<Tree>)

  /** Length octets of the definite forms (section 8.1.3 of ITU-T X.690): how many they are, and the length. */
  function ReadLen(s: seq<byte>): Option<(nat, nat)>
  {
    if s == [] then None
    else if s[0] < 0x80 then Some((1, s[0]))
    else if s[0] == 0x81 && |s| >= 2 then Some((2, s[1]))
    else if s[0] == 0x82 && |s| >= 3 then Some((3, Number([s[1], s[2]])))
    else if s[0] == 0x83 && |s| >= 4 then Some((4, Number([s[1], s[2], s[3]])))
    else if s[0] == 0x84 && |s| >= 5 then Some((5, Number([s[1], s[2], s[3], s[4]])))
    else None
  }

  /** The first octet counts most. */
  function Number(s: seq<byte>): nat
  {
    if s == [] then 0 else 0x100 * Number(s[..|s| - 1]) + s[|s| - 1]
  }

  /** The first element: its first octet, its contents and what follows it. Identifiers have one octet. */
  function Split(s: seq<byte>): (r: Option<(byte, seq<byte>, seq<byte>)>)
    ensures r.Some? ==> |r.value.1| < |s| && |r.value.2| < |s|
  {
    if s == [] || s[0] % 0x20 == 0x1F then None
    else
      match ReadLen(s[1..])
      case None => None
      case Some((n, len)) =>
        if |s| < 1 + n + len then None else Some((s[0], s[1 + n..1 + n + len], s[1 + n + len..]))
  }

  /** The elements that the octets are. */
  function ReadTrees(s: seq<byte>): Option<seq<Tree>>
    decreases |s|, 0
  {
    if s == [] then Some([])
    else
      match Split(s)
      case None => None
      case Some((first, content, rest)) =>
        match (ReadElement(first, content), ReadTrees(rest))
        case (Some(t), Some(ts)) => Some([t] + ts)
        case _ => None
  }

  /** Bit 6 of the first octet tells constructed elements. */
  function ReadElement(first: byte, content: seq<byte>): Option<Tree>
    decreases |content|, 1
  {
    if first / 0x20 % 2 == 0 then Some(Leaf(first, content))
    else
      match ReadTrees(content)
      case Some(ts) => Some(Branch(first, ts))
      case None => None
  }

  lemma {:induction false} ReadJoin(a: seq<byte>, b: seq<byte>)
    requires ReadTrees(a).Some? && ReadTrees(b).Some?
    ensures ReadTrees(a + b) == Some(ReadTrees(a).value + ReadTrees(b).value)
    decreases |a|
  {
    hide ReadElement, Split;
    if a == [] {
      assert a + b == b && [] + ReadTrees(b).value == ReadTrees(b).value;
    } else {
      SplitMore(a, b);
      var (first, content, rest) := Split(a).value;
      ReadJoin(rest, b);
      var t, ts, us := ReadElement(first, content).value, ReadTrees(rest).value, ReadTrees(b).value;
      assert a + b != [] && ReadTrees(a) == Some([t] + ts);
      assert ReadTrees(a + b) == Some([t] + (ts + us));
      assert [t] + (ts + us) == [t] + ts + us;
    }
  }

  lemma SplitMore(s: seq<byte>, more: seq<byte>)
    requires Split(s).Some?
    ensures Split(s + more) == Some((Split(s).value.0, Split(s).value.1, Split(s).value.2 + more))
  {
    hide ReadLen;
    ReadLenMore(s[1..], more);
    assert (s + more)[1..] == s[1..] + more;
    var (n, len) := ReadLen(s[1..]).value;
    var end := 1 + n + len;
    assert (s + more)[1 + n..end] == s[1 + n..end] && (s + more)[end..] == s[end..] + more;
  }

  lemma ReadLenMore(s: seq<byte>, rest: seq<byte>)
    requires ReadLen(s).Some?
    ensures ReadLen(s + rest) == ReadLen(s)
  {
  }

  /** The two's-complement octets of a number, the fewest that hold it (section 8.3 of ITU-T X.690). */
  function IntOctets(v: AsnInt): seq<byte>
  {
    if -0x80 <= v < 0x80 then [v % 0x100]
    else if -0x8000 <= v < 0x8000 then [v / 0x100 % 0x100, v % 0x100]
    else if -0x80_0000 <= v < 0x80_0000 then [v / 0x1_0000 % 0x100, v / 0x100 % 0x100, v % 0x100]
    else [v / 0x100_0000 % 0x100, v / 0x1_0000 % 0x100, v / 0x100 % 0x100, v % 0x100]
  }

  function BoolOctets(v: AsnBool): seq<byte>
  {
    if v == 0 then [0] else [0xFF]
  }

  function RangeTrees(v: TBLRange): seq<Tree>
  {
    [Leaf(0x80, IntOctets(v.from)), Leaf(0x81, IntOctets(v.to))]
  }

  function NumberTree(v: TBLNamedNumber): Tree
  {
    Branch(0x30, [Leaf(0x80, v.name), Leaf(0x81, IntOctets(v.value))])
  }

  function TypeRefTrees(v: TBLTypeRef): seq<Tree>
  {
    [Leaf(0x02, IntOctets(v.typeDef)), Leaf(0x01, BoolOctets(v.implicitly))]
  }

  function TagTree(v: TBLTag): Tree
  {
    Branch(0x30, [Leaf(0x0A, IntOctets(v.tclass)), Leaf(0x02, IntOctets(v.code))])
  }

  function NumberTrees(v: seq<TBLNamedNumber>): (ts: seq<Tree>)
    ensures |ts| == |v| && forall i :: 0 <= i < |v| ==> ts[i] == NumberTree(v[i])
  {
    seq(|v|, i requires 0 <= i < |v| => NumberTree(v[i]))
  }

  function TagTrees(v: seq<TBLTag>): (ts: seq<Tree>)
    ensures |ts| == |v| && forall i :: 0 <= i < |v| ==> ts[i] == TagTree(v[i])
  {
    seq(|v|, i requires 0 <= i < |v| => TagTree(v[i]))
  }

  /** A type's elements: its optional ones are there if and only if their fields are. */
  function TypeTrees(v: TBLType): seq<Tree>
    decreases v, 0
  {
    [Leaf(0x80, IntOctets(v.typeId)), Leaf(0x81, BoolOctets(v.optional))]
    + (if v.tagList.Some? then [Branch(0xA2, TagTrees(v.tagList.value))] else [])
    + [Branch(0xA3, [ContentTree(v.content)])]
    + (if v.fieldName.Some? then [Leaf(0x84, v.fieldName.value)] else [])
    + (if v.constraint.Some? then [Branch(0xA5, RangeTrees(v.constraint.value))] else [])
    + (if v.values.Some? then [Branch(0xA6, NumberTrees(v.values.value))] else [])
  }

  function ContentTree(v: TBLTypeContent): Tree
    decreases v, 0
  {
    match v
    case PrimType => Leaf(0x80, [])
    case Elmts(elmts) => Branch(0xA1, TypeListTrees(elmts))
    case TypeRef(typeRef) => Branch(0xA2, TypeRefTrees(typeRef))
  }

  function TypeListTrees(v: seq<TBLType>): (ts: seq<Tree>)
    ensures |ts| == |v| && forall i :: 0 <= i < |v| ==> ts[i] == Branch(0x30, TypeTrees(v[i]))
    decreases v, 1
  {
    seq(|v|, i requires 0 <= i < |v| => Branch(0x30, TypeTrees(v[i])))
  }

  function TypeDefTree(v: TBLTypeDef): Tree
  {
    Branch(0x30,
      [Leaf(0x02, IntOctets(v.typeDefId)), Leaf(0x13, v.typeName), Branch(0x30, TypeTrees(v.typ))]
      + if v.isPdu then [Leaf(0x05, [])] else [])
  }

  function TypeDefTrees(v: seq<TBLTypeDef>): (ts: seq<Tree>)
    ensures |ts| == |v| && forall i :: 0 <= i < |v| ==> ts[i] == TypeDefTree(v[i])
  {
    seq(|v|, i requires 0 <= i < |v| => TypeDefTree(v[i]))
  }

  function ModuleTree(v: TBLModule): Tree
  {
    Branch(0x30,
      [Leaf(0x80, v.name)]
      + (if v.id.Some? then [Leaf(0x81, v.id.value)] else [])
      + [Leaf(0x82, BoolOctets(v.isUseful)), Branch(0xA3, TypeDefTrees(v.typeDefs))])
  }

  function ModuleTrees(v: seq<TBLModule>): (ts: seq<Tree>)
    ensures |ts| == |v| && forall i :: 0 <= i < |v| ==> ts[i] == ModuleTree(v[i])
  {
    seq(|v|, i requires 0 <= i < |v| => ModuleTree(v[i]))
  }

  /** The whole table. */
  function TableTree(v: TBL): Tree
  {
    Branch(0x30, [
      Leaf(0x02, IntOctets(v.totalNumModules)),
      Leaf(0x02, IntOctets(v.totalNumTypeDefs)),
      Leaf(0x02, IntOctets(v.totalNumTypes)),
      Leaf(0x02, IntOctets(v.totalNumTags)),
      Leaf(0x02, IntOctets(v.totalNumStrings)),
      Leaf(0x02, IntOctets(v.totalLenStrings)),
      Branch(0x30, ModuleTrees(v.modules))])
  }

  lemma {:induction false} NumberBe(n: nat, k: nat)
    requires n < Pow256(k)
    ensures Number(Be(n, k)) == n
  {
    if k > 0 {
      NumberBe(n / 256, k - 1);
      assert Be(n, k)[..k - 1] == Be(n / 256, k - 1);
    }
  }

  /** What `BDecLen` makes of any octets. */
  lemma DecLenIs(s: seq<byte>)
    ensures
      match ReadLen(s)
      case Some((n, len)) => DecLen(s) == Got(len, n, s[n..])
      case None =>
        if s == [] then DecLen(s) == Fail(-13)
        else if s[0] == 0x80 then DecLen(s) == Got(0xFFFF_FFFF, 1, s[1..])
        else if s[0] > 0x84 then DecLen(s) == Fail(-14)
        else DecLen(s) == Fail(-15)
  {
    hide Val, Number;
    if s != [] && 0x81 <= s[0] <= 0x84 && |s| >= 1 + (s[0] - 0x80) {
      var k := s[0] - 0x80;
      NumberIsVal(s[1..1 + k]);
      assert k == 1 ==> s[1..2] == [s[1]] && Val([s[1]]) == s[1] by {
        NumberOne(s[1]);
      }
      assert k == 2 ==> s[1..3] == [s[1], s[2]];
      assert k == 3 ==> s[1..4] == [s[1], s[2], s[3]];
      assert k == 4 ==> s[1..5] == [s[1], s[2], s[3], s[4]];
    }
  }

  lemma {:induction false} NumberIsVal(s: seq<byte>)
    ensures Number(s) == Val(s)
  {
    if s != [] {
      NumberIsVal(s[..|s| - 1]);
    }
  }

  lemma NumberOne(octet: byte)
    ensures Val([octet]) == octet
  {
    assert [octet][..0] == [] && Val([]) == 0;
  }

  /** The encoder's length octets read as the length. */
  lemma ReadEncDefLen(len: nat)
    requires len < TWO_32
    ensures ReadLen(EncDefLen(len)) == Some((|EncDefLen(len)|, len))
  {
    hide Be, Number;
    PowValues();
    if len >= 256 {
      var e := EncDefLen(len);
      var k := |e| - 1;
      NumberBe(len, k);
      assert e[1..] == Be(len, k);
      assert k == 2 ==> e[1..] == [e[1], e[2]];
      assert k == 3 ==> e[1..] == [e[1], e[2], e[3]];
      assert k == 4 ==> e[1..] == [e[1], e[2], e[3], e[4]];
    }
  }

  /** One element alone. */
  lemma SplitOne(first: byte, lenOctets: seq<byte>, content: seq<byte>)
    requires first % 0x20 != 0x1F && ReadLen(lenOctets) == Some((|lenOctets|, |content|))
    ensures Split([first] + (lenOctets + content)) == Some((first, content, []))
  {
    hide ReadLen;
    var s := [first] + (lenOctets + content);
    ReadLenMore(lenOctets, content);
    var n := |lenOctets|;
    assert s[1..] == lenOctets + content && s[1 + n..1 + n + |content|] == content && s[1 + n + |content|..] == [];
  }

  lemma FirstOctet(cl: Class, fm: Form, code: nat)
    requires code < 31
    ensures (cl + fm + code) % 0x20 == code && (cl + fm + code) / 0x20 % 2 == if fm == PRIM then 0 else 1
    ensures PRIM == 0 && (fm == PRIM || fm == 0x20)
  {
  }

  lemma ReadOne(first: byte, s: seq<byte>, content: seq<byte>)
    requires s != [] && Split(s) == Some((first, content, []))
    ensures ReadTrees(s) == match ReadElement(first, content) case Some(t) => Some([t]) case None => None
  {
    hide ReadElement, Split;
    assert ReadTrees([]) == Some([]);
    assert forall t: Tree {:trigger [t]} :: [t] + [] == [t];
  }

  lemma ReadTlv(cl: Class, fm: Form, code: nat, content: seq<byte>)
    requires code < 31 && |content| < TWO_32
    ensures ReadTrees(Tlv(cl, fm, code, content)) ==
            match ReadElement(cl + fm + code, content) case Some(t) => Some([t]) case None => None
  {
    hide EncDefLen, ReadLen, Split, ReadElement;
    ReadEncDefLen(|content|);
    FirstOctet(cl, fm, code);
    SplitOne(cl + fm + code, EncDefLen(|content|), content);
    ReadOne(cl + fm + code, Tlv(cl, fm, code, content), content);
  }

  lemma ReadLeaf(cl: Class, code: nat, content: seq<byte>)
    requires code < 31 && |content| < TWO_32
    ensures ReadTrees(Tlv(cl, PRIM, code, content)) == Some([Leaf(cl + code, content)])
  {
    hide ReadTrees;
    FirstOctet(cl, PRIM, code);
    ReadTlv(cl, PRIM, code, content);
  }

  lemma ReadBranch(cl: Class, code: nat, content: seq<byte>, ts: seq<Tree>)
    requires code < 31 && |content| < TWO_32 && ReadTrees(content) == Some(ts)
    ensures ReadTrees(Tlv(cl, CONS, code, content)) == Some([Branch(cl + 0x20 + code, ts)])
  {
    hide Tlv;
    FirstOctet(cl, CONS, code);
    ReadTlv(cl, CONS, code, content);
  }

  lemma IntOctetsAre(v: AsnInt)
    ensures EncInt(v) == IntOctets(v)
  {
    hide Be;
    Be1(v);
    Be2(v);
    Be3(v);
    Be4(v);
  }

  lemma ReadInt(cl: Class, code: nat, v: AsnInt)
    requires code < 31
    ensures ReadTrees(Tlv(cl, PRIM, code, EncInt(v))) == Some([Leaf(cl + code, IntOctets(v))])
  {
    hide ReadTrees, EncInt, IntOctets, Tlv;
    IntOctetsAre(v);
    ReadLeaf(cl, code, EncInt(v));
  }

  lemma ReadBool(cl: Class, code: nat, v: AsnBool)
    requires code < 31
    ensures ReadTrees(Tlv(cl, PRIM, code, EncBool(v))) == Some([Leaf(cl + code, BoolOctets(v))])
  {
    hide ReadTrees, Tlv;
    ReadLeaf(cl, code, EncBool(v));
  }

  /** Two groups of elements in a row. */
  lemma ReadBoth(a: seq<byte>, b: seq<byte>, ts: seq<Tree>, us: seq<Tree>)
    requires ReadTrees(a) == Some(ts) && ReadTrees(b) == Some(us)
    ensures ReadTrees(a + b) == Some(ts + us)
  {
    hide ReadTrees;
    ReadJoin(a, b);
  }

  lemma ReadNothing()
    ensures ReadTrees([]) == Some([])
  {
  }

  lemma ReadTwo(a: seq<byte>, b: seq<byte>, t: Tree, u: Tree)
    requires ReadTrees(a) == Some([t]) && ReadTrees(b) == Some([u])
    ensures ReadTrees(a + b) == Some([t, u])
  {
    hide ReadTrees;
    ReadJoin(a, b);
    assert [t] + [u] == [t, u];
  }

  lemma RangeOctets(v: TBLRange)
    ensures ReadTrees(EncRange(v)) == Some(RangeTrees(v))
  {
    hide ReadTrees, Tlv, EncInt, IntOctets;
    ReadInt(CNTX, 0, v.from);
    ReadInt(CNTX, 1, v.to);
    ReadTwo(Tlv(CNTX, PRIM, 0, EncInt(v.from)), Tlv(CNTX, PRIM, 1, EncInt(v.to)),
            Leaf(0x80, IntOctets(v.from)), Leaf(0x81, IntOctets(v.to)));
  }

  lemma TypeRefOctets(v: TBLTypeRef)
    ensures ReadTrees(EncTypeRef(v)) == Some(TypeRefTrees(v))
  {
    hide ReadTrees, Tlv, EncInt, IntOctets, EncBool, BoolOctets;
    ReadInt(UNIV, INTEGER_TAG_CODE, v.typeDef);
    ReadBool(UNIV, BOOLEAN_TAG_CODE, v.implicitly);
    ReadTwo(Tlv(UNIV, PRIM, INTEGER_TAG_CODE, EncInt(v.typeDef)),
            Tlv(UNIV, PRIM, BOOLEAN_TAG_CODE, EncBool(v.implicitly)),
            Leaf(0x02, IntOctets(v.typeDef)), Leaf(0x01, BoolOctets(v.implicitly)));
  }

  lemma NumberOctets(v: TBLNamedNumber)
    requires |EncNamedNumber(v)| < TWO_32
    ensures ReadTrees(Tlv(UNIV, CONS, SEQ_TAG_CODE, EncNamedNumber(v))) == Some([NumberTree(v)])
  {
    hide ReadTrees, EncInt, IntOctets, EncDefLen, TagOctets;
    ReadLeaf(CNTX, 0, v.name);
    ReadInt(CNTX, 1, v.value);
    ReadTwo(Tlv(CNTX, PRIM, 0, v.name), Tlv(CNTX, PRIM, 1, EncInt(v.value)),
            Leaf(0x80, v.name), Leaf(0x81, IntOctets(v.value)));
    ReadBranch(UNIV, SEQ_TAG_CODE, EncNamedNumber(v), [Leaf(0x80, v.name), Leaf(0x81, IntOctets(v.value))]);
  }

  lemma TagOctetsRead(v: TBLTag)
    ensures |EncTag(v)| < TWO_32 && ReadTrees(Tlv(UNIV, CONS, SEQ_TAG_CODE, EncTag(v))) == Some([TagTree(v)])
  {
    hide ReadTrees, IntOctets;
    ReadInt(UNIV, ENUM_TAG_CODE, v.tclass);
    ReadInt(UNIV, INTEGER_TAG_CODE, v.code);
    ReadTwo(Tlv(UNIV, PRIM, ENUM_TAG_CODE, EncInt(v.tclass)), Tlv(UNIV, PRIM, INTEGER_TAG_CODE, EncInt(v.code)),
            Leaf(0x0A, IntOctets(v.tclass)), Leaf(0x02, IntOctets(v.code)));
    ReadBranch(UNIV, SEQ_TAG_CODE, EncTag(v), [Leaf(0x0A, IntOctets(v.tclass)), Leaf(0x02, IntOctets(v.code))]);
  }

  lemma {:induction false} NumberListOctets(v: seq<TBLNamedNumber>)
    requires |EncNamedNumberList(v)| < TWO_32
    ensures ReadTrees(EncNamedNumberList(v)) == Some(NumberTrees(v))
  {
    hide ReadTrees, NumberTree, Tlv;
    if v == [] {
      ReadNothing();
    } else {
      InTlv(UNIV, SEQ_TAG_CODE, EncNamedNumber(v[0]));
      NumberOctets(v[0]);
      NumberListOctets(v[1..]);
      ReadBoth(Tlv(UNIV, CONS, SEQ_TAG_CODE, EncNamedNumber(v[0])), EncNamedNumberList(v[1..]), [NumberTree(v[0])],
               NumberTrees(v[1..]));
      assert [NumberTree(v[0])] + NumberTrees(v[1..]) == NumberTrees(v);
    }
  }

  lemma InTlv(cl: Class, code: nat, content: seq<byte>)
    requires code < 31
    ensures |content| < |Tlv(cl, CONS, code, content)|
  {
  }

  lemma {:induction false} TagListOctets(v: seq<TBLTag>)
    requires |EncTagList(v)| < TWO_32
    ensures ReadTrees(EncTagList(v)) == Some(TagTrees(v))
  {
    hide ReadTrees, TagTree, Tlv;
    if v == [] {
      ReadNothing();
    } else {
      TagOctetsRead(v[0]);
      TagListOctets(v[1..]);
      ReadBoth(Tlv(UNIV, CONS, SEQ_TAG_CODE, EncTag(v[0])), EncTagList(v[1..]), [TagTree(v[0])], TagTrees(v[1..]));
      assert [TagTree(v[0])] + TagTrees(v[1..]) == TagTrees(v);
    }
  }

  /** The optional elements behind the content, each with those behind it. */
  function ValuesTrees(v: TBLType): seq<Tree>
  {
    if v.values.Some? then [Branch(0xA6, NumberTrees(v.values.value))] else []
  }

  function ConstraintTrees(v: TBLType): seq<Tree>
  {
    if v.constraint.Some? then [Branch(0xA5, RangeTrees(v.constraint.value))] else []
  }

  function FieldNameTrees(v: TBLType): seq<Tree>
  {
    if v.fieldName.Some? then [Leaf(0x84, v.fieldName.value)] else []
  }

  lemma TailOctets(v: TBLType)
    requires |EncFieldName(v)| < TWO_32
    ensures ReadTrees(EncFieldName(v)) == Some(FieldNameTrees(v) + (ConstraintTrees(v) + ValuesTrees(v)))
  {
    hide ReadTrees, Tlv, EncNamedNumberList, EncRange, RangeTrees, NumberTrees;
    ReadNothing();
    if v.values.Some? {
      InTlv(CNTX, 6, EncNamedNumberList(v.values.value));
      NumberListOctets(v.values.value);
      ReadBranch(CNTX, 6, EncNamedNumberList(v.values.value), NumberTrees(v.values.value));
    }
    assert ReadTrees(EncValues(v)) == Some(ValuesTrees(v));
    var constraint := if v.constraint.None? then [] else Tlv(CNTX, CONS, 5, EncRange(v.constraint.value));
    if v.constraint.Some? {
      InTlv(CNTX, 5, EncRange(v.constraint.value));
      RangeOctets(v.constraint.value);
      ReadBranch(CNTX, 5, EncRange(v.constraint.value), RangeTrees(v.constraint.value));
    }
    ReadBoth(constraint, EncValues(v), ConstraintTrees(v), ValuesTrees(v));
    var fieldName := if v.fieldName.None? then [] else Tlv(CNTX, PRIM, 4, v.fieldName.value);
    if v.fieldName.Some? {
      InLeaf(CNTX, 4, v.fieldName.value);
      ReadLeaf(CNTX, 4, v.fieldName.value);
    }
    ReadBoth(fieldName, EncConstraint(v), FieldNameTrees(v), ConstraintTrees(v) + ValuesTrees(v));
  }

  lemma InLeaf(cl: Class, code: nat, content: seq<byte>)
    requires code < 31
    ensures |content| < |Tlv(cl, PRIM, code, content)|
  {
  }

  lemma {:induction false} TypeOctets(v: TBLType)
    requires |EncType(v)| < TWO_32
    ensures ReadTrees(EncType(v)) == Some(TypeTrees(v))
    decreases v, 0
  {
    hide ReadTrees, Tlv, EncInt, IntOctets, EncBool, BoolOctets, EncTagList, TagTrees, EncTypeContent, EncFieldName,
      FieldNameTrees, ConstraintTrees, ValuesTrees;
    ReadInt(CNTX, 0, v.typeId);
    ReadBool(CNTX, 1, v.optional);
    ReadNothing();
    var tagList: seq<Tree> := [];
    if v.tagList.Some? {
      InTlv(CNTX, 2, EncTagList(v.tagList.value));
      TagListOctets(v.tagList.value);
      tagList := [Branch(0xA2, TagTrees(v.tagList.value))];
      ReadBranch(CNTX, 2, EncTagList(v.tagList.value), TagTrees(v.tagList.value));
    }
    var content := [Branch(0xA3, [ContentTree(v.content)])];
    var tail := FieldNameTrees(v) + (ConstraintTrees(v) + ValuesTrees(v));
    InTlv(CNTX, 3, EncTypeContent(v.content));
    ContentOctets(v.content);
    ReadBranch(CNTX, 3, EncTypeContent(v.content), [ContentTree(v.content)]);
    TailOctets(v);
    var o4 := Tlv(CNTX, CONS, 3, EncTypeContent(v.content));
    var o2, o1 := Tlv(CNTX, PRIM, 1, EncBool(v.optional)), Tlv(CNTX, PRIM, 0, EncInt(v.typeId));
    ReadBoth(o4, EncFieldName(v), content, tail);
    ReadBoth(EncTagListField(v), o4 + EncFieldName(v), tagList, content + tail);
    ReadBoth(o2, EncTagListField(v) + (o4 + EncFieldName(v)), [Leaf(0x81, BoolOctets(v.optional))],
             tagList + (content + tail));
    ReadBoth(o1, o2 + (EncTagListField(v) + (o4 + EncFieldName(v))), [Leaf(0x80, IntOctets(v.typeId))],
             [Leaf(0x81, BoolOctets(v.optional))] + (tagList + (content + tail)));
    InARow(v, tagList, content);
  }

  lemma InARow(v: TBLType, tagList: seq<Tree>, content: seq<Tree>)
    requires tagList == if v.tagList.Some? then [Branch(0xA2, TagTrees(v.tagList.value))] else []
    requires content == [Branch(0xA3, [ContentTree(v.content)])]
    ensures
      [Leaf(0x80, IntOctets(v.typeId))] + ([Leaf(0x81, BoolOctets(v.optional))] +
      (tagList + (content + (FieldNameTrees(v) + (ConstraintTrees(v) + ValuesTrees(v)))))) == TypeTrees(v)
  {
    hide TagTrees, ContentTree, NumberTrees, RangeTrees, IntOctets, BoolOctets;
  }

  lemma {:induction false} ContentOctets(v: TBLTypeContent)
    requires |EncTypeContent(v)| < TWO_32
    ensures ReadTrees(EncTypeContent(v)) == Some([ContentTree(v)])
    decreases v, 0
  {
    hide ReadTrees, Tlv, EncTypeList, TypeListTrees, EncTypeRef, TypeRefTrees;
    match v
    case PrimType =>
      ReadLeaf(CNTX, 0, []);
    case Elmts(elmts) =>
      InTlv(CNTX, 1, EncTypeList(elmts));
      TypeListOctets(elmts);
      ReadBranch(CNTX, 1, EncTypeList(elmts), TypeListTrees(elmts));
    case TypeRef(typeRef) =>
      InTlv(CNTX, 2, EncTypeRef(typeRef));
      TypeRefOctets(typeRef);
      ReadBranch(CNTX, 2, EncTypeRef(typeRef), TypeRefTrees(typeRef));
  }

  lemma {:induction false} TypeListOctets(v: seq<TBLType>)
    requires |EncTypeList(v)| < TWO_32
    ensures ReadTrees(EncTypeList(v)) == Some(TypeListTrees(v))
    decreases v, 1
  {
    hide ReadTrees, TypeTrees, Tlv, EncType;
    if v == [] {
      ReadNothing();
    } else {
      InTlv(UNIV, SEQ_TAG_CODE, EncType(v[0]));
      TypeOctets(v[0]);
      ReadBranch(UNIV, SEQ_TAG_CODE, EncType(v[0]), TypeTrees(v[0]));
      TypeListOctets(v[1..]);
      var first := [Branch(0x30, TypeTrees(v[0]))];
      ReadBoth(Tlv(UNIV, CONS, SEQ_TAG_CODE, EncType(v[0])), EncTypeList(v[1..]), first, TypeListTrees(v[1..]));
      assert first + TypeListTrees(v[1..]) == TypeListTrees(v);
    }
  }

  lemma TypeDefOctets(v: TBLTypeDef)
    requires |EncTypeDef(v)| < TWO_32
    ensures ReadTrees(Tlv(UNIV, CONS, SEQ_TAG_CODE, EncTypeDef(v))) == Some([TypeDefTree(v)])
  {
    hide ReadTrees, Tlv, EncInt, IntOctets, EncType, TypeTrees;
    ReadNothing();
    ReadInt(UNIV, INTEGER_TAG_CODE, v.typeDefId);
    InLeaf(UNIV, PRINTABLESTRING_TAG_CODE, v.typeName);
    ReadLeaf(UNIV, PRINTABLESTRING_TAG_CODE, v.typeName);
    InTlv(UNIV, SEQ_TAG_CODE, EncType(v.typ));
    TypeOctets(v.typ);
    ReadBranch(UNIV, SEQ_TAG_CODE, EncType(v.typ), TypeTrees(v.typ));
    ReadLeaf(UNIV, NULLTYPE_TAG_CODE, []);
    var isPdu: seq<Tree> := if v.isPdu then [Leaf(0x05, [])] else [];
    var o1 := Tlv(UNIV, PRIM, INTEGER_TAG_CODE, EncInt(v.typeDefId));
    var o2 := Tlv(UNIV, PRIM, PRINTABLESTRING_TAG_CODE, v.typeName);
    var o3 := Tlv(UNIV, CONS, SEQ_TAG_CODE, EncType(v.typ));
    ReadBoth(o3, EncIsPdu(v), [Branch(0x30, TypeTrees(v.typ))], isPdu);
    ReadBoth(o2, o3 + EncIsPdu(v), [Leaf(0x13, v.typeName)], [Branch(0x30, TypeTrees(v.typ))] + isPdu);
    var ts := [Leaf(0x13, v.typeName)] + ([Branch(0x30, TypeTrees(v.typ))] + isPdu);
    ReadBoth(o1, o2 + (o3 + EncIsPdu(v)), [Leaf(0x02, IntOctets(v.typeDefId))], ts);
    ReadBranch(UNIV, SEQ_TAG_CODE, EncTypeDef(v), [Leaf(0x02, IntOctets(v.typeDefId))] + ts);
    assert [Leaf(0x02, IntOctets(v.typeDefId))] + ts
           == [Leaf(0x02, IntOctets(v.typeDefId)), Leaf(0x13, v.typeName), Branch(0x30, TypeTrees(v.typ))] + isPdu;
  }

  lemma {:induction false} TypeDefListOctets(v: seq<TBLTypeDef>)
    requires |EncTypeDefList(v)| < TWO_32
    ensures ReadTrees(EncTypeDefList(v)) == Some(TypeDefTrees(v))
  {
    hide ReadTrees, TypeDefTree, Tlv, EncTypeDef;
    if v == [] {
      ReadNothing();
    } else {
      InTlv(UNIV, SEQ_TAG_CODE, EncTypeDef(v[0]));
      TypeDefOctets(v[0]);
      TypeDefListOctets(v[1..]);
      ReadBoth(Tlv(UNIV, CONS, SEQ_TAG_CODE, EncTypeDef(v[0])), EncTypeDefList(v[1..]), [TypeDefTree(v[0])],
               TypeDefTrees(v[1..]));
      assert [TypeDefTree(v[0])] + TypeDefTrees(v[1..]) == TypeDefTrees(v);
    }
  }

  lemma ModuleOctets(v: TBLModule)
    requires |EncModule(v)| < TWO_32
    ensures ReadTrees(Tlv(UNIV, CONS, SEQ_TAG_CODE, EncModule(v))) == Some([ModuleTree(v)])
  {
    hide ReadTrees, Tlv, EncBool, BoolOctets, EncTypeDefList, TypeDefTrees;
    ReadNothing();
    InLeaf(CNTX, 0, v.name);
    ReadLeaf(CNTX, 0, v.name);
    var id: seq<Tree> := if v.id.Some? then [Leaf(0x81, v.id.value)] else [];
    if v.id.Some? {
      InLeaf(CNTX, 1, v.id.value);
      ReadLeaf(CNTX, 1, v.id.value);
    }
    ReadBool(CNTX, 2, v.isUseful);
    InTlv(CNTX, 3, EncTypeDefList(v.typeDefs));
    TypeDefListOctets(v.typeDefs);
    ReadBranch(CNTX, 3, EncTypeDefList(v.typeDefs), TypeDefTrees(v.typeDefs));
    var o1, o3 := Tlv(CNTX, PRIM, 0, v.name), Tlv(CNTX, PRIM, 2, EncBool(v.isUseful));
    var o4 := Tlv(CNTX, CONS, 3, EncTypeDefList(v.typeDefs));
    var last := [Leaf(0x82, BoolOctets(v.isUseful)), Branch(0xA3, TypeDefTrees(v.typeDefs))];
    ReadTwo(o3, o4, last[0], last[1]);
    ReadBoth(EncId(v), o3 + o4, id, last);
    ReadBoth(o1, EncId(v) + (o3 + o4), [Leaf(0x80, v.name)], id + last);
    ReadBranch(UNIV, SEQ_TAG_CODE, EncModule(v), [Leaf(0x80, v.name)] + (id + last));
    assert [Leaf(0x80, v.name)] + (id + last) == [Leaf(0x80, v.name)] + id + last;
  }

  lemma {:induction false} ModuleListOctets(v: seq<TBLModule>)
    requires |EncModuleList(v)| < TWO_32
    ensures ReadTrees(EncModuleList(v)) == Some(ModuleTrees(v))
  {
    hide ReadTrees, ModuleTree, Tlv, EncModule;
    if v == [] {
      ReadNothing();
    } else {
      InTlv(UNIV, SEQ_TAG_CODE, EncModule(v[0]));
      ModuleOctets(v[0]);
      ModuleListOctets(v[1..]);
      ReadBoth(Tlv(UNIV, CONS, SEQ_TAG_CODE, EncModule(v[0])), EncModuleList(v[1..]), [ModuleTree(v[0])],
               ModuleTrees(v[1..]));
      assert [ModuleTree(v[0])] + ModuleTrees(v[1..]) == ModuleTrees(v);
    }
  }

  lemma ReadIntThen(v: AsnInt, rest: seq<byte>, ts: seq<Tree>)
    requires ReadTrees(rest) == Some(ts)
    ensures ReadTrees(IntElement(v) + rest) == Some([Leaf(0x02, IntOctets(v))] + ts)
  {
    hide ReadTrees, Tlv, EncInt, IntOctets;
    ReadInt(UNIV, INTEGER_TAG_CODE, v);
    ReadBoth(IntElement(v), rest, [Leaf(0x02, IntOctets(v))], ts);
  }

  /** The octets of a whole table. */
  lemma TableOctets(v: TBL)
    requires |EncTBL(v)| < TWO_32
    ensures ReadTrees(EncTBL(v)) == Some([TableTree(v)])
  {
    hide ReadTrees, Tlv, IntElement, IntOctets, EncModuleList, ModuleTrees;
    InTlv(UNIV, SEQ_TAG_CODE, EncTBLContent(v));
    InTlv(UNIV, SEQ_TAG_CODE, EncModuleList(v.modules));
    ModuleListOctets(v.modules);
    ReadBranch(UNIV, SEQ_TAG_CODE, EncModuleList(v.modules), ModuleTrees(v.modules));
    var o7, t7 := Tlv(UNIV, CONS, SEQ_TAG_CODE, EncModuleList(v.modules)), [Branch(0x30, ModuleTrees(v.modules))];
    ReadIntThen(v.totalLenStrings, o7, t7);
    var o6, t6 := IntElement(v.totalLenStrings) + o7, [Leaf(0x02, IntOctets(v.totalLenStrings))] + t7;
    ReadIntThen(v.totalNumStrings, o6, t6);
    var o5, t5 := IntElement(v.totalNumStrings) + o6, [Leaf(0x02, IntOctets(v.totalNumStrings))] + t6;
    ReadIntThen(v.totalNumTags, o5, t5);
    var o4, t4 := IntElement(v.totalNumTags) + o5, [Leaf(0x02, IntOctets(v.totalNumTags))] + t5;
    ReadIntThen(v.totalNumTypes, o4, t4);
    var o3, t3 := IntElement(v.totalNumTypes) + o4, [Leaf(0x02, IntOctets(v.totalNumTypes))] + t4;
    ReadIntThen(v.totalNumTypeDefs, o3, t3);
    var o2, t2 := IntElement(v.totalNumTypeDefs) + o3, [Leaf(0x02, IntOctets(v.totalNumTypeDefs))] + t3;
    ReadIntThen(v.totalNumModules, o2, t2);
    var t1 := [Leaf(0x02, IntOctets(v.totalNumModules))] + t2;
    ReadBranch(UNIV, SEQ_TAG_CODE, EncTBLContent(v), t1);
    assert t1 == TableTree(v).children;
  }
}
