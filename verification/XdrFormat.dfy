/** What goes on the wire, byte by byte: the formats of section 4 of RFC 4506, and what each mode makes of bytes
    that are not in them. */
module XdrFormat {
  import opened Wire
  import opened XdrSchema
  import opened XdrDecode
  import opened XdrLocal
  import opened XdrCanon
  import opened XdrRoundTrip
  import opened Utf8

  /** A number is written in as many bytes as its width, highest first and in two's complement. */
  lemma ScalarBytes(env: Env, k: Kind, i: int)
    requires InRange(k, i)
    ensures var e := Enc(env, Leaf(Scalar(k)), VInt(i));
      && e.Good? && |e.value| == (if k.I64? || k.UHyper? || k.F64? then 8 else 4)
      && Number(e.value) == if i >= 0 then i else if |e.value| == 8 then i + TWO32 * TWO32 else i + TWO32
  {
    hide Number, Be32, Be64;
    if Wide(k) { HyperIs(Word(k, i)); } else { WordOrder(Word(k, i), Word(k, i)); }
  }

  /** The bits of the Rust type, and whether one of them is a sign. */
  function Bits(k: Kind): (nat, bool) {
    match k
    case I8 => (8, true)
    case I16 => (16, true)
    case I32 => (32, true)
    case I64 => (64, true)
    case U8 => (8, false)
    case U16 => (16, false)
    case UInt => (32, false)
    case UHyper => (64, false)
    case F32 => (32, false)
    case F64 => (64, false)
    case Char => (32, false)
  }

  function Power(n: nat): int { if n == 8 then 0x100 else if n == 16 then 0x1_0000 else if n == 32 then TWO32 else TWO32 * TWO32 }

  /** What a number of each kind can be is what its Rust type holds. */
  lemma KindRanges(k: Kind, i: int)
    ensures InRange(k, i) <==>
      if k.Char? then IsScalar(i)
      else if Bits(k).1 then -Power(Bits(k).0) <= 2 * i < Power(Bits(k).0)
      else 0 <= i < Power(Bits(k).0)
  {
  }

  /** A word that stands for no number of its kind is refused, and one that does is that number. */
  lemma ScalarReads(env: Env, m: Mode, b: nat, k: Kind, i: int, s: Bytes)
    requires |s| >= 8
    ensures var r := Dec(env, m, b, Leaf(Scalar(k)), s);
      && (r == Ok(VInt(i), if Wide(k) then 8 else 4) <==>
            InRange(k, i) && Enc(env, Leaf(Scalar(k)), VInt(i)) == Good(s[..if Wide(k) then 8 else 4]))
      && (r.Err? ==> r == Err(Range))
  {
    hide Be32, Be64, U32, U64;
    var n := if Wide(k) then 8 else 4;
    if ReadScalar(k, s).Ok? { CanonScalar(k, s); }
    if InRange(k, i) && EncScalar(k, i) == s[..n] {
      assert s == s[..n] + s[n..];
      ScalarBack(k, i, s[n..]);
    }
  }

  /** The four bytes a small number is written in. */
  lemma SmallWord(w: int)
    requires 0 <= w < 256
    ensures Be32(w) == [0, 0, 0, w]
  {
    hide Be32;
    FourBytes(0, 0, 0, w);
  }

  lemma ZeroWord(s: Bytes)
    requires |s| >= 4
    ensures U32(s) == 0 <==> s[..4] == [0, 0, 0, 0]
    ensures U32(s) == 1 <==> s[..4] == [0, 0, 0, 1]
  {
    hide U32, Be32;
    U32Inverse(s);
    SmallWord(0);
    SmallWord(1);
    Be32Inverse(0, s[4..]);
    Be32Inverse(1, s[4..]);
    assert s == s[..4] + s[4..];
  }

  /** A boolean is a word of 0 or 1. Read leniently it is true unless all four bytes are zero; read strictly no
      other word is one. */
  lemma BoolBytes(env: Env, b: nat, s: Bytes)
    requires |s| >= 4
    ensures Enc(env, Leaf(Bool), VBool(false)) == Good([0, 0, 0, 0])
    ensures Enc(env, Leaf(Bool), VBool(true)) == Good([0, 0, 0, 1])
    ensures Dec(env, Lenient, b, Leaf(Bool), s) == Ok(VBool(s[..4] != [0, 0, 0, 0]), 4)
    ensures Dec(env, Strict, b, Leaf(Bool), s) ==
      if s[..4] == [0, 0, 0, 0] then Ok(VBool(false), 4)
      else if s[..4] == [0, 0, 0, 1] then Ok(VBool(true), 4)
      else Err(InvalidBool(Number(s[..4])))
  {
    hide U32, Be32, Number;
    SmallWord(0);
    SmallWord(1);
    ZeroWord(s);
    WordIs(s);
  }

  /** Opaque bytes are followed by as many zeros as fill the last unit. Read leniently what fills it may be
      anything; read strictly it must be zeros. */
  lemma OpaqueBytes(env: Env, b: nat, bytes: Bytes, fill: Bytes, rest: Bytes)
    requires |fill| < 4 && Units(|bytes| + |fill|) && b > 0
    ensures var t := Leaf(Fixed(|bytes|));
      && Enc(env, t, VBytes(bytes)) == Good(bytes + Zeros(|fill|))
      && Dec(env, Lenient, b, t, bytes + fill + rest) == Ok(VBytes(bytes), |bytes| + |fill|)
      && Dec(env, Strict, b, t, bytes + fill + rest) ==
         if fill == Zeros(|fill|) then Ok(VBytes(bytes), |bytes| + |fill|) else Err(NonZeroPadding)
  {
    OneFill(|bytes|, |fill|);
    var s := bytes + fill + rest;
    assert s[..|bytes|] == bytes && s[|bytes|..|bytes| + |fill|] == fill;
  }

  lemma OneFill(n: nat, p: nat)
    requires p < 4 && Units(n + p)
    ensures Pad4(n) == p
  {
  }

  /** A string, or opaque bytes of any number, are behind that number. */
  lemma CountedBytes(env: Env, bytes: Bytes, fill: nat)
    requires |bytes| < TWO32 && fill < 4 && Units(|bytes| + fill)
    ensures Enc(env, Leaf(Opaque), VBytes(bytes)) == Good(Be32(|bytes|) + (bytes + Zeros(fill)))
    ensures ValidUtf8(bytes) ==> Enc(env, Leaf(Str), VBytes(bytes)) == Enc(env, Leaf(Opaque), VBytes(bytes))
    ensures (exists cs: seq<int> :: AllScalars(cs) && OfScalars(cs) == bytes)
       <==> Enc(env, Leaf(Str), VBytes(bytes)).Good?
  {
    hide Be32, ValidUtf8, OfScalars, AllScalars;
    OneFill(|bytes|, fill);
    ValidMeans(bytes);
  }

  /** Optional data is a boolean and, behind a true one, the data. */
  lemma OptionalBytes(env: Env, t: Ty, v: Val)
    ensures Enc(env, Optional(t), VNone) == Good([0, 0, 0, 0])
    ensures Enc(env, t, v).Good? ==> Enc(env, Optional(t), VSome(v)) == Good([0, 0, 0, 1] + Enc(env, t, v).value)
  {
    hide Be32;
    SmallWord(0);
    SmallWord(1);
  }

  lemma {:induction false} ElemsLast(env: Env, t: Ty, vs: seq<Val>, v: Val)
    requires EncElems(env, t, vs).Good? && Enc(env, t, v).Good?
    ensures EncElems(env, t, vs + [v]) == Good(EncElems(env, t, vs).value + Enc(env, t, v).value)
    decreases |vs|
  {
    hide Enc;
    if vs == [] {
      assert vs + [v] == [v] && [v][1..] == [];
      assert EncElems(env, t, [v][1..]) == Good([]);
      assert Enc(env, t, v).value + [] == Enc(env, t, v).value == [] + Enc(env, t, v).value;
    } else {
      ElemsLast(env, t, vs[1..], v);
      assert (vs + [v])[1..] == vs[1..] + [v] && (vs + [v])[0] == vs[0];
      var a, b, c := Enc(env, t, vs[0]).value, EncElems(env, t, vs[1..]).value, Enc(env, t, v).value;
      assert a + b + c == a + (b + c);
    }
  }

  lemma SeqBytes(env: Env, t: Ty, vs: seq<Val>)
    requires EncElems(env, t, vs).Good? && |vs| < TWO32
    ensures Enc(env, Seq(t), VSeq(vs)) == Good(Be32(|vs|) + EncElems(env, t, vs).value)
  {
    hide Be32, EncElems;
  }

  /** An array is its count and its elements, each behind those before it. */
  lemma ArrayBytes(env: Env, t: Ty, vs: seq<Val>, v: Val)
    requires EncElems(env, t, vs).Good? && Enc(env, t, v).Good? && |vs| + 1 < TWO32
    ensures Enc(env, Seq(t), VSeq(vs)) == Good(Be32(|vs|) + EncElems(env, t, vs).value)
    ensures Enc(env, Seq(t), VSeq(vs + [v])) ==
      Good(Be32(|vs| + 1) + (EncElems(env, t, vs).value + Enc(env, t, v).value))
  {
    hide Be32, Enc, EncElems;
    ElemsLast(env, t, vs, v);
    SeqBytes(env, t, vs);
    SeqBytes(env, t, vs + [v]);
  }

  /** An enum or a union begins with its discriminant: the place of the variant in a stock enum, and in a union the
      number of the arm, in two's complement. */
  lemma TagBytes(env: Env, t: Ty, v: Val)
    requires (t.IndexEnum? || t.Union?) && Enc(env, t, v).Good?
    ensures var e := Enc(env, t, v).value;
      |e| >= 4 && Number(e[..4]) ==
        if t.IndexEnum? then v.idx else if Disc(t, v) >= 0 then Disc(t, v) else Disc(t, v) + TWO32
  {
    hide EncFields, Be32, Number, Disc;
    var w := TagWord(t, v);
    WordOrder(w, w);
    assert Enc(env, t, v).value[..4] == Be32(w);
  }

  /** A length over its bound is refused by the encoder, and by the decoder before anything it covers, with the same
      error. */
  lemma BoundBytes(env: Env, m: Mode, b: nat, max: nat, t: Ty, v: Val, tail: Bytes)
    requires Counted(t) && Enc(env, t, v).Good? && CountOf(v) > max && b >= 2
    ensures Enc(env, Bounded(max, t), v) == Bad(TooLong(CountOf(v), max))
    ensures Dec(env, m, b, Bounded(max, t), Enc(env, t, v).value + tail) == Err(TooLong(CountOf(v), max))
  {
    hide U32, DecPrim, DecSeq, DecFields, DecList, EncElems, EncPrim;
    CountFirst(env, t, v, tail);
  }

  /** A count that the bytes after it cannot hold, at one unit each, is refused with what they fall short by. */
  lemma CountBytes(env: Env, m: Mode, b: nat, t: Ty, count: nat, rest: Bytes)
    requires |rest| < 4 * count && count < TWO32
    ensures Dec(env, m, b, Seq(t), Be32(count) + rest) == Err(Eof(4 * count - |rest|))
  {
    hide Dec, DecSeq, U32, Be32;
    var s := Be32(count) + rest;
    Be32Inverse(count, rest);
    SeqCons(env, m, b, t, s);
    SeqIs(env, m, b, t, s);
  }

  /** A value that takes up the whole of its bytes is what decoding them gives; with others after it, decoding
      reports how many. */
  lemma Trailing(env: Env, m: Mode, b: nat, t: Ty, s: Bytes, tail: Bytes)
    requires Dec(env, m, b, t, s).Ok? && Dec(env, m, b, t, s).n == |s|
    ensures Exactly(Dec(env, m, b, t, s + tail), s + tail) ==
      if tail == [] then Good(Dec(env, m, b, t, s).v) else Bad(TrailingBytes(|tail|))
  {
    hide Dec;
    assert Agree(s, s + tail, |s|);
    Local(env, m, m, b, b, t, s, s + tail);
  }

  const FILE_TYPE := Union([0, 1, 2], [Fields([]), Fields([Leaf(Str)]), Fields([Leaf(Str)])], NoDefault)

  const FILE := Record(StructCall, [Leaf(Str), FILE_TYPE, Leaf(Str), Leaf(Opaque)])

  const SILLYPROG: Bytes := [0x73, 0x69, 0x6c, 0x6c, 0x79, 0x70, 0x72, 0x6f, 0x67]
  const LISP: Bytes := [0x6c, 0x69, 0x73, 0x70]
  const JOHN: Bytes := [0x6a, 0x6f, 0x68, 0x6e]
  const QUIT: Bytes := [0x28, 0x71, 0x75, 0x69, 0x74, 0x29]

  lemma {:induction false} Ascii(s: Bytes)
    requires forall i :: 0 <= i < |s| ==> s[i] < 128
    ensures ValidUtf8(s)
    decreases |s|
  {
    if s != [] { Ascii(s[1..]); }
  }

  lemma TextBytes(env: Env, s: Bytes, fill: nat)
    requires |s| < 256 && fill < 4 && Units(|s| + fill) && forall i :: 0 <= i < |s| ==> s[i] < 128
    ensures Enc(env, Leaf(Str), VBytes(s)) == Good([0, 0, 0, |s|] + (s + Zeros(fill)))
  {
    hide Be32, ValidUtf8, OfScalars, AllScalars;
    Ascii(s);
    SmallWord(|s|);
    CountedBytes(env, s, fill);
  }

  const FILE_NAME: Bytes := [0, 0, 0, 9, 0x73, 0x69, 0x6c, 0x6c, 0x79, 0x70, 0x72, 0x6f, 0x67, 0, 0, 0]
  const FILE_KIND: Bytes := [0, 0, 0, 2, 0, 0, 0, 4, 0x6c, 0x69, 0x73, 0x70]
  const FILE_OWNER: Bytes := [0, 0, 0, 4, 0x6a, 0x6f, 0x68, 0x6e]
  const FILE_DATA: Bytes := [0, 0, 0, 6, 0x28, 0x71, 0x75, 0x69, 0x74, 0x29, 0, 0]

  /** The worked example of section 7 of RFC 4506, byte for byte. */
  lemma Example(env: Env)
    ensures Enc(env, FILE, VSeq([VBytes(SILLYPROG), VArm(2, [VBytes(LISP)]), VBytes(JOHN), VBytes(QUIT)]))
         == Good(FILE_NAME + (FILE_KIND + (FILE_OWNER + FILE_DATA)))
  {
    hide Enc, EncFields, SILLYPROG, LISP, JOHN, QUIT, FILE_NAME, FILE_KIND, FILE_OWNER, FILE_DATA, FILE_TYPE;
    ExampleTexts(env);
    ExampleKind(env);
    var str, opq := Leaf(Str), Leaf(Opaque);
    var v0, v1, v2, v3 := VBytes(SILLYPROG), VArm(2, [VBytes(LISP)]), VBytes(JOHN), VBytes(QUIT);
    OneOf(env, opq, v3, [], []);
    assert FILE_DATA + [] == FILE_DATA && [opq] + [] == [opq] && [v3] + [] == [v3];
    OneOf(env, str, v2, [opq], [v3]);
    assert [str] + [opq] == [str, opq] && [v2] + [v3] == [v2, v3];
    OneOf(env, FILE_TYPE, v1, [str, opq], [v2, v3]);
    assert [FILE_TYPE] + [str, opq] == [FILE_TYPE, str, opq] && [v1] + [v2, v3] == [v1, v2, v3];
    OneOf(env, str, v0, [FILE_TYPE, str, opq], [v1, v2, v3]);
    assert [str] + [FILE_TYPE, str, opq] == FILE.ts && [v0] + [v1, v2, v3] == [v0, v1, v2, v3];
    StructIs(env, FILE.ts, [v0, v1, v2, v3]);
  }

  lemma StructIs(env: Env, ts: seq<Ty>, vs: seq<Val>)
    ensures Enc(env, Record(StructCall, ts), VSeq(vs)) == EncFields(env, ts, vs)
  {
    hide EncFields;
  }

  lemma ExampleTexts(env: Env)
    ensures Enc(env, Leaf(Str), VBytes(SILLYPROG)) == Good(FILE_NAME)
    ensures Enc(env, Leaf(Str), VBytes(JOHN)) == Good(FILE_OWNER)
    ensures Enc(env, Leaf(Opaque), VBytes(QUIT)) == Good(FILE_DATA)
  {
    hide Be32, Enc, ValidUtf8, OfScalars, AllScalars, Units;
    UnitsOne();
    TwelveUnits();
    TextBytes(env, SILLYPROG, 3);
    TextBytes(env, JOHN, 0);
    CountedBytes(env, QUIT, 2);
    SmallWord(6);
    Zeroes();
    assert [0, 0, 0, 9] + (SILLYPROG + [0, 0, 0]) == FILE_NAME;
    assert [0, 0, 0, 4] + (JOHN + []) == FILE_OWNER;
    assert [0, 0, 0, 6] + (QUIT + [0, 0]) == FILE_DATA;
  }

  lemma TwelveUnits()
    ensures Units(8) && Units(12)
  {
  }

  lemma ExampleKind(env: Env)
    ensures Enc(env, FILE_TYPE, VArm(2, [VBytes(LISP)])) == Good(FILE_KIND)
  {
    hide Be32, ValidUtf8, EncPrim, EncFields, LISP;
    LispIs();
    TextBytes(env, LISP, 0);
    SmallWord(2);
    Zeroes();
    OneOf(env, Leaf(Str), VBytes(LISP), [], []);
    assert [Leaf(Str)] + [] == [Leaf(Str)] && [VBytes(LISP)] + [] == [VBytes(LISP)];
  }

  lemma LispIs()
    ensures |LISP| == 4 && (forall i :: 0 <= i < |LISP| ==> LISP[i] < 128)
    ensures [0, 0, 0, 2] + ([0, 0, 0, 4] + (LISP + []) + []) == FILE_KIND
  {
  }

  lemma Zeroes()
    ensures Zeros(0) == [] && Zeros(2) == [0, 0] && Zeros(3) == [0, 0, 0]
  {
  }

  lemma OneOf(env: Env, t: Ty, v: Val, ts: seq<Ty>, vs: seq<Val>)
    ensures EncFields(env, [t] + ts, [v] + vs) ==
      var e := Enc(env, t, v); if e.Bad? then e else Join(e.value, EncFields(env, ts, vs))
    ensures EncFields(env, [], []) == Good([])
  {
    hide Enc;
    assert ([t] + ts)[1..] == ts && ([v] + vs)[1..] == vs;
  }
}
