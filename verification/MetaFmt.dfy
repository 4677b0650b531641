/** The dataset layout record of `truenas_metafmt`: an instance of the codec, read strictly, so that equal
    settings and equal bytes are the same thing. */
module MetaFmt {
  import opened Wire
  import opened XdrSchema
  import opened XdrDecode
  import opened XdrLocal
  import opened XdrCanon
  import opened XdrRoundTrip
  import opened XdrFormat
  import opened XdrCut
  import opened XdrDeserializer
  import opened Wrappers

  const MAGIC: int := 0x544E_4D46
  const VERSION: int := 1
  const CHARSET_MAX: nat := 64
  const AFFIX_MAX: nat := 255

  /** A Rust string: bytes that are UTF-8. */
  type Text = s: Bytes | ValidUtf8(s) witness []

  datatype StreamFormat = StreamFormat(prefix: Text, suffix: Text, extraNull: bool)

  datatype MetaFmt = MetaFmt(charset: Text, sfmNormalized: bool, streams: Option<StreamFormat>)

  datatype Failure = NotARecord | NewerVersion(version: int) | Xdr(error: Error)

  datatype Outcome<+T> = Fine(value: T) | Failed(why: Failure)

  datatype Verdict = Unstamped | Same | Differs(found: MetaFmt) | Newer(version: int) | Unreadable(why: Failure)

  const NO_TYPES := Env(map[], {})

  const HEADER := Record(StructCall, [Leaf(Scalar(UInt)), Leaf(Scalar(UInt))])

  const STREAMS := Record(StructCall, [Bounded(AFFIX_MAX, Leaf(Str)), Bounded(AFFIX_MAX, Leaf(Str)), Leaf(Bool)])

  const BODY := Record(StructCall, [Bounded(CHARSET_MAX, Leaf(Str)), Leaf(Bool), Optional(STREAMS)])

  const PACKED := Record(StructCall, [Leaf(Scalar(UInt)), Leaf(Scalar(UInt)), BODY])

  function StreamsVal(f: StreamFormat): Val { VSeq([VBytes(f.prefix), VBytes(f.suffix), VBool(f.extraNull)]) }

  function BodyVal(f: MetaFmt): Val {
    VSeq([VBytes(f.charset), VBool(f.sfmNormalized), if f.streams.None? then VNone else VSome(StreamsVal(f.streams.value))])
  }

  predicate HoldsNul(f: MetaFmt) {
    0 in f.charset || (f.streams.Some? && (0 in f.streams.value.prefix || 0 in f.streams.value.suffix))
  }

  predicate InBounds(f: MetaFmt) {
    && |f.charset| <= CHARSET_MAX
    && (f.streams.Some? ==> |f.streams.value.prefix| <= AFFIX_MAX && |f.streams.value.suffix| <= AFFIX_MAX)
  }

  function Pack(f: MetaFmt): (r: Outcome<Bytes>) {
    if HoldsNul(f) then Failed(Xdr(EmbeddedNul)) else
    var e := Enc(NO_TYPES, PACKED, VSeq([VInt(MAGIC), VInt(VERSION), BodyVal(f)]));
    if e.Bad? then Failed(Xdr(e.error)) else Fine(e.value)
  }

  /** The settings a decoded body holds. */
  function FromBody(v: Val): (f: Option<MetaFmt>) {
    if v.VSeq? && |v.vs| == 3 && v.vs[0].VBytes? && ValidUtf8(v.vs[0].bytes) && v.vs[1].VBool? then
      if v.vs[2].VNone? then Some(MetaFmt(v.vs[0].bytes, v.vs[1].b, None))
      else if v.vs[2].VSome? then
        var s := v.vs[2].v;
        if s.VSeq? && |s.vs| == 3 && s.vs[0].VBytes? && s.vs[1].VBytes? && s.vs[2].VBool?
           && ValidUtf8(s.vs[0].bytes) && ValidUtf8(s.vs[1].bytes) then
          Some(MetaFmt(v.vs[0].bytes, v.vs[1].b, Some(StreamFormat(s.vs[0].bytes, s.vs[1].bytes, s.vs[2].b))))
        else None
      else None
    else None
  }

  function Unpack(bytes: Bytes): (r: Outcome<MetaFmt>) {
    var h := Dec(NO_TYPES, Strict, DEFAULT_MAX_DEPTH, HEADER, bytes);
    if h.Err? then Failed(Xdr(h.e)) else
    if |bytes| < 8 || U32(bytes) != MAGIC then Failed(NotARecord) else
    var version := U32(bytes[4..]);
    if version == 0 then Failed(NotARecord)
    else if version != VERSION then Failed(NewerVersion(version))
    else
      var b := Exactly(Dec(NO_TYPES, Strict, DEFAULT_MAX_DEPTH, BODY, bytes[h.n..]), bytes[h.n..]);
      if b.Bad? then Failed(Xdr(b.error)) else
      var f := FromBody(b.value);
      if f.Some? then Fine(f.value) else Failed(Xdr(Mistyped))
  }

  function CompareStored(want: MetaFmt, stored: Option<Bytes>): (r: Verdict) {
    if stored.None? then Unstamped else
    match Unpack(stored.value)
    case Fine(found) => if found == want then Same else Differs(found)
    case Failed(NewerVersion(version)) => Newer(version)
    case Failed(why) => Unreadable(why)
  }

  /** What a value needs, besides an encoding, to be read back; and what its type needs. */
  predicate Plain(t: Ty) { WfTy(t) && Owned(t) && Dense(NO_TYPES, t) }

  predicate PlainTys(ts: seq<Ty>) { WfTys(ts) && AllOwned(ts) && AllDense(NO_TYPES, ts) }

  lemma NoFields()
    ensures EncFields(NO_TYPES, [], []) == Good([]) && NestFields(NO_TYPES, [], []) == 0
    ensures NoNulFields(NO_TYPES, [], []) && PlainTys([])
  {
  }

  lemma OneField(t: Ty, ts: seq<Ty>, v: Val, vs: seq<Val>)
    ensures var env := NO_TYPES;
      var e, r := Enc(env, t, v), EncFields(env, ts, vs);
      && EncFields(env, [t] + ts, [v] + vs) == (if e.Bad? then e else Join(e.value, r))
      && NestFields(env, [t] + ts, [v] + vs) == Max(Nest(env, t, v), NestFields(env, ts, vs))
      && (NoNulFields(env, [t] + ts, [v] + vs) <==> NoNul(env, t, v) && NoNulFields(env, ts, vs))
      && (PlainTys([t] + ts) <==> Plain(t) && PlainTys(ts))
  {
    hide Enc, Nest, NoNul, WfTy, Owned, Dense, Join;
    assert ([t] + ts)[1..] == ts && ([v] + vs)[1..] == vs && ([t] + ts)[0] == t && ([v] + vs)[0] == v;
  }

  /** A struct of three fields, taken apart. */
  lemma ThreeFields(t: Ty, t1: Ty, t2: Ty, v: Val, v1: Val, v2: Val)
    ensures var env, ts, vs := NO_TYPES, [t, t1, t2], [v, v1, v2];
      var e, e1, e2 := Enc(env, t, v), Enc(env, t1, v1), Enc(env, t2, v2);
      && EncFields(env, ts, vs) == (if e.Bad? then e else if e1.Bad? then e1 else if e2.Bad? then e2
                                    else Good(e.value + (e1.value + e2.value)))
      && NestFields(env, ts, vs) == Max(Nest(env, t, v), Max(Nest(env, t1, v1), Nest(env, t2, v2)))
      && (NoNulFields(env, ts, vs) <==> NoNul(env, t, v) && NoNul(env, t1, v1) && NoNul(env, t2, v2))
      && (PlainTys(ts) <==> Plain(t) && Plain(t1) && Plain(t2))
  {
    hide Enc, Nest, NoNul, Plain, PlainTys, EncFields, NestFields, NoNulFields;
    NoFields();
    OneField(t2, [], v2, []);
    OneField(t1, [t2], v1, [v2]);
    OneField(t, [t1, t2], v, [v1, v2]);
    assert [t2] + [] == [t2] && [t1] + [t2] == [t1, t2] && [t] + [t1, t2] == [t, t1, t2];
    assert [v2] + [] == [v2] && [v1] + [v2] == [v1, v2] && [v] + [v1, v2] == [v, v1, v2];
    var e2 := Enc(NO_TYPES, t2, v2);
    if e2.Good? { assert e2.value + [] == e2.value; }
  }

  lemma RecordFacts(ts: seq<Ty>, vs: seq<Val>)
    ensures var env, t, v := NO_TYPES, Record(StructCall, ts), VSeq(vs);
      && Enc(env, t, v) == EncFields(env, ts, vs) && Nest(env, t, v) == 1 + NestFields(env, ts, vs)
      && (NoNul(env, t, v) <==> NoNulFields(env, ts, vs)) && (Plain(t) <==> PlainTys(ts))
  {
    hide EncFields, NestFields, NoNulFields, WfTys, AllOwned, AllDense;
  }

  lemma TextFacts(max: nat, s: Text)
    requires max < TWO32
    ensures var t, v := Bounded(max, Leaf(Str)), VBytes(s);
      && (Enc(NO_TYPES, t, v).Good? <==> |s| <= max)
      && Nest(NO_TYPES, t, v) == 1 && (NoNul(NO_TYPES, t, v) <==> 0 !in s) && Plain(t)
  {
  }

  lemma BoolFacts(b: bool)
    ensures var t, v := Leaf(Bool), VBool(b);
      Enc(NO_TYPES, t, v).Good? && Nest(NO_TYPES, t, v) == 0 && NoNul(NO_TYPES, t, v) && Plain(t)
  {
  }

  lemma StreamsFacts(f: StreamFormat)
    ensures var v := StreamsVal(f);
      && (Enc(NO_TYPES, STREAMS, v).Good? <==> |f.prefix| <= AFFIX_MAX && |f.suffix| <= AFFIX_MAX)
      && Nest(NO_TYPES, STREAMS, v) == 2 && (NoNul(NO_TYPES, STREAMS, v) <==> 0 !in f.prefix && 0 !in f.suffix)
      && Plain(STREAMS)
  {
    hide Enc, Nest, NoNul, Plain, EncFields, NestFields, NoNulFields, PlainTys;
    TextFacts(AFFIX_MAX, f.prefix);
    TextFacts(AFFIX_MAX, f.suffix);
    BoolFacts(f.extraNull);
    var t := Bounded(AFFIX_MAX, Leaf(Str));
    ThreeFields(t, t, Leaf(Bool), VBytes(f.prefix), VBytes(f.suffix), VBool(f.extraNull));
    RecordFacts(STREAMS.ts, StreamsVal(f).vs);
  }

  lemma OptionalFacts(f: Option<StreamFormat>)
    ensures var t, v := Optional(STREAMS), if f.None? then VNone else VSome(StreamsVal(f.value));
      && (Enc(NO_TYPES, t, v).Good? <==> (f.Some? ==> |f.value.prefix| <= AFFIX_MAX && |f.value.suffix| <= AFFIX_MAX))
      && Nest(NO_TYPES, t, v) <= 3
      && (NoNul(NO_TYPES, t, v) <==> (f.Some? ==> 0 !in f.value.prefix && 0 !in f.value.suffix))
      && Plain(t)
  {
    hide EncFields, NestFields, NoNulFields, WfTys, AllOwned, AllDense;
    StreamsFacts(if f.Some? then f.value else StreamFormat([], [], false));
  }

  lemma BodyFacts(f: MetaFmt)
    ensures var v := BodyVal(f);
      && (Enc(NO_TYPES, BODY, v).Good? <==> InBounds(f))
      && Nest(NO_TYPES, BODY, v) <= 4 && (NoNul(NO_TYPES, BODY, v) <==> !HoldsNul(f))
      && Plain(BODY) && OwnedEnv(NO_TYPES)
  {
    hide Enc, Nest, NoNul, Plain, EncFields, NestFields, NoNulFields, PlainTys, STREAMS;
    TextFacts(CHARSET_MAX, f.charset);
    BoolFacts(f.sfmNormalized);
    OptionalFacts(f.streams);
    var v := BodyVal(f);
    ThreeFields(Bounded(CHARSET_MAX, Leaf(Str)), Leaf(Bool), Optional(STREAMS), v.vs[0], v.vs[1], v.vs[2]);
    RecordFacts(BODY.ts, v.vs);
  }

  lemma WordFacts(b: nat, s: Bytes)
    ensures var r := Dec(NO_TYPES, Strict, b, Leaf(Scalar(UInt)), s);
      if |s| < 4 then r.Err? else r == Ok(VInt(U32(s)), 4)
  {
  }

  lemma HeaderFacts(s: Bytes)
    ensures var r := Dec(NO_TYPES, Strict, DEFAULT_MAX_DEPTH, HEADER, s);
      if |s| < 8 then r.Err? else r == Ok(VSeq([VInt(U32(s)), VInt(U32(s[4..]))]), 8)
  {
    hide DecFields, DecPrim, U32;
    var b, t := DEFAULT_MAX_DEPTH - 1, Leaf(Scalar(UInt));
    PairFields(NO_TYPES, Strict, b, t, t, s);
    WordFacts(b, s);
    if |s| >= 4 { WordFacts(b, s[4..]); }
  }

  /** A record begins with the magic and the version, and the body follows. */
  lemma PackedBytes(f: MetaFmt)
    ensures Pack(f).Fine? <==> InBounds(f) && !HoldsNul(f)
    ensures Pack(f).Fine? ==> Enc(NO_TYPES, BODY, BodyVal(f)).Good?
    ensures Pack(f).Fine? ==> Pack(f).value == Be32(MAGIC) + (Be32(VERSION) + Enc(NO_TYPES, BODY, BodyVal(f)).value)
  {
    hide Enc, Nest, NoNul, Plain, EncFields, NestFields, NoNulFields, PlainTys, BODY, Be32, BodyVal;
    BodyFacts(f);
    ScalarFacts(MAGIC);
    ScalarFacts(VERSION);
    var t := Leaf(Scalar(UInt));
    var vs := [VInt(MAGIC), VInt(VERSION), BodyVal(f)];
    ThreeFields(t, t, BODY, vs[0], vs[1], vs[2]);
    RecordFacts([t, t, BODY], vs);
  }

  lemma ScalarFacts(i: int)
    requires 0 <= i < TWO32
    ensures Enc(NO_TYPES, Leaf(Scalar(UInt)), VInt(i)) == Good(Be32(i))
  {
  }

  lemma FieldsShape(t: Ty, t1: Ty, t2: Ty, vs: seq<Val>)
    requires EncFields(NO_TYPES, [t, t1, t2], vs).Good?
    ensures |vs| == 3 && Enc(NO_TYPES, t, vs[0]).Good? && Enc(NO_TYPES, t1, vs[1]).Good? && Enc(NO_TYPES, t2, vs[2]).Good?
  {
    hide Enc;
    assert [t, t1, t2][1..] == [t1, t2] && [t1, t2][1..] == [t2] && [t2][1..] == [];
    var r := EncFields(NO_TYPES, [t1, t2], vs[1..]);
    assert r.Good? && EncFields(NO_TYPES, [t2], vs[1..][1..]).Good?;
    assert EncFields(NO_TYPES, [], vs[1..][1..][1..]).Good?;
  }

  /** Whatever encodes as a body is the body of some settings. */
  lemma BodyShape(v: Val)
    requires Enc(NO_TYPES, BODY, v).Good?
    ensures FromBody(v).Some? && BodyVal(FromBody(v).value) == v
  {
    hide EncFields, Be32, Counting, Padded;
    FieldsShape(Bounded(CHARSET_MAX, Leaf(Str)), Leaf(Bool), Optional(STREAMS), v.vs);
    assert v.vs == [v.vs[0], v.vs[1], v.vs[2]];
    if v.vs[2].VSome? { StreamsShape(v.vs[2].v); }
  }

  lemma StreamsShape(s: Val)
    requires Enc(NO_TYPES, STREAMS, s).Good?
    ensures s.VSeq? && |s.vs| == 3 && s.vs[0].VBytes? && s.vs[1].VBytes? && s.vs[2].VBool?
    ensures ValidUtf8(s.vs[0].bytes) && ValidUtf8(s.vs[1].bytes) && s.vs == [s.vs[0], s.vs[1], s.vs[2]]
  {
    hide EncFields, Be32, Counting, Padded;
    FieldsShape(Bounded(AFFIX_MAX, Leaf(Str)), Bounded(AFFIX_MAX, Leaf(Str)), Leaf(Bool), s.vs);
  }

  lemma BodyBack(f: MetaFmt)
    ensures FromBody(BodyVal(f)) == Some(f)
  {
  }

  lemma PackThenUnpack(f: MetaFmt)
    requires Pack(f).Fine?
    ensures Unpack(Pack(f).value) == Fine(f)
  {
    hide Dec, Enc, WfTy, Owned, Dense, Nest, NoNul, BODY, HEADER, Be32, U32, FromBody, BodyVal;
    PackedBytes(f);
    var e, s := Enc(NO_TYPES, BODY, BodyVal(f)).value, Pack(f).value;
    BodyFacts(f);
    HeaderFacts(s);
    Be32Inverse(MAGIC, Be32(VERSION) + e);
    Be32Inverse(VERSION, e);
    assert s[4..] == Be32(VERSION) + e && s[8..] == e == e + [];
    OwnedRoundTrip(NO_TYPES, Strict, DEFAULT_MAX_DEPTH, BODY, BodyVal(f), []);
    BodyBack(f);
  }

  lemma UnpackThenPack(s: Bytes)
    requires Unpack(s).Fine?
    ensures Pack(Unpack(s).value) == Fine(s)
  {
    hide Dec, Enc, WfTy, Owned, Dense, Nest, NoNul, BODY, HEADER, Be32, U32, FromBody, BodyVal;
    HeaderFacts(s);
    U32Inverse(s);
    U32Inverse(s[4..]);
    var w := s[8..];
    Canon(NO_TYPES, Strict, DEFAULT_MAX_DEPTH, BODY, w);
    var v := Dec(NO_TYPES, Strict, DEFAULT_MAX_DEPTH, BODY, w).v;
    BodyShape(v);
    var f := FromBody(v).value;
    BodyFacts(f);
    assert w[..|w|] == w == w + [];
    OwnedRoundTrip(NO_TYPES, Strict, DEFAULT_MAX_DEPTH, BODY, v, []);
    PackedBytes(f);
    assert s == s[..4] + (s[4..][..4] + w);
  }

  /** The first four bytes of a record: "TNMF". */
  const MAGIC_BYTES: Bytes := [0x54, 0x4E, 0x4D, 0x46]

  lemma MagicBytes()
    ensures Be32(MAGIC) == MAGIC_BYTES && Be32(VERSION) == [0, 0, 0, 1]
  {
    hide Be32;
    FourBytes(0x54, 0x4E, 0x4D, 0x46);
    FourBytes(0, 0, 0, 1);
  }

  lemma MagicIs(s: Bytes)
    requires |s| >= 4
    ensures U32(s) == MAGIC <==> s[..4] == MAGIC_BYTES
  {
    hide U32, Be32;
    MagicBytes();
    U32Inverse(s);
    Be32Inverse(MAGIC, s[4..]);
    assert s == s[..4] + s[4..];
  }

  /** A string on disk: its length, its bytes, and zeros up to a unit. */
  function Spelled(s: Bytes): Bytes
    requires |s| < TWO32
  {
    Be32(|s|) + (s + Zeros(Pad4(|s|)))
  }

  function Flag(b: bool): Bytes { [0, 0, 0, if b then 1 else 0] }

  /** The record of the wire format, field by field. */
  function Layout(f: MetaFmt): Bytes
    requires InBounds(f)
  {
    var streams := if f.streams.None? then [0, 0, 0, 0]
      else [0, 0, 0, 1] + (Spelled(f.streams.value.prefix)
                           + (Spelled(f.streams.value.suffix) + Flag(f.streams.value.extraNull)));
    MAGIC_BYTES + ([0, 0, 0, 1] + (Spelled(f.charset) + (Flag(f.sfmNormalized) + streams)))
  }

  lemma TextLayout(max: nat, s: Text)
    requires |s| <= max < TWO32
    ensures Enc(NO_TYPES, Bounded(max, Leaf(Str)), VBytes(s)) == Good(Spelled(s))
  {
    hide Be32, ValidUtf8, EncPrim;
    CountedBytes(NO_TYPES, s, Pad4(|s|));
  }

  lemma FlagLayout(b: bool)
    ensures Enc(NO_TYPES, Leaf(Bool), VBool(b)) == Good(Flag(b))
  {
    hide Be32, Enc, Dec;
    BoolBytes(NO_TYPES, 0, [0, 0, 0, 0]);
  }

  lemma StreamsLayout(f: StreamFormat)
    requires |f.prefix| <= AFFIX_MAX && |f.suffix| <= AFFIX_MAX
    ensures Enc(NO_TYPES, STREAMS, StreamsVal(f)) == Good(Spelled(f.prefix) + (Spelled(f.suffix) + Flag(f.extraNull)))
  {
    hide Enc, EncFields, Spelled, Nest, NoNul, Plain, NestFields, NoNulFields, PlainTys;
    TextLayout(AFFIX_MAX, f.prefix);
    TextLayout(AFFIX_MAX, f.suffix);
    FlagLayout(f.extraNull);
    var t := Bounded(AFFIX_MAX, Leaf(Str));
    ThreeFields(t, t, Leaf(Bool), VBytes(f.prefix), VBytes(f.suffix), VBool(f.extraNull));
    RecordFacts(STREAMS.ts, StreamsVal(f).vs);
  }

  lemma OptionalLayout(f: Option<StreamFormat>)
    requires f.Some? ==> |f.value.prefix| <= AFFIX_MAX && |f.value.suffix| <= AFFIX_MAX
    ensures Enc(NO_TYPES, Optional(STREAMS), if f.None? then VNone else VSome(StreamsVal(f.value))) ==
      Good(if f.None? then [0, 0, 0, 0]
           else [0, 0, 0, 1] + (Spelled(f.value.prefix) + (Spelled(f.value.suffix) + Flag(f.value.extraNull))))
  {
    hide Enc, Spelled, StreamsVal, STREAMS;
    if f.Some? { StreamsLayout(f.value); }
    OptionalBytes(NO_TYPES, STREAMS, if f.None? then VNone else StreamsVal(f.value));
  }

  /** Every record has the bytes of the wire format. */
  lemma RecordBytes(f: MetaFmt)
    ensures Pack(f).Fine? ==> InBounds(f) && Pack(f).value == Layout(f)
  {
    hide Enc, EncFields, Spelled, Nest, NoNul, Plain, NestFields, NoNulFields, PlainTys, STREAMS, Be32, Pack;
    PackedBytes(f);
    if Pack(f).Fine? {
      MagicBytes();
      TextLayout(CHARSET_MAX, f.charset);
      FlagLayout(f.sfmNormalized);
      OptionalLayout(f.streams);
      var v := BodyVal(f);
      ThreeFields(Bounded(CHARSET_MAX, Leaf(Str)), Leaf(Bool), Optional(STREAMS), v.vs[0], v.vs[1], v.vs[2]);
      RecordFacts(BODY.ts, v.vs);
    }
  }

  lemma TextOver(max: nat, s: Text)
    requires |s| > max
    ensures Enc(NO_TYPES, Bounded(max, Leaf(Str)), VBytes(s)) == Bad(TooLong(|s|, max))
  {
  }

  lemma StreamsOver(f: StreamFormat)
    ensures |f.prefix| > AFFIX_MAX ==> Enc(NO_TYPES, STREAMS, StreamsVal(f)) == Bad(TooLong(|f.prefix|, AFFIX_MAX))
    ensures |f.prefix| <= AFFIX_MAX < |f.suffix| ==>
      Enc(NO_TYPES, STREAMS, StreamsVal(f)) == Bad(TooLong(|f.suffix|, AFFIX_MAX))
  {
    hide Enc, EncFields, Spelled, Nest, NoNul, Plain, NestFields, NoNulFields, PlainTys;
    if |f.prefix| <= AFFIX_MAX { TextLayout(AFFIX_MAX, f.prefix); } else { TextOver(AFFIX_MAX, f.prefix); }
    if |f.suffix| > AFFIX_MAX { TextOver(AFFIX_MAX, f.suffix); }
    var t := Bounded(AFFIX_MAX, Leaf(Str));
    ThreeFields(t, t, Leaf(Bool), VBytes(f.prefix), VBytes(f.suffix), VBool(f.extraNull));
    RecordFacts(STREAMS.ts, StreamsVal(f).vs);
  }

  lemma OptionalOver(f: StreamFormat)
    ensures Enc(NO_TYPES, STREAMS, StreamsVal(f)).Bad? ==>
      Enc(NO_TYPES, Optional(STREAMS), VSome(StreamsVal(f))) == Enc(NO_TYPES, STREAMS, StreamsVal(f))
  {
    hide EncFields, StreamsVal, STREAMS;
  }

  /** Why settings do not pack: a NUL anywhere, or else the first string that is over its bound. */
  lemma PackRefuses(f: MetaFmt)
    ensures HoldsNul(f) ==> Pack(f) == Failed(Xdr(EmbeddedNul))
    ensures !HoldsNul(f) && !InBounds(f) ==>
      Pack(f) == Failed(Xdr(if |f.charset| > CHARSET_MAX then TooLong(|f.charset|, CHARSET_MAX)
                            else if |f.streams.value.prefix| > AFFIX_MAX then TooLong(|f.streams.value.prefix|, AFFIX_MAX)
                            else TooLong(|f.streams.value.suffix|, AFFIX_MAX)))
  {
    hide Enc, EncFields, Spelled, Nest, NoNul, Plain, NestFields, NoNulFields, PlainTys, STREAMS, StreamsVal, Be32;
    if !HoldsNul(f) && !InBounds(f) {
      ScalarFacts(MAGIC);
      ScalarFacts(VERSION);
      FlagLayout(f.sfmNormalized);
      if |f.charset| > CHARSET_MAX {
        TextOver(CHARSET_MAX, f.charset);
      } else {
        TextLayout(CHARSET_MAX, f.charset);
        StreamsOver(f.streams.value);
        OptionalOver(f.streams.value);
      }
      var v, t := BodyVal(f), Leaf(Scalar(UInt));
      ThreeFields(Bounded(CHARSET_MAX, Leaf(Str)), Leaf(Bool), Optional(STREAMS), v.vs[0], v.vs[1], v.vs[2]);
      RecordFacts(BODY.ts, v.vs);
      ThreeFields(t, t, BODY, VInt(MAGIC), VInt(VERSION), v);
      RecordFacts([t, t, BODY], [VInt(MAGIC), VInt(VERSION), v]);
    }
  }

  /** A record of a version this code does not know. */
  predicate FromLater(s: Bytes) {
    |s| >= 8 && s[..4] == MAGIC_BYTES && s[4..8] != [0, 0, 0, 0] && s[4..8] != [0, 0, 0, 1]
  }

  lemma UnpackSays(s: Bytes)
    ensures Unpack(s) == Failed(NewerVersion(if |s| >= 8 then Number(s[4..8]) else 0)) <==> FromLater(s)
    ensures (exists v :: Unpack(s) == Failed(NewerVersion(v))) ==> FromLater(s)
    ensures Unpack(s) == Failed(NotARecord) <==> |s| >= 8 && (s[..4] != MAGIC_BYTES || s[4..8] == [0, 0, 0, 0])
  {
    hide Dec, BODY, HEADER, U32, FromBody, Number, Exactly;
    HeaderFacts(s);
    if |s| >= 8 {
      MagicIs(s);
      WordIs(s[4..]);
      ZeroWord(s[4..]);
      assert s[4..][..4] == s[4..8];
    }
  }

  /** What every verdict means, for all settings and all stored bytes, in terms of the records that settings pack
      to and of the two words a record begins with. */
  lemma VerdictMeans(want: MetaFmt, stored: Option<Bytes>, f: MetaFmt, version: int)
    ensures CompareStored(want, stored) == Unstamped <==> stored == None
    ensures CompareStored(want, stored) == Same <==> stored.Some? && Pack(want) == Fine(stored.value)
    ensures CompareStored(want, stored) == Differs(f) <==> stored.Some? && f != want && Pack(f) == Fine(stored.value)
    ensures CompareStored(want, stored) == Newer(version) <==>
      stored.Some? && FromLater(stored.value) && version == Number(stored.value[4..8])
    ensures CompareStored(want, stored).Unreadable? <==>
      stored.Some? && !FromLater(stored.value) && forall g :: Pack(g) != Fine(stored.value)
    ensures CompareStored(want, stored) == Unreadable(NotARecord) <==>
      stored.Some? && |stored.value| >= 8
      && (stored.value[..4] != MAGIC_BYTES || stored.value[4..8] == [0, 0, 0, 0])
  {
    hide Unpack, Pack, FromLater, Number;
    if stored.Some? {
      var s := stored.value;
      UnpackSays(s);
      forall g | Pack(g) == Fine(s)
        ensures Unpack(s) == Fine(g)
      {
        PackThenUnpack(g);
      }
      if Unpack(s).Fine? { UnpackThenPack(s); }
      if FromLater(s) { LaterHasEight(s); }
    }
  }

  lemma LaterHasEight(s: Bytes)
    requires FromLater(s)
    ensures |s| >= 8
  {
  }

  /** A record cut anywhere is refused because bytes are missing, and never read as other settings. */
  lemma CutRecord(f: MetaFmt, k: nat)
    requires Pack(f).Fine? && k < |Pack(f).value|
    ensures var u := Unpack(Pack(f).value[..k]); u.Failed? && u.why.Xdr? && u.why.error.Eof?
  {
    hide Dec, Enc, WfTy, Owned, Dense, Nest, NoNul, BODY, HEADER, Be32, U32, FromBody, BodyVal, DenseEnv;
    PackedBytes(f);
    var e, s := Enc(NO_TYPES, BODY, BodyVal(f)).value, Pack(f).value;
    BodyFacts(f);
    HeaderFacts(s[..k]);
    HeaderCut(s[..k]);
    if k >= 8 {
      Be32Inverse(MAGIC, Be32(VERSION) + e);
      Be32Inverse(VERSION, e);
      assert s[4..] == Be32(VERSION) + e && s[8..] == e == e + [];
      OwnedRoundTrip(NO_TYPES, Strict, DEFAULT_MAX_DEPTH, BODY, BodyVal(f), []);
      CutWord(s, k);
      CutDrop(s, k, 4);
      CutWord(s[4..], k - 4);
      CutDrop(s, k, 8);
      CutShort(NO_TYPES, Strict, DEFAULT_MAX_DEPTH, BODY, e, k - 8);
    }
  }

  lemma HeaderCut(s: Bytes)
    ensures |s| < 8 ==> exists n: nat :: Dec(NO_TYPES, Strict, DEFAULT_MAX_DEPTH, HEADER, s) == Err(Eof(n))
  {
    if |s| < 8 {
      var t := s + Zeros(8);
      HeaderFacts(t);
      assert t[..|s|] == s;
      hide Dec, HEADER;
      CutShort(NO_TYPES, Strict, DEFAULT_MAX_DEPTH, HEADER, t, |s|);
    }
  }

  /** The stored bytes hold the wanted settings exactly when they are the record of those settings; `pack`
      fails exactly when a string is over its bound or holds a NUL; and then nothing stored is the same. */
  lemma SameMeansSameBytes(want: MetaFmt, stored: Bytes)
    ensures CompareStored(want, Some(stored)).Same? <==> Pack(want) == Fine(stored)
    ensures Pack(want).Fine? <==> InBounds(want) && !HoldsNul(want)
  {
    hide Unpack, Pack, InBounds, HoldsNul;
    if Pack(want) == Fine(stored) { PackThenUnpack(want); }
    if Unpack(stored).Fine? { UnpackThenPack(stored); }
    PackedBytes(want);
  }
}
