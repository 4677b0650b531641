/** Decoding inverts encoding, and exactly when. */
module XdrRoundTrip {
  import opened Wire
  import opened XdrSchema
  import opened XdrDecode
  import opened XdrLocal
  import opened XdrCanon

  /** The encoding of `v`, followed by `tail` more bytes, reads back: at each level the nesting is allowed,
      a strict string holds no NUL, an array's count passes the one-unit-per-element check, and the
      bytes a borrowed array or list stands for can be read again where it is. */
  predicate Reads(env: Env, m: Mode, b: nat, t: Ty, v: Val, tail: nat)
    requires Enc(env, t, v).Good?
    decreases v, t
  {
    match t
    case Leaf(p) => (p.Fixed? ==> b > 0) && (p.Str? && m.Strict? ==> 0 !in v.bytes)
    case Optional(u) => v.VSome? ==> b > 0 && Reads(env, m, b - 1, u, v.v, tail)
    case Newtype(u) => b > 0 && Reads(env, m, b - 1, u, v, tail)
    case Seq(u) =>
      && b > 0 && 4 * |v.vs| <= |EncElems(env, u, v.vs).value| + tail
      && ReadsElems(env, m, b - 1, u, v.vs, tail)
    case Record(_, ts) => b > 0 && ReadsFields(env, m, b - 1, ts, v.vs, tail)
    case Bounded(_, u) => b > 0 && Reads(env, m, b - 1, u, v, tail)
    case ArrayRef(u) => b > 1 && RereadsArray(env, m, b - 2, u, v, tail)
    case ListRef(u) => b > 1 && RereadsList(env, m, b - 2, u, v, tail)
    case Rec(n) => !env.defs[n].Rec? && Reads(env, m, b, env.defs[n], v.v, tail)
    case _ => b > 0 && ReadsFields(env, m, b - 1, ArmTys(t, v), v.vs, tail)
  }

  predicate ReadsElems(env: Env, m: Mode, b: nat, t: Ty, vs: seq<Val>, tail: nat)
    requires EncElems(env, t, vs).Good?
    decreases vs, t
  {
    vs == []
    || (Reads(env, m, b, t, vs[0], |EncElems(env, t, vs[1..]).value| + tail)
        && ReadsElems(env, m, b, t, vs[1..], tail))
  }

  predicate ReadsFields(env: Env, m: Mode, b: nat, ts: seq<Ty>, vs: seq<Val>, tail: nat)
    requires EncFields(env, ts, vs).Good?
    decreases vs, ts
  {
    vs == []
    || (Reads(env, m, b, ts[0], vs[0], |EncFields(env, ts[1..], vs[1..]).value| + tail)
        && ReadsFields(env, m, b, ts[1..], vs[1..], tail))
  }

  /** The stored bytes hold exactly `count` elements. */
  predicate RereadsArray(env: Env, m: Mode, b: nat, t: Ty, v: Val, tail: nat)
    requires v.VRef?
  {
    var r := DecElems(env, m, b, t, v.count, v.encoded + Zeros(tail));
    4 * v.count <= |v.encoded| + tail && r.Ok? && r.n == |v.encoded|
  }

  predicate RereadsList(env: Env, m: Mode, b: nat, t: Ty, v: Val, tail: nat)
    requires v.VRef?
  {
    var r := DecList(env, m, b, t, v.encoded + Zeros(tail));
    r.Ok? && r.n == |v.encoded| && |r.v| == v.count
  }

  lemma ScalarBack(k: Kind, i: int, tail: Bytes)
    requires InRange(k, i)
    ensures ReadScalar(k, EncScalar(k, i) + tail) == Ok(VInt(i), |EncScalar(k, i)|)
  {
    hide Be32, Be64, U32, U64;
    if Wide(k) { Be64Inverse(Word(k, i), tail); } else { Be32Inverse(Word(k, i), tail); }
  }

  lemma FixedBack(m: Mode, s: Bytes, tail: Bytes)
    ensures ReadFixed(m, |s|, Padded(s) + tail) == Ok(s, |Padded(s)|)
  {
    var w, p := Padded(s) + tail, Pad4(|s|);
    assert w[..|s|] == s;
    assert w[|s|..|s| + p] == Zeros(p);
  }

  lemma OpaqueBack(m: Mode, s: Bytes, tail: Bytes)
    requires |s| < TWO32
    ensures ReadOpaque(m, Be32(|s|) + Padded(s) + tail) == Ok(s, 4 + |Padded(s)|)
  {
    var w := Be32(|s|) + Padded(s) + tail;
    Be32Inverse(|s|, Padded(s) + tail);
    assert w == Be32(|s|) + (Padded(s) + tail) && w[4..] == Padded(s) + tail;
    FixedBack(m, s, tail);
  }

  lemma FromDiscBack(p: Prim, v: Val)
    requires FirstOk(p, v) && WfPrim(p)
    ensures FromDisc(p, FirstDisc(p, v)) == Head(v)
  {
  }

  lemma PrimBack(m: Mode, b: nat, p: Prim, v: Val, tail: Bytes)
    requires WfPrim(p) && EncPrim(p, v).Good?
    ensures var e := EncPrim(p, v).value;
      DecPrim(m, b, p, e + tail) == Ok(v, |e|)
      <==> (p.Fixed? ==> b > 0) && (p.Str? && m.Strict? ==> 0 !in v.bytes)
  {
    hide Be32, U32, ReadScalar, ReadFixed, ReadOpaque, Padded;
    match p
    case Bool => Be32Inverse(if v.b then 1 else 0, tail);
    case Scalar(k) => ScalarBack(k, v.i, tail);
    case Str => OpaqueBack(m, v.bytes, tail);
    case Opaque => OpaqueBack(m, v.bytes, tail);
    case Fixed(_) => FixedBack(m, v.bytes, tail);
    case Unit =>
    case DiscEnum(_) =>
      DiscBack(FirstDisc(p, v), tail);
      FromDiscBack(p, v);
  }

  lemma DiscBack(d: int, tail: Bytes)
    requires IsI32(d)
    ensures var w := EncScalar(I32, d) + tail; U32(w) == Word(I32, d) && FromWord(I32, U32(w)) == d
  {
    Be32Inverse(Word(I32, d), tail);
  }

  /** The discriminant an arm encodes with selects that arm, and no arm selects an occupied default. */
  lemma TagBack(t: Ty, v: Val)
    requires WfTag(t) && TagOk(t, v) && TagFree(t, v)
    ensures var h := Lookup(t, TagWord(t, v));
      h.Head? && WithFields(h.v, v.vs) == v && ArmTys(t, h.v) == ArmTys(t, v)
  {
    if t.Union? {
      assert FromWord(I32, TagWord(t, v)) == Disc(t, v);
      if v.VDefault? { FromDiscBack(t.dflt.first, v.first); }
    }
  }

  /** For every value with an encoding, whatever follows it: reading that encoding gives the value back and
      takes exactly its bytes if and only if `Reads` holds. */
  lemma {:induction false} RoundTrip(env: Env, m: Mode, b: nat, t: Ty, v: Val, tail: Bytes)
    requires Wf(env) && WfTy(t) && Enc(env, t, v).Good?
    ensures var e := Enc(env, t, v).value;
      Dec(env, m, b, t, e + tail) == Ok(v, |e|) <==> Reads(env, m, b, t, v, |tail|)
    decreases v, t, 2
  {
    hide DecPrim, EncPrim, DecSeq, DecFields, DecList, EncElems, EncFields, ReadsElems, ReadsFields, U32, Be32, WfPrim, Units;
    if t.Leaf? {
      PrimBack(m, b, t.p, v, tail);
    } else if t.Optional? {
      OptionalIff(env, m, b, t.t, v, tail);
    } else if t.Newtype? {
      if b > 0 { RoundTrip(env, m, b - 1, t.t, v, tail); }
    } else if t.Bounded? {
      if b > 0 {
        RoundTrip(env, m, b - 1, t.t, v, tail);
        CountFirst(env, t.t, v, tail);
      }
    } else if t.Rec? {
      RoundTrip(env, m, b, env.defs[t.name], v.v, tail);
    } else {
      RoundTripParts(env, m, b, t, v, tail);
    }
  }

  lemma {:induction false} OptionalIff(env: Env, m: Mode, b: nat, t: Ty, v: Val, tail: Bytes)
    requires Wf(env) && WfTy(t) && Enc(env, Optional(t), v).Good?
    ensures var e := Enc(env, Optional(t), v).value;
      Dec(env, m, b, Optional(t), e + tail) == Ok(v, |e|) <==> Reads(env, m, b, Optional(t), v, |tail|)
    decreases v, Optional(t), 1
  {
    hide Dec, U32, Be32, Units, WfTy;
    var e := Enc(env, Optional(t), v).value;
    OptionalCons(env, m, b, t, e + tail);
    if v.VNone? {
      Be32Inverse(0, tail);
    } else {
      var x := Enc(env, t, v.v).value;
      assert e + tail == Be32(1) + (x + tail) && (e + tail)[4..] == x + tail;
      Be32Inverse(1, x + tail);
      if b > 0 { RoundTrip(env, m, b - 1, t, v.v, tail); }
    }
  }

  lemma CountFirst(env: Env, t: Ty, v: Val, tail: Bytes)
    requires Counted(t) && Enc(env, t, v).Good?
    ensures var w := Enc(env, t, v).value + tail; 4 <= |w| && U32(w) == CountOf(v)
  {
    hide Be32, U32, Padded, EncElems, ValidUtf8, Units;
    var body := if t.Seq? then EncElems(env, t.t, v.vs).value else Padded(if t.ArrayRef? then v.encoded else v.bytes);
    assert Enc(env, t, v).value + tail == Be32(CountOf(v)) + (body + tail);
    Be32Inverse(CountOf(v), body + tail);
  }

  lemma {:induction false} RoundTripParts(env: Env, m: Mode, b: nat, t: Ty, v: Val, tail: Bytes)
    requires t.Seq? || t.Record? || t.ArrayRef? || t.ListRef? || t.IndexEnum? || t.Union?
    requires Wf(env) && WfTy(t) && Enc(env, t, v).Good?
    ensures var e := Enc(env, t, v).value;
      Dec(env, m, b, t, e + tail) == Ok(v, |e|) <==> Reads(env, m, b, t, v, |tail|)
    decreases v, t, 1
  {
    hide DecFields, DecElems, DecSeq, DecList, EncElems, EncFields, ReadsElems, ReadsFields, U32, Be32,
      TagOk, TagFree, ArmTys, TagWord, WithFields, Lookup, RereadsArray, RereadsList, Padded, Units;
    var e := Enc(env, t, v).value;
    if t.Seq? {
      SeqIff(env, m, b, t.t, v.vs, tail);
    } else if t.Record? {
      if b > 0 { FieldsIff(env, m, b - 1, t.ts, v.vs, tail); }
    } else if t.ArrayRef? {
      ArrayIff(env, m, b, t.t, v, tail);
    } else if t.ListRef? {
      ListIff(env, m, b, t.t, v, tail);
    } else {
      TaggedIff(env, m, b, t, v, tail);
    }
  }

  lemma {:induction false} SeqIff(env: Env, m: Mode, b: nat, t: Ty, vs: seq<Val>, tail: Bytes)
    requires Wf(env) && WfTy(t) && EncElems(env, t, vs).Good? && |vs| < TWO32
    ensures var e := EncElems(env, t, vs).value;
      DecSeq(env, m, b, t, Be32(|vs|) + e + tail) == Ok(vs, 4 + |e|)
      <==> b > 0 && 4 * |vs| <= |e| + |tail| && ReadsElems(env, m, b - 1, t, vs, |tail|)
    decreases vs, t, 1
  {
    hide DecSeq, DecElems, EncElems, ReadsElems, U32, Be32, Units;
    var e := EncElems(env, t, vs).value;
    var w := Be32(|vs|) + e + tail;
    assert w == Be32(|vs|) + (e + tail) && w[4..] == e + tail;
    Be32Inverse(|vs|, e + tail);
    SeqIs(env, m, b, t, w);
    if b > 0 { ElemsIff(env, m, b - 1, t, vs, tail); }
  }

  /** Two reads that start alike agree exactly when they go on alike. */
  lemma ConsIff(x: Read<Val>, x': Read<Val>, r: Read<seq<Val>>, r': Read<seq<Val>>)
    requires x.Ok? && r.Ok? && (x'.Ok? && x'.v == x.v ==> x'.n == x.n)
    ensures Cons(x', r') == Cons(x, r) <==> x' == x && r' == r
  {
    if x' == x && r'.Ok? {
      assert ([x.v] + r.v)[1..] == r.v && ([x.v] + r'.v)[1..] == r'.v;
    } else if x'.Ok? && r'.Ok? {
      assert ([x.v] + r.v)[0] == x.v && ([x'.v] + r'.v)[0] == x'.v;
    }
  }

  lemma ReadsElemsCons(env: Env, m: Mode, b: nat, t: Ty, vs: seq<Val>, tail: nat)
    requires EncElems(env, t, vs).Good?
    ensures vs == [] ==> EncElems(env, t, vs).value == [] && ReadsElems(env, m, b, t, vs, tail)
    ensures vs != [] ==> Enc(env, t, vs[0]).Good? && EncElems(env, t, vs[1..]).Good?
    ensures vs != [] ==> EncElems(env, t, vs).value == Enc(env, t, vs[0]).value + EncElems(env, t, vs[1..]).value
    ensures vs != [] ==>
      (ReadsElems(env, m, b, t, vs, tail)
       <==> Reads(env, m, b, t, vs[0], |EncElems(env, t, vs[1..]).value| + tail)
            && ReadsElems(env, m, b, t, vs[1..], tail))
  {
    hide Enc, Reads;
  }

  lemma ReadsFieldsCons(env: Env, m: Mode, b: nat, ts: seq<Ty>, vs: seq<Val>, tail: nat)
    requires EncFields(env, ts, vs).Good?
    ensures vs == [] ==> ts == [] && EncFields(env, ts, vs).value == [] && ReadsFields(env, m, b, ts, vs, tail)
    ensures vs != [] ==> ts != [] && Enc(env, ts[0], vs[0]).Good? && EncFields(env, ts[1..], vs[1..]).Good?
    ensures vs != [] ==>
      EncFields(env, ts, vs).value == Enc(env, ts[0], vs[0]).value + EncFields(env, ts[1..], vs[1..]).value
    ensures vs != [] ==>
      (ReadsFields(env, m, b, ts, vs, tail)
       <==> Reads(env, m, b, ts[0], vs[0], |EncFields(env, ts[1..], vs[1..]).value| + tail)
            && ReadsFields(env, m, b, ts[1..], vs[1..], tail))
  {
    hide Enc, Reads;
  }

  lemma {:induction false} ElemsIff(env: Env, m: Mode, b: nat, t: Ty, vs: seq<Val>, tail: Bytes)
    requires Wf(env) && WfTy(t) && EncElems(env, t, vs).Good?
    ensures var e := EncElems(env, t, vs).value;
      DecElems(env, m, b, t, |vs|, e + tail) == Ok(vs, |e|) <==> ReadsElems(env, m, b, t, vs, |tail|)
    decreases vs, t, 0
  {
    hide Dec, Enc, Reads, DecElems, EncElems, ReadsElems, Wf, WfTy, Units;
    var w := EncElems(env, t, vs).value + tail;
    ElemsCons(env, m, b, t, |vs|, w);
    ReadsElemsCons(env, m, b, t, vs, |tail|);
    if vs != [] {
      var v, us := vs[0], vs[1..];
      var e0, e1 := Enc(env, t, v).value, EncElems(env, t, us).value;
      assert w == e0 + (e1 + tail) && w[|e0|..] == e1 + tail;
      RoundTrip(env, m, b, t, v, e1 + tail);
      ElemsIff(env, m, b, t, us, tail);
      var x := Dec(env, m, b, t, w);
      if x.Ok? { Canon(env, m, b, t, w); }
      ConsIff(Ok(v, |e0|), x, Ok(us, |e1|), DecElems(env, m, b, t, |us|, Rest(x, w)));
      assert vs == [v] + us;
    }
  }

  lemma {:induction false} FieldsIff(env: Env, m: Mode, b: nat, ts: seq<Ty>, vs: seq<Val>, tail: Bytes)
    requires Wf(env) && WfTys(ts) && EncFields(env, ts, vs).Good?
    ensures var e := EncFields(env, ts, vs).value;
      DecFields(env, m, b, ts, e + tail) == Ok(vs, |e|) <==> ReadsFields(env, m, b, ts, vs, |tail|)
    decreases vs, ts, 0
  {
    hide Dec, Enc, Reads, DecFields, EncFields, ReadsFields, Wf, WfTy, Units;
    var w := EncFields(env, ts, vs).value + tail;
    FieldsCons(env, m, b, ts, w);
    ReadsFieldsCons(env, m, b, ts, vs, |tail|);
    if vs != [] {
      var v, us := vs[0], vs[1..];
      var e0, e1 := Enc(env, ts[0], v).value, EncFields(env, ts[1..], us).value;
      assert w == e0 + (e1 + tail) && w[|e0|..] == e1 + tail;
      RoundTrip(env, m, b, ts[0], v, e1 + tail);
      FieldsIff(env, m, b, ts[1..], us, tail);
      var x := Dec(env, m, b, ts[0], w);
      if x.Ok? { Canon(env, m, b, ts[0], w); }
      ConsIff(Ok(v, |e0|), x, Ok(us, |e1|), DecFields(env, m, b, ts[1..], Rest(x, w)));
      assert vs == [v] + us;
    }
  }

  lemma {:induction false} TaggedIff(env: Env, m: Mode, b: nat, t: Ty, v: Val, tail: Bytes)
    requires (t.IndexEnum? || t.Union?) && Wf(env) && WfTy(t) && Enc(env, t, v).Good?
    ensures var e := Enc(env, t, v).value;
      Dec(env, m, b, t, e + tail) == Ok(v, |e|) <==> Reads(env, m, b, t, v, |tail|)
    decreases v, t, 0
  {
    hide Dec, DecFields, EncFields, ReadsFields, U32, Be32, TagFree, TagWord, Lookup, Units;
    var ts, w := ArmTys(t, v), TagWord(t, v);
    var e1 := EncFields(env, ts, v.vs).value;
    TaggedCons(env, m, b, t, Be32(w) + e1 + tail);
    assert Be32(w) + e1 + tail == Be32(w) + (e1 + tail) && (Be32(w) + e1 + tail)[4..] == e1 + tail;
    Be32Inverse(w, e1 + tail);
    TagBack(t, v);
    if b > 0 { FieldsIff(env, m, b - 1, ts, v.vs, tail); }
  }

  lemma PaddedIs(s: Bytes)
    ensures Units(|s|) ==> Padded(s) == s
    ensures !Units(|s|) ==> |Padded(s)| > |s|
  {
    if Units(|s|) { assert s + Zeros(0) == s; }
  }

  lemma ArrayIff(env: Env, m: Mode, b: nat, t: Ty, v: Val, tail: Bytes)
    requires v.VRef? && v.count < TWO32
    ensures var e := Enc(env, ArrayRef(t), v).value;
      Dec(env, m, b, ArrayRef(t), e + tail) == Ok(v, |e|)
      <==> b > 1 && RereadsArray(env, m, b - 2, t, v, |tail|)
  {
    hide Dec, DecSeq, DecElems, U32, Be32, Padded, Units;
    var s, z := v.encoded + tail, v.encoded + Zeros(|tail|);
    var w := Be32(v.count) + Padded(v.encoded) + tail;
    ArrayCons(env, m, b, t, w);
    assert w == Be32(v.count) + (Padded(v.encoded) + tail) && w[4..] == Padded(v.encoded) + tail;
    Be32Inverse(v.count, Padded(v.encoded) + tail);
    if b > 0 { SeqIs(env, m, b - 1, t, w); }
    PaddedIs(v.encoded);
    assert s[..|v.encoded|] == v.encoded == z[..|v.encoded|];
    if b > 1 && Units(|v.encoded|) {
      assert w[4..4 + |v.encoded|] == v.encoded;
      SameElems(env, m, b - 2, t, v.count, s, z, |v.encoded|);
    }
  }

  lemma ListIff(env: Env, m: Mode, b: nat, t: Ty, v: Val, tail: Bytes)
    requires v.VRef?
    ensures var e := Enc(env, ListRef(t), v).value;
      Dec(env, m, b, ListRef(t), e + tail) == Ok(v, |e|)
      <==> b > 1 && RereadsList(env, m, b - 2, t, v, |tail|)
  {
    hide Dec, DecList, Padded, Units;
    var s, z := v.encoded + tail, v.encoded + Zeros(|tail|);
    ListRefCons(env, m, b, t, Padded(v.encoded) + tail);
    PaddedIs(v.encoded);
    assert s[..|v.encoded|] == v.encoded == z[..|v.encoded|];
    if b > 1 && Units(|v.encoded|) {
      SameList(env, m, b - 2, t, s, z, |v.encoded|);
    }
  }

  /** No borrowed array or list anywhere in the type. */
  predicate Owned(t: Ty) {
    match t
    case Leaf(_) => true
    case Optional(u) => Owned(u)
    case Newtype(u) => Owned(u)
    case Seq(u) => Owned(u)
    case Bounded(_, u) => Owned(u)
    case Record(_, ts) => AllOwned(ts)
    case IndexEnum(arms) => forall i :: 0 <= i < |arms| ==> AllOwned(arms[i].ts)
    case Union(_, arms, dflt) =>
      (forall i :: 0 <= i < |arms| ==> AllOwned(arms[i].ts)) && (dflt.Arm? ==> AllOwned(dflt.rest))
    case ArrayRef(_) => false
    case ListRef(_) => false
    case Rec(_) => true
  }

  predicate AllOwned(ts: seq<Ty>) { ts == [] || (Owned(ts[0]) && AllOwned(ts[1..])) }

  /** A program whose arrays have elements of at least one unit and which borrows none of them. */
  predicate OwnedEnv(env: Env) {
    Wf(env) && DenseEnv(env) && forall n :: n in env.defs ==> Owned(env.defs[n])
  }

  function Max(a: nat, b: nat): nat { if a < b then b else a }

  /** How deep a value nests: one level for each fixed opaque, present optional, newtype, array, struct,
      enum, union and bound on the way down. */
  function Nest(env: Env, t: Ty, v: Val): nat
    decreases v, t
  {
    match t
    case Leaf(p) => if p.Fixed? then 1 else 0
    case Optional(u) => if v.VSome? then 1 + Nest(env, u, v.v) else 0
    case Newtype(u) => 1 + Nest(env, u, v)
    case Seq(u) => if v.VSeq? then 1 + NestElems(env, u, v.vs) else 0
    case Record(_, ts) => if v.VSeq? then 1 + NestFields(env, ts, v.vs) else 0
    case Bounded(_, u) => 1 + Nest(env, u, v)
    case ArrayRef(_) => 0
    case ListRef(_) => 0
    case Rec(n) => if n in env.defs && v.VBox? then Nest(env, env.defs[n], v.v) else 0
    case _ => if TagOk(t, v) then 1 + NestFields(env, ArmTys(t, v), v.vs) else 0
  }

  function NestElems(env: Env, t: Ty, vs: seq<Val>): nat
    decreases vs, t
  {
    if vs == [] then 0 else Max(Nest(env, t, vs[0]), NestElems(env, t, vs[1..]))
  }

  function NestFields(env: Env, ts: seq<Ty>, vs: seq<Val>): nat
    decreases vs, ts
  {
    if vs == [] || ts == [] then 0 else Max(Nest(env, ts[0], vs[0]), NestFields(env, ts[1..], vs[1..]))
  }

  /** No string in the value holds a NUL. */
  predicate NoNul(env: Env, t: Ty, v: Val)
    decreases v, t
  {
    match t
    case Leaf(p) => p.Str? && v.VBytes? ==> 0 !in v.bytes
    case Optional(u) => v.VSome? ==> NoNul(env, u, v.v)
    case Newtype(u) => NoNul(env, u, v)
    case Seq(u) => v.VSeq? ==> NoNulElems(env, u, v.vs)
    case Record(_, ts) => v.VSeq? ==> NoNulFields(env, ts, v.vs)
    case Bounded(_, u) => NoNul(env, u, v)
    case ArrayRef(_) => true
    case ListRef(_) => true
    case Rec(n) => n in env.defs && v.VBox? ==> NoNul(env, env.defs[n], v.v)
    case _ => TagOk(t, v) ==> NoNulFields(env, ArmTys(t, v), v.vs)
  }

  predicate NoNulElems(env: Env, t: Ty, vs: seq<Val>)
    decreases vs, t
  {
    vs == [] || (NoNul(env, t, vs[0]) && NoNulElems(env, t, vs[1..]))
  }

  predicate NoNulFields(env: Env, ts: seq<Ty>, vs: seq<Val>)
    decreases vs, ts
  {
    vs == [] || ts == [] || (NoNul(env, ts[0], vs[0]) && NoNulFields(env, ts[1..], vs[1..]))
  }

  lemma {:induction false} SolidEncodesAUnit(env: Env, t: Ty, v: Val)
    requires OwnedEnv(env) && Owned(t) && Solid(env, t) && Enc(env, t, v).Good?
    ensures |Enc(env, t, v).value| >= UNIT
    decreases v, t
  {
    hide EncElems, TagOk, Be32;
    if t.Newtype? { SolidEncodesAUnit(env, t.t, v); }
    else if t.Bounded? { SolidEncodesAUnit(env, t.t, v); }
    else if t.Record? { SomeEncodesAUnit(env, t.ts, v.vs); }
    else if t.Rec? { SolidEncodesAUnit(env, env.defs[t.name], v.v); }
  }

  lemma {:induction false} SomeEncodesAUnit(env: Env, ts: seq<Ty>, vs: seq<Val>)
    requires OwnedEnv(env) && AllOwned(ts) && SomeSolid(env, ts) && EncFields(env, ts, vs).Good?
    ensures |EncFields(env, ts, vs).value| >= UNIT
    decreases vs, ts
  {
    hide Enc;
    if Solid(env, ts[0]) { SolidEncodesAUnit(env, ts[0], vs[0]); } else { SomeEncodesAUnit(env, ts[1..], vs[1..]); }
  }

  lemma {:induction false} ElemsEncodeUnits(env: Env, t: Ty, vs: seq<Val>)
    requires OwnedEnv(env) && Owned(t) && Solid(env, t) && EncElems(env, t, vs).Good?
    ensures |EncElems(env, t, vs).value| >= 4 * |vs|
    decreases vs, t
  {
    hide Enc;
    if vs != [] {
      SolidEncodesAUnit(env, t, vs[0]);
      ElemsEncodeUnits(env, t, vs[1..]);
    }
  }

  predicate Shallow(env: Env, m: Mode, b: nat, t: Ty, v: Val) {
    Nest(env, t, v) <= b && (m.Strict? ==> NoNul(env, t, v))
  }

  /** For owned types with room in their elements, reading back is a matter of depth and NULs alone. */
  lemma {:induction false} OwnedReads(env: Env, m: Mode, b: nat, t: Ty, v: Val, tail: nat)
    requires OwnedEnv(env) && Owned(t) && Dense(env, t) && Enc(env, t, v).Good?
    ensures Reads(env, m, b, t, v, tail) <==> Shallow(env, m, b, t, v)
    decreases v, t, 1
  {
    hide EncElems, EncFields, ReadsElems, ReadsFields, NestElems, NestFields, NoNulElems, NoNulFields,
      EncPrim, Counting, Padded, Be32, Solid, AllDense, AllOwned, TagOk, ArmTys, TagFree, TagWord, WfTy,
      RereadsArray, RereadsList, OwnedEnv, Units, Owned, Dense;
    OwnedInner(env, t);
    if t.Leaf? {
      StrIsBytes(t.p, v);
    } else if t.Optional? {
      OwnedReadsSome(env, m, b, t.t, v, tail);
    } else if t.Newtype? || t.Bounded? {
      if b > 0 { OwnedReads(env, m, b - 1, t.t, v, tail); }
    } else if t.Rec? {
      OwnedDef(env, t.name);
      OwnedReads(env, m, b, env.defs[t.name], v.v, tail);
    } else {
      OwnedReadsParts(env, m, b, t, v, tail);
    }
  }

  lemma {:induction false} OwnedReadsSome(env: Env, m: Mode, b: nat, t: Ty, v: Val, tail: nat)
    requires OwnedEnv(env) && Owned(t) && Dense(env, t) && Enc(env, Optional(t), v).Good?
    ensures Reads(env, m, b, Optional(t), v, tail) <==> Shallow(env, m, b, Optional(t), v)
    decreases v, Optional(t), 0
  {
    hide Be32, Units, Owned, Dense, OwnedEnv;
    if v.VSome? && b > 0 { OwnedReads(env, m, b - 1, t, v.v, tail); }
  }

  lemma OwnedInner(env: Env, t: Ty)
    requires Owned(t) && Dense(env, t)
    ensures !t.ArrayRef? && !t.ListRef?
    ensures t.Optional? || t.Newtype? || t.Bounded? ==> Owned(t.t) && Dense(env, t.t)
  {
  }

  lemma OwnedDef(env: Env, n: nat)
    requires OwnedEnv(env) && n in env.defs
    ensures Owned(env.defs[n]) && Dense(env, env.defs[n]) && !env.defs[n].Rec?
  {
    hide Owned, Dense;
  }

  lemma StrIsBytes(p: Prim, v: Val)
    requires EncPrim(p, v).Good?
    ensures p.Str? ==> v.VBytes?
  {
  }

  lemma {:induction false} OwnedReadsParts(env: Env, m: Mode, b: nat, t: Ty, v: Val, tail: nat)
    requires t.Seq? || t.Record? || t.IndexEnum? || t.Union?
    requires OwnedEnv(env) && Owned(t) && Dense(env, t) && Enc(env, t, v).Good?
    ensures Reads(env, m, b, t, v, tail) <==> Shallow(env, m, b, t, v)
    decreases v, t, 0
  {
    hide EncElems, EncFields, ReadsElems, ReadsFields, NestElems, NestFields, NoNulElems, NoNulFields,
      Be32, Solid, AllDense, AllOwned, TagOk, ArmTys, TagFree, Units;
    if t.Seq? {
      ElemsEncodeUnits(env, t.t, v.vs);
      if b > 0 { OwnedReadsElems(env, m, b - 1, t.t, v.vs, tail); }
    } else if t.Record? {
      if b > 0 { OwnedReadsFields(env, m, b - 1, t.ts, v.vs, tail); }
    } else {
      ArmsDense(env, t, v);
      ArmsOwned(t, v);
      if b > 0 { OwnedReadsFields(env, m, b - 1, ArmTys(t, v), v.vs, tail); }
    }
  }

  lemma ArmsOwned(t: Ty, v: Val)
    requires TagOk(t, v) && Owned(t)
    ensures (v.VArm? || v.VDefault?) && AllOwned(ArmTys(t, v))
  {
  }

  lemma {:induction false} OwnedReadsElems(env: Env, m: Mode, b: nat, t: Ty, vs: seq<Val>, tail: nat)
    requires OwnedEnv(env) && Owned(t) && Dense(env, t) && EncElems(env, t, vs).Good?
    ensures ReadsElems(env, m, b, t, vs, tail)
      <==> NestElems(env, t, vs) <= b && (m.Strict? ==> NoNulElems(env, t, vs))
    decreases vs, t
  {
    hide Enc, Reads, Nest, NoNul, Units;
    if vs != [] {
      OwnedReads(env, m, b, t, vs[0], |EncElems(env, t, vs[1..]).value| + tail);
      OwnedReadsElems(env, m, b, t, vs[1..], tail);
    }
  }

  lemma {:induction false} OwnedReadsFields(env: Env, m: Mode, b: nat, ts: seq<Ty>, vs: seq<Val>, tail: nat)
    requires OwnedEnv(env) && AllOwned(ts) && AllDense(env, ts) && EncFields(env, ts, vs).Good?
    ensures ReadsFields(env, m, b, ts, vs, tail)
      <==> NestFields(env, ts, vs) <= b && (m.Strict? ==> NoNulFields(env, ts, vs))
    decreases vs, ts
  {
    hide Enc, Reads, Nest, NoNul, Units;
    if vs != [] {
      OwnedReads(env, m, b, ts[0], vs[0], |EncFields(env, ts[1..], vs[1..]).value| + tail);
      OwnedReadsFields(env, m, b, ts[1..], vs[1..], tail);
    }
  }

  /** The round trip the codec promises: in either mode, with any bytes after, an encoded value that nests
      within the limit and, for a strict decode, holds no NUL decodes to itself; and no other does. */
  lemma OwnedRoundTrip(env: Env, m: Mode, b: nat, t: Ty, v: Val, tail: Bytes)
    requires OwnedEnv(env) && WfTy(t) && Owned(t) && Dense(env, t) && Enc(env, t, v).Good?
    ensures var e := Enc(env, t, v).value;
      Dec(env, m, b, t, e + tail) == Ok(v, |e|)
      <==> Nest(env, t, v) <= b && (m.Strict? ==> NoNul(env, t, v))
  {
    hide Dec, Enc, Reads, Dense, DenseEnv, Owned, Wf, WfTy, Nest, NoNul;
    RoundTrip(env, m, b, t, v, tail);
    OwnedReads(env, m, b, t, v, |tail|);
  }

  /** Why the elements need room: a `Vec<()>` of one element encodes to its count alone, and the decoder
      refuses that count when nothing follows it. */
  lemma EmptyElementsDoNotRoundTrip(env: Env, m: Mode, b: nat)
    ensures var t, v := Seq(Leaf(Unit)), VSeq([VUnit]);
      Enc(env, t, v) == Good(Be32(1)) && Dec(env, m, b, t, Be32(1)) == Err(Eof(4))
  {
    Be32Inverse(1, []);
    assert Be32(1) + [] == Be32(1);
    assert EncElems(env, Leaf(Unit), [VUnit]) == Good([]) by {
      assert EncElems(env, Leaf(Unit), [VUnit][1..]) == Good([]);
    }
  }
}
