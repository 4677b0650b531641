/** Reading again from a cut of the input: a value once read leniently, or strictly, reads the same from
    other input that starts with its bytes exactly when its counts still pass there. */
module XdrRecut {
  import opened Wire
  import opened XdrSchema
  import opened XdrDecode
  import opened XdrLocal
  import opened XdrCanon
  import opened XdrRoundTrip

  lemma {:induction false} Recut(env: Env, m: Mode, b: nat, b': nat, t: Ty, s: Bytes, s': Bytes)
    requires b <= b' && Dec(env, m, b, t, s).Ok? && Agree(s, s', Dec(env, m, b, t, s).n)
    ensures var r := Dec(env, m, b, t, s);
      Enc(env, t, r.v).Good?
      && (Dec(env, Lenient, b', t, s') == r <==> Reads(env, Lenient, b', t, r.v, |s'| - r.n))
    decreases b, if t.Rec? then 2 else 1, 1
  {
    hide DecPrim, EncPrim, DecSeq, DecFields, DecList, EncElems, EncFields, ReadsElems, ReadsFields, U32, Be32,
      Lookup, RereadsArray, RereadsList, TagOk, TagFree, ArmTys, TagWord, WithFields, Counting, Padded, Units;
    var r := Dec(env, m, b, t, s);
    var n := r.n;
    Canon(env, m, b, t, s);
    if t.Leaf? {
      LocalPrim(m, Lenient, b, b', t.p, s, s');
      FixedNests(m, b, t.p, s);
    } else if t.Optional? {
      RecutOptional(env, m, b, b', t.t, s, s');
    } else if t.Newtype? {
      Recut(env, m, b - 1, b' - 1, t.t, s, s');
    } else if t.Bounded? {
      CountedTakesAUnit(env, m, b - 1, t.t, s);
      AgreeWords(s, s', n);
      Recut(env, m, b - 1, b' - 1, t.t, s, s');
    } else if t.Rec? {
      Recut(env, m, b, b', env.defs[t.name], s, s');
    } else {
      RecutParts(env, m, b, b', t, s, s');
    }
  }

  lemma {:induction false} RecutOptional(env: Env, m: Mode, b: nat, b': nat, t: Ty, s: Bytes, s': Bytes)
    requires b <= b' && Dec(env, m, b, Optional(t), s).Ok? && Agree(s, s', Dec(env, m, b, Optional(t), s).n)
    ensures var r := Dec(env, m, b, Optional(t), s);
      Enc(env, Optional(t), r.v).Good?
      && (Dec(env, Lenient, b', Optional(t), s') == r <==> Reads(env, Lenient, b', Optional(t), r.v, |s'| - r.n))
    decreases b, 1, 0
  {
    hide Dec, U32, Be32, Units;
    OptionalCons(env, m, b, t, s);
    OptionalCons(env, Lenient, b', t, s');
    var r := Dec(env, m, b, Optional(t), s);
    AgreeWords(s, s', r.n);
    if r.v.VSome? {
      AgreeDrop(s, s', 4, r.n);
      Recut(env, m, b - 1, b' - 1, t, s[4..], s'[4..]);
    }
  }

  lemma FixedNests(m: Mode, b: nat, p: Prim, s: Bytes)
    requires DecPrim(m, b, p, s).Ok?
    ensures p.Fixed? ==> b > 0
  {
  }

  lemma {:induction false} RecutParts(env: Env, m: Mode, b: nat, b': nat, t: Ty, s: Bytes, s': Bytes)
    requires t.Seq? || t.Record? || t.ArrayRef? || t.ListRef? || t.IndexEnum? || t.Union?
    requires b <= b' && Dec(env, m, b, t, s).Ok? && Agree(s, s', Dec(env, m, b, t, s).n)
    ensures var r := Dec(env, m, b, t, s);
      Enc(env, t, r.v).Good?
      && (Dec(env, Lenient, b', t, s') == r <==> Reads(env, Lenient, b', t, r.v, |s'| - r.n))
    decreases b, 1, 0
  {
    hide DecSeq, DecFields, DecElems, DecList, EncElems, EncFields, ReadsElems, ReadsFields, U32, Be32,
      TagOk, TagFree, ArmTys, TagWord, WithFields, Lookup, RereadsArray, RereadsList, Units;
    var r := Dec(env, m, b, t, s);
    var n := r.n;
    Canon(env, m, b, t, s);
    if t.Seq? {
      RecutSeq(env, m, b, b', t.t, s, s');
    } else if t.Record? {
      RecutFields(env, m, b - 1, b' - 1, t.ts, s, s');
    } else if t.ArrayRef? {
      RecutArray(env, m, b, b', t.t, s, s');
    } else if t.ListRef? {
      RecutList(env, m, b, b', t.t, s, s');
    } else {
      RecutTagged(env, m, b, b', t, s, s');
    }
  }

  lemma {:induction false} RecutSeq(env: Env, m: Mode, b: nat, b': nat, t: Ty, s: Bytes, s': Bytes)
    requires b <= b' && Dec(env, m, b, Seq(t), s).Ok? && Agree(s, s', Dec(env, m, b, Seq(t), s).n)
    ensures var r := Dec(env, m, b, Seq(t), s);
      Enc(env, Seq(t), r.v).Good?
      && (Dec(env, Lenient, b', Seq(t), s') == r <==> Reads(env, Lenient, b', Seq(t), r.v, |s'| - r.n))
    decreases b, 0, 0
  {
    hide Dec, DecSeq, DecElems, EncElems, ReadsElems, U32, Be32, Units;
    SeqCons(env, m, b, t, s);
    SeqCons(env, Lenient, b', t, s');
    var n := Dec(env, m, b, Seq(t), s).n;
    SeqRoom(env, m, b, t, s);
    SeqIs(env, m, b, t, s);
    SeqIs(env, Lenient, b', t, s');
    AgreeWords(s, s', n);
    AgreeDrop(s, s', 4, n);
    RecutElems(env, m, b - 1, b' - 1, t, U32(s), s[4..], s'[4..]);
  }

  lemma {:induction false} RecutTagged(env: Env, m: Mode, b: nat, b': nat, t: Ty, s: Bytes, s': Bytes)
    requires t.IndexEnum? || t.Union?
    requires b <= b' && Dec(env, m, b, t, s).Ok? && Agree(s, s', Dec(env, m, b, t, s).n)
    ensures var r := Dec(env, m, b, t, s);
      Enc(env, t, r.v).Good?
      && (Dec(env, Lenient, b', t, s') == r <==> Reads(env, Lenient, b', t, r.v, |s'| - r.n))
    decreases b, 0, 0
  {
    hide Dec, DecFields, EncFields, ReadsFields, U32, Be32, TagFree, TagWord, Lookup, Units;
    TaggedRoom(env, m, b, t, s);
    TaggedCons(env, m, b, t, s);
    var n := Dec(env, m, b, t, s).n;
    AgreeWords(s, s', n);
    AgreeDrop(s, s', 4, n);
    TaggedCons(env, Lenient, b', t, s');
    var ts := ArmTys(t, Lookup(t, U32(s)).v);
    var vs := DecFields(env, m, b - 1, ts, s[4..]).v;
    CanonTag(t, s, vs);
    RecutFields(env, m, b - 1, b' - 1, ts, s[4..], s'[4..]);
  }

  lemma {:induction false} RecutElems(env: Env, m: Mode, b: nat, b': nat, t: Ty, count: nat, s: Bytes, s': Bytes)
    requires b <= b' && DecElems(env, m, b, t, count, s).Ok? && Agree(s, s', DecElems(env, m, b, t, count, s).n)
    ensures var r := DecElems(env, m, b, t, count, s);
      EncElems(env, t, r.v).Good? && |EncElems(env, t, r.v).value| == r.n
      && (DecElems(env, Lenient, b', t, count, s') == r <==> ReadsElems(env, Lenient, b', t, r.v, |s'| - r.n))
    decreases b, 3, count
  {
    hide Dec, Enc, Reads, DecElems, EncElems, ReadsElems, Units;
    CanonElems(env, m, b, t, count, s);
    var r, x, x' := DecElems(env, m, b, t, count, s), Dec(env, m, b, t, s), Dec(env, Lenient, b', t, s');
    ElemsCons(env, m, b, t, count, s);
    ElemsCons(env, Lenient, b', t, count, s');
    ReadsElemsCons(env, Lenient, b', t, r.v, |s'| - r.n);
    if count > 0 {
      AgreeDrop(s, s', x.n, r.n);
      Recut(env, m, b, b', t, s, s');
      Canon(env, m, b, t, s);
      RecutElems(env, m, b, b', t, count - 1, s[x.n..], s'[x.n..]);
      assert r.v[0] == x.v && r.v[1..] == DecElems(env, m, b, t, count - 1, s[x.n..]).v;
      if x'.Ok? { Canon(env, Lenient, b', t, s'); }
      ConsIff(x, x', DecElems(env, m, b, t, count - 1, s[x.n..]), DecElems(env, Lenient, b', t, count - 1, Rest(x', s')));
    }
  }

  lemma {:induction false} RecutFields(env: Env, m: Mode, b: nat, b': nat, ts: seq<Ty>, s: Bytes, s': Bytes)
    requires b <= b' && DecFields(env, m, b, ts, s).Ok? && Agree(s, s', DecFields(env, m, b, ts, s).n)
    ensures var r := DecFields(env, m, b, ts, s);
      EncFields(env, ts, r.v).Good? && |EncFields(env, ts, r.v).value| == r.n
      && (DecFields(env, Lenient, b', ts, s') == r <==> ReadsFields(env, Lenient, b', ts, r.v, |s'| - r.n))
    decreases b, 3, |ts|
  {
    hide Dec, Enc, Reads, DecFields, EncFields, ReadsFields, Units;
    CanonFields(env, m, b, ts, s);
    var r := DecFields(env, m, b, ts, s);
    FieldsCons(env, m, b, ts, s);
    FieldsCons(env, Lenient, b', ts, s');
    ReadsFieldsCons(env, Lenient, b', ts, r.v, |s'| - r.n);
    if ts != [] {
      var x, x' := Dec(env, m, b, ts[0], s), Dec(env, Lenient, b', ts[0], s');
      AgreeDrop(s, s', x.n, r.n);
      Recut(env, m, b, b', ts[0], s, s');
      Canon(env, m, b, ts[0], s);
      RecutFields(env, m, b, b', ts[1..], s[x.n..], s'[x.n..]);
      assert r.v[0] == x.v && r.v[1..] == DecFields(env, m, b, ts[1..], s[x.n..]).v;
      if x'.Ok? { Canon(env, Lenient, b', ts[0], s'); }
      ConsIff(x, x', DecFields(env, m, b, ts[1..], s[x.n..]), DecFields(env, Lenient, b', ts[1..], Rest(x', s')));
    }
  }

  lemma RecutArray(env: Env, m: Mode, b: nat, b': nat, t: Ty, s: Bytes, s': Bytes)
    requires b <= b' && Dec(env, m, b, ArrayRef(t), s).Ok? && Agree(s, s', Dec(env, m, b, ArrayRef(t), s).n)
    ensures var r := Dec(env, m, b, ArrayRef(t), s);
      b' >= 2 && (Dec(env, Lenient, b', ArrayRef(t), s') == r <==> RereadsArray(env, Lenient, b' - 2, t, r.v, |s'| - r.n))
  {
    hide Dec, DecSeq, DecElems, U32, Units;
    ArrayCons(env, m, b, t, s);
    ArrayCons(env, Lenient, b', t, s');
    var r := Dec(env, m, b, ArrayRef(t), s);
    SeqRoom(env, m, b - 1, t, s);
    SeqIs(env, m, b - 1, t, s);
    SeqIs(env, Lenient, b' - 1, t, s');
    AgreeWords(s, s', r.n);
    AgreeDrop(s, s', 4, r.n);
    var enc, w, z := r.v.encoded, s'[4..], r.v.encoded + Zeros(|s'| - r.n);
    assert s[4..r.n] == s[4..][..r.n - 4] == w[..r.n - 4] == s'[4..r.n];
    assert |w| == |z| && Agree(w, z, |enc|);
    SameElems(env, Lenient, b' - 2, t, r.v.count, w, z, |enc|);
  }

  lemma RecutList(env: Env, m: Mode, b: nat, b': nat, t: Ty, s: Bytes, s': Bytes)
    requires b <= b' && Dec(env, m, b, ListRef(t), s).Ok? && Agree(s, s', Dec(env, m, b, ListRef(t), s).n)
    ensures var r := Dec(env, m, b, ListRef(t), s);
      Dec(env, Lenient, b', ListRef(t), s') == r <==> RereadsList(env, Lenient, b' - 2, t, r.v, |s'| - r.n)
  {
    hide Dec, DecList, Units;
    ListRefCons(env, m, b, t, s);
    ListRefCons(env, Lenient, b', t, s');
    var r := Dec(env, m, b, ListRef(t), s);
    var enc, z := r.v.encoded, r.v.encoded + Zeros(|s'| - r.n);
    assert |s'| == |z| && Agree(s', z, |enc|);
    SameList(env, Lenient, b' - 2, t, s', z, |enc|);
  }
}
