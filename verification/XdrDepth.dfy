/** How much nesting a value needs is its own: it depends neither on how strictly the value is read nor on
    what comes after it, and too little of it is always reported as such. */
module XdrDepth {
  import opened Wire
  import opened XdrSchema
  import opened XdrDecode
  import opened XdrLocal

  /** `r` and `r0` are one read with less nesting than `full` had: the same, or refused for the nesting. */
  predicate Lesser<T(==)>(full: Read<T>, r0: Read<T>, r: Read<T>) {
    r == r0 && (r == full || r == Err(RecursionLimit))
  }

  lemma DepthPrim(m0: Mode, m: Mode, b: nat, b': nat, p: Prim, s: Bytes, s': Bytes)
    requires Looser(m0, m, b, b')
    requires DecPrim(m0, b', p, s).Ok? && Agree(s, s', DecPrim(m0, b', p, s).n)
    ensures Lesser(DecPrim(m0, b', p, s), DecPrim(m0, b, p, s), DecPrim(m, b, p, s'))
  {
    hide U32, ReadOpaque, ReadFixed, ReadScalar, ReadStr, Units;
    if p.Fixed? && b == 0 { return; }
    assert DecPrim(m0, b, p, s) == DecPrim(m0, b', p, s);
    LocalPrim(m0, m, b, b, p, s, s');
  }

  /** A value that was read, read again with less nesting: it is refused for the nesting or it is the same, and
      which of the two is the same for every decoder that is no stricter and has no less input. */
  lemma {:induction false} Depth(env: Env, m0: Mode, m: Mode, b: nat, b': nat, t: Ty, s: Bytes, s': Bytes)
    requires Looser(m0, m, b, b') && |s| <= |s'|
    requires Dec(env, m0, b', t, s).Ok? && Agree(s, s', Dec(env, m0, b', t, s).n)
    ensures Lesser(Dec(env, m0, b', t, s), Dec(env, m0, b, t, s), Dec(env, m, b, t, s'))
    decreases b', if t.Rec? then 2 else 1, 1
  {
    hide DecPrim, DecSeq, DecFields, DecList, Lookup, U32, Units;
    var n := Dec(env, m0, b', t, s).n;
    match t
    case Leaf(p) => DepthPrim(m0, m, b, b', p, s, s');
    case Optional(u) => DepthOptional(env, m0, m, b, b', u, s, s');
    case Newtype(u) => if b > 0 { Depth(env, m0, m, b - 1, b' - 1, u, s, s'); }
    case Bounded(_, u) =>
      CountedTakesAUnit(env, m0, b' - 1, u, s);
      AgreeWords(s, s', n);
      if b > 0 { Depth(env, m0, m, b - 1, b' - 1, u, s, s'); }
    case Rec(k) => Depth(env, m0, m, b, b', env.defs[k], s, s');
    case _ => DepthParts(env, m0, m, b, b', t, s, s');
  }

  lemma {:induction false} DepthOptional(env: Env, m0: Mode, m: Mode, b: nat, b': nat, t: Ty, s: Bytes, s': Bytes)
    requires Looser(m0, m, b, b') && |s| <= |s'|
    requires Dec(env, m0, b', Optional(t), s).Ok? && Agree(s, s', Dec(env, m0, b', Optional(t), s).n)
    ensures Lesser(Dec(env, m0, b', Optional(t), s), Dec(env, m0, b, Optional(t), s), Dec(env, m, b, Optional(t), s'))
    decreases b', 1, 0
  {
    hide Dec, U32, Units;
    OptionalCons(env, m0, b', t, s);
    OptionalCons(env, m0, b, t, s);
    OptionalCons(env, m, b, t, s');
    var n := Dec(env, m0, b', Optional(t), s).n;
    AgreeWords(s, s', n);
    if ReadBool(m0, s).v && b > 0 {
      AgreeDrop(s, s', 4, n);
      Depth(env, m0, m, b - 1, b' - 1, t, s[4..], s'[4..]);
    }
  }

  lemma {:induction false} DepthParts(env: Env, m0: Mode, m: Mode, b: nat, b': nat, t: Ty, s: Bytes, s': Bytes)
    requires t.Seq? || t.Record? || t.ArrayRef? || t.ListRef? || t.IndexEnum? || t.Union?
    requires Looser(m0, m, b, b') && |s| <= |s'|
    requires Dec(env, m0, b', t, s).Ok? && Agree(s, s', Dec(env, m0, b', t, s).n)
    ensures Lesser(Dec(env, m0, b', t, s), Dec(env, m0, b, t, s), Dec(env, m, b, t, s'))
    decreases b', 1, 0
  {
    hide DecSeq, DecFields, DecList, Lookup, U32, Units, TagOk, ArmTys;
    if t.Seq? {
      DepthSeq(env, m0, m, b, b', t.t, s, s');
    } else if t.Record? {
      if b > 0 { DepthFields(env, m0, m, b - 1, b' - 1, t.ts, s, s'); }
    } else if t.ArrayRef? {
      DepthArray(env, m0, m, b, b', t.t, s, s');
    } else if t.ListRef? {
      if b > 1 { DepthList(env, m0, m, b - 2, b' - 2, t.t, s, s'); }
    } else {
      DepthTagged(env, m0, m, b, b', t, s, s');
    }
  }

  lemma {:induction false} DepthTagged(env: Env, m0: Mode, m: Mode, b: nat, b': nat, t: Ty, s: Bytes, s': Bytes)
    requires t.IndexEnum? || t.Union?
    requires Looser(m0, m, b, b') && |s| <= |s'|
    requires Dec(env, m0, b', t, s).Ok? && Agree(s, s', Dec(env, m0, b', t, s).n)
    ensures Lesser(Dec(env, m0, b', t, s), Dec(env, m0, b, t, s), Dec(env, m, b, t, s'))
    decreases b', 0, 1
  {
    hide Dec, DecFields, Lookup, U32, Units, TagOk, ArmTys;
    TaggedRoom(env, m0, b', t, s);
    TaggedCons(env, m0, b', t, s);
    TaggedCons(env, m0, b, t, s);
    TaggedCons(env, m, b, t, s');
    var n := Dec(env, m0, b', t, s).n;
    AgreeWords(s, s', n);
    AgreeDrop(s, s', 4, n);
    if b > 0 { DepthFields(env, m0, m, b - 1, b' - 1, ArmTys(t, Lookup(t, U32(s)).v), s[4..], s'[4..]); }
  }

  lemma {:induction false} DepthArray(env: Env, m0: Mode, m: Mode, b: nat, b': nat, t: Ty, s: Bytes, s': Bytes)
    requires Looser(m0, m, b, b') && |s| <= |s'|
    requires Dec(env, m0, b', ArrayRef(t), s).Ok? && Agree(s, s', Dec(env, m0, b', ArrayRef(t), s).n)
    ensures Lesser(Dec(env, m0, b', ArrayRef(t), s), Dec(env, m0, b, ArrayRef(t), s), Dec(env, m, b, ArrayRef(t), s'))
    decreases b', 0, 1
  {
    hide Dec, DecSeq, U32, Units;
    ArrayCons(env, m0, b', t, s);
    ArrayCons(env, m0, b, t, s);
    ArrayCons(env, m, b, t, s');
    var n := Dec(env, m0, b', ArrayRef(t), s).n;
    if b > 0 {
      DepthSeq(env, m0, m, b - 1, b' - 1, t, s, s');
      AgreeDrop(s, s', 4, n);
      assert s[4..n] == s[4..][..n - 4] == s'[4..][..n - 4] == s'[4..n];
    }
  }

  lemma {:induction false} DepthSeq(env: Env, m0: Mode, m: Mode, b: nat, b': nat, t: Ty, s: Bytes, s': Bytes)
    requires Looser(m0, m, b, b') && |s| <= |s'|
    requires DecSeq(env, m0, b', t, s).Ok? && Agree(s, s', DecSeq(env, m0, b', t, s).n)
    ensures Lesser(DecSeq(env, m0, b', t, s), DecSeq(env, m0, b, t, s), DecSeq(env, m, b, t, s'))
    decreases b', 0, 0
  {
    hide Dec, DecSeq, DecElems, U32, Units;
    var n := DecSeq(env, m0, b', t, s).n;
    AgreeWords(s, s', n);
    AgreeDrop(s, s', 4, n);
    SeqRoom(env, m0, b', t, s);
    SeqIs(env, m0, b', t, s);
    SeqIs(env, m0, b, t, s);
    SeqIs(env, m, b, t, s');
    if b > 0 { DepthElems(env, m0, m, b - 1, b' - 1, t, U32(s), s[4..], s'[4..]); }
  }

  lemma {:induction false} DepthElems(env: Env, m0: Mode, m: Mode, b: nat, b': nat, t: Ty, count: nat, s: Bytes, s': Bytes)
    requires Looser(m0, m, b, b') && |s| <= |s'|
    requires DecElems(env, m0, b', t, count, s).Ok? && Agree(s, s', DecElems(env, m0, b', t, count, s).n)
    ensures Lesser(DecElems(env, m0, b', t, count, s), DecElems(env, m0, b, t, count, s), DecElems(env, m, b, t, count, s'))
    decreases b', 3, count
  {
    hide Dec, DecElems, Units;
    ElemsCons(env, m0, b', t, count, s);
    ElemsCons(env, m0, b, t, count, s);
    ElemsCons(env, m, b, t, count, s');
    if count > 0 {
      var k := Dec(env, m0, b', t, s).n;
      AgreeDrop(s, s', k, DecElems(env, m0, b', t, count, s).n);
      Depth(env, m0, m, b, b', t, s, s');
      DepthElems(env, m0, m, b, b', t, count - 1, s[k..], s'[k..]);
    }
  }

  lemma {:induction false} DepthFields(env: Env, m0: Mode, m: Mode, b: nat, b': nat, ts: seq<Ty>, s: Bytes, s': Bytes)
    requires Looser(m0, m, b, b') && |s| <= |s'|
    requires DecFields(env, m0, b', ts, s).Ok? && Agree(s, s', DecFields(env, m0, b', ts, s).n)
    ensures Lesser(DecFields(env, m0, b', ts, s), DecFields(env, m0, b, ts, s), DecFields(env, m, b, ts, s'))
    decreases b', 3, |ts|
  {
    hide Dec, DecFields, Units;
    FieldsCons(env, m0, b', ts, s);
    FieldsCons(env, m0, b, ts, s);
    FieldsCons(env, m, b, ts, s');
    if ts != [] {
      var k := Dec(env, m0, b', ts[0], s).n;
      AgreeDrop(s, s', k, DecFields(env, m0, b', ts, s).n);
      Depth(env, m0, m, b, b', ts[0], s, s');
      DepthFields(env, m0, m, b, b', ts[1..], s[k..], s'[k..]);
    }
  }

  lemma {:induction false} DepthList(env: Env, m0: Mode, m: Mode, b: nat, b': nat, t: Ty, s: Bytes, s': Bytes)
    requires Looser(m0, m, b, b') && |s| <= |s'|
    requires DecList(env, m0, b', t, s).Ok? && Agree(s, s', DecList(env, m0, b', t, s).n)
    ensures Lesser(DecList(env, m0, b', t, s), DecList(env, m0, b, t, s), DecList(env, m, b, t, s'))
    decreases b', 3, |s|
  {
    hide Dec, DecList, Units;
    ListCons(env, m0, b', t, s);
    ListCons(env, m0, b, t, s);
    ListCons(env, m, b, t, s');
    var x := Dec(env, m0, b', Optional(t), s);
    AgreeDrop(s, s', x.n, DecList(env, m0, b', t, s).n);
    Depth(env, m0, m, b, b', Optional(t), s, s');
    if x.v.VSome? { DepthList(env, m0, m, b, b', t, s[x.n..], s'[x.n..]); }
  }
}
