/** A decode reads only the bytes it consumes: more input, more nesting or less strictness never changes
    what was read, and neither does cutting the input to what was consumed, provided array elements
    take up room. */
module XdrLocal {
  import opened Wire
  import opened XdrSchema
  import opened XdrDecode

  /** Every value of `t` takes at least one unit. */
  predicate Solid(env: Env, t: Ty) {
    match t
    case Leaf(p) => !p.Unit? && p != Fixed(0)
    case Newtype(u) => Solid(env, u)
    case Record(_, ts) => SomeSolid(env, ts)
    case Rec(n) => n in env.solid
    case _ => true
  }

  predicate SomeSolid(env: Env, ts: seq<Ty>) {
    ts != [] && (Solid(env, ts[0]) || SomeSolid(env, ts[1..]))
  }

  /** Every array in `t` has elements of at least one unit. */
  predicate Dense(env: Env, t: Ty) {
    match t
    case Optional(u) => Dense(env, u)
    case Newtype(u) => Dense(env, u)
    case Seq(u) => Solid(env, u) && Dense(env, u)
    case ArrayRef(u) => Solid(env, u) && Dense(env, u)
    case ListRef(u) => Dense(env, u)
    case Record(_, ts) => AllDense(env, ts)
    case IndexEnum(arms) => forall i :: 0 <= i < |arms| ==> AllDense(env, arms[i].ts)
    case Union(_, arms, dflt) =>
      && (forall i :: 0 <= i < |arms| ==> AllDense(env, arms[i].ts))
      && (dflt.Arm? ==> AllDense(env, dflt.rest))
    case Bounded(_, u) => Dense(env, u)
    case _ => true
  }

  predicate AllDense(env: Env, ts: seq<Ty>) {
    ts == [] || (Dense(env, ts[0]) && AllDense(env, ts[1..]))
  }

  predicate DenseEnv(env: Env) {
    && (forall n :: n in env.defs ==> Dense(env, env.defs[n]))
    && (forall n :: n in env.solid && n in env.defs ==> Solid(env, env.defs[n]))
  }

  lemma PrimTakesAUnit(mode: Mode, b: nat, p: Prim, s: Bytes)
    requires !p.Unit? && p != Fixed(0) && DecPrim(mode, b, p, s).Ok?
    ensures DecPrim(mode, b, p, s).n >= UNIT
  {
    hide U32, U64, ValidUtf8;
  }

  lemma {:induction false} SolidTakesAUnit(env: Env, mode: Mode, b: nat, t: Ty, s: Bytes)
    requires DenseEnv(env) && Solid(env, t) && Dec(env, mode, b, t, s).Ok?
    ensures Dec(env, mode, b, t, s).n >= UNIT
    decreases b, if t.Rec? then 2 else 1, 0
  {
    hide DecPrim, DecSeq, DecList, DecFields, Lookup, U32, Units, Dense;
    match t
    case Leaf(p) => PrimTakesAUnit(mode, b, p, s);
    case Newtype(u) => SolidTakesAUnit(env, mode, b - 1, u, s);
    case Record(_, ts) => SomeTakesAUnit(env, mode, b - 1, ts, s);
    case Rec(n) => SolidTakesAUnit(env, mode, b, env.defs[n], s);
    case Bounded(_, u) => SolidTakesAUnit(env, mode, b - 1, u, s);
    case _ =>
  }

  lemma {:induction false} SomeTakesAUnit(env: Env, mode: Mode, b: nat, ts: seq<Ty>, s: Bytes)
    requires DenseEnv(env) && SomeSolid(env, ts) && DecFields(env, mode, b, ts, s).Ok?
    ensures DecFields(env, mode, b, ts, s).n >= UNIT
    decreases b, 3, |ts|
  {
    hide Dec;
    var x := Dec(env, mode, b, ts[0], s);
    if Solid(env, ts[0]) { SolidTakesAUnit(env, mode, b, ts[0], s); }
    else { SomeTakesAUnit(env, mode, b, ts[1..], s[x.n..]); }
  }

  lemma {:induction false} ElemsTakeUnits(env: Env, mode: Mode, b: nat, t: Ty, count: nat, s: Bytes)
    requires DenseEnv(env) && Solid(env, t) && DecElems(env, mode, b, t, count, s).Ok?
    ensures DecElems(env, mode, b, t, count, s).n >= 4 * count
    decreases count
  {
    hide Dec;
    if count > 0 {
      SolidTakesAUnit(env, mode, b, t, s);
      ElemsTakeUnits(env, mode, b, t, count - 1, s[Dec(env, mode, b, t, s).n..]);
    }
  }

  lemma ArmsDense(env: Env, t: Ty, v: Val)
    requires TagOk(t, v)
    ensures Dense(env, t) ==> AllDense(env, ArmTys(t, v))
  {
  }

  lemma CountedTakesAUnit(env: Env, mode: Mode, b: nat, t: Ty, s: Bytes)
    requires Counted(t) && Dec(env, mode, b, t, s).Ok?
    ensures Dec(env, mode, b, t, s).n >= UNIT && CountOf(Dec(env, mode, b, t, s).v) == U32(s)
  {
  }

  /** The second decode is at least as permissive, and its input at least as roomy. */
  predicate Looser(m: Mode, m': Mode, b: nat, b': nat) { (m == m' || m'.Lenient?) && b <= b' }

  predicate Roomy(env: Env, t: Ty, s: Bytes, s': Bytes) {
    |s| <= |s'| || (DenseEnv(env) && Dense(env, t))
  }

  lemma {:induction false} Local(env: Env, m: Mode, m': Mode, b: nat, b': nat, t: Ty, s: Bytes, s': Bytes)
    requires Looser(m, m', b, b') && Roomy(env, t, s, s')
    requires Dec(env, m, b, t, s).Ok? && Agree(s, s', Dec(env, m, b, t, s).n)
    ensures Dec(env, m', b', t, s') == Dec(env, m, b, t, s)
    decreases b, if t.Rec? then 2 else 1, 1
  {
    hide DecPrim, DecSeq, DecFields, DecList, Lookup, U32, Solid, AllDense, Units;
    var n := Dec(env, m, b, t, s).n;
    match t
    case Leaf(p) => LocalPrim(m, m', b, b', p, s, s');
    case Optional(u) =>
      AgreeWords(s, s', n);
      if ReadBool(m, s).v {
        AgreeDrop(s, s', 4, n);
        Local(env, m, m', b - 1, b' - 1, u, s[4..], s'[4..]);
      }
    case Newtype(u) => Local(env, m, m', b - 1, b' - 1, u, s, s');
    case Bounded(_, u) =>
      CountedTakesAUnit(env, m, b - 1, u, s);
      AgreeWords(s, s', n);
      Local(env, m, m', b - 1, b' - 1, u, s, s');
    case Rec(k) => Local(env, m, m', b, b', env.defs[k], s, s');
    case _ => LocalParts(env, m, m', b, b', t, s, s');
  }

  /** The types with several parts. */
  lemma {:induction false} LocalParts(env: Env, m: Mode, m': Mode, b: nat, b': nat, t: Ty, s: Bytes, s': Bytes)
    requires t.Seq? || t.Record? || t.ArrayRef? || t.ListRef? || t.IndexEnum? || t.Union?
    requires Looser(m, m', b, b') && Roomy(env, t, s, s')
    requires Dec(env, m, b, t, s).Ok? && Agree(s, s', Dec(env, m, b, t, s).n)
    ensures Dec(env, m', b', t, s') == Dec(env, m, b, t, s)
    decreases b, 1, 0
  {
    hide DecSeq, DecFields, DecList, Lookup, U32, Solid, AllDense, TagOk, ArmTys, Units;
    var n := Dec(env, m, b, t, s).n;
    if t.Seq? {
      LocalSeq(env, m, m', b, b', t.t, s, s');
    } else if t.Record? {
      LocalFields(env, m, m', b - 1, b' - 1, t.ts, s, s');
    } else if t.ArrayRef? {
      LocalSeq(env, m, m', b - 1, b' - 1, t.t, s, s');
      assert s[4..n] == s[..n][4..] == s'[..n][4..] == s'[4..n];
    } else if t.ListRef? {
      LocalList(env, m, m', b - 2, b' - 2, t.t, s, s');
    } else {
      LocalTagged(env, m, m', b, b', t, s, s');
    }
  }

  lemma {:induction false} LocalTagged(env: Env, m: Mode, m': Mode, b: nat, b': nat, t: Ty, s: Bytes, s': Bytes)
    requires t.IndexEnum? || t.Union?
    requires Looser(m, m', b, b') && Roomy(env, t, s, s')
    requires Dec(env, m, b, t, s).Ok? && Agree(s, s', Dec(env, m, b, t, s).n)
    ensures Dec(env, m', b', t, s') == Dec(env, m, b, t, s)
    decreases b, 0, 0
  {
    hide Dec, DecFields, Lookup, U32, Dense, DenseEnv, TagOk, ArmTys, Units;
    TaggedRoom(env, m, b, t, s);
    TaggedCons(env, m, b, t, s);
    var n := Dec(env, m, b, t, s).n;
    AgreeWords(s, s', n);
    AgreeDrop(s, s', 4, n);
    TaggedCons(env, m', b', t, s');
    ArmsDense(env, t, Lookup(t, U32(s)).v);
    LocalFields(env, m, m', b - 1, b' - 1, ArmTys(t, Lookup(t, U32(s)).v), s[4..], s'[4..]);
  }

  lemma LocalPrim(m: Mode, m': Mode, b: nat, b': nat, p: Prim, s: Bytes, s': Bytes)
    requires Looser(m, m', b, b')
    requires DecPrim(m, b, p, s).Ok? && Agree(s, s', DecPrim(m, b, p, s).n)
    ensures DecPrim(m', b', p, s') == DecPrim(m, b, p, s)
  {
    hide U32, U64, ReadOpaque, ReadFixed;
    AgreeWords(s, s', DecPrim(m, b, p, s).n);
    match p
    case Str => LocalOpaque(m, m', s, s');
    case Opaque => LocalOpaque(m, m', s, s');
    case Fixed(len) => LocalFixed(m, m', len, s, s');
    case _ =>
  }

  lemma LocalFixed(m: Mode, m': Mode, len: nat, s: Bytes, s': Bytes)
    requires m == m' || m'.Lenient?
    requires ReadFixed(m, len, s).Ok? && Agree(s, s', ReadFixed(m, len, s).n)
    ensures ReadFixed(m', len, s') == ReadFixed(m, len, s)
  {
    var n := ReadFixed(m, len, s).n;
    AgreeDrop(s, s', len, n);
    assert s[len..n] == s[..n][len..] == s'[..n][len..] == s'[len..n];
  }

  lemma LocalOpaque(m: Mode, m': Mode, s: Bytes, s': Bytes)
    requires m == m' || m'.Lenient?
    requires ReadOpaque(m, s).Ok? && Agree(s, s', ReadOpaque(m, s).n)
    ensures ReadOpaque(m', s') == ReadOpaque(m, s)
  {
    AgreeWords(s, s', ReadOpaque(m, s).n);
    AgreeDrop(s, s', 4, ReadOpaque(m, s).n);
    LocalFixed(m, m', U32(s), s[4..], s'[4..]);
  }

  lemma {:induction false} LocalSeq(env: Env, m: Mode, m': Mode, b: nat, b': nat, t: Ty, s: Bytes, s': Bytes)
    requires Looser(m, m', b, b') && Roomy(env, Seq(t), s, s')
    requires DecSeq(env, m, b, t, s).Ok? && Agree(s, s', DecSeq(env, m, b, t, s).n)
    ensures DecSeq(env, m', b', t, s') == DecSeq(env, m, b, t, s)
    decreases b, 0, 0
  {
    hide Dec, DecElems, Units;
    var n := DecSeq(env, m, b, t, s).n;
    AgreeWords(s, s', n);
    AgreeDrop(s, s', 4, n);
    LocalElems(env, m, m', b - 1, b' - 1, t, U32(s), s[4..], s'[4..]);
    if |s'| < |s| { ElemsTakeUnits(env, m, b - 1, t, U32(s), s[4..]); }
  }

  lemma {:induction false} LocalElems(env: Env, m: Mode, m': Mode, b: nat, b': nat, t: Ty, count: nat, s: Bytes, s': Bytes)
    requires Looser(m, m', b, b') && Roomy(env, t, s, s')
    requires DecElems(env, m, b, t, count, s).Ok? && Agree(s, s', DecElems(env, m, b, t, count, s).n)
    ensures DecElems(env, m', b', t, count, s') == DecElems(env, m, b, t, count, s)
    decreases b, 3, count
  {
    hide Dec, DecElems, DenseEnv, Dense;
    ElemsCons(env, m, b, t, count, s);
    ElemsCons(env, m', b', t, count, s');
    if count > 0 {
      var k, n := Dec(env, m, b, t, s).n, DecElems(env, m, b, t, count, s).n;
      AgreeDrop(s, s', k, n);
      Local(env, m, m', b, b', t, s, s');
      LocalElems(env, m, m', b, b', t, count - 1, s[k..], s'[k..]);
    }
  }

  /** Inputs of one length that start alike hold the same elements in what they share. */
  lemma SameElems(env: Env, m: Mode, b: nat, t: Ty, count: nat, s: Bytes, s': Bytes, k: nat)
    requires |s| == |s'| && Agree(s, s', k)
    ensures var r, r' := DecElems(env, m, b, t, count, s), DecElems(env, m, b, t, count, s');
      r.Ok? && r.n == k <==> r'.Ok? && r'.n == k
  {
    hide DecElems, Dense, DenseEnv, Units;
    var r, r' := DecElems(env, m, b, t, count, s), DecElems(env, m, b, t, count, s');
    if r.Ok? && r.n == k { LocalElems(env, m, m, b, b, t, count, s, s'); }
    if r'.Ok? && r'.n == k { LocalElems(env, m, m, b, b, t, count, s', s); }
  }

  lemma {:induction false} LocalFields(env: Env, m: Mode, m': Mode, b: nat, b': nat, ts: seq<Ty>, s: Bytes, s': Bytes)
    requires Looser(m, m', b, b') && (|s| <= |s'| || (DenseEnv(env) && AllDense(env, ts)))
    requires DecFields(env, m, b, ts, s).Ok? && Agree(s, s', DecFields(env, m, b, ts, s).n)
    ensures DecFields(env, m', b', ts, s') == DecFields(env, m, b, ts, s)
    decreases b, 3, |ts|
  {
    hide Dec, DecFields, DenseEnv, Dense;
    FieldsCons(env, m, b, ts, s);
    FieldsCons(env, m', b', ts, s');
    if ts != [] {
      var k, n := Dec(env, m, b, ts[0], s).n, DecFields(env, m, b, ts, s).n;
      AgreeDrop(s, s', k, n);
      Local(env, m, m', b, b', ts[0], s, s');
      LocalFields(env, m, m', b, b', ts[1..], s[k..], s'[k..]);
    }
  }

  lemma {:induction false} LocalList(env: Env, m: Mode, m': Mode, b: nat, b': nat, t: Ty, s: Bytes, s': Bytes)
    requires Looser(m, m', b, b') && Roomy(env, t, s, s')
    requires DecList(env, m, b, t, s).Ok? && Agree(s, s', DecList(env, m, b, t, s).n)
    ensures DecList(env, m', b', t, s') == DecList(env, m, b, t, s)
    decreases b, 3, |s|
  {
    hide Dec, DecList, DenseEnv;
    ListCons(env, m, b, t, s);
    ListCons(env, m', b', t, s');
    var x, n := Dec(env, m, b, Optional(t), s), DecList(env, m, b, t, s).n;
    AgreeDrop(s, s', x.n, n);
    Local(env, m, m', b, b', Optional(t), s, s');
    if x.v.VSome? { LocalList(env, m, m', b, b', t, s[x.n..], s'[x.n..]); }
  }

  lemma SameList(env: Env, m: Mode, b: nat, t: Ty, s: Bytes, s': Bytes, k: nat)
    requires |s| == |s'| && Agree(s, s', k)
    ensures var r, r' := DecList(env, m, b, t, s), DecList(env, m, b, t, s');
      (r.Ok? && r.n == k) || (r'.Ok? && r'.n == k) ==> r == r'
  {
    hide DecList, Dense, DenseEnv, Units;
    var r, r' := DecList(env, m, b, t, s), DecList(env, m, b, t, s');
    if r.Ok? && r.n == k { LocalList(env, m, m, b, b, t, s, s'); }
    if r'.Ok? && r'.n == k { LocalList(env, m, m, b, b, t, s', s); }
  }
}
