/** What decodes encodes again, to as many bytes as were read; and a strict decode accepts only the
    canonical encoding. */
module XdrCanon {
  import opened Wire
  import opened XdrSchema
  import opened XdrDecode
  import opened XdrLocal

  /** `e` is an encoding of the `n` bytes read from `s`: as long always, and the same when `exact`. */
  predicate Spells(e: Result<Bytes>, s: Bytes, n: nat, exact: bool) {
    e.Good? && n <= |s| && |e.value| == n && (exact ==> e.value == s[..n])
  }

  lemma PrefixJoin(s: Bytes, k: nat, n: nat)
    requires k <= n <= |s|
    ensures s[..n] == s[..k] + s[k..][..n - k]
  {
  }

  lemma CanonFixed(m: Mode, len: nat, s: Bytes)
    requires ReadFixed(m, len, s).Ok?
    ensures var r := ReadFixed(m, len, s); |r.v| == len && Spells(Good(Padded(r.v)), s, r.n, m.Strict?)
  {
    PrefixJoin(s, len, ReadFixed(m, len, s).n);
    assert s[len..][..Pad4(len)] == s[len..len + Pad4(len)];
  }

  lemma CanonOpaque(m: Mode, s: Bytes)
    requires ReadOpaque(m, s).Ok?
    ensures var r := ReadOpaque(m, s); Spells(Counting(|r.v|, Good(Padded(r.v))), s, r.n, m.Strict?)
  {
    U32Inverse(s);
    CanonFixed(m, U32(s), s[4..]);
    PrefixJoin(s, 4, ReadOpaque(m, s).n);
  }

  lemma CanonScalar(k: Kind, s: Bytes)
    requires ReadScalar(k, s).Ok?
    ensures var r := ReadScalar(k, s); r.v.VInt? && InRange(k, r.v.i) && EncScalar(k, r.v.i) == s[..r.n]
  {
    hide Be32, Be64, U32, U64;
    U32Inverse(s);
    if Wide(k) { U64Inverse(s); }
    var w := if Wide(k) then U64(s) else U32(s);
    assert Word(k, FromWord(k, w)) == w;
  }

  lemma CanonDisc(s: Bytes)
    requires 4 <= |s|
    ensures IsI32(FromWord(I32, U32(s))) && EncScalar(I32, FromWord(I32, U32(s))) == s[..4]
  {
    CanonScalar(I32, s);
  }

  lemma CanonPrim(m: Mode, b: nat, p: Prim, s: Bytes)
    requires DecPrim(m, b, p, s).Ok?
    ensures var r := DecPrim(m, b, p, s); Spells(EncPrim(p, r.v), s, r.n, m.Strict?)
  {
    hide ReadFixed, ReadOpaque, ReadScalar, Be32, U32, EncScalar, Counting, Padded, ValidUtf8;
    match p
    case Bool => U32Inverse(s);
    case Scalar(k) => CanonScalar(k, s);
    case Str => CanonOpaque(m, s);
    case Opaque => CanonOpaque(m, s);
    case Fixed(len) => CanonFixed(m, len, s);
    case Unit =>
    case DiscEnum(_) =>
      CanonDisc(s);
  }

  /** Two stretches, one after the other, spell the whole. */
  lemma SpellsJoin(a: Bytes, e: Result<Bytes>, s: Bytes, k: nat, n: nat, exact: bool)
    requires k <= |s| && |a| == k && (exact ==> a == s[..k]) && Spells(e, s[k..], n, exact)
    ensures Spells(Join(a, e), s, k + n, exact)
  {
    PrefixJoin(s, k, k + n);
  }

  /** The arm a discriminant selects is one that encodes, and encodes with that discriminant. */
  lemma CanonTag(t: Ty, s: Bytes, vs: seq<Val>)
    requires 4 <= |s| && Lookup(t, U32(s)).Head?
    ensures var h := Lookup(t, U32(s)).v; var v := WithFields(h, vs);
      && TagOk(t, v) && TagFree(t, v) && Be32(TagWord(t, v)) == s[..4]
      && ArmTys(t, v) == ArmTys(t, h) && (v.VArm? || v.VDefault?) && v.vs == vs
  {
    U32Inverse(s);
    CanonDisc(s);
  }

  lemma {:induction false} Canon(env: Env, m: Mode, b: nat, t: Ty, s: Bytes)
    requires Dec(env, m, b, t, s).Ok?
    ensures var r := Dec(env, m, b, t, s);
      Spells(Enc(env, t, r.v), s, r.n, m.Strict? || t.ArrayRef? || t.ListRef?)
    decreases b, if t.Rec? then 2 else 1, 1
  {
    hide DecPrim, EncPrim, DecSeq, DecFields, DecList, EncElems, EncFields, Lookup, U32, Be32, Units;
    var r := Dec(env, m, b, t, s);
    if t.Leaf? {
      CanonPrim(m, b, t.p, s);
    } else if t.Optional? {
      U32Inverse(s);
      if r.v.VSome? {
        Canon(env, m, b - 1, t.t, s[4..]);
        SpellsJoin(Be32(1), Enc(env, t.t, r.v.v), s, 4, r.n - 4, m.Strict?);
      }
    } else if t.Newtype? {
      Canon(env, m, b - 1, t.t, s);
    } else if t.Bounded? {
      CountedTakesAUnit(env, m, b - 1, t.t, s);
      Canon(env, m, b - 1, t.t, s);
    } else if t.Rec? {
      Canon(env, m, b, env.defs[t.name], s);
    } else {
      CanonParts(env, m, b, t, s);
    }
  }

  lemma {:induction false} CanonParts(env: Env, m: Mode, b: nat, t: Ty, s: Bytes)
    requires t.Seq? || t.Record? || t.ArrayRef? || t.ListRef? || t.IndexEnum? || t.Union?
    requires Dec(env, m, b, t, s).Ok?
    ensures var r := Dec(env, m, b, t, s);
      Spells(Enc(env, t, r.v), s, r.n, m.Strict? || t.ArrayRef? || t.ListRef?)
    decreases b, 1, 0
  {
    hide DecFields, DecList, DecElems, EncElems, EncFields, Lookup, U32, Be32, TagOk, TagFree, ArmTys, TagWord, WithFields;
    var r := Dec(env, m, b, t, s);
    if t.Seq? || t.ArrayRef? { U32Inverse(s); }
    if t.Seq? {
      CanonElems(env, m, b - 1, t.t, U32(s), s[4..]);
      SpellsJoin(Be32(|r.v.vs|), EncElems(env, t.t, r.v.vs), s, 4, r.n - 4, m.Strict?);
    } else if t.Record? {
      CanonFields(env, m, b - 1, t.ts, s);
    } else if t.ArrayRef? {
      PrefixJoin(s, 4, r.n);
      assert Padded(r.v.encoded) == s[4..][..r.n - 4];
    } else if t.ListRef? {
      assert Padded(r.v.encoded) == s[..r.n];
    } else {
      CanonTagged(env, m, b, t, s);
    }
  }

  lemma {:induction false} CanonTagged(env: Env, m: Mode, b: nat, t: Ty, s: Bytes)
    requires (t.IndexEnum? || t.Union?) && Dec(env, m, b, t, s).Ok?
    ensures var r := Dec(env, m, b, t, s); Spells(Enc(env, t, r.v), s, r.n, m.Strict?)
    decreases b, 0, 0
  {
    hide Dec, DecFields, EncFields, Lookup, U32, Be32, TagFree, TagWord, Units;
    TaggedRoom(env, m, b, t, s);
    TaggedCons(env, m, b, t, s);
    var r, ts := Dec(env, m, b, t, s), ArmTys(t, Lookup(t, U32(s)).v);
    var vs := DecFields(env, m, b - 1, ts, s[4..]).v;
    CanonTag(t, s, vs);
    CanonFields(env, m, b - 1, ts, s[4..]);
    SpellsJoin(s[..4], EncFields(env, ts, vs), s, 4, r.n - 4, m.Strict?);
  }

  lemma {:induction false} CanonElems(env: Env, m: Mode, b: nat, t: Ty, count: nat, s: Bytes)
    requires DecElems(env, m, b, t, count, s).Ok?
    ensures var r := DecElems(env, m, b, t, count, s); Spells(EncElems(env, t, r.v), s, r.n, m.Strict?)
    decreases b, 3, count
  {
    hide Dec, Enc;
    if count > 0 {
      var x := Dec(env, m, b, t, s);
      Canon(env, m, b, t, s);
      CanonElems(env, m, b, t, count - 1, s[x.n..]);
      var r := DecElems(env, m, b, t, count, s);
      assert r.v[1..] == DecElems(env, m, b, t, count - 1, s[x.n..]).v;
      SpellsJoin(Enc(env, t, x.v).value, EncElems(env, t, r.v[1..]), s, x.n, r.n - x.n, m.Strict?);
    }
  }

  lemma {:induction false} CanonFields(env: Env, m: Mode, b: nat, ts: seq<Ty>, s: Bytes)
    requires DecFields(env, m, b, ts, s).Ok?
    ensures var r := DecFields(env, m, b, ts, s); Spells(EncFields(env, ts, r.v), s, r.n, m.Strict?)
    decreases b, 3, |ts|
  {
    hide Dec, Enc;
    if ts != [] {
      var x := Dec(env, m, b, ts[0], s);
      Canon(env, m, b, ts[0], s);
      CanonFields(env, m, b, ts[1..], s[x.n..]);
      var r := DecFields(env, m, b, ts, s);
      assert r.v[1..] == DecFields(env, m, b, ts[1..], s[x.n..]).v;
      SpellsJoin(Enc(env, ts[0], x.v).value, EncFields(env, ts[1..], r.v[1..]), s, x.n, r.n - x.n, m.Strict?);
    }
  }
}
