/** Input that stops short: a value cut anywhere is reported as such, and never read as another value. */
module XdrCut {
  import opened Wire
  import opened XdrSchema
  import opened XdrDecode
  import opened XdrLocal

  /** `r` is what `full` becomes when its input is cut to `k` bytes: the same, or a report that bytes are missing;
      and with `room` in its elements, of no more bytes than are missing. */
  predicate Short<T(==)>(full: Read<T>, r: Read<T>, k: nat, room: bool) {
    r == full || (r.Err? && r.e.Eof? && r.e.need > 0 && (room && full.Ok? ==> k + r.e.need <= full.n))
  }

  lemma CutDrop(s: Bytes, k: nat, n: nat)
    requires n <= k <= |s|
    ensures s[..k][n..] == s[n..][..k - n] && s[..k][..n] == s[..n]
  {
  }

  lemma CutWord(s: Bytes, k: nat)
    requires 4 <= k <= |s|
    ensures U32(s[..k]) == U32(s) && (k >= 8 ==> U64(s[..k]) == U64(s))
  {
    assert Agree(s, s[..k], k);
    AgreeWords(s, s[..k], k);
  }

  lemma CutFixed(m: Mode, len: nat, s: Bytes, k: nat)
    requires k <= |s| && ReadFixed(m, len, s).Ok?
    ensures Short(ReadFixed(m, len, s), ReadFixed(m, len, s[..k]), k, true)
  {
    hide Units;
    var p := Pad4(len);
    if len + p <= k {
      CutDrop(s, k, len);
      assert s[..k][len..len + p] == s[len..len + p];
    }
  }

  lemma CutOpaque(m: Mode, s: Bytes, k: nat)
    requires k <= |s| && ReadOpaque(m, s).Ok?
    ensures Short(ReadOpaque(m, s), ReadOpaque(m, s[..k]), k, true)
  {
    hide ReadFixed, U32, Units;
    if k >= 4 {
      CutWord(s, k);
      CutDrop(s, k, 4);
      CutFixed(m, U32(s), s[4..], k - 4);
    }
  }

  lemma CutPrim(m: Mode, b: nat, p: Prim, s: Bytes, k: nat)
    requires k <= |s| && DecPrim(m, b, p, s).Ok?
    ensures Short(DecPrim(m, b, p, s), DecPrim(m, b, p, s[..k]), k, true)
  {
    hide ReadFixed, ReadOpaque, U32, U64, Units, ValidUtf8, FromDisc, FromWord, InRange;
    if k >= 4 { CutWord(s, k); }
    match p
    case Str => CutOpaque(m, s, k);
    case Opaque => CutOpaque(m, s, k);
    case Fixed(len) => CutFixed(m, len, s, k);
    case _ =>
  }

  /** A value that was read, read again from the first `k` bytes of its input: it is the same, or the bytes that
      are missing are asked for, and nothing else happens. */
  lemma {:induction false} Cut(env: Env, m: Mode, b: nat, t: Ty, s: Bytes, k: nat, room: bool)
    requires k <= |s| && Dec(env, m, b, t, s).Ok? && (room ==> DenseEnv(env) && Dense(env, t))
    ensures Short(Dec(env, m, b, t, s), Dec(env, m, b, t, s[..k]), k, room)
    decreases b, if t.Rec? then 2 else 1, 2
  {
    hide DecPrim, DecSeq, DecFields, DecList, Lookup, U32, Units, Solid, AllDense;
    match t
    case Leaf(p) => CutPrim(m, b, p, s, k);
    case Optional(u) => CutOptional(env, m, b, u, s, k, room);
    case Newtype(u) => Cut(env, m, b - 1, u, s, k, room);
    case Bounded(_, u) =>
      if k >= 4 { CutWord(s, k); }
      Cut(env, m, b - 1, u, s, k, room);
    case Rec(n) => Cut(env, m, b, env.defs[n], s, k, room);
    case _ => CutParts(env, m, b, t, s, k, room);
  }

  lemma {:induction false} CutOptional(env: Env, m: Mode, b: nat, t: Ty, s: Bytes, k: nat, room: bool)
    requires k <= |s| && Dec(env, m, b, Optional(t), s).Ok? && (room ==> DenseEnv(env) && Dense(env, t))
    ensures Short(Dec(env, m, b, Optional(t), s), Dec(env, m, b, Optional(t), s[..k]), k, room)
    decreases b, 1, 1
  {
    hide Dec, U32, Units, Dense, DenseEnv;
    OptionalCons(env, m, b, t, s);
    OptionalCons(env, m, b, t, s[..k]);
    if k >= 4 {
      CutWord(s, k);
      CutDrop(s, k, 4);
      if ReadBool(m, s).v { Cut(env, m, b - 1, t, s[4..], k - 4, room); }
    }
  }

  lemma {:induction false} CutParts(env: Env, m: Mode, b: nat, t: Ty, s: Bytes, k: nat, room: bool)
    requires t.Seq? || t.Record? || t.ArrayRef? || t.ListRef? || t.IndexEnum? || t.Union?
    requires k <= |s| && Dec(env, m, b, t, s).Ok? && (room ==> DenseEnv(env) && Dense(env, t))
    ensures Short(Dec(env, m, b, t, s), Dec(env, m, b, t, s[..k]), k, room)
    decreases b, 1, 0
  {
    hide DecSeq, DecFields, DecList, Lookup, U32, Units, TagOk, ArmTys, AllDense, Solid;
    if t.Seq? {
      CutSeq(env, m, b, t.t, s, k, room);
    } else if t.Record? {
      CutFields(env, m, b - 1, t.ts, s, k, room);
    } else if t.ArrayRef? {
      CutArrayRef(env, m, b, t.t, s, k, room);
    } else if t.ListRef? {
      CutListRef(env, m, b, t.t, s, k, room);
    } else {
      CutTagged(env, m, b, t, s, k, room);
    }
  }

  lemma {:induction false} CutArrayRef(env: Env, m: Mode, b: nat, t: Ty, s: Bytes, k: nat, room: bool)
    requires k <= |s| && Dec(env, m, b, ArrayRef(t), s).Ok? && (room ==> DenseEnv(env) && Dense(env, Seq(t)))
    ensures Short(Dec(env, m, b, ArrayRef(t), s), Dec(env, m, b, ArrayRef(t), s[..k]), k, room)
    decreases b, 0, 1
  {
    hide Dec, DecSeq, U32, Units, Dense, DenseEnv;
    ArrayCons(env, m, b, t, s);
    ArrayCons(env, m, b, t, s[..k]);
    CutSeq(env, m, b - 1, t, s, k, room);
    var n := Dec(env, m, b, ArrayRef(t), s).n;
    if n <= k { assert s[..k][4..n] == s[4..n]; }
  }

  lemma {:induction false} CutListRef(env: Env, m: Mode, b: nat, t: Ty, s: Bytes, k: nat, room: bool)
    requires k <= |s| && Dec(env, m, b, ListRef(t), s).Ok? && (room ==> DenseEnv(env) && Dense(env, t))
    ensures Short(Dec(env, m, b, ListRef(t), s), Dec(env, m, b, ListRef(t), s[..k]), k, room)
    decreases b, 0, 1
  {
    hide Dec, DecList, U32, Units, Dense, DenseEnv;
    ListRefCons(env, m, b, t, s);
    ListRefCons(env, m, b, t, s[..k]);
    CutList(env, m, b - 2, t, s, k, room);
    var n := Dec(env, m, b, ListRef(t), s).n;
    if n <= k { assert s[..k][..n] == s[..n]; }
  }

  lemma TagMissing(env: Env, m: Mode, b: nat, t: Ty, s: Bytes)
    requires (t.IndexEnum? || t.Union?) && |s| < 4 && b > 0
    ensures Dec(env, m, b, t, s) == Err(Eof(4 - |s|))
  {
  }

  lemma {:induction false} CutTagged(env: Env, m: Mode, b: nat, t: Ty, s: Bytes, k: nat, room: bool)
    requires t.IndexEnum? || t.Union?
    requires k <= |s| && Dec(env, m, b, t, s).Ok? && (room ==> DenseEnv(env) && Dense(env, t))
    ensures Short(Dec(env, m, b, t, s), Dec(env, m, b, t, s[..k]), k, room)
    decreases b, 0, 1
  {
    hide Dec, DecFields, Lookup, U32, Units, TagOk, ArmTys, Dense, DenseEnv;
    TaggedRoom(env, m, b, t, s);
    TaggedCons(env, m, b, t, s);
    if k < 4 {
      TagMissing(env, m, b, t, s[..k]);
    } else {
      CutWord(s, k);
      CutDrop(s, k, 4);
      TaggedCons(env, m, b, t, s[..k]);
      var h := Lookup(t, U32(s)).v;
      ArmsDense(env, t, h);
      CutFields(env, m, b - 1, ArmTys(t, h), s[4..], k - 4, room);
    }
  }

  lemma CountMissing(env: Env, m: Mode, b: nat, t: Ty, s: Bytes)
    requires |s| < 4
    ensures DecSeq(env, m, b, t, s) == Err(Eof(4 - |s|))
  {
  }

  lemma {:induction false} CutSeq(env: Env, m: Mode, b: nat, t: Ty, s: Bytes, k: nat, room: bool)
    requires k <= |s| && DecSeq(env, m, b, t, s).Ok? && (room ==> DenseEnv(env) && Dense(env, Seq(t)))
    ensures Short(DecSeq(env, m, b, t, s), DecSeq(env, m, b, t, s[..k]), k, room)
    decreases b, 0, 0
  {
    hide DecSeq, DecElems, U32, Units, DenseEnv, Solid;
    SeqRoom(env, m, b, t, s);
    SeqIs(env, m, b, t, s);
    if k < 4 {
      CountMissing(env, m, b, t, s[..k]);
    } else {
      CutWord(s, k);
      CutDrop(s, k, 4);
      SeqIs(env, m, b, t, s[..k]);
      CutElems(env, m, b - 1, t, U32(s), s[4..], k - 4, room);
      if room { ElemsTakeUnits(env, m, b - 1, t, U32(s), s[4..]); }
    }
  }

  lemma {:induction false} CutElems(env: Env, m: Mode, b: nat, t: Ty, count: nat, s: Bytes, k: nat, room: bool)
    requires k <= |s| && DecElems(env, m, b, t, count, s).Ok? && (room ==> DenseEnv(env) && Dense(env, t))
    ensures Short(DecElems(env, m, b, t, count, s), DecElems(env, m, b, t, count, s[..k]), k, room)
    decreases b, 3, count
  {
    hide Dec, DecElems, Units, Dense, DenseEnv;
    ElemsCons(env, m, b, t, count, s);
    ElemsCons(env, m, b, t, count, s[..k]);
    if count > 0 {
      var x, y := Dec(env, m, b, t, s), Dec(env, m, b, t, s[..k]);
      Cut(env, m, b, t, s, k, room);
      if y.Ok? {
        CutDrop(s, k, x.n);
        CutElems(env, m, b, t, count - 1, s[x.n..], k - x.n, room);
      }
    }
  }

  lemma {:induction false} CutFields(env: Env, m: Mode, b: nat, ts: seq<Ty>, s: Bytes, k: nat, room: bool)
    requires k <= |s| && DecFields(env, m, b, ts, s).Ok? && (room ==> DenseEnv(env) && AllDense(env, ts))
    ensures Short(DecFields(env, m, b, ts, s), DecFields(env, m, b, ts, s[..k]), k, room)
    decreases b, 3, |ts|
  {
    hide Dec, DecFields, Units, Dense, DenseEnv;
    FieldsCons(env, m, b, ts, s);
    FieldsCons(env, m, b, ts, s[..k]);
    if ts != [] {
      var x, y := Dec(env, m, b, ts[0], s), Dec(env, m, b, ts[0], s[..k]);
      Cut(env, m, b, ts[0], s, k, room);
      if y.Ok? {
        CutDrop(s, k, x.n);
        CutFields(env, m, b, ts[1..], s[x.n..], k - x.n, room);
      }
    }
  }

  lemma {:induction false} CutList(env: Env, m: Mode, b: nat, t: Ty, s: Bytes, k: nat, room: bool)
    requires k <= |s| && DecList(env, m, b, t, s).Ok? && (room ==> DenseEnv(env) && Dense(env, t))
    ensures Short(DecList(env, m, b, t, s), DecList(env, m, b, t, s[..k]), k, room)
    decreases b, 3, |s|
  {
    hide Dec, DecList, Units, Dense, DenseEnv;
    ListCons(env, m, b, t, s);
    ListCons(env, m, b, t, s[..k]);
    var x, y := Dec(env, m, b, Optional(t), s), Dec(env, m, b, Optional(t), s[..k]);
    CutOptional(env, m, b, t, s, k, room);
    if y.Ok? && x.v.VSome? {
      CutDrop(s, k, x.n);
      CutList(env, m, b, t, s[x.n..], k - x.n, room);
    }
  }

  /** Every value, mode and depth. Cut anywhere before its last byte, a value asks for bytes that are missing; and
      if array elements take up room, for no more of them than are. */
  lemma CutShort(env: Env, m: Mode, b: nat, t: Ty, s: Bytes, k: nat)
    requires Dec(env, m, b, t, s).Ok? && k < Dec(env, m, b, t, s).n
    ensures var r := Dec(env, m, b, t, s[..k]);
      && r.Err? && r.e.Eof? && r.e.need > 0
      && (DenseEnv(env) && Dense(env, t) ==> k + r.e.need <= Dec(env, m, b, t, s).n)
  {
    hide Dec, Dense, DenseEnv, Units;
    Cut(env, m, b, t, s, k, DenseEnv(env) && Dense(env, t));
  }
}
