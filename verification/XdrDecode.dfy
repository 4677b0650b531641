/** Type-driven decoding: what a `T::deserialize` reads from the front of its input, and how many bytes
    it takes. `b` is the nesting still allowed, the decoder's `max_depth` less its `depth`. */
module XdrDecode {
  import opened Wire
  import opened XdrSchema

  datatype Mode = Lenient | Strict

  datatype Read<+T> = Ok(v: T, n: nat) | Err(e: Error)

  /** A read that stays within its input and takes whole units. */
  predicate Inside<T>(r: Read<T>, s: Bytes) { r.Ok? ==> r.n <= |s| && Units(r.n) }

  function Plus<T>(k: nat, r: Read<T>): Read<T> { if r.Ok? then Ok(r.v, k + r.n) else r }

  /** What is inside the input after its first unit is, with that unit, inside the input. */
  lemma UnitMore<T>(r: Read<T>, s: Bytes)
    requires |s| >= 4 && Inside(r, s[4..])
    ensures Inside(Plus(4, r), s)
  {
    if r.Ok? { UnitsOne(); UnitsSum(4, r.n); }
  }

  /** Any non-zero word is true unless strict, where only 1 is. */
  function ReadBool(mode: Mode, s: Bytes): (r: Read<bool>)
    ensures Inside(r, s)
  {
    if |s| < 4 then Err(Eof(4 - |s|))
    else if mode.Strict? && U32(s) > 1 then Err(InvalidBool(U32(s)))
    else Ok(U32(s) != 0, 4)
  }

  function FromWord(k: Kind, w: int): int { if Signed(k) && 2 * w >= Modulus(k) then w - Modulus(k) else w }

  function ReadScalar(k: Kind, s: Bytes): (r: Read<Val>)
    ensures Inside(r, s)
  {
    var width := if Wide(k) then 8 else 4;
    if |s| < width then Err(Eof(width - |s|)) else
    var x := FromWord(k, if Wide(k) then U64(s) else U32(s));
    if InRange(k, x) then Ok(VInt(x), width) else Err(Range)
  }

  /** `n` bytes and the padding after them. */
  function ReadFixed(mode: Mode, n: nat, s: Bytes): (r: Read<Bytes>)
    ensures Inside(r, s)
  {
    var p := Pad4(n);
    if |s| < n then Err(Eof(n - |s|))
    else if |s| < n + p then Err(Eof(n + p - |s|))
    else if mode.Strict? && s[n..n + p] != Zeros(p) then Err(NonZeroPadding)
    else Ok(s[..n], n + p)
  }

  /** A counted body: length, bytes, padding. */
  function ReadOpaque(mode: Mode, s: Bytes): (r: Read<Bytes>)
    ensures Inside(r, s)
  {
    hide U32, ReadFixed, Units;
    if |s| < 4 then Err(Eof(4 - |s|)) else
    var r := ReadFixed(mode, U32(s), s[4..]);
    UnitMore(r, s); Plus(4, r)
  }

  function ReadStr(mode: Mode, s: Bytes): (r: Read<Bytes>)
    ensures Inside(r, s)
  {
    var r := ReadOpaque(mode, s);
    if r.Err? then r
    else if !ValidUtf8(r.v) then Err(Utf8)
    else if mode.Strict? && 0 in r.v then Err(EmbeddedNul)
    else r
  }

  /** The first position of `d`, or the length if there is none. */
  function IndexOf(discs: seq<int>, d: int): (i: nat)
    ensures i <= |discs|
    ensures i < |discs| ==> discs[i] == d
    ensures forall j :: 0 <= j < i ==> discs[j] != d
  {
    if discs == [] || discs[0] == d then 0 else 1 + IndexOf(discs[1..], d)
  }

  datatype Head = NoArm | Head(v: Val)

  /** The value of an `XdrEnum`, or of a default arm's first field, that a discriminant stands for. */
  function FromDisc(p: Prim, d: int): (h: Head)
    requires IsI32(d)
    ensures h.Head? ==> FirstOk(p, h.v) && FirstDisc(p, h.v) == d
  {
    if p == Scalar(I32) then Head(VInt(d))
    else if p.DiscEnum? && IndexOf(p.discs, d) < |p.discs| then Head(VArm(IndexOf(p.discs, d), []))
    else NoArm
  }

  /** The arm a discriminant selects, with its fields still to be read. */
  function Lookup(t: Ty, w: int): (h: Head)
    requires 0 <= w < TWO32
    ensures h.Head? ==> TagOk(t, h.v) && h.v.vs == []
  {
    var d := FromWord(I32, w);
    match t
    case IndexEnum(arms) => if w < |arms| then Head(VArm(w, [])) else NoArm
    case Union(discs, arms, dflt) =>
      var i := IndexOf(discs, d);
      if i < |discs| then (if i < |arms| then Head(VArm(i, [])) else NoArm)
      else if dflt.NoDefault? then NoArm
      else
        var first := FromDisc(dflt.first, d);
        if first.Head? then Head(VDefault(first.v, [])) else NoArm
    case _ => NoArm
  }

  function WithFields(h: Val, vs: seq<Val>): Val {
    if h.VArm? then VArm(h.idx, vs) else if h.VDefault? then VDefault(h.first, vs) else h
  }

  function MapVal<T>(r: Read<T>, f: T -> Val): Read<Val> { if r.Err? then Err(r.e) else Ok(f(r.v), r.n) }

  function DecPrim(mode: Mode, b: nat, p: Prim, s: Bytes): (r: Read<Val>)
    ensures Inside(r, s)
  {
    match p
    case Bool => MapVal(ReadBool(mode, s), x => VBool(x))
    case Scalar(k) => ReadScalar(k, s)
    case Str => MapVal(ReadStr(mode, s), x => VBytes(x))
    case Opaque => MapVal(ReadOpaque(mode, s), x => VBytes(x))
    case Fixed(len) => if b == 0 then Err(RecursionLimit) else MapVal(ReadFixed(mode, len, s), x => VBytes(x))
    case Unit => Ok(VUnit, 0)
    case DiscEnum(_) =>
      if |s| < 4 then Err(Eof(4 - |s|)) else
      var h := FromDisc(p, FromWord(I32, U32(s)));
      if h.NoArm? then Err(Message) else Ok(h.v, 4)
  }

  function Dec(env: Env, mode: Mode, b: nat, t: Ty, s: Bytes): (r: Read<Val>)
    ensures Inside(r, s)
    decreases b, if t.Rec? then 2 else 1, 0
  {
    hide U32, DecPrim, Lookup, Units;
    UnitsOne();
    match t
    case Leaf(p) => DecPrim(mode, b, p, s)
    case Optional(u) =>
      var r := ReadBool(mode, s);
      if r.Err? then Err(r.e) else if !r.v then Ok(VNone, 4) else if b == 0 then Err(RecursionLimit) else
      var x := Dec(env, mode, b - 1, u, s[4..]);
      if x.Err? then x else UnitsSum(4, x.n); Ok(VSome(x.v), 4 + x.n)
    case Newtype(u) => if b == 0 then Err(RecursionLimit) else Dec(env, mode, b - 1, u, s)
    case Seq(u) =>
      var r := DecSeq(env, mode, b, u, s);
      if r.Err? then Err(r.e) else Ok(VSeq(r.v), r.n)
    case Record(_, ts) =>
      if b == 0 then Err(RecursionLimit) else
      var r := DecFields(env, mode, b - 1, ts, s);
      if r.Err? then Err(r.e) else Ok(VSeq(r.v), r.n)
    case Bounded(max, u) =>
      // The bound is held against the length the value begins with, before anything that length covers.
      if !Counted(u) then Err(Mistyped)
      else if b == 0 || (u.ArrayRef? && b == 1) then Err(RecursionLimit)
      else if |s| >= 4 && U32(s) > max then Err(TooLong(U32(s), max))
      else Dec(env, mode, b - 1, u, s)
    case ArrayRef(u) =>
      if b == 0 then Err(RecursionLimit) else
      var r := DecSeq(env, mode, b - 1, u, s);
      if r.Err? then Err(r.e) else Ok(VRef(|r.v|, s[4..r.n]), r.n)
    case ListRef(u) =>
      if b <= 1 then Err(RecursionLimit) else
      var r := DecList(env, mode, b - 2, u, s);
      if r.Err? then Err(r.e) else Ok(VRef(|r.v|, s[..r.n]), r.n)
    case Rec(n) =>
      if n !in env.defs || env.defs[n].Rec? then Err(Mistyped) else
      var r := Dec(env, mode, b, env.defs[n], s);
      if r.Err? then r else Ok(VBox(r.v), r.n)
    case _ =>
      // A union's discriminant is its first element; a stock enum's is read before the level is entered.
      if t.Union? && b == 0 then Err(RecursionLimit)
      else if |s| < 4 then Err(Eof(4 - |s|))
      else if b == 0 then Err(RecursionLimit) else
      var h := Lookup(t, U32(s));
      if h.NoArm? then Err(Message) else
      var r := DecFields(env, mode, b - 1, ArmTys(t, h.v), s[4..]);
      if r.Err? then Err(r.e) else UnitsSum(4, r.n); Ok(WithFields(h.v, r.v), 4 + r.n)
  }

  /** A count, then that many elements. A count the input cannot hold at one unit each is refused first. */
  function DecSeq(env: Env, mode: Mode, b: nat, t: Ty, s: Bytes): (r: Read<seq<Val>>)
    ensures Inside(r, s) && (r.Ok? ==> 4 <= r.n && |r.v| == U32(s))
    decreases b, 0, 0
  {
    hide Dec, DecElems, U32, Units;
    if |s| < 4 then Err(Eof(4 - |s|))
    else if U32(s) > (|s| - 4) / 4 then Err(Eof(U32(s) * 4 - (|s| - 4)))
    else if b == 0 then Err(RecursionLimit)
    else
      var r := DecElems(env, mode, b - 1, t, U32(s), s[4..]);
      UnitMore(r, s); Plus(4, r)
  }

  function DecElems(env: Env, mode: Mode, b: nat, t: Ty, count: nat, s: Bytes): (r: Read<seq<Val>>)
    ensures Inside(r, s) && (r.Ok? ==> |r.v| == count)
    decreases b, 3, count
  {
    hide Dec, DecElems, Units;
    if count == 0 then Ok([], 0) else
    var x := Dec(env, mode, b, t, s);
    if x.Err? then Err(x.e) else
    assert |s[x.n..]| == |s| - x.n;
    var r := DecElems(env, mode, b, t, count - 1, s[x.n..]);
    if r.Err? then r else UnitsSum(x.n, r.n); Ok([x.v] + r.v, x.n + r.n)
  }

  function DecFields(env: Env, mode: Mode, b: nat, ts: seq<Ty>, s: Bytes): (r: Read<seq<Val>>)
    ensures Inside(r, s) && (r.Ok? ==> |r.v| == |ts|)
    decreases b, 3, |ts|
  {
    hide Dec, DecFields, Units;
    if ts == [] then Ok([], 0) else
    var x := Dec(env, mode, b, ts[0], s);
    if x.Err? then Err(x.e) else
    assert |s[x.n..]| == |s| - x.n && |ts[1..]| == |ts| - 1;
    var r := DecFields(env, mode, b, ts[1..], s[x.n..]);
    if r.Err? then r else UnitsSum(x.n, r.n); Ok([x.v] + r.v, x.n + r.n)
  }

  /** Elements each behind a true boolean, up to the boolean that is false. */
  function DecList(env: Env, mode: Mode, b: nat, t: Ty, s: Bytes): (r: Read<seq<Val>>)
    ensures Inside(r, s) && (r.Ok? ==> 4 * |r.v| + 4 <= r.n)
    decreases b, 3, |s|
  {
    hide DecElems, DecFields, DecSeq, DecList, DecPrim, Lookup, U32, Units;
    var x := Dec(env, mode, b, Optional(t), s);
    if x.Err? then Err(x.e)
    else if x.v.VNone? then Ok([], x.n)
    else
      var r := DecList(env, mode, b, t, s[x.n..]);
      if r.Err? then r else UnitsSum(x.n, r.n); Ok([x.v.v] + r.v, x.n + r.n)
  }

  /** A read that must take up the whole input. */
  function Exactly<T>(r: Read<T>, s: Bytes): (x: Result<T>)
    requires Inside(r, s)
  {
    if r.Err? then Bad(r.e) else if r.n == |s| then Good(r.v) else Bad(TrailingBytes(|s| - r.n))
  }

  /** A read continued after `vs` took `k` bytes. */
  function Prepend(vs: seq<Val>, k: nat, r: Read<seq<Val>>): Read<seq<Val>> {
    if r.Err? then r else Ok(vs + r.v, k + r.n)
  }

  lemma PrependNone(r: Read<seq<Val>>)
    ensures Prepend([], 0, r) == r
  {
    if r.Ok? { assert [] + r.v == r.v; }
  }

  lemma PrependOne(vs: seq<Val>, k: nat, x: Val, n: nat, r: Read<seq<Val>>)
    ensures Prepend(vs, k, Prepend([x], n, r)) == Prepend(vs + [x], k + n, r)
  {
    if r.Ok? { assert vs + ([x] + r.v) == vs + [x] + r.v; }
  }

  lemma PrependEnd(vs: seq<Val>, k: nat, n: nat, e: Error)
    ensures Prepend(vs, k, Ok([], n)) == Ok(vs, k + n) && Prepend(vs, k, Err(e)) == Err(e)
  {
    assert vs + [] == vs;
  }

  /** One element, then the others. */
  function Cons(x: Read<Val>, r: Read<seq<Val>>): Read<seq<Val>> {
    if x.Err? then Err(x.e) else Prepend([x.v], x.n, r)
  }

  function Rest(x: Read<Val>, s: Bytes): Bytes { if x.Ok? && x.n <= |s| then s[x.n..] else [] }

  lemma ElemsCons(env: Env, mode: Mode, b: nat, t: Ty, count: nat, s: Bytes)
    ensures DecElems(env, mode, b, t, count, s) ==
      if count == 0 then Ok([], 0)
      else var x := Dec(env, mode, b, t, s); Cons(x, DecElems(env, mode, b, t, count - 1, Rest(x, s)))
  {
    hide Dec;
  }

  lemma FieldsCons(env: Env, mode: Mode, b: nat, ts: seq<Ty>, s: Bytes)
    ensures DecFields(env, mode, b, ts, s) ==
      if ts == [] then Ok([], 0)
      else var x := Dec(env, mode, b, ts[0], s); Cons(x, DecFields(env, mode, b, ts[1..], Rest(x, s)))
  {
    hide Dec;
  }

  lemma ListCons(env: Env, mode: Mode, b: nat, t: Ty, s: Bytes)
    ensures var x := Dec(env, mode, b, Optional(t), s);
      && (x.Ok? ==> (x.v.VNone? || x.v.VSome?) && x.n >= UNIT)
      && DecList(env, mode, b, t, s) ==
         if x.Err? then Err(x.e) else if x.v.VNone? then Ok([], x.n)
         else Cons(Ok(x.v.v, x.n), DecList(env, mode, b, t, s[x.n..]))
  {
    hide DecPrim, DecElems, DecFields, DecSeq, Lookup, U32;
  }

  /** One turn of the loops that read elements, fields and links: what is read after `vs`, which took `k`. */
  lemma ElemsNext(env: Env, mode: Mode, b: nat, t: Ty, count: nat, s: Bytes, vs: seq<Val>, k: nat)
    requires count > 0
    ensures var x := Dec(env, mode, b, t, s);
      Prepend(vs, k, DecElems(env, mode, b, t, count, s)) ==
        if x.Err? then Err(x.e) else Prepend(vs + [x.v], k + x.n, DecElems(env, mode, b, t, count - 1, s[x.n..]))
  {
    hide Dec, DecElems;
    ElemsCons(env, mode, b, t, count, s);
    var x := Dec(env, mode, b, t, s);
    if x.Ok? { PrependOne(vs, k, x.v, x.n, DecElems(env, mode, b, t, count - 1, s[x.n..])); }
  }

  lemma FieldsNext(env: Env, mode: Mode, b: nat, ts: seq<Ty>, s: Bytes, vs: seq<Val>, k: nat)
    requires ts != []
    ensures var x := Dec(env, mode, b, ts[0], s);
      Prepend(vs, k, DecFields(env, mode, b, ts, s)) ==
        if x.Err? then Err(x.e) else Prepend(vs + [x.v], k + x.n, DecFields(env, mode, b, ts[1..], s[x.n..]))
  {
    hide Dec, DecFields;
    FieldsCons(env, mode, b, ts, s);
    var x := Dec(env, mode, b, ts[0], s);
    if x.Ok? { PrependOne(vs, k, x.v, x.n, DecFields(env, mode, b, ts[1..], s[x.n..])); }
  }

  lemma ListNext(env: Env, mode: Mode, b: nat, t: Ty, s: Bytes, vs: seq<Val>, k: nat)
    ensures var x := Dec(env, mode, b, Optional(t), s);
      && (x.Ok? ==> (x.v.VNone? || x.v.VSome?) && x.n >= UNIT)
      && Prepend(vs, k, DecList(env, mode, b, t, s)) ==
         if x.Err? then Err(x.e) else if x.v.VNone? then Ok(vs, k + x.n)
         else Prepend(vs + [x.v.v], k + x.n, DecList(env, mode, b, t, s[x.n..]))
  {
    hide Dec, DecList;
    ListCons(env, mode, b, t, s);
    var x := Dec(env, mode, b, Optional(t), s);
    if x.Ok? && x.v.VSome? { PrependOne(vs, k, x.v.v, x.n, DecList(env, mode, b, t, s[x.n..])); }
    else if x.Ok? { PrependEnd(vs, k, x.n, Range); }
  }

  lemma SeqCons(env: Env, mode: Mode, b: nat, t: Ty, s: Bytes)
    ensures Dec(env, mode, b, Seq(t), s) ==
      var r := DecSeq(env, mode, b, t, s);
      if r.Err? then Err(r.e) else Ok(VSeq(r.v), r.n)
  {
    hide DecPrim, DecFields, DecSeq, DecList, Lookup, U32;
  }

  /** A sequence whose count passes the one-unit-per-element check is a matter of its elements. */
  lemma SeqIs(env: Env, m: Mode, b: nat, t: Ty, s: Bytes)
    requires |s| >= 4
    ensures DecSeq(env, m, b, t, s) ==
      if 4 * U32(s) > |s| - 4 then Err(Eof(U32(s) * 4 - (|s| - 4)))
      else if b == 0 then Err(RecursionLimit) else Plus(4, DecElems(env, m, b - 1, t, U32(s), s[4..]))
  {
    hide DecElems, U32, Units;
  }

  lemma SeqRoom(env: Env, m: Mode, b: nat, t: Ty, s: Bytes)
    requires DecSeq(env, m, b, t, s).Ok?
    ensures |s| >= 4 && 4 * U32(s) <= |s| - 4 && b > 0
  {
    hide DecElems, U32, Units;
  }

  lemma ArrayCons(env: Env, mode: Mode, b: nat, t: Ty, s: Bytes)
    ensures Dec(env, mode, b, ArrayRef(t), s) ==
      if b == 0 then Err(RecursionLimit) else
      var r := DecSeq(env, mode, b - 1, t, s);
      if r.Err? then Err(r.e) else Ok(VRef(|r.v|, s[4..r.n]), r.n)
  {
    hide DecPrim, DecFields, DecSeq, DecList, Lookup, U32;
  }

  lemma ListRefCons(env: Env, mode: Mode, b: nat, t: Ty, s: Bytes)
    ensures Dec(env, mode, b, ListRef(t), s) ==
      if b <= 1 then Err(RecursionLimit) else
      var r := DecList(env, mode, b - 2, t, s);
      if r.Err? then Err(r.e) else Ok(VRef(|r.v|, s[..r.n]), r.n)
  {
    hide DecPrim, DecFields, DecSeq, DecList, Lookup, U32;
  }

  lemma OptionalCons(env: Env, m: Mode, b: nat, t: Ty, s: Bytes)
    ensures Dec(env, m, b, Optional(t), s) ==
      var r := ReadBool(m, s);
      if r.Err? then Err(r.e) else if !r.v then Ok(VNone, 4) else if b == 0 then Err(RecursionLimit) else
      var x := Dec(env, m, b - 1, t, s[4..]);
      if x.Err? then x else Ok(VSome(x.v), 4 + x.n)
  {
    hide DecPrim, DecFields, DecSeq, DecList, Lookup, U32;
  }

  /** An enum or a union: the discriminant, then the fields of the arm it selects. */
  lemma TaggedCons(env: Env, m: Mode, b: nat, t: Ty, s: Bytes)
    requires (t.IndexEnum? || t.Union?) && |s| >= 4
    ensures Dec(env, m, b, t, s) ==
      if b == 0 then Err(RecursionLimit) else
      var h := Lookup(t, U32(s));
      if h.NoArm? then Err(Message) else
      var r := DecFields(env, m, b - 1, ArmTys(t, h.v), s[4..]);
      if r.Err? then Err(r.e) else Ok(WithFields(h.v, r.v), 4 + r.n)
  {
    hide DecPrim, DecFields, DecSeq, DecList, Lookup, U32, Units, TagOk, ArmTys;
  }

  lemma TaggedRoom(env: Env, m: Mode, b: nat, t: Ty, s: Bytes)
    requires (t.IndexEnum? || t.Union?) && Dec(env, m, b, t, s).Ok?
    ensures |s| >= 4
  {
    hide DecPrim, DecFields, DecSeq, DecList, Lookup, U32, Units, TagOk, ArmTys;
  }

  lemma OptionalIs(env: Env, mode: Mode, b: nat, t: Ty, s: Bytes)
    ensures var x := Dec(env, mode, b, Optional(t), s); x.Ok? ==> (x.v.VNone? || x.v.VSome?) && x.n >= UNIT
  {
    hide DecPrim, DecFields, DecSeq, DecList, Lookup, U32;
  }

  /** Two fields, one after the other. */
  lemma PairFields(env: Env, m: Mode, b: nat, t: Ty, u: Ty, s: Bytes)
    ensures var x := Dec(env, m, b, t, s);
      var c := Dec(env, m, b, u, Rest(x, s));
      DecFields(env, m, b, [t, u], s) ==
        if x.Err? then Err(x.e) else if c.Err? then Err(c.e) else Ok([x.v, c.v], x.n + c.n)
  {
    hide Dec, DecFields;
    var x := Dec(env, m, b, t, s);
    var s' := Rest(x, s);
    FieldsCons(env, m, b, [t, u], s);
    assert [t, u][1..] == [u] && [u][1..] == [];
    FieldsCons(env, m, b, [u], s');
    var c := Dec(env, m, b, u, s');
    FieldsCons(env, m, b, [], Rest(c, s'));
    if x.Ok? && c.Ok? {
      assert [c.v] + [] == [c.v];
      assert DecFields(env, m, b, [u], s') == Ok([c.v], c.n);
      assert [x.v] + [c.v] == [x.v, c.v];
    }
  }
}
