/** Schemas, values and the canonical encoding of RFC 4506, as `truenas_xdr` writes it. */
module XdrSchema {
  import opened Wire

  /** The codec's errors. `Mistyped` marks a value that is not of its schema, which Rust's types rule out. */
  datatype Error =
    | Eof(need: nat) | Range | NonZeroPadding | EmbeddedNul | InvalidBool(value: int) | Utf8
    | TrailingBytes(rest: nat) | RecursionLimit | TooLong(len: nat, max: nat) | Unsupported | Io | Message
    | Mistyped

  datatype Result<+T> = Good(value: T) | Bad(error: Error)

  /** Numbers the codec carries. Floats are their bit patterns, a character its scalar value. */
  datatype Kind = I8 | I16 | I32 | I64 | U8 | U16 | UInt | UHyper | F32 | F64 | Char

  predicate Wide(k: Kind) { k.I64? || k.UHyper? || k.F64? }

  predicate Signed(k: Kind) { k.I8? || k.I16? || k.I32? || k.I64? }

  function Modulus(k: Kind): int { if Wide(k) then TWO32 * TWO32 else TWO32 }

  predicate InRange(k: Kind, i: int) {
    match k
    case I8 => -0x80 <= i < 0x80
    case I16 => -0x8000 <= i < 0x8000
    case U8 => 0 <= i < 0x100
    case U16 => 0 <= i < 0x1_0000
    case Char => 0 <= i < 0xD800 || 0xE000 <= i < 0x11_0000
    case _ => if Signed(k) then -Modulus(k) <= 2 * i < Modulus(k) else 0 <= i < Modulus(k)
  }

  /** Types without parts. */
  datatype Prim =
    | Bool | Scalar(k: Kind) | Str | Opaque | Fixed(len: nat) | Unit
    | DiscEnum(discs: seq<int>)                                     // XdrEnum

  /** What follows a union's explicit arms: nothing, or an arm whose first field holds the discriminant. */
  datatype Default = NoDefault | Arm(first: Prim, rest: seq<Ty>)

  datatype Fields = Fields(ts: seq<Ty>)

  /** The serde call a fixed list of fields comes through. */
  datatype Call = TupleCall | TupleStructCall | StructCall

  datatype Ty =
    | Leaf(p: Prim)
    | Optional(t: Ty) | Newtype(t: Ty) | Seq(t: Ty) | Record(call: Call, ts: seq<Ty>)
    | IndexEnum(arms: seq<Fields>)                                  // stock serde enum: declaration index
    | Union(discs: seq<int>, arms: seq<Fields>, dflt: Default)      // XdrUnion
    | Bounded(max: nat, t: Ty) | ArrayRef(t: Ty) | ListRef(t: Ty)
    | Rec(name: nat)                                                // a named, possibly recursive type

  /** The named types of a program, and those known to encode to at least one unit. */
  datatype Env = Env(defs: map<nat, Ty>, solid: set<nat>)

  datatype Val =
    | VBool(b: bool) | VInt(i: int) | VBytes(bytes: Bytes) | VUnit | VNone | VSome(v: Val)
    | VSeq(vs: seq<Val>) | VArm(idx: nat, vs: seq<Val>) | VDefault(first: Val, vs: seq<Val>)
    | VBox(v: Val) | VRef(count: nat, encoded: Bytes)

  /** The types a bound may wrap: those whose encoding begins with a length. */
  predicate Counted(t: Ty) { t == Leaf(Str) || t == Leaf(Opaque) || t.Seq? || t.ArrayRef? }

  predicate IsI32(i: int) { InRange(I32, i) }

  predicate DiscsOk(discs: seq<int>) {
    && (forall i, j :: 0 <= i < j < |discs| ==> discs[i] != discs[j])
    && (forall i :: 0 <= i < |discs| ==> IsI32(discs[i]))
  }

  predicate WfPrim(p: Prim) { p.DiscEnum? ==> DiscsOk(p.discs) }

  predicate WfTag(t: Ty) {
    match t
    case IndexEnum(arms) => |arms| < TWO32
    case Union(discs, arms, dflt) =>
      && DiscsOk(discs) && |discs| == |arms|
      && (dflt.Arm? ==> (dflt.first == Scalar(I32) || dflt.first.DiscEnum?) && WfPrim(dflt.first))
    case _ => false
  }

  /** A schema the Rust types can express: discriminants are distinct. */
  predicate WfTy(t: Ty) {
    match t
    case Leaf(p) => WfPrim(p)
    case Optional(u) => WfTy(u)
    case Newtype(u) => WfTy(u)
    case Seq(u) => WfTy(u)
    case ArrayRef(u) => WfTy(u)
    case ListRef(u) => WfTy(u)
    case Bounded(_, u) => WfTy(u)
    case Record(_, ts) => WfTys(ts)
    case IndexEnum(arms) => WfTag(t) && forall i :: 0 <= i < |arms| ==> WfTys(arms[i].ts)
    case Union(_, arms, dflt) =>
      && WfTag(t)
      && (forall i :: 0 <= i < |arms| ==> WfTys(arms[i].ts))
      && (dflt.Arm? ==> WfTys(dflt.rest))
    case Rec(_) => true
  }

  predicate WfTys(ts: seq<Ty>) {
    ts == [] || (WfTy(ts[0]) && WfTys(ts[1..]))
  }

  predicate Wf(env: Env) {
    forall n :: n in env.defs ==> !env.defs[n].Rec? && WfTy(env.defs[n])
  }

  /** A value that the first field of a default arm, or an `XdrEnum`, can hold. */
  predicate FirstOk(p: Prim, v: Val) {
    if p == Scalar(I32) then v.VInt? && IsI32(v.i)
    else p.DiscEnum? && v.VArm? && v.idx < |p.discs| && v.vs == [] && IsI32(p.discs[v.idx])
  }

  function FirstDisc(p: Prim, v: Val): (d: int)
    requires FirstOk(p, v)
    ensures IsI32(d)
  {
    if v.VInt? then v.i else p.discs[v.idx]
  }

  /** The arm that `v` names exists. */
  predicate TagOk(t: Ty, v: Val) {
    match t
    case IndexEnum(arms) => v.VArm? && v.idx < |arms| && v.idx < TWO32
    case Union(discs, arms, dflt) =>
      || (v.VArm? && v.idx < |arms| && v.idx < |discs| && IsI32(discs[v.idx]))
      || (v.VDefault? && dflt.Arm? && FirstOk(dflt.first, v.first))
    case _ => false
  }

  /** The discriminant that selects the arm of `v`. */
  function Disc(t: Ty, v: Val): (d: int)
    requires TagOk(t, v)
    ensures t.Union? ==> IsI32(d)
  {
    if v.VDefault? then FirstDisc(t.dflt.first, v.first) else if t.Union? then t.discs[v.idx] else v.idx
  }

  function ArmTys(t: Ty, v: Val): seq<Ty>
    requires TagOk(t, v)
  {
    if v.VArm? then t.arms[v.idx].ts else t.dflt.rest
  }

  /** The default arm does not carry a discriminant that has an arm of its own. */
  predicate TagFree(t: Ty, v: Val)
    requires TagOk(t, v)
  {
    v.VDefault? ==> Disc(t, v) !in t.discs
  }

  function Word(k: Kind, i: int): (w: int)
    requires InRange(k, i)
    ensures 0 <= w < Modulus(k)
  {
    if i < 0 then i + Modulus(k) else i
  }

  function TagWord(t: Ty, v: Val): (w: int)
    requires TagOk(t, v)
    ensures 0 <= w < TWO32
  {
    if t.IndexEnum? then v.idx else Word(I32, Disc(t, v))
  }

  function EncScalar(k: Kind, i: int): (s: Bytes)
    requires InRange(k, i)
    ensures |s| == if Wide(k) then 8 else 4
  {
    if Wide(k) then Be64(Word(k, i)) else Be32(Word(k, i))
  }

  /** A body and its zero padding. */
  function Padded(s: Bytes): (r: Bytes)
    ensures Units(|r|)
  {
    s + Zeros(Pad4(|s|))
  }

  /** A result that, if it is one, is a whole number of units. */
  predicate Whole(r: Result<Bytes>) { r.Good? ==> Units(|r.value|) }

  function Join(a: Bytes, b: Result<Bytes>): (r: Result<Bytes>)
    ensures Units(|a|) && Whole(b) ==> Whole(r)
  {
    if b.Bad? then b else Good(a + b.value)
  }

  /** A body behind its count, refused when the count does not fit the prefix. */
  function Counting(count: nat, body: Result<Bytes>): (r: Result<Bytes>)
    ensures Whole(body) ==> Whole(r)
  {
    if count < TWO32 then Join(Be32(count), body) else Bad(Unsupported)
  }

  function CountOf(v: Val): nat {
    match v
    case VBytes(s) => |s|
    case VSeq(vs) => |vs|
    case VRef(n, _) => n
    case _ => 0
  }

  function EncPrim(p: Prim, v: Val): (r: Result<Bytes>)
    ensures Whole(r)
  {
    match p
    case Bool => if v.VBool? then Good(Be32(if v.b then 1 else 0)) else Bad(Mistyped)
    case Scalar(k) => if v.VInt? && InRange(k, v.i) then Good(EncScalar(k, v.i)) else Bad(Mistyped)
    case Str => if v.VBytes? && ValidUtf8(v.bytes) then Counting(|v.bytes|, Good(Padded(v.bytes))) else Bad(Mistyped)
    case Opaque => if v.VBytes? then Counting(|v.bytes|, Good(Padded(v.bytes))) else Bad(Mistyped)
    case Fixed(len) => if v.VBytes? && |v.bytes| == len then Good(Padded(v.bytes)) else Bad(Mistyped)
    case Unit => if v.VUnit? then Good([]) else Bad(Mistyped)
    case DiscEnum(_) => if FirstOk(p, v) then Good(EncScalar(I32, FirstDisc(p, v))) else Bad(Mistyped)
  }

  /** The canonical encoding. Lengths beyond the prefix, lengths over a bound and a default arm that
      carries another arm's discriminant have none. */
  function Enc(env: Env, t: Ty, v: Val): (r: Result<Bytes>)
    ensures Whole(r)
    decreases v, t
  {
    match t
    case Leaf(p) => EncPrim(p, v)
    case Optional(u) =>
      if v.VNone? then Good(Be32(0))
      else if v.VSome? then Join(Be32(1), Enc(env, u, v.v)) else Bad(Mistyped)
    case Newtype(u) => Enc(env, u, v)
    case Seq(u) => if v.VSeq? then Counting(|v.vs|, EncElems(env, u, v.vs)) else Bad(Mistyped)
    case Record(_, ts) => if v.VSeq? then EncFields(env, ts, v.vs) else Bad(Mistyped)
    case Bounded(max, u) =>
      if !Counted(u) then Bad(Mistyped)
      else if CountOf(v) > max then Bad(TooLong(CountOf(v), max)) else Enc(env, u, v)
    case ArrayRef(_) => if v.VRef? then Counting(v.count, Good(Padded(v.encoded))) else Bad(Mistyped)
    case ListRef(_) => if v.VRef? then Good(Padded(v.encoded)) else Bad(Mistyped)
    case Rec(n) => if n in env.defs && v.VBox? then Enc(env, env.defs[n], v.v) else Bad(Mistyped)
    case _ =>
      if !TagOk(t, v) then Bad(Mistyped) else if !TagFree(t, v) then Bad(Message)
      else Join(Be32(TagWord(t, v)), EncFields(env, ArmTys(t, v), v.vs))
  }

  function EncFields(env: Env, ts: seq<Ty>, vs: seq<Val>): (r: Result<Bytes>)
    ensures Whole(r)
    decreases vs, ts
  {
    if vs == [] && ts == [] then Good([])
    else if vs == [] || ts == [] then Bad(Mistyped)
    else
      var a := Enc(env, ts[0], vs[0]);
      if a.Bad? then a else Join(a.value, EncFields(env, ts[1..], vs[1..]))
  }

  function EncElems(env: Env, t: Ty, vs: seq<Val>): (r: Result<Bytes>)
    ensures Whole(r)
    decreases vs, t
  {
    if vs == [] then Good([])
    else
      var a := Enc(env, t, vs[0]);
      if a.Bad? then a else Join(a.value, EncElems(env, t, vs[1..]))
  }

  /** A value of a type without parts. */
  predicate PrimOk(p: Prim, v: Val) {
    match p
    case Bool => v.VBool?
    case Scalar(k) => v.VInt? && InRange(k, v.i)
    case Str => v.VBytes? && ValidUtf8(v.bytes)
    case Opaque => v.VBytes?
    case Fixed(len) => v.VBytes? && |v.bytes| == len
    case Unit => v.VUnit?
    case DiscEnum(_) => FirstOk(p, v)
  }

  /** A value that the Rust type can hold, whether or not it has an encoding. */
  predicate HasType(env: Env, t: Ty, v: Val)
    decreases v, t
  {
    match t
    case Leaf(p) => PrimOk(p, v)
    case Optional(u) => v.VNone? || (v.VSome? && HasType(env, u, v.v))
    case Newtype(u) => HasType(env, u, v)
    case Seq(u) => v.VSeq? && HasElems(env, u, v.vs)
    case Record(_, ts) => v.VSeq? && HasFields(env, ts, v.vs)
    case Bounded(_, u) => Counted(u) && HasType(env, u, v)
    case ArrayRef(_) => v.VRef?
    case ListRef(_) => v.VRef?
    case Rec(n) => v.VBox? && n in env.defs && HasType(env, env.defs[n], v.v)
    case _ => TagOk(t, v) && HasFields(env, ArmTys(t, v), v.vs)
  }

  predicate HasFields(env: Env, ts: seq<Ty>, vs: seq<Val>)
    decreases vs, ts
  {
    if vs == [] || ts == [] then vs == [] && ts == []
    else HasType(env, ts[0], vs[0]) && HasFields(env, ts[1..], vs[1..])
  }

  predicate HasElems(env: Env, t: Ty, vs: seq<Val>)
    decreases vs, t
  {
    vs == [] || (HasType(env, t, vs[0]) && HasElems(env, t, vs[1..]))
  }
}
