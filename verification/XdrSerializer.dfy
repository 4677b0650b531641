/** The encoder as the state machine it is: a sink and two one-shot marks that one serde call leaves for
    the next. Every call is proved to append what `Enc` says and to leave no mark behind. */
module XdrSerializer {
  import opened Wire
  import opened XdrSchema
  import opened XdrDecode
  import opened XdrCanon
  import opened Wrappers

  /** Where the bytes go: a growing buffer, a byte counter, or a slot of fixed size. */
  datatype Sink = Buffer(bytes: Bytes) | Counter(count: nat) | Slot(bytes: Bytes, room: nat)

  predicate Fits(w: Sink, s: Bytes) { w.Slot? ==> |s| <= w.room }

  function Append(w: Sink, s: Bytes): Sink {
    match w
    case Buffer(b) => Buffer(b + s)
    case Counter(n) => Counter(n + |s|)
    case Slot(b, room) => Slot(b + s, if |s| <= room then room - |s| else 0)
  }

  lemma AppendTwice(w: Sink, a: Bytes, b: Bytes)
    ensures Append(Append(w, a), b) == Append(w, a + b)
    ensures Fits(w, a + b) <==> Fits(w, a) && Fits(Append(w, a), b)
  {
    if !w.Counter? { assert w.bytes + a + b == w.bytes + (a + b); }
  }

  /** An encoding with a bound waiting for its length. */
  function Held(env: Env, bound: Option<nat>, t: Ty, v: Val): (r: Result<Bytes>) {
    if bound.Some? && CountOf(v) > bound.value then Bad(TooLong(CountOf(v), bound.value)) else Enc(env, t, v)
  }

  class Serializer {
    const env: Env
    var w: Sink
    var fixedPending: bool
    var boundPending: Option<nat>

    constructor (env: Env, w: Sink)
      ensures this.env == env && this.w == w && Idle()
    {
      this.env, this.w, fixedPending, boundPending := env, w, false, None;
    }

    /** No mark is waiting for a later call. */
    ghost predicate Idle()
      reads this
    {
      !fixedPending && boundPending.None?
    }

    /** A call that agreed with `spec`: it appended exactly those bytes and left no mark; or it failed, with
        the same error unless the sink was full. */
    ghost predicate Wrote(r: Result<()>, spec: Result<Bytes>, w0: Sink)
      reads this
    {
      match r
      case Good(_) => spec.Good? && Fits(w0, spec.value) && w == Append(w0, spec.value) && Idle()
      case Bad(e) => spec == Bad(e) || (e == Io && w0.Slot? && (spec.Good? ==> !Fits(w0, spec.value)))
    }

    method Put(s: Bytes) returns (r: Result<()>)
      modifies this`w
      ensures r == if Fits(old(w), s) then Good(()) else Bad(Io)
      ensures r.Good? ==> w == Append(old(w), s)
      ensures r.Bad? ==> w.Slot?
    {
      if w.Slot? && |s| > w.room {
        // As much as fits is written before the failure.
        w := Slot(w.bytes + s[..w.room], 0);
        return Bad(Io);
      }
      w := Append(w, s);
      r := Good(());
    }

    /** The bound belongs to this length and to no later one, so it goes whether or not the length passes. */
    method PutLen(len: nat) returns (r: Result<()>)
      modifies this`w, this`boundPending
      ensures boundPending.None?
      ensures var bound := old(boundPending);
        if bound.Some? && len > bound.value then r == Bad(TooLong(len, bound.value))
        else if len >= TWO32 then r == Bad(Unsupported)
        else r == (if Fits(old(w), Be32(len)) then Good(()) else Bad(Io)) && (r.Bad? ==> w.Slot?)
             && (r.Good? ==> w == Append(old(w), Be32(len)))
    {
      var bound := boundPending;
      boundPending := None;
      if bound.Some? && len > bound.value { return Bad(TooLong(len, bound.value)); }
      if len >= TWO32 { return Bad(Unsupported); }
      r := Put(Be32(len));
    }

    /** A body and its padding. */
    method PutBody(s: Bytes) returns (r: Result<()>)
      requires Idle()
      modifies this`w
      ensures Wrote(r, Good(Padded(s)), old(w))
    {
      AppendTwice(w, s, Zeros(Pad4(|s|)));
      r := Put(s);
      if r.Bad? { return; }
      var p := Pad4(|s|);
      if p > 0 { r := Put(Zeros(p)); } else { assert s + Zeros(0) == s; }
    }

    method SerializeBytes(s: Bytes) returns (r: Result<()>)
      requires fixedPending ==> boundPending.None?
      modifies this
      ensures var bound := old(boundPending);
        Wrote(r, if old(fixedPending) then Good(Padded(s))
                 else if bound.Some? && |s| > bound.value then Bad(TooLong(|s|, bound.value))
                 else Counting(|s|, Good(Padded(s))), old(w))
    {
      var fixed := fixedPending;
      fixedPending := false;
      if fixed {
        r := PutBody(s);
      } else {
        if |s| < TWO32 { AppendTwice(w, Be32(|s|), Padded(s)); }
        r := PutLen(|s|);
        if r.Good? { r := PutBody(s); }
      }
    }

    method SerializePrim(p: Prim, v: Val) returns (r: Result<()>)
      requires PrimOk(p, v) && !fixedPending && (boundPending.Some? ==> p.Str? || p.Opaque?)
      modifies this
      ensures Wrote(r, Held(env, old(boundPending), Leaf(p), v), old(w))
    {
      hide Be32, Be64, Padded, ValidUtf8, EncScalar;
      match p
      case Bool => r := Put(Be32(if v.b then 1 else 0));
      case Scalar(k) => r := Put(EncScalar(k, v.i));
      case Str =>
        // A string is variable-length whatever the mark said.
        fixedPending := false;
        r := SerializeBytes(v.bytes);
      case Opaque => r := SerializeBytes(v.bytes);
      case Fixed(_) =>
        fixedPending := true;
        r := SerializeBytes(v.bytes);
      case Unit => r := Good(());
        AppendNothing(w);
      case DiscEnum(_) => r := Put(EncScalar(I32, FirstDisc(p, v)));
    }

    /** Write one value of type `t`: what its `serialize` asks of the codec. */
    method Serialize(t: Ty, v: Val) returns (r: Result<()>)
      requires HasType(env, t, v) && !fixedPending && (boundPending.Some? ==> Counted(t))
      modifies this
      ensures Wrote(r, Held(env, old(boundPending), t, v), old(w))
      decreases v, t, 2
    {
      hide EncPrim, PrimOk, EncElems, EncFields, HasElems, HasFields, Be32, Padded, TagOk, TagFree, ArmTys, TagWord;
      match t
      case Leaf(p) => r := SerializePrim(p, v);
      case Optional(u) =>
        if v.VNone? { r := Put(Be32(0)); } else { r := SerializeBehind(Be32(1), u, v.v); }
      case Newtype(u) => r := Serialize(u, v);
      case Seq(u) => r := SerializeSeq(u, v.vs);
      case Record(_, ts) => r := SerializeFields(ts, v.vs);
      case Bounded(max, u) =>
        boundPending := Some(max);
        r := Serialize(u, v);
      case ArrayRef(_) => r := SerializeArrayRef(v);
      case ListRef(_) => r := SerializeEncoded(v.encoded);
      case Rec(n) => r := Serialize(env.defs[n], v.v);
      case IndexEnum(_) => r := SerializeTagged(t, v);
      case Union(_, _, _) => r := SerializeTagged(t, v);
    }

    method SerializeBehind(head: Bytes, t: Ty, v: Val) returns (r: Result<()>)
      requires HasType(env, t, v) && Idle()
      modifies this
      ensures Wrote(r, Join(head, Enc(env, t, v)), old(w))
      decreases v, t, 3
    {
      hide Enc, Units;
      var e := Enc(env, t, v);
      if e.Good? { AppendTwice(w, head, e.value); }
      r := Put(head);
      if r.Good? { r := Serialize(t, v); }
    }

    /** Bytes that are already XDR, written under the fixed mark. */
    method SerializeEncoded(s: Bytes) returns (r: Result<()>)
      requires Idle()
      modifies this
      ensures Wrote(r, Good(Padded(s)), old(w))
    {
      fixedPending := true;
      r := SerializeBytes(s);
    }

    method SerializeArrayRef(v: Val) returns (r: Result<()>)
      requires v.VRef? && !fixedPending
      modifies this
      ensures var bound := old(boundPending);
        Wrote(r, if bound.Some? && v.count > bound.value then Bad(TooLong(v.count, bound.value))
                 else Counting(v.count, Good(Padded(v.encoded))), old(w))
    {
      hide Padded;
      if v.count < TWO32 { AppendTwice(w, Be32(v.count), Padded(v.encoded)); }
      r := PutLen(v.count);
      if r.Good? { r := SerializeEncoded(v.encoded); }
    }

    method SerializeSeq(t: Ty, vs: seq<Val>) returns (r: Result<()>)
      requires HasElems(env, t, vs) && !fixedPending
      modifies this
      ensures var bound := old(boundPending);
        Wrote(r, if bound.Some? && |vs| > bound.value then Bad(TooLong(|vs|, bound.value))
                 else Counting(|vs|, EncElems(env, t, vs)), old(w))
      decreases vs, t, 4
    {
      hide EncElems, HasElems, Be32, Units;
      var e := EncElems(env, t, vs);
      if e.Good? && |vs| < TWO32 { AppendTwice(w, Be32(|vs|), e.value); }
      r := PutLen(|vs|);
      if r.Good? { r := SerializeElems(t, vs); }
    }

    method SerializeElems(t: Ty, vs: seq<Val>) returns (r: Result<()>)
      requires HasElems(env, t, vs) && Idle()
      modifies this
      ensures Wrote(r, EncElems(env, t, vs), old(w))
      decreases vs, t, 3
    {
      hide Enc, EncElems, HasElems, HasType, Units;
      ghost var all := EncElems(env, t, vs);
      var i := 0;
      ghost var done: Bytes := [];
      AppendNothing(w);
      JoinNothing(all);
      assert vs[0..] == vs;
      while i < |vs|
        invariant i <= |vs| && Idle() && HasElems(env, t, vs[i..])
        invariant Fits(old(w), done) && w == Append(old(w), done) && all == Join(done, EncElems(env, t, vs[i..]))
      {
        ElemsUnfold(env, t, vs[i..]);
        assert vs[i..][1..] == vs[i + 1..];
        ghost var e, rest := Enc(env, t, vs[i]), EncElems(env, t, vs[i + 1..]);
        if e.Good? {
          AppendTwice(old(w), done, e.value);
          JoinTwice(done, e.value, rest);
          if rest.Good? { AppendTwice(old(w), done + e.value, rest.value); }
        }
        r := Serialize(t, vs[i]);
        if r.Bad? { return; }
        i, done := i + 1, done + e.value;
      }
      ElemsUnfold(env, t, vs[i..]);
      assert done + [] == done;
      r := Good(());
    }

    method SerializeFields(ts: seq<Ty>, vs: seq<Val>) returns (r: Result<()>)
      requires HasFields(env, ts, vs) && Idle()
      modifies this
      ensures Wrote(r, EncFields(env, ts, vs), old(w))
      decreases vs, ts, 3
    {
      hide Enc, EncFields, HasFields, HasType;
      ghost var all := EncFields(env, ts, vs);
      FieldsUnfold(env, ts, vs);
      var i := 0;
      ghost var done: Bytes := [];
      AppendNothing(w);
      JoinNothing(all);
      assert vs[0..] == vs && ts[0..] == ts;
      while i < |vs|
        invariant i <= |vs| && |ts| == |vs| && Idle() && HasFields(env, ts[i..], vs[i..])
        invariant Fits(old(w), done) && w == Append(old(w), done) && all == Join(done, EncFields(env, ts[i..], vs[i..]))
      {
        FieldsUnfold(env, ts[i..], vs[i..]);
        assert vs[i..][1..] == vs[i + 1..] && ts[i..][1..] == ts[i + 1..];
        ghost var e, rest := Enc(env, ts[i], vs[i]), EncFields(env, ts[i + 1..], vs[i + 1..]);
        if e.Good? {
          AppendTwice(old(w), done, e.value);
          JoinTwice(done, e.value, rest);
          if rest.Good? { AppendTwice(old(w), done + e.value, rest.value); }
        }
        r := Serialize(ts[i], vs[i]);
        if r.Bad? { return; }
        i, done := i + 1, done + e.value;
      }
      FieldsUnfold(env, ts[i..], vs[i..]);
      assert done + [] == done;
      r := Good(());
    }

    /** An enum or union: the discriminant, then the fields of its arm. A default arm's discriminant is what
        its first field encodes to, and it must not be one with an arm of its own. */
    method SerializeTagged(t: Ty, v: Val) returns (r: Result<()>)
      requires TagOk(t, v) && HasFields(env, ArmTys(t, v), v.vs) && Idle()
      modifies this
      ensures Wrote(r, Enc(env, t, v), old(w))
      decreases v, t, 1
    {
      hide EncElems, EncFields, HasFields, HasType, Be32;
      var word := TagWord(t, v);
      if v.VDefault? {
        // A discriminant type is one unit, so this is never refused.
        var d := Discriminant(env, t.dflt.first, v.first);
        if d.value in t.discs { return Bad(Message); }
        word := Word(I32, d.value);
      }
      var e := EncFields(env, ArmTys(t, v), v.vs);
      if e.Good? { AppendTwice(w, Be32(word), e.value); }
      r := Put(Be32(word));
      if r.Good? { r := SerializeFields(ArmTys(t, v), v.vs); }
    }
  }

  lemma AppendNothing(w: Sink)
    ensures Append(w, []) == w
  {
    if !w.Counter? { assert w.bytes + [] == w.bytes; }
  }

  lemma JoinNothing(r: Result<Bytes>)
    ensures Join([], r) == r
  {
    if r.Good? { assert [] + r.value == r.value; }
  }

  lemma JoinTwice(a: Bytes, b: Bytes, r: Result<Bytes>)
    ensures Join(a, Join(b, r)) == Join(a + b, r)
  {
    if r.Good? { assert a + (b + r.value) == a + b + r.value; }
  }

  lemma ElemsUnfold(env: Env, t: Ty, vs: seq<Val>)
    ensures EncElems(env, t, vs) ==
      if vs == [] then Good([])
      else var e := Enc(env, t, vs[0]); if e.Bad? then e else Join(e.value, EncElems(env, t, vs[1..]))
    ensures HasElems(env, t, vs) && vs != [] ==> HasType(env, t, vs[0]) && HasElems(env, t, vs[1..])
  {
    hide Enc, HasType;
  }

  lemma FieldsUnfold(env: Env, ts: seq<Ty>, vs: seq<Val>)
    requires HasFields(env, ts, vs)
    ensures |ts| == |vs|
    ensures EncFields(env, ts, vs) ==
      if vs == [] then Good([])
      else var e := Enc(env, ts[0], vs[0]); if e.Bad? then e else Join(e.value, EncFields(env, ts[1..], vs[1..]))
    ensures vs != [] ==> HasType(env, ts[0], vs[0]) && HasFields(env, ts[1..], vs[1..])
    decreases vs
  {
    hide Enc, HasType;
    if vs != [] { FieldsUnfold(env, ts[1..], vs[1..]); }
  }

  /** The discriminant that a default arm's first field encodes as: one unit, or refused. */
  method Discriminant(env: Env, p: Prim, v: Val) returns (r: Result<int>)
    requires PrimOk(p, v)
    ensures FirstOk(p, v) ==> r == Good(FirstDisc(p, v))
    ensures r.Good? <==> EncPrim(p, v).Good? && |EncPrim(p, v).value| == UNIT
    ensures r.Good? ==> IsI32(r.value) && EncScalar(I32, r.value) == EncPrim(p, v).value
  {
    hide Be32, Be64, U32, Padded, ValidUtf8, Counting;
    if FirstOk(p, v) { Be32Inverse(Word(I32, FirstDisc(p, v)), []); }
    var ser := new Serializer(env, Slot([], UNIT));
    var x := ser.SerializePrim(p, v);
    if x.Bad? || |ser.w.bytes| != UNIT { return Bad(Unsupported); }
    var unit := ser.w.bytes;
    CanonDisc(unit);
    assert unit[..4] == unit == unit + [] == EncPrim(p, v).value;
    assert FirstOk(p, v) ==> unit == Be32(Word(I32, FirstDisc(p, v))) + [];
    r := Good(FromWord(I32, U32(unit)));
  }

  /** Encode `v` to a fresh buffer. */
  method ToBytes(env: Env, t: Ty, v: Val) returns (r: Result<Bytes>)
    requires HasType(env, t, v)
    ensures r == Enc(env, t, v)
  {
    hide Enc, HasType;
    var ser := new Serializer(env, Buffer([]));
    var x := ser.Serialize(t, v);
    if x.Bad? { return Bad(x.error); }
    assert ser.w.bytes == Enc(env, t, v).value;
    r := Good(ser.w.bytes);
  }

  /** The number of bytes `v` encodes to, without building them. */
  method SerializedSize(env: Env, t: Ty, v: Val) returns (r: Result<nat>)
    requires HasType(env, t, v)
    ensures var e := Enc(env, t, v); r == if e.Good? then Good(|e.value|) else Bad(e.error)
    ensures r.Good? ==> Units(r.value)
  {
    hide Enc, HasType;
    var ser := new Serializer(env, Counter(0));
    var x := ser.Serialize(t, v);
    r := if x.Bad? then Bad(x.error) else Good(ser.w.count);
  }
}
