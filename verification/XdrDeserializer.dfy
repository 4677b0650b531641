/** The decoder as the state machine it is: a cursor, a depth and three one-shot marks that one serde call
    leaves for the next. Every call is proved to read what `Dec` says and to leave no mark behind. */
module XdrDeserializer {
  import opened Wire
  import opened XdrSchema
  import opened XdrDecode
  import opened Wrappers

  const USIZE_MAX: nat := 0xFFFF_FFFF_FFFF_FFFF
  const ISIZE_MAX: nat := 0x7FFF_FFFF_FFFF_FFFF
  const DEFAULT_MAX_DEPTH: nat := 128

  /** The name a newtype or tuple struct is read under. */
  datatype Name = Plain | SentinelFixed | SentinelBounded | SentinelArrayRef

  /** What the visitor handed to a compound call goes on to ask for. */
  datatype Visit =
    | RawBytes                  // FixedOpaque
    | FieldsOf(ts: seq<Ty>)     // tuples and structs
    | ArmOf(t: Ty)              // XdrUnion
    | Inner(t: Ty)              // newtypes and Bounded
    | ArrayOf(t: Ty)            // VarArrayRef
    | ListOf(t: Ty)             // ListRef

  /** A read with a bound waiting for its length. */
  function Held(env: Env, mode: Mode, b: nat, bound: Option<nat>, t: Ty, s: Bytes): (r: Read<Val>) {
    if bound.None? then Dec(env, mode, b, t, s)
    else if t.ArrayRef? && b == 0 then Err(RecursionLimit)
    else if |s| >= 4 && U32(s) > bound.value then Err(TooLong(U32(s), bound.value))
    else Dec(env, mode, b, t, s)
  }

  function HeldSeq(env: Env, mode: Mode, b: nat, bound: Option<nat>, t: Ty, s: Bytes): (r: Read<seq<Val>>) {
    if bound.Some? && |s| >= 4 && U32(s) > bound.value then Err(TooLong(U32(s), bound.value))
    else DecSeq(env, mode, b, t, s)
  }

  function AsVal(r: Read<seq<Val>>): Read<Val> { if r.Err? then Err(r.e) else Ok(VSeq(r.v), r.n) }

  function AsCount(r: Read<seq<Val>>): Read<nat> { if r.Err? then Err(r.e) else Ok(|r.v|, r.n) }

  function AsNumber(r: Read<seq<Val>>): Read<Val> { if r.Err? then Err(r.e) else Ok(VInt(|r.v|), r.n) }

  function WidestArm(arms: seq<Fields>): (n: nat)
    ensures forall i :: 0 <= i < |arms| ==> |arms[i].ts| <= n
  {
    if arms == [] then 0
    else
      var rest := WidestArm(arms[1..]);
      assert forall i :: 0 < i < |arms| ==> arms[i] == arms[1..][i - 1];
      if rest < |arms[0].ts| then |arms[0].ts| else rest
  }

  /** The element count a union's decoder declares: the discriminant and the widest arm's fields. */
  function MaxElems(t: Ty): (n: nat)
    requires t.Union?
    ensures 1 <= n && forall v :: TagOk(t, v) ==> 1 + |ArmTys(t, v)| <= n
  {
    var widest := WidestArm(t.arms);
    1 + if t.dflt.Arm? && widest < |t.dflt.rest| then |t.dflt.rest| else widest
  }

  /** What `deserialize_tuple` reads for each visitor. A list's count comes back as a number. */
  function TupleSpec(env: Env, mode: Mode, b: nat, len: nat, visit: Visit, s: Bytes): (r: Read<Val>) {
    match visit
    case RawBytes => MapVal(ReadFixed(mode, len, s), x => VBytes(x))
    case FieldsOf(ts) => Dec(env, mode, b, Record(TupleCall, ts), s)
    case ArmOf(t) => Dec(env, mode, b, t, s)
    case ListOf(u) => if b == 0 then Err(RecursionLimit) else AsNumber(DecList(env, mode, b - 1, u, s))
    case _ => Err(Mistyped)
  }

  predicate TupleVisit(len: nat, visit: Visit) {
    match visit
    case RawBytes => true
    case FieldsOf(ts) => len == |ts|
    case ArmOf(t) => t.Union? && len == MaxElems(t)
    case ListOf(_) => len == USIZE_MAX
    case _ => false
  }

  /** What `deserialize_tuple_struct` reads for each visitor. */
  function StructSpec(env: Env, mode: Mode, b: nat, bound: Option<nat>, len: nat, visit: Visit, s: Bytes): (r: Read<Val>) {
    match visit
    case FieldsOf(ts) => Dec(env, mode, b, Record(TupleStructCall, ts), s)
    case Inner(u) => Dec(env, mode, b, Bounded(len, u), s)
    case ArrayOf(u) => Held(env, mode, b, bound, ArrayRef(u), s)
    case ListOf(u) => Dec(env, mode, b, ListRef(u), s)
    case _ => Err(Mistyped)
  }

  /** What lies under the mark of a borrowed array or list. */
  function Under(env: Env, mode: Mode, b: nat, bound: Option<nat>, visit: Visit, s: Bytes): (r: Read<Val>)
    requires visit.ArrayOf? || visit.ListOf?
  {
    if visit.ArrayOf? then
      var r := HeldSeq(env, mode, b, bound, visit.t, s);
      if r.Err? then Err(r.e) else Ok(VRef(|r.v|, s[4..r.n]), r.n)
    else if b == 0 then Err(RecursionLimit)
    else
      var r := DecList(env, mode, b - 1, visit.t, s);
      if r.Err? then Err(r.e) else Ok(VRef(|r.v|, s[..r.n]), r.n)
  }

  predicate StructVisit(name: Name, len: nat, visit: Visit) {
    match visit
    case FieldsOf(ts) => name.Plain? && len == |ts|
    case Inner(u) => name.SentinelBounded? && Counted(u)
    case ArrayOf(_) => name.SentinelArrayRef?
    case ListOf(_) => name.SentinelArrayRef?
    case _ => false
  }

  /** A tuple struct is one level and what its visitor reads there. */
  lemma StructParts(env: Env, mode: Mode, b: nat, bound: Option<nat>, name: Name, len: nat, visit: Visit, s: Bytes)
    requires StructVisit(name, len, visit) && (bound.Some? ==> visit.ArrayOf?)
    ensures StructSpec(env, mode, b, bound, len, visit, s) ==
      if b == 0 then Err(RecursionLimit)
      else if visit.FieldsOf? then AsVal(DecFields(env, mode, b - 1, visit.ts, s))
      else if visit.Inner? then Held(env, mode, b - 1, Some(len), visit.t, s)
      else Under(env, mode, b - 1, bound, visit, s)
  {
    hide DecPrim, DecSeq, DecFields, DecList, Lookup, U32;
  }

  lemma ScalarAt(k: Kind, s: Bytes)
    requires |s| >= if Wide(k) then 8 else 4
    ensures U32(s[..4]) == U32(s) && (Wide(k) ==> U64(s[..8]) == U64(s))
  {
    AgreeWords(s, s[..4], 4);
    if Wide(k) { AgreeWords(s, s[..8], 8); }
  }

  class Deserializer {
    const env: Env
    const input: Bytes
    const mode: Mode
    const maxDepth: nat
    var pos: nat
    var fixedPending: bool
    var boundPending: Option<nat>
    var spanStart: Option<nat>
    var depth: nat

    constructor (env: Env, input: Bytes, mode: Mode, maxDepth: nat)
      ensures this.env == env && this.input == input && this.mode == mode && this.maxDepth == maxDepth
      ensures pos == 0 && depth == 0 && spanStart == None && Idle()
    {
      this.env, this.input, this.mode, this.maxDepth := env, input, mode, maxDepth;
      pos, fixedPending, boundPending, spanStart, depth := 0, false, None, None, 0;
    }

    ghost predicate Valid()
      reads this
    {
      pos <= |input| && depth <= maxDepth
    }

    /** No mark is waiting for a later call. */
    ghost predicate Idle()
      reads this
    {
      Valid() && !fixedPending && boundPending.None?
    }

    function Remaining(): Bytes
      requires pos <= |input|
      reads this
    {
      input[pos..]
    }

    ghost function Budget(): nat
      requires Valid()
      reads this
    {
      maxDepth - depth
    }

    /** A call that agreed with `spec`: it read as many bytes, entered and left as many levels, restored the
        outer array's mark and left none of its own; or it failed with the same error and left no level
        it had not entered. */
    ghost predicate After<T>(r: Result<T>, spec: Read<T>, pos0: nat, depth0: nat, span0: Option<nat>)
      reads this
    {
      match r
      case Good(v) => spec.Ok? && spec.v == v && pos == pos0 + spec.n && depth == depth0 && spanStart == span0 && Idle()
      case Bad(e) => spec == Err(e) && depth0 <= depth
    }

    method Descend() returns (r: Result<()>)
      requires Valid()
      modifies this`depth
      ensures depth == old(depth) + 1
      ensures r == if old(depth) < maxDepth then Good(()) else Bad(RecursionLimit)
    {
      depth := depth + 1;
      r := if depth > maxDepth then Bad(RecursionLimit) else Good(());
    }

    method Take(n: nat) returns (r: Result<Bytes>)
      requires Valid()
      modifies this`pos
      ensures Valid()
      ensures r.Good? <==> n <= |old(Remaining())|
      ensures r.Good? ==> r.value == old(Remaining())[..n] && pos == old(pos) + n && Remaining() == old(Remaining())[n..]
      ensures r.Bad? ==> r.error == Eof(n - |old(Remaining())|) && pos == old(pos)
    {
      var end := pos + n;
      if end > |input| { return Bad(Eof(end - |input|)); }
      r := Good(input[pos..end]);
      pos := end;
    }

    method TakeU32() returns (r: Result<int>)
      requires Valid()
      modifies this`pos
      ensures Valid()
      ensures var s := old(Remaining());
        if |s| < 4 then r == Bad(Eof(4 - |s|))
        else r == Good(U32(s)) && pos == old(pos) + 4 && Remaining() == s[4..]
    {
      var b := Take(4);
      r := if b.Bad? then Bad(b.error) else Good(U32(b.value));
    }

    method TakePad(len: nat) returns (r: Result<()>)
      requires Valid()
      modifies this`pos
      ensures Valid()
      ensures var s, p := old(Remaining()), Pad4(len);
        if |s| < p then r == Bad(Eof(p - |s|))
        else if mode.Strict? && s[..p] != Zeros(p) then r == Bad(NonZeroPadding)
        else r == Good(()) && pos == old(pos) + p
    {
      var p := Pad4(len);
      if p > 0 {
        var pad := Take(p);
        if pad.Bad? { return Bad(pad.error); }
        if mode.Strict? && exists i :: 0 <= i < |pad.value| && pad.value[i] != 0 { return Bad(NonZeroPadding); }
      }
      r := Good(());
    }

    /** The bound belongs to this length and to no later one, so it goes whether or not the length passes. */
    method CheckBound(len: nat) returns (r: Result<()>)
      modifies this`boundPending
      ensures boundPending.None?
      ensures r == if old(boundPending).Some? && len > old(boundPending).value
                   then Bad(TooLong(len, old(boundPending).value)) else Good(())
    {
      r := if boundPending.Some? && len > boundPending.value then Bad(TooLong(len, boundPending.value)) else Good(());
      boundPending := None;
    }

    method TakeFixed(n: nat) returns (r: Result<Bytes>)
      requires Idle()
      modifies this`pos
      ensures After(r, ReadFixed(mode, n, old(Remaining())), old(pos), old(depth), old(spanStart))
    {
      ghost var s := Remaining();
      r := Take(n);
      if r.Good? {
        assert n + Pad4(n) <= |s| ==> s[n..][..Pad4(n)] == s[n..n + Pad4(n)];
        var padded := TakePad(n);
        if padded.Bad? { r := Bad(padded.error); }
      }
    }

    method TakeOpaque() returns (r: Result<Bytes>)
      requires Valid() && !fixedPending
      modifies this`pos, this`boundPending
      ensures var s, bound := old(Remaining()), old(boundPending);
        After(r, if bound.Some? && |s| >= 4 && U32(s) > bound.value then Err(TooLong(U32(s), bound.value))
                 else ReadOpaque(mode, s), old(pos), old(depth), old(spanStart))
    {
      var len := TakeU32();
      if len.Bad? { return Bad(len.error); }
      var held := CheckBound(len.value);
      if held.Bad? { return Bad(held.error); }
      r := TakeFixed(len.value);
    }

    method TakeBool() returns (r: Result<bool>)
      requires Idle()
      modifies this`pos
      ensures After(r, ReadBool(mode, old(Remaining())), old(pos), old(depth), old(spanStart))
      ensures r.Good? ==> Remaining() == old(Remaining())[4..]
    {
      var w := TakeU32();
      r := if w.Bad? then Bad(w.error)
           else if w.value == 0 then Good(false)
           else if w.value == 1 then Good(true)
           else if mode.Strict? then Bad(InvalidBool(w.value))
           else Good(true);
    }

    method DeserializePrim(p: Prim) returns (r: Result<Val>)
      requires Valid() && !fixedPending && (boundPending.Some? ==> p.Str? || p.Opaque?) && !p.Fixed?
      modifies this`pos, this`boundPending
      ensures After(r, Held(env, mode, old(Budget()), old(boundPending), Leaf(p), old(Remaining())),
                    old(pos), old(depth), old(spanStart))
    {
      hide U32, U64, ReadFixed;
      match p
      case Bool =>
        var x := TakeBool();
        r := if x.Bad? then Bad(x.error) else Good(VBool(x.value));
      case Scalar(k) =>
        var x := Take(if Wide(k) then 8 else 4);
        if x.Bad? { return Bad(x.error); }
        ScalarAt(k, old(Remaining()));
        var i := FromWord(k, if Wide(k) then U64(x.value) else U32(x.value));
        r := if InRange(k, i) then Good(VInt(i)) else Bad(Range);
      case Str =>
        var x := TakeOpaque();
        r := if x.Bad? then Bad(x.error)
             else if !ValidUtf8(x.value) then Bad(Utf8)
             else if mode.Strict? && 0 in x.value then Bad(EmbeddedNul)
             else Good(VBytes(x.value));
      case Opaque =>
        var x := TakeOpaque();
        r := if x.Bad? then Bad(x.error) else Good(VBytes(x.value));
      case Unit => r := Good(VUnit);
      case DiscEnum(_) =>
        var x := TakeU32();
        if x.Bad? { return Bad(x.error); }
        var h := FromDisc(p, FromWord(I32, x.value));
        r := if h.NoArm? then Bad(Message) else Good(h.v);
    }

    /** Read one value of type `t`: what `T::deserialize` asks of the codec. */
    method Deserialize(t: Ty) returns (r: Result<Val>)
      requires Valid() && !fixedPending && (boundPending.Some? ==> Counted(t)) && |input| <= ISIZE_MAX
      modifies this
      ensures After(r, Held(env, mode, old(Budget()), old(boundPending), t, old(Remaining())),
                    old(pos), old(depth), old(spanStart))
      decreases maxDepth - depth, if t.Rec? then 2 else 1, 2
    {
      hide DecPrim, DecSeq, DecFields, DecList, Lookup, U32, ReadFixed;
      match t
      case Leaf(p) =>
        if p.Fixed? { r := DeserializeNewtype(SentinelFixed, RawBytes, p.len); } else { r := DeserializePrim(p); }
      case Optional(u) => r := DeserializeOption(u);
      case Newtype(u) => r := DeserializeNewtype(Plain, Inner(u), 1);
      case Seq(u) => r := DeserializeSeq(u, true);
      case Record(call, ts) =>
        match call {
          case TupleCall => r := DeserializeTuple(|ts|, FieldsOf(ts));
          case TupleStructCall => r := DeserializeTupleStruct(Plain, |ts|, FieldsOf(ts));
          case StructCall => r := DeserializeStruct(ts);
        }
      case Bounded(max, u) =>
        if Counted(u) { r := DeserializeTupleStruct(SentinelBounded, max, Inner(u)); } else { r := Bad(Mistyped); }
      case ArrayRef(u) => r := DeserializeTupleStruct(SentinelArrayRef, 2, ArrayOf(u));
      case ListRef(u) => r := DeserializeTupleStruct(SentinelArrayRef, 2, ListOf(u));
      case IndexEnum(_) => r := DeserializeEnum(t);
      case Union(_, _, _) => r := DeserializeTuple(MaxElems(t), ArmOf(t));
      case Rec(n) =>
        if n !in env.defs || env.defs[n].Rec? { return Bad(Mistyped); }
        r := Deserialize(env.defs[n]);
        if r.Good? { r := Good(VBox(r.value)); }
    }

    method DeserializeOption(u: Ty) returns (r: Result<Val>)
      requires Idle() && |input| <= ISIZE_MAX
      modifies this
      ensures After(r, Dec(env, mode, old(Budget()), Optional(u), old(Remaining())), old(pos), old(depth), old(spanStart))
      decreases maxDepth - depth, 1, 1
    {
      hide DecPrim, DecSeq, DecFields, DecList, Lookup, U32;
      var present := TakeBool();
      if present.Bad? { return Bad(present.error); }
      if !present.value { return Good(VNone); }
      var entered := Descend();
      if entered.Bad? { return Bad(entered.error); }
      r := Deserialize(u);
      depth := depth - 1;
      if r.Good? { r := Good(VSome(r.value)); }
    }

    method DeserializeNewtype(name: Name, visit: Visit, n: nat) returns (r: Result<Val>)
      requires (name.SentinelFixed? && visit.RawBytes?) || (name.Plain? && visit.Inner?)
      requires Idle() && |input| <= ISIZE_MAX
      modifies this
      ensures After(r, Dec(env, mode, old(Budget()), if visit.RawBytes? then Leaf(Fixed(n)) else Newtype(visit.t),
                           old(Remaining())), old(pos), old(depth), old(spanStart))
      decreases maxDepth - depth, 1, 1
    {
      hide DecSeq, DecFields, DecList, Lookup, U32, ReadFixed;
      if name.SentinelFixed? { fixedPending := true; }
      var entered := Descend();
      if entered.Bad? { return Bad(entered.error); }
      if visit.RawBytes? { r := DeserializeTuple(n, RawBytes); } else { r := Deserialize(visit.t); }
      depth := depth - 1;
    }

    method DeserializeTuple(len: nat, visit: Visit) returns (r: Result<Val>)
      requires Valid() && boundPending.None? && (fixedPending <==> visit.RawBytes?) && TupleVisit(len, visit)
      requires |input| <= ISIZE_MAX
      modifies this
      ensures After(r, TupleSpec(env, mode, old(Budget()), len, visit, old(Remaining())),
                    old(pos), old(depth), old(spanStart))
      decreases maxDepth - depth, 1, 0
    {
      hide DecSeq, DecFields, DecList, Lookup, U32, ReadFixed, MaxElems;
      if fixedPending {
        fixedPending := false;
        var x := TakeFixed(len);
        return if x.Bad? then Bad(x.error) else Good(VBytes(x.value));
      }
      var entered := Descend();
      if entered.Bad? { return Bad(entered.error); }
      if visit.FieldsOf? {
        var x := VisitFields(visit.ts, len);
        r := if x.Bad? then Bad(x.error) else Good(VSeq(x.value));
      } else if visit.ArmOf? {
        r := VisitArm(visit.t, len);
      } else {
        var x, _ := VisitListCount(visit.t, len);
        r := if x.Bad? then Bad(x.error) else Good(VInt(x.value));
      }
      depth := depth - 1;
    }

    method DeserializeTupleStruct(name: Name, len: nat, visit: Visit) returns (r: Result<Val>)
      requires StructVisit(name, len, visit) && |input| <= ISIZE_MAX
      requires Valid() && !fixedPending && (boundPending.Some? ==> visit.ArrayOf?)
      modifies this
      ensures After(r, StructSpec(env, mode, old(Budget()), old(boundPending), len, visit, old(Remaining())),
                    old(pos), old(depth), old(spanStart))
      decreases maxDepth - depth, 1, 1
    {
      hide Dec, DecFields, Held, Under, StructSpec;
      StructParts(env, mode, Budget(), boundPending, name, len, visit, Remaining());
      var entered := Descend();
      if entered.Bad? { return Bad(entered.error); }
      if name.SentinelBounded? {
        boundPending := Some(len);
        r := Deserialize(visit.t);
      } else if name.SentinelArrayRef? {
        // An array inside an element marks a start of its own, so the outer one is put back.
        var outer := spanStart;
        spanStart := Some(pos);
        r := VisitRef(visit);
        spanStart := outer;
      } else {
        var x := VisitFields(visit.ts, len);
        r := if x.Bad? then Bad(x.error) else Good(VSeq(x.value));
      }
      depth := depth - 1;
    }

    /** The two fields of a borrowed array or list: its count, and the input read since its start. */
    method VisitRef(visit: Visit) returns (r: Result<Val>)
      requires visit.ArrayOf? || visit.ListOf?
      requires Valid() && !fixedPending && (boundPending.Some? ==> visit.ArrayOf?) && spanStart == Some(pos)
      requires |input| <= ISIZE_MAX
      modifies this
      ensures After(r, Under(env, mode, old(Budget()), old(boundPending), visit, old(Remaining())),
                    old(pos), old(depth), old(spanStart))
      decreases maxDepth - depth, 3, 0
    {
      hide DecSeq, DecFields, DecList, DecElems, Lookup, U32, Dec;
      ghost var s := Remaining();
      if visit.ArrayOf? { r := DeserializeSeq(visit.t, false); } else { r := DeserializeTuple(USIZE_MAX, visit); }
      if r.Bad? { return; }
      var count := r.value.i;
      var span := DeserializeSpan();
      assert span.value == s[..pos - old(pos)];
      r := Good(VRef(count, if visit.ArrayOf? then span.value[UNIT..] else span.value));
    }

    /** The newtype read under the array mark: a leaf of raw input. */
    method DeserializeSpan() returns (r: Result<Bytes>)
      requires pos <= |input| && (spanStart.Some? ==> spanStart.value <= pos)
      ensures r == if spanStart.Some? then Good(input[spanStart.value..pos]) else Bad(Unsupported)
    {
      r := if spanStart.Some? then Good(input[spanStart.value..pos]) else Bad(Unsupported);
    }

    method DeserializeStruct(ts: seq<Ty>) returns (r: Result<Val>)
      requires Idle() && |input| <= ISIZE_MAX
      modifies this
      ensures After(r, Dec(env, mode, old(Budget()), Record(StructCall, ts), old(Remaining())),
                    old(pos), old(depth), old(spanStart))
      decreases maxDepth - depth, 1, 1
    {
      hide DecSeq, DecFields, DecList, Lookup, U32;
      var entered := Descend();
      if entered.Bad? { return Bad(entered.error); }
      var x := VisitFields(ts, |ts|);
      depth := depth - 1;
      r := if x.Bad? then Bad(x.error) else Good(VSeq(x.value));
    }

    method DeserializeEnum(t: Ty) returns (r: Result<Val>)
      requires t.IndexEnum? && Idle() && |input| <= ISIZE_MAX
      modifies this
      ensures After(r, Dec(env, mode, old(Budget()), t, old(Remaining())), old(pos), old(depth), old(spanStart))
      decreases maxDepth - depth, 1, 1
    {
      hide DecSeq, DecFields, DecList, Lookup, U32;
      var tag := TakeU32();
      if tag.Bad? { return Bad(tag.error); }
      var entered := Descend();
      if entered.Bad? { return Bad(entered.error); }
      var h := Lookup(t, tag.value);
      if h.Head? {
        var x := VisitFields(ArmTys(t, h.v), |ArmTys(t, h.v)|);
        r := if x.Bad? then Bad(x.error) else Good(WithFields(h.v, x.value));
      } else {
        r := Bad(Message);
      }
      depth := depth - 1;
    }

    /** The count of an array, held against its bound and the input left, and the level its elements are in. */
    method EnterSeq(ghost u: Ty) returns (r: Result<nat>)
      requires Valid() && !fixedPending
      modifies this`pos, this`depth, this`boundPending
      ensures var spec := HeldSeq(env, mode, old(Budget()), old(boundPending), u, old(Remaining()));
        if r.Bad? then spec == Err(r.error) && old(depth) <= depth
        else
          && Idle() && pos == old(pos) + 4 && depth == old(depth) + 1
          && spec == Plus(4, DecElems(env, mode, Budget(), u, r.value, Remaining()))
    {
      hide Dec, DecElems, U32;
      var count := TakeU32();
      if count.Bad? { return Bad(count.error); }
      var held := CheckBound(count.value);
      if held.Bad? { return Bad(held.error); }
      var rem := |Remaining()|;
      if count.value > rem / 4 { return Bad(Eof(count.value * 4 - rem)); }
      var entered := Descend();
      r := if entered.Bad? then Bad(entered.error) else Good(count.value);
    }

    /** A counted array, its elements kept for a `Vec` or only counted for a borrowed array. */
    method DeserializeSeq(u: Ty, keep: bool) returns (r: Result<Val>)
      requires Valid() && !fixedPending && |input| <= ISIZE_MAX
      modifies this
      ensures var spec := HeldSeq(env, mode, old(Budget()), old(boundPending), u, old(Remaining()));
        After(r, if keep then AsVal(spec) else AsNumber(spec), old(pos), old(depth), old(spanStart))
      decreases maxDepth - depth, 1, 1
    {
      hide Dec, DecSeq, DecElems, HeldSeq, U32;
      var count := EnterSeq(u);
      if count.Bad? { return Bad(count.error); }
      if keep {
        var x := VisitElems(u, count.value);
        r := if x.Bad? then Bad(x.error) else Good(VSeq(x.value));
      } else {
        var x := VisitCount(u, count.value);
        r := if x.Bad? then Bad(x.error) else Good(VInt(x.value));
      }
      depth := depth - 1;
    }

    method VisitElems(u: Ty, count: nat) returns (r: Result<seq<Val>>)
      requires Idle() && |input| <= ISIZE_MAX
      modifies this
      ensures After(r, DecElems(env, mode, old(Budget()), u, count, old(Remaining())), old(pos), old(depth), old(spanStart))
      decreases maxDepth - depth, 3, 0
    {
      hide Dec, DecElems, Prepend;
      var vs, remaining: nat := [], count;
      PrependNone(DecElems(env, mode, old(Budget()), u, count, Remaining()));
      while remaining > 0
        invariant remaining <= count && Idle() && depth == old(depth) && spanStart == old(spanStart) && old(pos) <= pos
        invariant DecElems(env, mode, old(Budget()), u, count, old(Remaining()))
               == Prepend(vs, pos - old(pos), DecElems(env, mode, old(Budget()), u, remaining, Remaining()))
      {
        ghost var s, p := Remaining(), pos;
        ElemsNext(env, mode, old(Budget()), u, remaining, s, vs, p - old(pos));
        remaining := remaining - 1;
        var x := Deserialize(u);
        if x.Bad? { return Bad(x.error); }
        assert Remaining() == s[pos - p..];
        vs := vs + [x.value];
      }
      ElemsCons(env, mode, old(Budget()), u, 0, Remaining());
      PrependEnd(vs, pos - old(pos), 0, Range);
      r := Good(vs);
    }

    method VisitCount(u: Ty, count: nat) returns (r: Result<nat>)
      requires Idle() && |input| <= ISIZE_MAX
      modifies this
      ensures After(r, AsCount(DecElems(env, mode, old(Budget()), u, count, old(Remaining()))),
                    old(pos), old(depth), old(spanStart))
      decreases maxDepth - depth, 3, 0
    {
      hide Dec, DecElems, Prepend;
      var len: nat, remaining: nat := 0, count;
      ghost var vs := [];
      PrependNone(DecElems(env, mode, old(Budget()), u, count, Remaining()));
      while remaining > 0
        invariant len + remaining == count && |vs| == len
        invariant Idle() && depth == old(depth) && spanStart == old(spanStart) && old(pos) <= pos
        invariant DecElems(env, mode, old(Budget()), u, count, old(Remaining()))
               == Prepend(vs, pos - old(pos), DecElems(env, mode, old(Budget()), u, remaining, Remaining()))
      {
        ghost var s, p := Remaining(), pos;
        ElemsNext(env, mode, old(Budget()), u, remaining, s, vs, p - old(pos));
        remaining := remaining - 1;
        var x := Deserialize(u);
        if x.Bad? { return Bad(x.error); }
        assert Remaining() == s[pos - p..];
        len, vs := len + 1, vs + [x.value];
      }
      ElemsCons(env, mode, old(Budget()), u, 0, Remaining());
      PrependEnd(vs, pos - old(pos), 0, Range);
      r := Good(len);
    }

    method VisitFields(ts: seq<Ty>, count: nat) returns (r: Result<seq<Val>>)
      requires |ts| <= count && Idle() && |input| <= ISIZE_MAX
      modifies this
      ensures After(r, DecFields(env, mode, old(Budget()), ts, old(Remaining())), old(pos), old(depth), old(spanStart))
      decreases maxDepth - depth, 3, 0
    {
      hide Dec, DecFields, Prepend;
      var vs, remaining: nat, i := [], count, 0;
      PrependNone(DecFields(env, mode, old(Budget()), ts, Remaining()));
      assert ts[0..] == ts;
      while i < |ts|
        invariant i <= |ts| && remaining + i == count
        invariant Idle() && depth == old(depth) && spanStart == old(spanStart) && old(pos) <= pos
        invariant DecFields(env, mode, old(Budget()), ts, old(Remaining()))
               == Prepend(vs, pos - old(pos), DecFields(env, mode, old(Budget()), ts[i..], Remaining()))
      {
        ghost var s, p := Remaining(), pos;
        FieldsNext(env, mode, old(Budget()), ts[i..], s, vs, p - old(pos));
        remaining := remaining - 1;
        var x := Deserialize(ts[i]);
        if x.Bad? { return Bad(x.error); }
        assert Remaining() == s[pos - p..] && ts[i..][1..] == ts[i + 1..];
        vs, i := vs + [x.value], i + 1;
      }
      FieldsCons(env, mode, old(Budget()), ts[i..], Remaining());
      PrependEnd(vs, pos - old(pos), 0, Range);
      r := Good(vs);
    }

    method VisitArm(t: Ty, count: nat) returns (r: Result<Val>)
      requires t.Union? && count == MaxElems(t) && Idle() && 0 < depth && |input| <= ISIZE_MAX
      modifies this
      ensures After(r, Dec(env, mode, old(Budget()) + 1, t, old(Remaining())), old(pos), old(depth), old(spanStart))
      decreases maxDepth - depth, 4, 0
    {
      hide DecSeq, DecFields, DecList, Lookup, U32;
      var tag := TakeU32();
      if tag.Bad? { return Bad(tag.error); }
      var h := Lookup(t, tag.value);
      if h.NoArm? { return Bad(Message); }
      var x := VisitFields(ArmTys(t, h.v), count - 1);
      r := if x.Bad? then Bad(x.error) else Good(WithFields(h.v, x.value));
    }

    /** The loop of `ListCount`: it is given `usize::MAX` elements and ends at the boolean of 0. Each step that
        reads something takes a unit of input or more, so there are at most as many steps as units, and one
        more where the last one fails. */
    method VisitListCount(u: Ty, count: nat) returns (r: Result<nat>, ghost steps: nat)
      requires count == USIZE_MAX && Idle() && |input| <= ISIZE_MAX
      modifies this
      ensures After(r, AsCount(DecList(env, mode, old(Budget()), u, old(Remaining()))),
                    old(pos), old(depth), old(spanStart))
      ensures r.Good? ==> steps == r.value + 1 && steps <= |old(Remaining())| / 4
      ensures r.Bad? ==> 1 <= steps <= |old(Remaining())| / 4 + 1
      decreases maxDepth - depth, 3, 0
    {
      hide Dec, DecList, Prepend;
      var len: nat, remaining: nat, more := 0, count, true;
      ghost var vs := [];
      ghost var s0 := Remaining();
      PrependNone(DecList(env, mode, old(Budget()), u, s0));
      steps := 0;
      while more
        invariant steps == count - remaining
        invariant len <= remaining + len <= count && |vs| == len && 4 * (count - remaining) <= pos - old(pos) <= |s0|
        invariant Idle() && depth == old(depth) && spanStart == old(spanStart) && input[old(pos)..] == s0
        invariant more ==> len + remaining == count
        invariant DecList(env, mode, old(Budget()), u, s0)
               == if more then Prepend(vs, pos - old(pos), DecList(env, mode, old(Budget()), u, Remaining()))
                  else Ok(vs, pos - old(pos))
        invariant !more ==> len + 1 + remaining == count
        decreases more, |input| - pos
      {
        ghost var s, p := Remaining(), pos;
        ListNext(env, mode, old(Budget()), u, s, vs, p - old(pos));
        remaining, steps := remaining - 1, steps + 1;
        var x := DeserializeOption(u);
        if x.Bad? { return Bad(x.error), steps; }
        assert Remaining() == s[pos - p..];
        if x.value.VSome? {
          len, vs := len + 1, vs + [x.value.v];
        } else {
          more := false;
        }
      }
      r := Good(len);
    }
  }

  /** What a decoder of any depth reads from the front of `bytes`, and what it leaves. */
  method Front(env: Env, t: Ty, bytes: Bytes, mode: Mode, depth: nat) returns (r: Result<(Val, Bytes)>)
    requires |bytes| <= ISIZE_MAX
    ensures var d := Dec(env, mode, depth, t, bytes);
      r == if d.Ok? then Good((d.v, bytes[d.n..])) else Bad(d.e)
  {
    hide Dec;
    var de := new Deserializer(env, bytes, mode, depth);
    assert de.Remaining() == bytes;
    var v := de.Deserialize(t);
    r := if v.Bad? then Bad(v.error) else Good((v.value, de.Remaining()));
  }

  /** Decode a value from the front of `bytes`, with the unread tail. */
  method FromPrefix(env: Env, t: Ty, bytes: Bytes, mode: Mode) returns (r: Result<(Val, Bytes)>)
    requires |bytes| <= ISIZE_MAX
    ensures var d := Dec(env, mode, DEFAULT_MAX_DEPTH, t, bytes);
      r == if d.Ok? then Good((d.v, bytes[d.n..])) else Bad(d.e)
  {
    r := Front(env, t, bytes, mode, DEFAULT_MAX_DEPTH);
  }

  /** Decode a value that must take up the whole of `bytes`. */
  method FromBytes(env: Env, t: Ty, bytes: Bytes, mode: Mode) returns (r: Result<Val>)
    requires |bytes| <= ISIZE_MAX
    ensures r == Exactly(Dec(env, mode, DEFAULT_MAX_DEPTH, t, bytes), bytes)
  {
    hide Dec;
    var x := FromPrefix(env, t, bytes, mode);
    r := if x.Bad? then Bad(x.error)
         else if x.value.1 == [] then Good(x.value.0)
         else Bad(TrailingBytes(|x.value.1|));
  }
}
