/** Unions and their arms, section 4.15 of RFC 4506: how a declaration gets its discriminants, and what an
    arm's discriminant decides on either side of the wire. */
module XdrUnion {
  import opened Wire
  import opened XdrSchema
  import opened XdrDecode
  import opened XdrCanon
  import opened XdrRoundTrip
  import opened Wrappers

  const I32_MAX: int := 0x7FFF_FFFF

  /** A variant as declared: its `= N` if any, the mark of the default arm, and its fields. */
  datatype Variant = Variant(disc: Option<int>, isDefault: bool, ts: seq<Ty>)

  /** A variant's number is the one written, or one more than the variant before it. */
  function Number(vs: seq<Variant>, i: nat): (d: int)
    requires i < |vs|
  {
    if vs[i].disc.Some? then vs[i].disc.value else if i == 0 then 0 else Number(vs, i - 1) + 1
  }

  /** So it is counted on from the last number written, or from 0 where there is none. */
  lemma {:induction false} NumberMeans(vs: seq<Variant>, i: nat, j: nat)
    requires j <= i < |vs| && forall k :: j < k <= i ==> vs[k].disc.None?
    ensures vs[j].disc.Some? ==> Number(vs, i) == vs[j].disc.value + (i - j)
    ensures j == 0 && vs[0].disc.None? ==> Number(vs, i) == i
    decreases i
  {
    if j < i { NumberMeans(vs, i - 1, j); }
  }

  /** The numbers of all variants. One at the top of the range is refused, the last variant's included. */
  method Discriminants(vs: seq<Variant>) returns (r: Result<seq<int>>)
    requires forall i :: 0 <= i < |vs| && vs[i].disc.Some? ==> IsI32(vs[i].disc.value)
    ensures r.Good? <==> forall i :: 0 <= i < |vs| ==> Number(vs, i) < I32_MAX
    ensures r.Good? ==> |r.value| == |vs| && forall i :: 0 <= i < |vs| ==> r.value[i] == Number(vs, i) && IsI32(r.value[i])
  {
    var next := 0;
    var out := [];
    for i := 0 to |vs|
      invariant |out| == i && IsI32(next) && (i > 0 ==> next == Number(vs, i - 1) + 1) && (i == 0 ==> next == 0)
      invariant forall k :: 0 <= k < i ==> out[k] == Number(vs, k) && IsI32(out[k]) && out[k] < I32_MAX
    {
      var value := if vs[i].disc.Some? then vs[i].disc.value else next;
      assert value == Number(vs, i);
      out := out + [value];
      if value == I32_MAX { return Bad(Message); }
      next := value + 1;
    }
    r := Good(out);
  }

  /** The default arm may only be the last variant, declares no number and needs a field to hold one. */
  predicate Misplaced(vs: seq<Variant>, i: nat)
    requires i < |vs|
  {
    vs[i].isDefault && (i + 1 != |vs| || vs[i].disc.Some? || vs[i].ts == [])
  }

  method HasDefaultArm(vs: seq<Variant>) returns (r: Result<bool>)
    ensures r.Bad? <==> exists i :: 0 <= i < |vs| && Misplaced(vs, i)
    ensures r.Good? ==> (r.value <==> vs != [] && vs[|vs| - 1].isDefault)
    ensures r.Good? ==> forall i :: 0 <= i < |vs| - 1 ==> !vs[i].isDefault
  {
    var found := false;
    for i := 0 to |vs|
      invariant forall k :: 0 <= k < i ==> !Misplaced(vs, k)
      invariant forall k :: 0 <= k < i && k < |vs| - 1 ==> !vs[k].isDefault
      invariant found <==> i == |vs| && vs != [] && vs[|vs| - 1].isDefault
    {
      if vs[i].isDefault {
        if Misplaced(vs, i) { return Bad(Message); }
        found := true;
      }
    }
    r := Good(found);
  }

  /** The union a declaration stands for: every variant but a default arm is an explicit arm under its number. */
  method ExpandUnion(vs: seq<Variant>) returns (r: Result<Ty>)
    requires forall i :: 0 <= i < |vs| && vs[i].disc.Some? ==> IsI32(vs[i].disc.value)
    requires forall i :: 0 <= i < |vs| && vs[i].isDefault && vs[i].ts != [] ==>
      vs[i].ts[0] == Leaf(Scalar(I32)) || (vs[i].ts[0].Leaf? && vs[i].ts[0].p.DiscEnum? && WfPrim(vs[i].ts[0].p))
    ensures r.Good? <==> (forall i :: 0 <= i < |vs| ==> Number(vs, i) < I32_MAX && !Misplaced(vs, i))
    ensures r.Good? ==>
      var n := if vs != [] && vs[|vs| - 1].isDefault then |vs| - 1 else |vs|;
      && r.value.Union? && |r.value.discs| == |r.value.arms| == n
      && (forall i :: 0 <= i < n ==> r.value.discs[i] == Number(vs, i) && r.value.arms[i].ts == vs[i].ts)
      && (if n == |vs| then r.value.dflt.NoDefault?
          else r.value.dflt.Arm? && [Leaf(r.value.dflt.first)] + r.value.dflt.rest == vs[n].ts)
      && (DiscsOk(r.value.discs) ==> WfTag(r.value))
  {
    var discs := Discriminants(vs);
    if discs.Bad? { return Bad(discs.error); }
    var ends := HasDefaultArm(vs);
    if ends.Bad? { return Bad(ends.error); }
    assert vs != [] ==> !Misplaced(vs, |vs| - 1);
    var explicit := |vs| - if ends.value then 1 else 0;
    var arms := seq(explicit, i requires 0 <= i < explicit => Fields(vs[i].ts));
    var dflt := if ends.value then Arm(vs[explicit].ts[0].p, vs[explicit].ts[1..]) else NoDefault;
    r := Good(Union(discs.value[..explicit], arms, dflt));
  }

  /** A value that encodes comes back as the same arm with the same fields, wherever nesting and counts let
      it be read at all; no other arm is ever taken for it. */
  lemma ArmComesBack(env: Env, m: Mode, b: nat, t: Ty, v: Val, tail: Bytes)
    requires Wf(env) && WfTy(t) && t.Union? && Enc(env, t, v).Good?
    ensures var e := Enc(env, t, v).value; var r := Dec(env, m, b, t, e + tail);
      && (r == Ok(v, |e|) <==> Reads(env, m, b, t, v, |tail|))
      && (r.Ok? ==> WithFields(r.v, []) == WithFields(v, []))
  {
    hide DecFields, EncFields, Reads, U32, Be32, TagFree, TagWord, Lookup;
    RoundTrip(env, m, b, t, v, tail);
    var w, ts := TagWord(t, v), ArmTys(t, v);
    var e1 := EncFields(env, ts, v.vs).value;
    assert Be32(w) + e1 + tail == Be32(w) + (e1 + tail);
    Be32Inverse(w, e1 + tail);
    TagBack(t, v);
  }

  /** A default value has an encoding exactly when its other fields have one and a decoder, given its
      discriminant, would take the default arm and the same first field; one that would be taken for another
      arm is refused whatever its fields. */
  lemma OwnedDiscriminant(env: Env, t: Ty, v: Val)
    requires t.Union? && TagOk(t, v) && v.VDefault?
    ensures Disc(t, v) in t.discs ==> Enc(env, t, v) == Bad(Message)
    ensures var h := Lookup(t, TagWord(t, v));
      WfTag(t) ==>
        && (Enc(env, t, v).Good? <==> EncFields(env, t.dflt.rest, v.vs).Good? && h == Head(VDefault(v.first, [])))
        && (Disc(t, v) in t.discs <==> h != Head(VDefault(v.first, [])))
  {
    hide EncFields;
    assert FromWord(I32, TagWord(t, v)) == Disc(t, v);
    if WfTag(t) && Disc(t, v) !in t.discs { FromDiscBack(t.dflt.first, v.first); }
  }

  /** The default arm. It takes every discriminant that has no arm of its own and that its first field's type
      can hold; what it took encodes again with that discriminant, and to the same bytes when read
      strictly. */
  lemma DefaultArm(env: Env, m: Mode, b: nat, t: Ty, s: Bytes)
    requires WfTag(t) && t.Union? && t.dflt.Arm? && |s| >= 4 && b > 0
    ensures var d := FromWord(I32, U32(s));
      var first := FromDisc(t.dflt.first, d);
      var body := DecFields(env, m, b - 1, t.dflt.rest, s[4..]);
      d !in t.discs && first.Head? && body.Ok? ==>
        var r := Dec(env, m, b, t, s);
        && r == Ok(VDefault(first.v, body.v), 4 + body.n) && Disc(t, r.v) == d
        && Spells(Enc(env, t, r.v), s, r.n, m.Strict?) && Enc(env, t, r.v).value[..4] == s[..4]
  {
    hide DecFields, EncFields, U32, Be32;
    var d := FromWord(I32, U32(s));
    var first := FromDisc(t.dflt.first, d);
    var body := DecFields(env, m, b - 1, t.dflt.rest, s[4..]);
    if d !in t.discs && first.Head? && body.Ok? {
      Canon(env, m, b, t, s);
      CanonTag(t, s, body.v);
    }
  }
}
