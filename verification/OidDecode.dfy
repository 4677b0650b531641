/** Object identifiers, section 8.19 of X.690: sub-identifiers in base 128, the first of them two arcs in one. */
module OidDecode {
  import opened Wire
  import opened Wrappers

  const U64_MAX: int := 0xFFFF_FFFF_FFFF_FFFF

  /** The sub-identifiers that end in `s`, where `acc` of the first has been read. */
  function Values(acc: nat, s: Bytes): seq<nat>
    decreases |s|
  {
    if s == [] then [] else
    var v := acc * 128 + s[0] % 128;
    if s[0] >= 128 then Values(v, s[1..]) else [v] + Values(0, s[1..])
  }

  /** The last octet ends a sub-identifier. */
  predicate Ends(s: Bytes) { s != [] && s[|s| - 1] < 128 }

  predicate Small(values: seq<nat>) { forall i :: 0 <= i < |values| ==> values[i] <= U64_MAX }

  function FirstArc(value: nat): nat { if value < 40 then 0 else if value < 80 then 1 else 2 }

  /** The arcs that sub-identifiers stand for. */
  function Arcs(values: seq<nat>): seq<nat> {
    if values == [] then [] else [FirstArc(values[0]), values[0] - FirstArc(values[0]) * 40] + values[1..]
  }

  /** What octets stand for. There is nothing exactly where there are none, where the last sub-identifier does
      not end, or where one does not fit. */
  function Decoded(s: Bytes): Option<seq<nat>> {
    if Ends(s) && Small(Values(0, s)) then Some(Arcs(Values(0, s))) else None
  }

  lemma ValuesCons(acc: nat, b: byte, s: Bytes)
    ensures var v := acc * 128 + b % 128;
      Values(acc, [b] + s) == if b >= 128 then Values(v, s) else [v] + Values(0, s)
  {
    assert ([b] + s)[1..] == s;
  }

  /** A value that is too large already is part of one that is, or of one that does not end. */
  lemma {:induction false} StaysLarge(acc: nat, s: Bytes)
    requires acc > U64_MAX && Ends(s)
    ensures !Small(Values(acc, s))
    decreases |s|
  {
    var v := acc * 128 + s[0] % 128;
    if s[0] >= 128 {
      StaysLarge(v, s[1..]);
    } else {
      assert Values(acc, s)[0] == v;
    }
  }

  lemma SmallJoin(a: seq<nat>, b: seq<nat>)
    ensures Small(a + b) <==> Small(a) && Small(b)
  {
    forall i | 0 <= i < |b|
      ensures (a + b)[|a| + i] == b[i]
    {
    }
    if Small(a + b) {
      assert forall i :: 0 <= i < |a| ==> a[i] == (a + b)[i];
    }
  }

  method Decode(s: Bytes) returns (r: Option<seq<nat>>)
    ensures r == Decoded(s)
  {
    hide Values, Small, Arcs;
    var arcs, value: nat := [], 0;
    ghost var done: seq<nat> := [];
    Nothing(s);
    for i := 0 to |s|
      invariant Values(0, s) == done + Values(value, s[i..]) && Small(done) && value <= U64_MAX
      invariant arcs == Arcs(done) && (arcs == [] <==> done == [])
    {
      var byte := s[i];
      assert s[i..] == [byte] + s[i + 1..];
      ValuesCons(value, byte, s[i + 1..]);
      if value * 128 > U64_MAX || value * 128 + byte % 128 > U64_MAX {
        TooLarge(s, i, done, value);
        return None;
      }
      value := value * 128 + byte % 128;
      if byte < 128 {
        Append(done, value, Values(0, s[i + 1..]));
        if arcs == [] {
          var first := if value < 40 then 0 else if value < 80 then 1 else 2;
          arcs := arcs + [first];
          arcs := arcs + [value - first * 40];
        } else {
          arcs := arcs + [value];
        }
        done := done + [value];
        value := 0;
      }
    }
    if s == [] || s[|s| - 1] >= 128 { return None; }
    ValuesNone(value);
    assert s[|s|..] == [] && done + [] == done;
    r := Some(arcs);
  }

  lemma Nothing(s: Bytes)
    ensures Small([]) && Arcs([]) == [] && [] + Values(0, s[0..]) == Values(0, s)
  {
    hide Values;
    assert s[0..] == s;
  }

  lemma Append(values: seq<nat>, v: nat, rest: seq<nat>)
    requires Small(values) && v <= U64_MAX
    ensures Small(values + [v]) && values + ([v] + rest) == values + [v] + rest
    ensures Arcs(values + [v]) == if values == [] then [FirstArc(v), v - FirstArc(v) * 40] else Arcs(values) + [v]
  {
    if values != [] { assert (values + [v])[1..] == values[1..] + [v]; }
  }

  lemma ValuesNone(acc: nat)
    ensures Values(acc, []) == []
  {
  }

  lemma TooLarge(s: Bytes, i: nat, done: seq<nat>, value: nat)
    requires i < |s| && Values(0, s) == done + Values(value, s[i..]) && value * 128 + s[i] % 128 > U64_MAX
    ensures Decoded(s) == None
  {
    hide Values;
    if Ends(s) {
      var v := value * 128 + s[i] % 128;
      var rest := s[i + 1..];
      assert s[i..] == [s[i]] + rest;
      ValuesCons(value, s[i], rest);
      if s[i] >= 128 {
        StaysLarge(v, rest);
      } else {
        assert Values(value, s[i..])[0] == v;
      }
      SmallJoin(done, Values(value, s[i..]));
    }
  }

  /** The octets of a value that go on. */
  function More(v: nat): Bytes { if v == 0 then [] else More(v / 128) + [v % 128 + 128] }

  /** A value in base 128, without leading zeros. */
  function Octets(v: nat): Bytes { More(v / 128) + [v % 128] }

  function AllOctets(values: seq<nat>): Bytes { if values == [] then [] else Octets(values[0]) + AllOctets(values[1..]) }

  /** Arcs that can be written: the first is at most 2, and the second below 40 unless the first is 2. */
  predicate Legal(arcs: seq<nat>) {
    && |arcs| >= 2 && arcs[0] <= 2 && (arcs[0] < 2 ==> arcs[1] < 40)
    && Small(SubIds(arcs))
  }

  function SubIds(arcs: seq<nat>): seq<nat>
    requires |arcs| >= 2
  {
    [40 * arcs[0] + arcs[1]] + arcs[2..]
  }

  lemma {:induction false} MoreThrough(v: nat, s: Bytes)
    ensures Values(0, More(v) + s) == Values(v, s)
    decreases v
  {
    hide Values;
    if v == 0 {
      assert More(v) + s == s;
    } else {
      var b := v % 128 + 128;
      assert More(v) + s == More(v / 128) + ([b] + s);
      MoreThrough(v / 128, [b] + s);
      ValuesCons(v / 128, b, s);
    }
  }

  lemma {:induction false} ValuesBack(values: seq<nat>)
    ensures Values(0, AllOctets(values)) == values
    ensures values != [] ==> Ends(AllOctets(values))
    decreases |values|
  {
    hide Values, More;
    if values == [] {
      ValuesNone(0);
    } else {
      var v, rest := values[0], AllOctets(values[1..]);
      ValuesBack(values[1..]);
      assert AllOctets(values) == More(v / 128) + ([v % 128] + rest);
      MoreThrough(v / 128, [v % 128] + rest);
      ValuesCons(v / 128, v % 128, rest);
      assert values == [v] + values[1..];
    }
  }

  /** Every legal arc list comes back from its minimal octets. */
  lemma DecodesBack(arcs: seq<nat>)
    requires Legal(arcs)
    ensures Decoded(AllOctets(SubIds(arcs))) == Some(arcs)
  {
    hide Values, AllOctets;
    ValuesBack(SubIds(arcs));
    assert SubIds(arcs)[1..] == arcs[2..];
    assert arcs == [arcs[0], arcs[1]] + arcs[2..];
  }

  lemma MoreCons(acc: nat, b: byte)
    requires b >= 128 && (acc > 0 || b != 128)
    ensures More(acc * 128 + b % 128) == More(acc) + [b]
  {
    Base(acc, b % 128);
  }

  lemma Base(q: nat, r: nat)
    requires r < 128
    ensures (q * 128 + r) / 128 == q && (q * 128 + r) % 128 == r
  {
  }

  /** No sub-identifier begins with a zero that goes on, where `acc` of the first has been read. */
  predicate NoZero(acc: nat, s: Bytes) {
    && (s != [] && acc == 0 ==> s[0] != 128)
    && (forall i :: 0 < i < |s| && s[i - 1] < 128 ==> s[i] != 128)
  }

  lemma NoZeroRest(acc: nat, b: byte, t: Bytes)
    requires NoZero(acc, [b] + t)
    ensures acc > 0 || b != 128
    ensures NoZero(if b >= 128 then acc * 128 + b % 128 else 0, t)
  {
    var s := [b] + t;
    assert s[0] == b;
    forall i | 0 < i < |t| && t[i - 1] < 128
      ensures t[i] != 128
    {
      assert s[i + 1] == t[i] && s[i] == t[i - 1];
    }
    if t != [] { assert s[1] == t[0]; }
  }

  lemma EndsNot()
    ensures !Ends([])
  {
  }

  lemma EndsRest(b: byte, t: Bytes)
    requires Ends([b] + t)
    ensures if t == [] then b < 128 else Ends(t)
  {
    var s := [b] + t;
    if t != [] { assert t[|t| - 1] == s[|s| - 1]; }
  }

  lemma OctetsCons(v: nat, values: seq<nat>)
    ensures AllOctets([v] + values) == Octets(v) + AllOctets(values)
  {
    assert ([v] + values)[1..] == values;
  }

  lemma {:induction false} OctetsBack(acc: nat, s: Bytes)
    requires (s == [] && acc == 0) || Ends(s)
    requires NoZero(acc, s)
    ensures AllOctets(Values(acc, s)) == More(acc) + s
    decreases |s|
  {
    hide More, Values, AllOctets, NoZero, Ends;
    NoMore();
    if s == [] {
      EndsNot();
      ValuesNone(acc);
    } else {
      var b, t := s[0], s[1..];
      var v := acc * 128 + b % 128;
      assert s == [b] + t && More(acc) + s == More(acc) + [b] + t;
      ValuesCons(acc, b, t);
      NoZeroRest(acc, b, t);
      EndsRest(b, t);
      if b >= 128 {
        MoreCons(acc, b);
        OctetsBack(v, t);
      } else {
        OctetsBack(0, t);
        OctetsCons(v, Values(0, t));
        assert v / 128 == acc && v % 128 == b && [] + t == t;
      }
    }
  }

  lemma NoMore()
    ensures More(0) == [] && AllOctets([]) == []
  {
  }

  lemma {:induction false} MoreIs(v: nat)
    ensures (forall i :: 0 <= i < |More(v)| ==> More(v)[i] >= 128) && (v > 0 ==> More(v) != [] && More(v)[0] > 128)
    decreases v
  {
    if v > 0 {
      MoreIs(v / 128);
      if v < 128 { NoMore(); }
    }
  }

  lemma {:induction false} OctetsNoZero(values: seq<nat>)
    ensures NoZero(0, AllOctets(values))
    decreases |values|
  {
    hide More;
    if values != [] {
      var v, rest := values[0], AllOctets(values[1..]);
      var more := More(v / 128);
      var s := AllOctets(values);
      OctetsNoZero(values[1..]);
      MoreIs(v / 128);
      NoMore();
      assert s == more + ([v % 128] + rest);
      forall i | 0 < i < |s| && s[i - 1] < 128
        ensures s[i] != 128
      {
        if i > |more| + 1 { assert s[i] == rest[i - |more| - 1] && s[i - 1] == rest[i - |more| - 2]; }
      }
    }
  }

  /** Octets that end are the minimal ones of what they stand for if and only if no sub-identifier begins with a
      zero. */
  lemma MinimalBack(s: Bytes)
    requires Ends(s)
    ensures AllOctets(Values(0, s)) == s <==> NoZero(0, s)
  {
    hide More, Values, AllOctets, NoZero;
    NoMore();
    OctetsNoZero(Values(0, s));
    if NoZero(0, s) {
      OctetsBack(0, s);
      assert [] + s == s;
    }
  }

  const KERBEROS_TAIL: Bytes := [0x86, 0xf7, 0x12, 0x01, 0x02, 0x02]
  const KERBEROS: Bytes := [0x2a, 0x86, 0x48] + KERBEROS_TAIL

  lemma KerberosTail()
    ensures Values(0, KERBEROS_TAIL) == [113554, 1, 2, 2]
  {
    hide Values;
    ValuesNone(0);
    ValuesCons(0, 2, []);
    assert [2] + [] == [2];
    ValuesCons(0, 2, [2]);
    ValuesCons(0, 1, [2] + [2]);
    var t := [1] + ([2] + [2]);
    ValuesCons(887, 0x12, t);
    ValuesCons(6, 0xf7, [0x12] + t);
    ValuesCons(0, 0x86, [0xf7] + ([0x12] + t));
    assert [0x86] + ([0xf7] + ([0x12] + t)) == KERBEROS_TAIL;
  }

  lemma KerberosValues()
    ensures Values(0, KERBEROS) == [42, 840] + [113554, 1, 2, 2]
  {
    KerberosTail();
    var u := KERBEROS_TAIL;
    assert [0x2a] + ([0x86] + ([0x48] + u)) == KERBEROS;
    hide Values, KERBEROS_TAIL, KERBEROS;
    ValuesCons(6, 0x48, u);
    ValuesCons(0, 0x86, [0x48] + u);
    ValuesCons(0, 0x2a, [0x86] + ([0x48] + u));
  }

  /** The Kerberos mechanism, 1.2.840.113554.1.2.2, by the octets 2A 86 48 86 F7 12 01 02 02. */
  lemma Kerberos()
    ensures Decoded(KERBEROS) == Some([1, 2] + [840, 113554, 1, 2, 2])
  {
    hide Values;
    KerberosValues();
    var v := [42, 840] + [113554, 1, 2, 2];
    assert v[0] == 42 && v[1..] == [840, 113554, 1, 2, 2];
    assert Ends(KERBEROS) && Small(v);
  }
}
