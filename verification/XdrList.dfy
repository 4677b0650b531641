/** Lists of optional data, section 4.19 of RFC 4506: the borrowed list read in a loop against the chain of
    nested optionals it stands for. */
module XdrList {
  import opened Wire
  import opened XdrSchema
  import opened XdrDecode
  import opened XdrLocal
  import opened XdrCanon
  import opened XdrDeserializer
  import opened XdrRoundTrip
  import opened XdrRecut
  import opened XdrDepth
  import XdrBorrow
  import opened Wrappers

  /** `node` is declared as an element and the optional rest of the list. */
  predicate IsNode(env: Env, node: nat, t: Ty) {
    node in env.defs && env.defs[node] == Record(StructCall, [t, Optional(Rec(node))])
  }

  /** The value of type `Option<Box<Node>>` that links `vs`. */
  function Chain(vs: seq<Val>): (c: Val) {
    if vs == [] then VNone else VSome(VBox(VSeq([vs[0], Chain(vs[1..])])))
  }

  lemma ChainOf(v: Val, vs: seq<Val>)
    ensures Chain([v] + vs) == VSome(VBox(VSeq([v, Chain(vs)])))
  {
    assert ([v] + vs)[1..] == vs;
  }

  /** What a chain reads: a boolean, and behind a true one an element and the rest, two levels down. */
  function ChainStep(m: Mode, b: nat, s: Bytes, x: Read<Val>, c: Read<Val>): (r: Read<Val>) {
    var h := ReadBool(m, s);
    if h.Err? then Err(h.e) else if !h.v then Ok(VNone, 4) else if b <= 1 then Err(RecursionLimit)
    else if x.Err? then Err(x.e) else if c.Err? then Err(c.e)
    else Ok(VSome(VBox(VSeq([x.v, c.v]))), 4 + x.n + c.n)
  }

  lemma NodeCons(env: Env, m: Mode, b: nat, t: Ty, node: nat, s: Bytes)
    requires IsNode(env, node, t)
    ensures Dec(env, m, b, Rec(node), s) ==
      if b == 0 then Err(RecursionLimit)
      else
        var r := DecFields(env, m, b - 1, [t, Optional(Rec(node))], s);
        if r.Err? then Err(r.e) else Ok(VBox(VSeq(r.v)), r.n)
  {
    hide DecPrim, DecSeq, DecFields, DecList, Lookup, U32;
    assert Dec(env, m, b, env.defs[node], s) ==
      if b == 0 then Err(RecursionLimit)
      else
        var r := DecFields(env, m, b - 1, [t, Optional(Rec(node))], s);
        if r.Err? then Err(r.e) else Ok(VSeq(r.v), r.n);
  }

  lemma ChainCons(env: Env, m: Mode, b: nat, t: Ty, node: nat, s: Bytes)
    requires IsNode(env, node, t) && |s| >= 4
    ensures var b' := if b <= 1 then 0 else b - 2;
      var x := Dec(env, m, b', t, s[4..]);
      Dec(env, m, b, Optional(Rec(node)), s)
        == ChainStep(m, b, s, x, Dec(env, m, b', Optional(Rec(node)), Rest(x, s[4..])))
  {
    OptionalCons(env, m, b, Rec(node), s);
    hide Dec, DecFields, U32;
    if b >= 1 { NodeCons(env, m, b - 1, t, node, s[4..]); }
    if b >= 2 { PairFields(env, m, b - 2, t, Optional(Rec(node)), s[4..]); }
  }

  /** A list read in a loop is the chain, given two levels for each element. */
  lemma {:induction false} ListIsChain(env: Env, m: Mode, b: nat, b': nat, t: Ty, node: nat, s: Bytes)
    requires IsNode(env, node, t) && DecList(env, m, b, t, s).Ok?
    requires b' >= b + 2 * |DecList(env, m, b, t, s).v|
    ensures var r := DecList(env, m, b, t, s); Dec(env, m, b', Optional(Rec(node)), s) == Ok(Chain(r.v), r.n)
    decreases |s|
  {
    hide Dec, DecList, U32, Units, Chain;
    var r := DecList(env, m, b, t, s);
    ListCons(env, m, b, t, s);
    OptionalCons(env, m, b, t, s);
    OptionalCons(env, m, b', Rec(node), s);
    var o := Dec(env, m, b, Optional(t), s);
    if o.v.VSome? {
      ChainCons(env, m, b', t, node, s);
      var x := Dec(env, m, b - 1, t, s[4..]);
      Local(env, m, m, b - 1, b' - 2, t, s[4..], s[4..]);
      assert s[4..][x.n..] == s[o.n..];
      ListIsChain(env, m, b, b' - 2, t, node, s[o.n..]);
      ChainOf(x.v, DecList(env, m, b, t, s[o.n..]).v);
    } else {
      NoChain();
    }
  }

  /** The elements of a chain. */
  function Links(c: Val): (vs: seq<Val>) {
    if c.VSome? && c.v.VBox? && c.v.v.VSeq? && |c.v.v.vs| == 2 then [c.v.v.vs[0]] + Links(c.v.v.vs[1]) else []
  }

  lemma LinksOf(v: Val, c: Val)
    ensures Links(VSome(VBox(VSeq([v, c])))) == [v] + Links(c)
  {
  }

  lemma NoChain()
    ensures Chain([]) == VNone && Links(VNone) == []
  {
  }

  /** A chain that was read is a list read in a loop, at no more than the chain's first level. */
  lemma {:induction false} ChainIsList(env: Env, m: Mode, b: nat, b': nat, t: Ty, node: nat, s: Bytes)
    requires IsNode(env, node, t) && b <= b' && Dec(env, m, b, Optional(Rec(node)), s).Ok?
    ensures var c := Dec(env, m, b, Optional(Rec(node)), s);
      DecList(env, m, b', t, s) == Ok(Links(c.v), c.n) && c.v == Chain(Links(c.v))
    decreases b
  {
    hide Dec, DecList, U32, Units, Chain, Links;
    ListCons(env, m, b', t, s);
    OptionalCons(env, m, b', t, s);
    OptionalCons(env, m, b, Rec(node), s);
    ChainCons(env, m, b, t, node, s);
    var c := Dec(env, m, b, Optional(Rec(node)), s);
    if ReadBool(m, s).v {
      var x := Dec(env, m, b - 2, t, s[4..]);
      Local(env, m, m, b - 2, b' - 1, t, s[4..], s[4..]);
      assert s[4..][x.n..] == s[4 + x.n..];
      ChainIsList(env, m, b - 2, b', t, node, s[4 + x.n..]);
      var d := c.v.v.v.vs[1];
      LinksOf(x.v, d);
      ChainOf(x.v, Links(d));
    } else {
      NoChain();
    }
  }

  /** Everything `ListIter` yields from `left` elements in `rest`. */
  function ListItems(env: Env, t: Ty, left: nat, rest: Bytes): (items: seq<Result<Val>>)
    decreases left
  {
    if left == 0 then [] else
    var x := Dec(env, Lenient, USIZE_MAX, Optional(t), rest);
    if x.Err? then [Bad(x.e)] else if x.v.VNone? then [Bad(Eof(0))]
    else if x.v.VSome? then [Good(x.v.v)] + ListItems(env, t, left - 1, rest[x.n..]) else []
  }

  lemma ListItemsCons(env: Env, t: Ty, left: nat, rest: Bytes)
    ensures ListItems(env, t, left, rest) ==
      if left == 0 then [] else
      var x := Dec(env, Lenient, USIZE_MAX, Optional(t), rest);
      if x.Err? then [Bad(x.e)] else if x.v.VNone? then [Bad(Eof(0))]
      else if x.v.VSome? then [Good(x.v.v)] + ListItems(env, t, left - 1, rest[x.n..]) else []
  {
    hide Dec;
  }

  lemma {:induction false} ItemsAreLinks(env: Env, t: Ty, s: Bytes)
    requires DecList(env, Lenient, USIZE_MAX, t, s).Ok?
    ensures var r := DecList(env, Lenient, USIZE_MAX, t, s); ListItems(env, t, |r.v|, s) == XdrBorrow.Goods(r.v)
    decreases |s|
  {
    hide DecList, Dec, ListItems, XdrBorrow.Goods;
    ListCons(env, Lenient, USIZE_MAX, t, s);
    ListItemsCons(env, t, |DecList(env, Lenient, USIZE_MAX, t, s).v|, s);
    var r, x := DecList(env, Lenient, USIZE_MAX, t, s), Dec(env, Lenient, USIZE_MAX, Optional(t), s);
    if x.v.VSome? {
      ItemsAreLinks(env, t, s[x.n..]);
      assert r.v[1..] == DecList(env, Lenient, USIZE_MAX, t, s[x.n..]).v;
      assert XdrBorrow.Goods(r.v) == [Good(r.v[0])] + XdrBorrow.Goods(r.v[1..]);
    }
  }

  /** A list read in a loop is a run of present optionals up to an absent one. */
  function Somes(vs: seq<Val>): (os: seq<Val>)
    ensures |os| == |vs| && forall i :: 0 <= i < |vs| ==> os[i] == VSome(vs[i])
  {
    seq(|vs|, i requires 0 <= i < |vs| => VSome(vs[i]))
  }

  lemma SomesCons(v: Val, vs: seq<Val>)
    ensures Somes([v] + vs) == [VSome(v)] + Somes(vs)
  {
  }

  lemma {:induction false} ListIsElems(env: Env, m: Mode, b: nat, t: Ty, s: Bytes)
    requires DecList(env, m, b, t, s).Ok?
    ensures var r := DecList(env, m, b, t, s);
      r.n >= UNIT && DecElems(env, m, b, Optional(t), |r.v|, s) == Ok(Somes(r.v), r.n - UNIT)
    decreases |s|
  {
    hide Dec, DecList, DecElems, U32;
    ListCons(env, m, b, t, s);
    var r, x := DecList(env, m, b, t, s), Dec(env, m, b, Optional(t), s);
    ElemsCons(env, m, b, Optional(t), |r.v|, s);
    if x.v.VSome? {
      var rest := DecList(env, m, b, t, s[x.n..]);
      ListIsElems(env, m, b, t, s[x.n..]);
      SomesCons(x.v.v, rest.v);
      assert r.v == [x.v.v] + rest.v;
    } else {
      OptionalCons(env, m, b, t, s);
    }
  }

  lemma BadFirst(e: Error, v: Val, items: seq<Result<Val>>)
    ensures [Bad(e)] != [Good(v)] + items
  {
    assert [Bad(e)][0] != ([Good(v)] + items)[0];
  }

  /** One present optional and those after it, where those after it are known. */
  lemma SomesNext(env: Env, t: Ty, v: Val, us: seq<Val>, s: Bytes)
    requires var x := Dec(env, Lenient, USIZE_MAX, Optional(t), s);
      x.Ok? && x.v.VSome? ==>
        var r := DecElems(env, Lenient, USIZE_MAX, Optional(t), |us|, s[x.n..]);
        ListItems(env, t, |us|, s[x.n..]) == XdrBorrow.Goods(us) <==> r.Ok? && r.v == Somes(us)
    ensures ListItems(env, t, |us| + 1, s) == [Good(v)] + XdrBorrow.Goods(us) <==>
      var r := DecElems(env, Lenient, USIZE_MAX, Optional(t), |us| + 1, s); r.Ok? && r.v == [VSome(v)] + Somes(us)
  {
    hide Dec, DecElems, ListItems, XdrBorrow.Goods, Somes, Units;
    ElemsCons(env, Lenient, USIZE_MAX, Optional(t), |us| + 1, s);
    ListItemsCons(env, t, |us| + 1, s);
    OptionalIs(env, Lenient, USIZE_MAX, t, s);
    var x := Dec(env, Lenient, USIZE_MAX, Optional(t), s);
    if x.Err? {
      BadFirst(x.e, v, XdrBorrow.Goods(us));
    } else {
      var r := DecElems(env, Lenient, USIZE_MAX, Optional(t), |us|, s[x.n..]);
      if r.Ok? { XdrBorrow.ConsSame(x.v, VSome(v), r.v, Somes(us)); }
      if x.v.VSome? {
        XdrBorrow.ConsSame(Good(x.v.v), Good(v), ListItems(env, t, |us|, s[x.n..]), XdrBorrow.Goods(us));
      } else {
        BadFirst(Eof(0), v, XdrBorrow.Goods(us));
      }
    }
  }

  /** The iteration yields `vs` and nothing else exactly when that many present optionals read as `vs`. */
  lemma {:induction false} ItemsAreSomes(env: Env, t: Ty, vs: seq<Val>, s: Bytes)
    ensures ListItems(env, t, |vs|, s) == XdrBorrow.Goods(vs) <==>
      var r := DecElems(env, Lenient, USIZE_MAX, Optional(t), |vs|, s); r.Ok? && r.v == Somes(vs)
    decreases |vs|
  {
    hide Dec, DecElems, ListItems, XdrBorrow.Goods, Somes, Units;
    if vs == [] {
      ElemsCons(env, Lenient, USIZE_MAX, Optional(t), 0, s);
      ListItemsCons(env, t, 0, s);
    } else {
      var v, us := vs[0], vs[1..];
      assert vs == [v] + us;
      XdrBorrow.GoodsCons(v, us);
      SomesCons(v, us);
      var x := Dec(env, Lenient, USIZE_MAX, Optional(t), s);
      if x.Ok? { ItemsAreSomes(env, t, us, s[x.n..]); }
      SomesNext(env, t, v, us, s);
    }
  }

  /** The iteration yields every element it was to, or else the elements before the first link that fails and one
      error: that link's own, or a missing element where the list ends early. */
  lemma {:induction false} ListItemsToError(env: Env, t: Ty, left: nat, s: Bytes) returns (vs: seq<Val>, rest: Bytes)
    ensures |vs| <= left
    ensures var r := DecElems(env, Lenient, USIZE_MAX, Optional(t), |vs|, s);
      r.Ok? && r.v == Somes(vs) && rest == s[r.n..]
    ensures |vs| == left ==> ListItems(env, t, left, s) == XdrBorrow.Goods(vs)
    ensures |vs| < left ==>
      var x := Dec(env, Lenient, USIZE_MAX, Optional(t), rest);
      && (x.Err? || x.v == VNone)
      && ListItems(env, t, left, s) == XdrBorrow.Goods(vs) + [Bad(if x.Err? then x.e else Eof(0))]
    decreases left
  {
    hide Dec, DecElems, ListItems, XdrBorrow.Goods, Somes, Units;
    var o := Optional(t);
    ListItemsCons(env, t, left, s);
    ElemsCons(env, Lenient, USIZE_MAX, o, 0, s);
    XdrBorrow.GoodsNone();
    SomesNone();
    vs, rest := [], s;
    OptionalIs(env, Lenient, USIZE_MAX, t, s);
    var x := Dec(env, Lenient, USIZE_MAX, o, s);
    if left > 0 && x.Ok? && x.v.VSome? {
      var us, end := ListItemsToError(env, t, left - 1, s[x.n..]);
      vs, rest := [x.v.v] + us, end;
      XdrBorrow.GoodsCons(x.v.v, us);
      SomesCons(x.v.v, us);
      ElemsCons(env, Lenient, USIZE_MAX, o, |vs|, s);
    }
  }

  lemma SomesNone()
    ensures Somes([]) == []
  {
  }

  /** Iterating over the bytes of a list that was read. */
  lemma IteratesIff(env: Env, m: Mode, b: nat, t: Ty, s: Bytes)
    requires b <= USIZE_MAX && DecList(env, m, b, t, s).Ok?
    ensures var r := DecList(env, m, b, t, s);
      && EncElems(env, Optional(t), Somes(r.v)).Good?
      && (ListItems(env, t, |r.v|, s[..r.n]) == XdrBorrow.Goods(r.v)
          <==> ReadsElems(env, Lenient, USIZE_MAX, Optional(t), Somes(r.v), UNIT))
  {
    hide Dec, DecList, DecElems, EncElems, ReadsElems, ListItems, XdrBorrow.Goods, Somes, U32;
    var r := DecList(env, m, b, t, s);
    var w := s[..r.n];
    ListIsElems(env, m, b, t, s);
    assert Agree(s, w, r.n - UNIT);
    RecutElems(env, m, b, USIZE_MAX, Optional(t), |r.v|, s, w);
    ItemsAreSomes(env, t, r.v, w);
    XdrBorrow.ElemsSize(env, Optional(t), Somes(r.v), w);
  }

  /** A borrowed list against the chain it stands for. Whatever decodes as one decodes as the other, given
      nesting for the chain, while the list takes two levels and an element's however long it is; both take
      the same bytes; the list encodes to the bytes it came from, and takes at least a unit for each element
      and one more; and iterating over it yields the elements of the chain, and nothing else, if and only
      if they can be read with only the end of the list after them. */
  lemma BorrowedList(env: Env, m: Mode, b: nat, t: Ty, node: nat, s: Bytes)
    requires IsNode(env, node, t) && b <= USIZE_MAX
    ensures var list := Dec(env, m, b + 2, ListRef(t), s);
      list.Ok? ==>
        var chain := Dec(env, m, b + 2 * list.v.count, Optional(Rec(node)), s);
        && chain.Ok? && chain.n == list.n && |Links(chain.v)| == list.v.count && list.v.encoded == s[..list.n]
        && Enc(env, ListRef(t), list.v) == Good(s[..list.n]) && 4 * (list.v.count + 1) <= list.n
        && EncElems(env, Optional(t), Somes(Links(chain.v))).Good?
        && (ListItems(env, t, list.v.count, list.v.encoded) == XdrBorrow.Goods(Links(chain.v))
            <==> ReadsElems(env, Lenient, USIZE_MAX, Optional(t), Somes(Links(chain.v)), UNIT))
    ensures var chain := Dec(env, m, b, Optional(Rec(node)), s);
      chain.Ok? ==> Dec(env, m, b + 2, ListRef(t), s) == Ok(VRef(|Links(chain.v)|, s[..chain.n]), chain.n)
  {
    hide Dec, DecList, Chain, Links, ListItems, ReadsElems, EncElems, Somes, XdrBorrow.Goods, U32;
    ListRefCons(env, m, b + 2, t, s);
    var list, chain := Dec(env, m, b + 2, ListRef(t), s), Dec(env, m, b, Optional(Rec(node)), s);
    if list.Ok? {
      var r := DecList(env, m, b, t, s);
      ListIsChain(env, m, b, b + 2 * |r.v|, t, node, s);
      LinksOfChain(r.v);
      Canon(env, m, b + 2, ListRef(t), s);
      IteratesIff(env, m, b, t, s);
    }
    if chain.Ok? { ChainIsList(env, m, b, b, t, node, s); }
  }

  lemma {:induction false} LinksOfChain(vs: seq<Val>)
    ensures Links(Chain(vs)) == vs
  {
    if vs != [] { LinksOfChain(vs[1..]); }
  }

  /** With elements whose own arrays take up room the iteration over a borrowed list always yields the elements
      of the chain, and nothing else. */
  lemma BorrowedListIterates(env: Env, m: Mode, b: nat, t: Ty, node: nat, s: Bytes)
    requires IsNode(env, node, t) && b <= USIZE_MAX && DenseEnv(env) && Dense(env, t)
    requires Dec(env, m, b + 2, ListRef(t), s).Ok?
    ensures var list := Dec(env, m, b + 2, ListRef(t), s);
      var chain := Dec(env, m, b + 2 * list.v.count, Optional(Rec(node)), s);
      chain.Ok? && ListItems(env, t, list.v.count, list.v.encoded) == XdrBorrow.Goods(Links(chain.v))
  {
    hide Dec, DecList, Chain, Links, ListItems, XdrBorrow.Goods, DenseEnv, Dense, U32;
    ListRefCons(env, m, b + 2, t, s);
    var r := DecList(env, m, b, t, s);
    ListIsChain(env, m, b, b + 2 * |r.v|, t, node, s);
    LinksOfChain(r.v);
    assert Agree(s, s[..r.n], r.n);
    LocalList(env, m, Lenient, b, USIZE_MAX, t, s, s[..r.n]);
    ItemsAreLinks(env, t, s[..r.n]);
  }

  class ListIter {
    const env: Env
    const t: Ty
    var rest: Bytes
    var left: nat

    constructor (env: Env, t: Ty, v: Val)
      requires v.VRef?
      ensures this.env == env && this.t == t && Yields() == ListItems(env, t, v.count, v.encoded)
    {
      this.env, this.t, rest, left := env, t, v.encoded, v.count;
    }

    ghost function Yields(): seq<Result<Val>>
      reads this
    {
      ListItems(env, t, left, rest)
    }

    method Next() returns (item: Option<Result<Val>>)
      requires |rest| <= ISIZE_MAX
      modifies this
      ensures item == if old(Yields()) == [] then None else Some(old(Yields())[0])
      ensures Yields() == if old(Yields()) == [] then [] else old(Yields())[1..]
    {
      hide Dec, DecList, ListItems, U32, Units;
      ListItemsCons(env, t, left, rest);
      OptionalIs(env, Lenient, USIZE_MAX, t, rest);
      if left == 0 { return None; }
      left := left - 1;
      var x := Front(env, Optional(t), rest, Lenient, USIZE_MAX);
      var element := if x.Bad? then Bad(x.error) else if x.value.0.VSome? then Good(x.value.0.v) else Bad(Eof(0));
      if element.Good? { rest := x.value.1; } else { left := 0; }
      ListItemsCons(env, t, 0, rest);
      item := Some(element);
    }
  }

  /** What `ListRef::from_encoded` accepts: one whole list and nothing else, read strictly. */
  function Built(env: Env, t: Ty, encoded: Bytes): (r: Result<Val>) {
    var x := Exactly(DecList(env, Strict, DEFAULT_MAX_DEPTH, t, encoded), encoded);
    if x.Bad? then Bad(x.error) else Good(VRef(|x.value|, encoded))
  }

  lemma RefBytes(env: Env, t: Ty, v: Val)
    requires v.VRef? && Units(|v.encoded|)
    ensures Enc(env, ListRef(t), v) == Good(v.encoded)
  {
    assert v.encoded + Zeros(0) == v.encoded;
  }

  method FromEncoded(env: Env, t: Ty, encoded: Bytes) returns (r: Result<Val>)
    requires |encoded| <= ISIZE_MAX
    ensures r == Built(env, t, encoded)
    ensures r.Good? ==> Enc(env, ListRef(t), r.value) == Good(encoded)
  {
    hide Dec, DecList, Enc;
    var de := new Deserializer(env, encoded, Strict, DEFAULT_MAX_DEPTH);
    assert de.Remaining() == encoded;
    var x, _ := de.VisitListCount(t, USIZE_MAX);
    if x.Bad? { return Bad(x.error); }
    var rest := |de.Remaining()|;
    if rest == 0 { RefBytes(env, t, VRef(x.value, encoded)); }
    r := if rest == 0 then Good(VRef(x.value, encoded)) else Bad(TrailingBytes(rest));
  }

  /** A list that was built iterates to the elements it was built from, whatever their type, and encodes to its
      own bytes. It comes back from them, in either mode and with any bytes after, if and only if it passes
      the test it was built with at two levels less than the decoder has; otherwise the decoder reports its
      nesting limit. */
  lemma BuiltReads(env: Env, m: Mode, b: nat, t: Ty, encoded: Bytes, tail: Bytes)
    requires Built(env, t, encoded).Good?
    ensures var v, vs := Built(env, t, encoded).value, DecList(env, Strict, DEFAULT_MAX_DEPTH, t, encoded).v;
      && v == VRef(|vs|, encoded) && ListItems(env, t, v.count, encoded) == XdrBorrow.Goods(vs)
      && Enc(env, ListRef(t), v) == Good(encoded)
      && Dec(env, m, b, ListRef(t), encoded + tail) ==
         (if b >= 2 && DecList(env, Strict, b - 2, t, encoded).Ok? then Ok(v, |encoded|) else Err(RecursionLimit))
  {
    hide Dec, DecList, Enc, ListItems, XdrBorrow.Goods;
    var vs, w := DecList(env, Strict, DEFAULT_MAX_DEPTH, t, encoded).v, encoded + tail;
    RefBytes(env, t, VRef(|vs|, encoded));
    LocalList(env, Strict, Lenient, DEFAULT_MAX_DEPTH, USIZE_MAX, t, encoded, encoded);
    ItemsAreLinks(env, t, encoded);
    ListRefCons(env, m, b, t, w);
    assert w[..|encoded|] == encoded && Agree(encoded, w, |encoded|) && Agree(encoded, encoded, |encoded|);
    if 2 <= b <= DEFAULT_MAX_DEPTH + 2 {
      DepthList(env, Strict, m, b - 2, DEFAULT_MAX_DEPTH, t, encoded, w);
    } else if b >= 2 {
      LocalList(env, Strict, m, DEFAULT_MAX_DEPTH, b - 2, t, encoded, w);
      LocalList(env, Strict, Strict, DEFAULT_MAX_DEPTH, b - 2, t, encoded, encoded);
    }
  }

  /** The run of present optionals decides whether a list is read at a lesser depth: its end needs none. */
  lemma {:induction false} ElemsThenList(env: Env, m: Mode, b: nat, b': nat, t: Ty, s: Bytes)
    requires b <= b' && DecList(env, m, b', t, s).Ok?
    ensures DecList(env, m, b, t, s).Ok? <==> DecElems(env, m, b, Optional(t), |DecList(env, m, b', t, s).v|, s).Ok?
    decreases |s|
  {
    hide Dec, DecList, DecElems, U32, Units;
    var r, x, y := DecList(env, m, b', t, s), Dec(env, m, b', Optional(t), s), Dec(env, m, b, Optional(t), s);
    ListCons(env, m, b', t, s);
    ListCons(env, m, b, t, s);
    ElemsCons(env, m, b, Optional(t), |r.v|, s);
    if y.Ok? { Local(env, m, m, b, b', Optional(t), s, s); }
    if x.v.VNone? {
      OptionalCons(env, m, b', t, s);
      OptionalCons(env, m, b, t, s);
    } else if y.Ok? {
      ElemsThenList(env, m, b, b', t, s[x.n..]);
    }
  }

  /** For owned elements whose own arrays have room, the levels a built list needs are two more than the
      deepest of its present optionals. */
  lemma BuiltNests(env: Env, m: Mode, b: nat, t: Ty, encoded: Bytes, tail: Bytes)
    requires Built(env, t, encoded).Good? && OwnedEnv(env) && WfTy(t) && Owned(t) && Dense(env, t)
    ensures var vs := DecList(env, Strict, DEFAULT_MAX_DEPTH, t, encoded).v;
      Dec(env, m, b, ListRef(t), encoded + tail) ==
        if NestElems(env, Optional(t), Somes(vs)) + 2 <= b then Ok(VRef(|vs|, encoded), |encoded|)
        else Err(RecursionLimit)
  {
    hide Dec, DecList, DecElems, EncElems, NestElems, Somes, OwnedEnv, WfTy, Owned, Dense, Units;
    BuiltReads(env, m, b, t, encoded, tail);
    var vs := DecList(env, Strict, DEFAULT_MAX_DEPTH, t, encoded).v;
    LinksNest(env, DEFAULT_MAX_DEPTH, t, encoded);
    if 2 <= b <= DEFAULT_MAX_DEPTH + 2 {
      LinksNest(env, b - 2, t, encoded);
    } else if b >= 2 {
      LocalList(env, Strict, Strict, DEFAULT_MAX_DEPTH, b - 2, t, encoded, encoded);
    }
  }

  lemma LinksNest(env: Env, b: nat, t: Ty, s: Bytes)
    requires b <= DEFAULT_MAX_DEPTH && DecList(env, Strict, DEFAULT_MAX_DEPTH, t, s).Ok?
    requires OwnedEnv(env) && WfTy(t) && Owned(t) && Dense(env, t)
    ensures var vs := DecList(env, Strict, DEFAULT_MAX_DEPTH, t, s).v;
      DecList(env, Strict, b, t, s).Ok? <==> NestElems(env, Optional(t), Somes(vs)) <= b
  {
    hide Dec, DecList, DecElems, EncElems, ReadsElems, NestElems, NoNulElems, Somes, OwnedEnv, WfTy, Owned, Dense, Units;
    var r, o := DecList(env, Strict, DEFAULT_MAX_DEPTH, t, s), Optional(t);
    var os, tail := Somes(r.v), s[r.n - UNIT..];
    ListIsElems(env, Strict, DEFAULT_MAX_DEPTH, t, s);
    CanonElems(env, Strict, DEFAULT_MAX_DEPTH, o, |r.v|, s);
    assert s == s[..r.n - UNIT] + tail;
    OptionalOwned(env, t);
    ElemsIff(env, Strict, DEFAULT_MAX_DEPTH, o, os, tail);
    OwnedReadsElems(env, Strict, DEFAULT_MAX_DEPTH, o, os, |tail|);
    ElemsIff(env, Strict, b, o, os, tail);
    OwnedReadsElems(env, Strict, b, o, os, |tail|);
    ElemsThenList(env, Strict, b, DEFAULT_MAX_DEPTH, t, s);
    assert Agree(s, s, r.n - UNIT);
    DepthElems(env, Strict, Strict, b, DEFAULT_MAX_DEPTH, o, |r.v|, s, s);
  }

  lemma OptionalOwned(env: Env, t: Ty)
    requires OwnedEnv(env) && WfTy(t) && Owned(t) && Dense(env, t)
    ensures Wf(env) && WfTy(Optional(t)) && Owned(Optional(t)) && Dense(env, Optional(t))
  {
  }

  /** A list of one element of `k` newtypes. */
  lemma OneLink(env: Env, b: nat, k: nat)
    ensures DecList(env, Strict, b, XdrBorrow.Wrapped(k), Be32(1) + Zeros(4) + Be32(0)) ==
      if k < b then Ok([VInt(0)], 12) else Err(RecursionLimit)
  {
    hide Dec, DecList, XdrBorrow.Wrapped, Be32, U32;
    var t, rest := XdrBorrow.Wrapped(k), Zeros(4) + Be32(0);
    var s := Be32(1) + Zeros(4) + Be32(0);
    assert s == Be32(1) + rest && s[4..] == rest && rest[4..] == Be32(0) && s[8..] == Be32(0) && Be32(0) + [] == Be32(0);
    Be32Inverse(1, rest);
    Be32Inverse(0, []);
    ListCons(env, Strict, b, t, s);
    OptionalCons(env, Strict, b, t, s);
    if b > 0 { XdrBorrow.WrappedReads(env, Strict, b - 1, k, Be32(0)); }
    ListCons(env, Strict, b, t, Be32(0));
    OptionalCons(env, Strict, b, t, Be32(0));
    assert [VInt(0)] + [] == [VInt(0)];
  }

  /** The input where a built list is lost: an element whose nesting is one or two levels less than the default
      limit passes when the list is built and is refused by every decoder with the default limit. */
  lemma BuiltTooDeep(env: Env, m: Mode, k: nat, tail: Bytes)
    requires DEFAULT_MAX_DEPTH - 2 <= k < DEFAULT_MAX_DEPTH
    ensures var encoded := Be32(1) + Zeros(4) + Be32(0);
      && Built(env, XdrBorrow.Wrapped(k), encoded) == Good(VRef(1, encoded))
      && Dec(env, m, DEFAULT_MAX_DEPTH, ListRef(XdrBorrow.Wrapped(k)), encoded + tail) == Err(RecursionLimit)
  {
    hide Dec, DecList, XdrBorrow.Wrapped, Be32, U32;
    OneLink(env, DEFAULT_MAX_DEPTH, k);
    OneLink(env, DEFAULT_MAX_DEPTH - 2, k);
    BuiltReads(env, m, DEFAULT_MAX_DEPTH, XdrBorrow.Wrapped(k), Be32(1) + Zeros(4) + Be32(0), tail);
  }
}
