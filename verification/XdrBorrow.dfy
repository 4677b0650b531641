/** Borrowed arrays and lists: what they keep stands for the elements an owned decode would have kept. */
module XdrBorrow {
  import opened Wire
  import opened XdrSchema
  import opened XdrDecode
  import opened XdrLocal
  import opened XdrCanon
  import opened XdrRoundTrip
  import opened XdrRecut
  import opened XdrDepth
  import opened XdrDeserializer
  import opened Wrappers

  /** Everything `VarArrayIter` yields from `left` elements in `rest`: an error ends the iteration. */
  function Items(env: Env, t: Ty, left: nat, rest: Bytes): (items: seq<Result<Val>>)
    decreases left
  {
    if left == 0 then [] else
    var x := Dec(env, Lenient, USIZE_MAX, t, rest);
    if x.Err? then [Bad(x.e)] else [Good(x.v)] + Items(env, t, left - 1, rest[x.n..])
  }

  function Goods(vs: seq<Val>): (items: seq<Result<Val>>)
    ensures |items| == |vs| && forall i :: 0 <= i < |vs| ==> items[i] == Good(vs[i])
  {
    seq(|vs|, i requires 0 <= i < |vs| => Good(vs[i]))
  }

  lemma GoodsCons(v: Val, vs: seq<Val>)
    ensures Goods([v] + vs) == [Good(v)] + Goods(vs)
  {
  }

  lemma ItemsCons(env: Env, t: Ty, left: nat, rest: Bytes)
    ensures Items(env, t, left, rest) ==
      if left == 0 then [] else
      var x := Dec(env, Lenient, USIZE_MAX, t, rest);
      if x.Err? then [Bad(x.e)] else [Good(x.v)] + Items(env, t, left - 1, rest[x.n..])
  {
    hide Dec;
  }

  lemma ConsSame<T>(a: T, b: T, s: seq<T>, u: seq<T>)
    ensures [a] + s == [b] + u <==> a == b && s == u
  {
    assert ([a] + s)[0] == a && ([a] + s)[1..] == s && ([b] + u)[0] == b && ([b] + u)[1..] == u;
  }

  /** The iteration yields `vs` and nothing else exactly when the whole run of elements reads as `vs`. */
  lemma {:induction false} ItemsAreElems(env: Env, t: Ty, vs: seq<Val>, s: Bytes)
    ensures Items(env, t, |vs|, s) == Goods(vs) <==>
      var r := DecElems(env, Lenient, USIZE_MAX, t, |vs|, s); r.Ok? && r.v == vs
    decreases |vs|
  {
    hide Dec, DecElems, Items, Goods, Units;
    ElemsCons(env, Lenient, USIZE_MAX, t, |vs|, s);
    ItemsCons(env, t, |vs|, s);
    if vs != [] {
      var v, us := vs[0], vs[1..];
      var x := Dec(env, Lenient, USIZE_MAX, t, s);
      assert vs == [v] + us;
      GoodsCons(v, us);
      if x.Ok? {
        var r := DecElems(env, Lenient, USIZE_MAX, t, |us|, s[x.n..]);
        ItemsAreElems(env, t, us, s[x.n..]);
        ConsSame(Good(x.v), Good(v), Items(env, t, |us|, s[x.n..]), Goods(us));
        if r.Ok? { ConsSame(x.v, v, r.v, us); }
      }
    }
  }

  lemma GoodsNone()
    ensures Goods([]) == []
  {
  }

  /** Where the run does not read, the iteration yields the elements before the one that fails, then the error that
      reading the run gives, and no more. */
  lemma {:induction false} ItemsToError(env: Env, t: Ty, left: nat, s: Bytes) returns (vs: seq<Val>)
    requires DecElems(env, Lenient, USIZE_MAX, t, left, s).Err?
    ensures |vs| < left && Items(env, t, left, s) == Goods(vs) + [Bad(DecElems(env, Lenient, USIZE_MAX, t, left, s).e)]
    ensures var r := DecElems(env, Lenient, USIZE_MAX, t, |vs|, s); r.Ok? && r.v == vs
    decreases left
  {
    hide Dec, DecElems, Items, Goods;
    ElemsCons(env, Lenient, USIZE_MAX, t, left, s);
    ItemsCons(env, t, left, s);
    ElemsCons(env, Lenient, USIZE_MAX, t, 0, s);
    GoodsNone();
    var x := Dec(env, Lenient, USIZE_MAX, t, s);
    if x.Err? {
      vs := [];
    } else {
      var rest := ItemsToError(env, t, left - 1, s[x.n..]);
      vs := [x.v] + rest;
      GoodsCons(x.v, rest);
      ElemsCons(env, Lenient, USIZE_MAX, t, |vs|, s);
    }
  }

  class VarArrayIter {
    const env: Env
    const t: Ty
    var rest: Bytes
    var left: nat

    constructor (env: Env, t: Ty, v: Val)
      requires v.VRef?
      ensures this.env == env && this.t == t && Yields() == Items(env, t, v.count, v.encoded)
    {
      this.env, this.t, rest, left := env, t, v.encoded, v.count;
    }

    /** What is still to come. */
    ghost function Yields(): seq<Result<Val>>
      reads this
    {
      Items(env, t, left, rest)
    }

    /** One step of the iterator. The element was read when the array was, so it is read again leniently, at
        any depth, and from what is left of the array alone. */
    method Next() returns (item: Option<Result<Val>>)
      requires |rest| <= ISIZE_MAX
      modifies this
      ensures item == if old(Yields()) == [] then None else Some(old(Yields())[0])
      ensures Yields() == if old(Yields()) == [] then [] else old(Yields())[1..]
    {
      hide Dec, Items, Units;
      ItemsCons(env, t, left, rest);
      if left == 0 { return None; }
      left := left - 1;
      var x := Front(env, t, rest, Lenient, USIZE_MAX);
      if x.Good? { rest := x.value.1; } else { left := 0; }
      ItemsCons(env, t, 0, rest);
      item := Some(if x.Good? then Good(x.value.0) else Bad(x.error));
    }
  }

  /** A borrowed array against the `Vec` it replaces, one level deeper: it is accepted and refused alike, with
      the same error; it takes the same bytes; it keeps their number; it encodes to the bytes it came from,
      in either mode; and iterating over it yields the elements of the `Vec`, and nothing else, if and only
      if those elements can be read with nothing after them. */
  lemma BorrowedArray(env: Env, m: Mode, b: nat, t: Ty, s: Bytes)
    requires b <= USIZE_MAX
    ensures var owned, borrowed := Dec(env, m, b, Seq(t), s), Dec(env, m, b + 1, ArrayRef(t), s);
      if owned.Err? then borrowed == Err(owned.e)
      else
        && borrowed.Ok? && borrowed.n == owned.n
        && borrowed.v == VRef(|owned.v.vs|, s[4..owned.n])
        && Enc(env, ArrayRef(t), borrowed.v) == Good(s[..owned.n])
        && EncElems(env, t, owned.v.vs).Good?
        && (Items(env, t, borrowed.v.count, borrowed.v.encoded) == Goods(owned.v.vs)
            <==> ReadsElems(env, Lenient, USIZE_MAX, t, owned.v.vs, 0))
  {
    hide Dec, DecElems, EncElems, ReadsElems, Items, Goods, U32, Be32;
    SeqCons(env, m, b, t, s);
    ArrayCons(env, m, b + 1, t, s);
    var owned, borrowed := Dec(env, m, b, Seq(t), s), Dec(env, m, b + 1, ArrayRef(t), s);
    if owned.Ok? {
      Canon(env, m, b + 1, ArrayRef(t), s);
      var w := s[4..owned.n];
      assert Agree(s[4..], w, |w|);
      RecutElems(env, m, b - 1, USIZE_MAX, t, U32(s), s[4..], w);
      ItemsAreElems(env, t, owned.v.vs, w);
      ElemsSize(env, t, owned.v.vs, w);
    }
  }

  /** Elements that read back as `vs` take as many bytes as `vs` encodes to. */
  lemma ElemsSize(env: Env, t: Ty, vs: seq<Val>, s: Bytes)
    requires EncElems(env, t, vs).Good?
    ensures var r := DecElems(env, Lenient, USIZE_MAX, t, |vs|, s);
      r.Ok? && r.v == vs ==> r.n == |EncElems(env, t, vs).value|
  {
    if DecElems(env, Lenient, USIZE_MAX, t, |vs|, s).Ok? { CanonElems(env, Lenient, USIZE_MAX, t, |vs|, s); }
  }

  /** With elements that take up room, which is every type the standard knows, the iteration always yields
      them all, nested borrowed arrays included. */
  lemma BorrowedArrayIterates(env: Env, m: Mode, b: nat, t: Ty, s: Bytes)
    requires b <= USIZE_MAX && DenseEnv(env) && Dense(env, Seq(t)) && Dec(env, m, b, Seq(t), s).Ok?
    ensures var owned, borrowed := Dec(env, m, b, Seq(t), s), Dec(env, m, b + 1, ArrayRef(t), s);
      borrowed.Ok? && Items(env, t, borrowed.v.count, borrowed.v.encoded) == Goods(owned.v.vs)
  {
    hide Dec, DecElems, Items, Goods, U32, DenseEnv;
    SeqCons(env, m, b, t, s);
    ArrayCons(env, m, b + 1, t, s);
    var owned := Dec(env, m, b, Seq(t), s);
    var w := s[4..owned.n];
    assert s[4..][..|w|] == w;
    LocalElems(env, m, Lenient, b - 1, USIZE_MAX, t, U32(s), s[4..], w);
    ItemsAreElems(env, t, owned.v.vs, w);
  }

  /** Why room is needed: with four bytes after it, an array of one `Vec<()>` of one unit decodes, and the
      iteration over it then fails on that element. */
  lemma EmptyElementsDoNotIterate(env: Env)
    ensures var t, s := Seq(Leaf(Unit)), Be32(1) + Be32(1) + Zeros(4);
      && Dec(env, Strict, 3, ArrayRef(t), s) == Ok(VRef(1, Be32(1)), 8)
      && Items(env, t, 1, Be32(1)) == [Bad(Eof(4))]
  {
    hide Be32, U32;
    var u, w := Leaf(Unit), Be32(1) + Zeros(4);
    var s := Be32(1) + Be32(1) + Zeros(4);
    Be32Inverse(1, w);
    Be32Inverse(1, Zeros(4));
    Be32Inverse(1, []);
    assert s == Be32(1) + w && s[4..] == w && w[4..] == Zeros(4) && Be32(1) + [] == Be32(1) && s[4..8] == Be32(1);
    OneElem(env, Strict, 0, u, VUnit, 0, Zeros(4));
    OneElem(env, Strict, 1, Seq(u), VSeq([VUnit]), 4, w);
  }

  lemma OneElem(env: Env, m: Mode, b: nat, t: Ty, v: Val, n: nat, s: Bytes)
    requires Dec(env, m, b, t, s) == Ok(v, n)
    ensures DecElems(env, m, b, t, 1, s) == Ok([v], n)
  {
    hide Dec;
    ElemsCons(env, m, b, t, 1, s);
    ElemsCons(env, m, b, t, 0, s[n..]);
    assert [v] + [] == [v];
  }

  /** What `VarArrayRef::from_encoded` accepts: bytes that hold exactly `len` elements, strictly and within
      the default nesting. */
  function Built(env: Env, t: Ty, len: nat, encoded: Bytes): (r: Result<Val>) {
    var units := |encoded| / 4;
    if len > units then Bad(Eof((len - units) * 4)) else
    var x := Exactly(DecElems(env, Strict, DEFAULT_MAX_DEPTH, t, len, encoded), encoded);
    if x.Bad? then Bad(x.error) else Good(VRef(len, encoded))
  }

  method FromEncoded(env: Env, t: Ty, len: nat, encoded: Bytes) returns (r: Result<Val>)
    requires |encoded| <= ISIZE_MAX
    ensures r == Built(env, t, len, encoded)
  {
    hide DecElems;
    var units := |encoded| / 4;
    if len > units { return Bad(Eof((len - units) * 4)); }
    var de := new Deserializer(env, encoded, Strict, DEFAULT_MAX_DEPTH);
    assert de.Remaining() == encoded;
    var x := de.VisitCount(t, len);
    if x.Bad? { return Bad(x.error); }
    var rest := |de.Remaining()|;
    r := if rest == 0 then Good(VRef(len, encoded)) else Bad(TrailingBytes(rest));
  }

  /** An array that was built iterates to the elements it was built from, whatever their type, and encodes to
      its count and its bytes unless the count is beyond the prefix. It comes back from that encoding, in
      either mode and with any bytes after, if and only if its elements pass the test they were built with at
      two levels less than the decoder has; otherwise the decoder reports its nesting limit. */
  lemma BuiltReads(env: Env, m: Mode, b: nat, t: Ty, len: nat, encoded: Bytes, tail: Bytes)
    requires Built(env, t, len, encoded).Good?
    ensures var v, vs := VRef(len, encoded), DecElems(env, Strict, DEFAULT_MAX_DEPTH, t, len, encoded).v;
      && |vs| == len && Items(env, t, len, encoded) == Goods(vs)
      && Enc(env, ArrayRef(t), v) == (if len < TWO32 then Good(Be32(len) + encoded) else Bad(Unsupported))
      && (len < TWO32 ==>
            Dec(env, m, b, ArrayRef(t), Be32(len) + encoded + tail) ==
            if b >= 2 && DecElems(env, Strict, b - 2, t, len, encoded).Ok? then Ok(v, 4 + |encoded|)
            else Err(RecursionLimit))
  {
    hide DecElems, Items, Goods, Dec, Be32, U32;
    var full := DecElems(env, Strict, DEFAULT_MAX_DEPTH, t, len, encoded);
    BuiltBytes(env, t, len, encoded);
    if len < TWO32 { BuiltDecodes(env, m, b, t, len, encoded, tail); }
    LocalElems(env, Strict, Lenient, DEFAULT_MAX_DEPTH, USIZE_MAX, t, len, encoded, encoded);
    ItemsAreElems(env, t, full.v, encoded);
  }

  lemma BuiltBytes(env: Env, t: Ty, len: nat, encoded: Bytes)
    requires Units(|encoded|)
    ensures Enc(env, ArrayRef(t), VRef(len, encoded)) ==
      if len < TWO32 then Good(Be32(len) + encoded) else Bad(Unsupported)
  {
    assert encoded + Zeros(0) == encoded;
  }

  lemma BuiltDecodes(env: Env, m: Mode, b: nat, t: Ty, len: nat, encoded: Bytes, tail: Bytes)
    requires Built(env, t, len, encoded).Good? && len < TWO32
    ensures Dec(env, m, b, ArrayRef(t), Be32(len) + encoded + tail) ==
      if b >= 2 && DecElems(env, Strict, b - 2, t, len, encoded).Ok? then Ok(VRef(len, encoded), 4 + |encoded|)
      else Err(RecursionLimit)
  {
    hide DecElems, DecSeq, Dec, Be32, U32, Units;
    var s, w := Be32(len) + encoded + tail, encoded + tail;
    assert s == Be32(len) + w && s[4..] == w && s[4..4 + |encoded|] == encoded;
    Be32Inverse(len, w);
    ArrayCons(env, m, b, t, s);
    if b >= 1 { SeqIs(env, m, b - 1, t, s); }
    assert Agree(encoded, w, |encoded|) && Agree(encoded, encoded, |encoded|);
    if 2 <= b <= DEFAULT_MAX_DEPTH + 2 {
      DepthElems(env, Strict, m, b - 2, DEFAULT_MAX_DEPTH, t, len, encoded, w);
    } else if b >= 2 {
      LocalElems(env, Strict, m, DEFAULT_MAX_DEPTH, b - 2, t, len, encoded, w);
      LocalElems(env, Strict, Strict, DEFAULT_MAX_DEPTH, b - 2, t, len, encoded, encoded);
    }
  }

  /** For owned elements with room, the levels a built array needs are two more than the deepest of them. */
  lemma BuiltNests(env: Env, m: Mode, b: nat, t: Ty, len: nat, encoded: Bytes, tail: Bytes)
    requires Built(env, t, len, encoded).Good?
    requires OwnedEnv(env) && WfTy(t) && Owned(t) && Dense(env, t)
    ensures var vs := DecElems(env, Strict, DEFAULT_MAX_DEPTH, t, len, encoded).v;
      && Items(env, t, len, encoded) == Goods(vs) && EncElems(env, t, vs) == Good(encoded)
      && (len < TWO32 ==>
            Dec(env, m, b, ArrayRef(t), Be32(len) + encoded + tail) ==
            if NestElems(env, t, vs) + 2 <= b then Ok(VRef(len, encoded), 4 + |encoded|) else Err(RecursionLimit))
  {
    hide DecElems, EncElems, ReadsElems, NestElems, NoNulElems, Items, Goods, Dec, Be32, U32, OwnedEnv, WfTy, Owned, Dense;
    var vs := DecElems(env, Strict, DEFAULT_MAX_DEPTH, t, len, encoded).v;
    BuiltReads(env, m, b, t, len, encoded, tail);
    CanonElems(env, Strict, DEFAULT_MAX_DEPTH, t, len, encoded);
    assert encoded[..|encoded|] == encoded && encoded + [] == encoded;
    OwnedWf(env);
    ElemsIff(env, Strict, DEFAULT_MAX_DEPTH, t, vs, []);
    OwnedReadsElems(env, Strict, DEFAULT_MAX_DEPTH, t, vs, 0);
    if b >= 2 {
      ElemsIff(env, Strict, b - 2, t, vs, []);
      OwnedReadsElems(env, Strict, b - 2, t, vs, 0);
      assert Agree(encoded, encoded, |encoded|);
      if DecElems(env, Strict, b - 2, t, len, encoded).Ok? && b <= DEFAULT_MAX_DEPTH + 2 {
        DepthElems(env, Strict, Strict, b - 2, DEFAULT_MAX_DEPTH, t, len, encoded, encoded);
      } else if b > DEFAULT_MAX_DEPTH + 2 {
        LocalElems(env, Strict, Strict, DEFAULT_MAX_DEPTH, b - 2, t, len, encoded, encoded);
      }
    }
  }

  lemma OwnedWf(env: Env)
    requires OwnedEnv(env)
    ensures Wf(env)
  {
  }

  /** `k` newtypes around a `u32`. */
  function Wrapped(k: nat): (t: Ty) {
    if k == 0 then Leaf(Scalar(UInt)) else Newtype(Wrapped(k - 1))
  }

  lemma {:induction false} WrappedReads(env: Env, m: Mode, b: nat, k: nat, tail: Bytes)
    ensures Dec(env, m, b, Wrapped(k), Zeros(4) + tail) == if k <= b then Ok(VInt(0), 4) else Err(RecursionLimit)
    decreases k
  {
    if k > 0 && b > 0 { WrappedReads(env, m, b - 1, k - 1, tail); }
  }

  /** The input where a built array is lost: an element whose nesting is the default limit, or one level less,
      passes when the array is built and is refused by every decoder with the default limit. */
  lemma BuiltTooDeep(env: Env, m: Mode, k: nat, tail: Bytes)
    requires DEFAULT_MAX_DEPTH - 2 < k <= DEFAULT_MAX_DEPTH
    ensures Built(env, Wrapped(k), 1, Zeros(4)) == Good(VRef(1, Zeros(4)))
    ensures Dec(env, m, DEFAULT_MAX_DEPTH, ArrayRef(Wrapped(k)), Be32(1) + Zeros(4) + tail) == Err(RecursionLimit)
  {
    hide Dec, DecElems, Wrapped, Be32, U32;
    var t := Wrapped(k);
    assert Zeros(4) + [] == Zeros(4);
    WrappedReads(env, Strict, DEFAULT_MAX_DEPTH, k, []);
    WrappedReads(env, Strict, DEFAULT_MAX_DEPTH - 2, k, []);
    OneElem(env, Strict, DEFAULT_MAX_DEPTH, t, VInt(0), 4, Zeros(4));
    ElemsCons(env, Strict, DEFAULT_MAX_DEPTH - 2, t, 1, Zeros(4));
    BuiltDecodes(env, m, DEFAULT_MAX_DEPTH, t, 1, Zeros(4), tail);
  }
}
