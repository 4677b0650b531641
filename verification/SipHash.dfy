/** SipHash-2-4, as section 2 of the paper lays it out: how a message becomes words, and what a word does to the
    state. Words are 64-bit numbers, and addition wraps. */
module SipHash {
  import opened Wire

  const M: int := 0x1_0000_0000_0000_0000

  type Word = x: int | 0 <= x < M

  datatype State = State(v0: Word, v1: Word, v2: Word, v3: Word)

  const I0: Word := 0x736f_6d65_7073_6575
  const I1: Word := 0x646f_7261_6e64_6f6d
  const I2: Word := 0x6c79_6765_6e65_7261
  const I3: Word := 0x7465_6462_7974_6573

  const COMPRESSION_ROUNDS: nat := 2
  const FINALIZATION_ROUNDS: nat := 4

  function Add(x: Word, y: Word): Word { (x + y) % M }

  function Sub(x: Word, y: Word): Word { (x - y) % M }

  function Pow2(n: nat): (p: int)
    ensures p > 0
  {
    if n == 0 then 1 else 2 * Pow2(n - 1)
  }

  /** Exclusive or, of the lowest `n` bits. */
  function XorBits(x: int, y: int, n: nat): (r: int)
    requires x >= 0 && y >= 0
    ensures 0 <= r < Pow2(n)
    decreases n
  {
    if n == 0 then 0 else 2 * XorBits(x / 2, y / 2, n - 1) + (x + y) % 2
  }

  function Xor(x: Word, y: Word): Word {
    Pow64();
    XorBits(x, y, 64)
  }

  lemma {:induction false} PowAdd(a: nat, b: nat)
    ensures Pow2(a + b) == Pow2(a) * Pow2(b)
    decreases a
  {
    if a > 0 { PowAdd(a - 1, b); }
  }

  lemma Pow64()
    ensures Pow2(64) == M
  {
    assert Pow2(4) == 16 by { assert Pow2(2) == 4; assert Pow2(3) == 8; }
    hide Pow2;
    PowAdd(4, 4);
    PowAdd(8, 8);
    PowAdd(16, 16);
    PowAdd(32, 32);
  }

  lemma Halves(r: int, b: int, x: int, y: int)
    requires b == (x + y) % 2
    ensures (2 * r + b) / 2 == r && (2 * r + b + y) % 2 == x % 2
  {
  }

  lemma XorCons(x: int, y: int, n: nat)
    requires x >= 0 && y >= 0 && n > 0
    ensures XorBits(x, y, n) == 2 * XorBits(x / 2, y / 2, n - 1) + (x + y) % 2
    ensures Pow2(n) == 2 * Pow2(n - 1)
  {
  }

  lemma {:induction false} XorTwice(x: int, y: int, n: nat)
    requires 0 <= x < Pow2(n) && y >= 0
    ensures XorBits(XorBits(x, y, n), y, n) == x
    decreases n
  {
    if n > 0 {
      hide XorBits, Pow2;
      XorCons(x, y, n);
      XorTwice(x / 2, y / 2, n - 1);
      var r := XorBits(x / 2, y / 2, n - 1);
      Halves(r, (x + y) % 2, x, y);
      XorCons(XorBits(x, y, n), y, n);
    }
  }

  /** The distances that words are rotated by. */
  datatype Turn = T13 | T16 | T17 | T21 | T32

  /** Two to that distance, and two to the rest of the word. */
  function Low(k: Turn): int {
    match k
    case T13 => 0x2000
    case T16 => 0x1_0000
    case T17 => 0x2_0000
    case T21 => 0x20_0000
    case T32 => 0x1_0000_0000
  }

  function High(k: Turn): (h: int)
    ensures h > 0 && Low(k) * h == M
  {
    match k
    case T13 => 0x8_0000_0000_0000
    case T16 => 0x1_0000_0000_0000
    case T17 => 0x8000_0000_0000
    case T21 => 0x800_0000_0000
    case T32 => 0x1_0000_0000
  }

  /** The word `a * q + b`, in two parts, becomes `b * p + a`. */
  function Swap(x: Word, p: int, q: int): (r: Word)
    requires p > 0 && q > 0 && p * q == M
  {
    Parts(x, p, q);
    x % q * p + x / q
  }

  lemma Parts(x: Word, p: int, q: int)
    requires p > 0 && q > 0 && p * q == M
    ensures 0 <= x / q < p && 0 <= x % q < q && 0 <= x % q * p + x / q < M
  {
    var a, b := x / q, x % q;
    Fits(x, a, b, p, q);
    Fits(b * p + a, b, a, q, p);
  }

  lemma Fits(x: int, a: int, b: int, p: int, q: int)
    requires p > 0 && q > 0 && p * q == M && 0 <= b < q && x == a * q + b
    ensures 0 <= a < p <==> 0 <= x < M
  {
    if a >= p { Product(q, p, a); } else { Product(q, a, p - 1); assert (p - 1) * q == p * q - q; }
    if a < 0 { Product(q, a, -1); } else { Product(q, 0, a); }
  }

  lemma Product(n: int, x: int, y: int)
    requires n >= 0 && x <= y
    ensures x * n <= y * n
  {
  }

  lemma SwapBack(x: Word, p: int, q: int)
    requires p > 0 && q > 0 && p * q == M && q * p == M
    ensures Swap(Swap(x, p, q), q, p) == x
  {
    Parts(x, p, q);
    var a, b := x / q, x % q;
    var y := b * p + a;
    DivMod(y, b, a, p);
  }

  lemma DivMod(y: int, b: int, a: int, p: int)
    requires p > 0 && 0 <= a < p && y == b * p + a
    ensures y / p == b && y % p == a
  {
    var d := y / p - b;
    assert y == (y / p) * p + y % p;
    assert d * p == a - y % p by { assert d * p == (y / p) * p - b * p; }
    if d > 0 { Product(p, 1, d); } else if d < 0 { Product(p, d, -1); }
  }

  function Left(x: Word, k: Turn): Word { Swap(x, Low(k), High(k)) }

  function Right(x: Word, k: Turn): Word { Swap(x, High(k), Low(k)) }

  /** The two halves of a round: each adds, rotates and mixes two pairs of words. */
  function FirstHalf(s: State): State {
    var a, c := Add(s.v0, s.v1), Add(s.v2, s.v3);
    State(Left(a, T32), Xor(Left(s.v1, T13), a), c, Xor(Left(s.v3, T16), c))
  }

  function SecondHalf(s: State): State {
    var c, a := Add(s.v2, s.v1), Add(s.v0, s.v3);
    State(a, Xor(Left(s.v1, T17), c), Left(c, T32), Xor(Left(s.v3, T21), a))
  }

  function Round(s: State): State { SecondHalf(FirstHalf(s)) }

  function UnFirst(s: State): State {
    var a, c := Right(s.v0, T32), s.v2;
    var v1, v3 := Right(Xor(s.v1, a), T13), Right(Xor(s.v3, c), T16);
    State(Sub(a, v1), v1, Sub(c, v3), v3)
  }

  function UnSecond(s: State): State {
    var a, c := s.v0, Right(s.v2, T32);
    var v1, v3 := Right(Xor(s.v1, c), T17), Right(Xor(s.v3, a), T21);
    State(Sub(a, v3), v1, Sub(c, v1), v3)
  }

  /** The inverse of a round. */
  function Unround(s: State): State { UnFirst(UnSecond(s)) }

  lemma Cancel(x: Word, y: Word)
    ensures Xor(Xor(x, y), y) == x && Sub(Add(x, y), y) == x && Add(Sub(x, y), y) == x
  {
    hide XorBits, Pow2;
    Pow64();
    XorTwice(x, y, 64);
    Wraps(x, y);
  }

  lemma Wraps(x: Word, y: Word)
    ensures Sub(Add(x, y), y) == x && Add(Sub(x, y), y) == x
  {
    assert Add(x, y) == if x + y < M then x + y else x + y - M;
    assert Sub(x, y) == if x - y >= 0 then x - y else x - y + M;
  }

  lemma TurnBack(x: Word, k: Turn)
    ensures Right(Left(x, k), k) == x && Left(Right(x, k), k) == x
  {
    SwapBack(x, Low(k), High(k));
    SwapBack(x, High(k), Low(k));
  }

  lemma FirstBack(s: State)
    ensures UnFirst(FirstHalf(s)) == s && FirstHalf(UnFirst(s)) == s
  {
    hide Add, Sub, Xor, Left, Right;
    var a, c := Add(s.v0, s.v1), Add(s.v2, s.v3);
    TurnBack(a, T32);
    TurnBack(s.v1, T13);
    TurnBack(s.v3, T16);
    Cancel(Left(s.v1, T13), a);
    Cancel(Left(s.v3, T16), c);
    Cancel(s.v0, s.v1);
    Cancel(s.v2, s.v3);
    var a', c' := Right(s.v0, T32), s.v2;
    var x, y := Xor(s.v1, a'), Xor(s.v3, c');
    TurnBack(s.v0, T32);
    TurnBack(x, T13);
    TurnBack(y, T16);
    Cancel(s.v1, a');
    Cancel(s.v3, c');
    Cancel(a', Right(x, T13));
    Cancel(c', Right(y, T16));
  }

  lemma SecondBack(s: State)
    ensures UnSecond(SecondHalf(s)) == s && SecondHalf(UnSecond(s)) == s
  {
    hide Add, Sub, Xor, Left, Right;
    var c, a := Add(s.v2, s.v1), Add(s.v0, s.v3);
    TurnBack(c, T32);
    TurnBack(s.v1, T17);
    TurnBack(s.v3, T21);
    Cancel(Left(s.v1, T17), c);
    Cancel(Left(s.v3, T21), a);
    Cancel(s.v2, s.v1);
    Cancel(s.v0, s.v3);
    var a', c' := s.v0, Right(s.v2, T32);
    var x, y := Xor(s.v1, c'), Xor(s.v3, a');
    TurnBack(s.v2, T32);
    TurnBack(x, T17);
    TurnBack(y, T21);
    Cancel(s.v1, c');
    Cancel(s.v3, a');
    Cancel(c', Right(x, T17));
    Cancel(a', Right(y, T21));
  }

  lemma RoundBack(s: State)
    ensures Unround(Round(s)) == s && Round(Unround(s)) == s
  {
    hide FirstHalf, SecondHalf, UnFirst, UnSecond;
    FirstBack(s);
    SecondBack(FirstHalf(s));
    SecondBack(s);
    FirstBack(UnSecond(s));
  }

  function Rounds(s: State, n: nat): State
    decreases n
  {
    if n == 0 then s else Round(Rounds(s, n - 1))
  }

  function Unrounds(s: State, n: nat): State
    decreases n
  {
    if n == 0 then s else Unrounds(Unround(s), n - 1)
  }

  lemma {:induction false} RoundsBack(s: State, n: nat)
    ensures Unrounds(Rounds(s, n), n) == s && Rounds(Unrounds(s, n), n) == s
    decreases n
  {
    hide Round, Unround;
    if n > 0 {
      RoundsBack(s, n - 1);
      RoundBack(Rounds(s, n - 1));
      RoundsBack(Unround(s), n - 1);
      RoundBack(s);
    }
  }

  function Compressed(s: State, m: Word): State {
    var t := Rounds(s.(v3 := Xor(s.v3, m)), COMPRESSION_ROUNDS);
    t.(v0 := Xor(t.v0, m))
  }

  function Uncompressed(s: State, m: Word): State {
    var t := Unrounds(s.(v0 := Xor(s.v0, m)), COMPRESSION_ROUNDS);
    t.(v3 := Xor(t.v3, m))
  }

  lemma CompressBack(s: State, m: Word)
    ensures Uncompressed(Compressed(s, m), m) == s && Compressed(Uncompressed(s, m), m) == s
  {
    hide Xor, Rounds, Unrounds;
    var t := s.(v3 := Xor(s.v3, m));
    Cancel(s.v3, m);
    RoundsBack(t, COMPRESSION_ROUNDS);
    Cancel(Rounds(t, COMPRESSION_ROUNDS).v0, m);
    var u := s.(v0 := Xor(s.v0, m));
    Cancel(s.v0, m);
    RoundsBack(u, COMPRESSION_ROUNDS);
    Cancel(Unrounds(u, COMPRESSION_ROUNDS).v3, m);
  }

  function Finalized(s: State): State { Rounds(s.(v2 := Xor(s.v2, 0xff)), FINALIZATION_ROUNDS) }

  function Unfinalized(s: State): State {
    var t := Unrounds(s, FINALIZATION_ROUNDS);
    t.(v2 := Xor(t.v2, 0xff))
  }

  /** The state after every word of a message. */
  function Absorbed(s: State, words: seq<Word>): State
    decreases |words|
  {
    if words == [] then s else Compressed(Absorbed(s, words[..|words| - 1]), words[|words| - 1])
  }

  function Unabsorbed(s: State, words: seq<Word>): State
    decreases |words|
  {
    if words == [] then s else Unabsorbed(Uncompressed(s, words[|words| - 1]), words[..|words| - 1])
  }

  lemma {:induction false} AbsorbBack(s: State, words: seq<Word>)
    ensures Unabsorbed(Absorbed(s, words), words) == s && Absorbed(Unabsorbed(s, words), words) == s
    decreases |words|
  {
    hide Compressed, Uncompressed;
    if words != [] {
      var n := |words| - 1;
      AbsorbBack(s, words[..n]);
      CompressBack(Absorbed(s, words[..n]), words[n]);
      AbsorbBack(Uncompressed(s, words[n]), words[..n]);
      CompressBack(s, words[n]);
    }
  }

  /** For every message, the map from the state it starts from to the four words it ends in is a bijection, and
      this is its inverse. */
  lemma MessageIsABijection(s: State, words: seq<Word>)
    ensures Unabsorbed(Unfinalized(Finalized(Absorbed(s, words))), words) == s
    ensures Finalized(Absorbed(Unabsorbed(Unfinalized(s), words), words)) == s
  {
    hide Xor, Rounds, Unrounds, Absorbed, Unabsorbed;
    var t := Absorbed(s, words);
    Cancel(t.v2, 0xff);
    RoundsBack(t.(v2 := Xor(t.v2, 0xff)), FINALIZATION_ROUNDS);
    AbsorbBack(s, words);
    var u := Unrounds(s, FINALIZATION_ROUNDS);
    Cancel(u.v2, 0xff);
    RoundsBack(s, FINALIZATION_ROUNDS);
    AbsorbBack(Unfinalized(s), words);
  }

  function Pow256(n: nat): (p: int)
    ensures p > 0
  {
    if n == 0 then 1 else 256 * Pow256(n - 1)
  }

  /** Bytes as a number, least significant first. */
  function Le(b: Bytes): (w: int)
    ensures 0 <= w < Pow256(|b|)
  {
    if b == [] then 0 else b[0] + 256 * Le(b[1..])
  }

  lemma Eight()
    ensures Pow256(8) == M
  {
    assert Pow256(4) == 0x1_0000_0000 by { assert Pow256(2) == 0x1_0000; assert Pow256(3) == 0x100_0000; }
    assert Pow256(5) == 256 * Pow256(4) && Pow256(6) == 256 * Pow256(5);
    assert Pow256(7) == 256 * Pow256(6) && Pow256(8) == 256 * Pow256(7);
  }

  function LeWord(b: Bytes): Word
    requires |b| == 8
  {
    Eight();
    Le(b)
  }

  lemma LeCons(a: Bytes)
    requires a != []
    ensures Le(a) == a[0] + 256 * Le(a[1..])
  {
    hide Pow256;
  }

  lemma LeParts(a: Bytes)
    requires a != []
    ensures a[0] == Le(a) % 256 && Le(a[1..]) == Le(a) / 256
  {
    hide Le, Pow256;
    LeCons(a);
    LowByte(a[0], Le(a[1..]));
  }

  lemma {:induction false} LeOnce(a: Bytes, b: Bytes)
    requires |a| == |b| && Le(a) == Le(b)
    ensures a == b
    decreases |a|
  {
    hide Le;
    if a != [] {
      LeParts(a);
      LeParts(b);
      LeOnce(a[1..], b[1..]);
      assert a == [a[0]] + a[1..] && b == [b[0]] + b[1..];
    }
  }

  /** What is left of a message, null bytes, and its length modulo 256. */
  function LastBytes(tail: Bytes, len: nat): (b: Bytes)
    requires |tail| < 8
    ensures |b| == 8
  {
    tail + Zeros(7 - |tail|) + [len % 256]
  }

  /** The words of a message. */
  function Words(data: Bytes): (w: seq<Word>)
    ensures |w| == |data| / 8 + 1
  {
    var n := |data| / 8;
    seq(n, i requires 0 <= i < n => LeWord(data[8 * i..8 * i + 8])) + [LeWord(LastBytes(data[8 * n..], |data|))]
  }

  /** No two messages, of whatever lengths, have the same words. */
  lemma WordsOnce(a: Bytes, b: Bytes)
    ensures Words(a) == Words(b) <==> a == b
  {
    if Words(a) == Words(b) { WordsSame(a, b); }
  }

  lemma LastOnce(x: Bytes, y: Bytes, m: nat, n: nat)
    requires |x| < 8 && |y| < 8 && LastBytes(x, m) == LastBytes(y, n)
    ensures m % 256 == n % 256 && (|x| == |y| ==> x == y)
  {
    var a, b := LastBytes(x, m), LastBytes(y, n);
    assert a[7] == m % 256 && b[7] == n % 256 && a[..|x|] == x && b[..|y|] == y;
  }

  lemma WordsAt(data: Bytes, k: nat)
    requires k <= |data| / 8
    ensures 8 * (|data| / 8) <= |data| < 8 * (|data| / 8) + 8
    ensures k < |data| / 8 ==> Words(data)[k] == LeWord(data[8 * k..8 * k + 8])
    ensures k == |data| / 8 ==> Words(data)[k] == LeWord(LastBytes(data[8 * k..], |data|))
  {
    hide LeWord, LastBytes;
  }

  lemma WordSame(a: Bytes, b: Bytes, k: nat)
    requires Words(a) == Words(b) && k < |a| / 8 == |b| / 8
    ensures a[8 * k..8 * k + 8] == b[8 * k..8 * k + 8]
  {
    hide Words, Le;
    WordsAt(a, k);
    WordsAt(b, k);
    LeOnce(a[8 * k..8 * k + 8], b[8 * k..8 * k + 8]);
  }

  lemma SameLength(a: nat, b: nat)
    requires a / 8 == b / 8 && a % 256 == b % 256
    ensures a == b
  {
  }

  lemma WordsSame(a: Bytes, b: Bytes)
    requires Words(a) == Words(b)
    ensures a == b
  {
    hide Words, Le, LastBytes;
    var n := |a| / 8;
    assert |Words(a)| == |Words(b)|;
    WordsAt(a, n);
    WordsAt(b, n);
    LeOnce(LastBytes(a[8 * n..], |a|), LastBytes(b[8 * n..], |b|));
    LastOnce(a[8 * n..], b[8 * n..], |a|, |b|);
    SameLength(|a|, |b|);
    forall i | 0 <= i < |a|
      ensures a[i] == b[i]
    {
      var k := i / 8;
      if k < n {
        WordSame(a, b, k);
        assert a[8 * k..8 * k + 8][i - 8 * k] == b[8 * k..8 * k + 8][i - 8 * k];
      } else {
        assert a[8 * n..][i - 8 * n] == b[8 * n..][i - 8 * n];
      }
    }
  }

  /** The state a key starts from. */
  function KeyState(key: Bytes): State
    requires |key| == 16
  {
    var k0, k1 := LeWord(key[..8]), LeWord(key[8..]);
    State(Xor(k0, I0), Xor(k1, I1), Xor(k0, I2), Xor(k1, I3))
  }

  /** Each half of the key, lowest byte first, is what is mixed into two of the initial words. */
  lemma KeyWords(key: Bytes)
    requires |key| == 16
    ensures var s := KeyState(key);
      && Xor(s.v0, I0) == Xor(s.v2, I2) == LeWord(key[..8])
      && Xor(s.v1, I1) == Xor(s.v3, I3) == LeWord(key[8..])
  {
    hide Le, Xor;
    Cancel(LeWord(key[..8]), I0);
    Cancel(LeWord(key[..8]), I2);
    Cancel(LeWord(key[8..]), I1);
    Cancel(LeWord(key[8..]), I3);
  }

  /** No two keys start from the same state. */
  lemma KeyOnce(a: Bytes, b: Bytes)
    requires |a| == 16 && |b| == 16
    ensures KeyState(a) == KeyState(b) <==> a == b
  {
    hide Le, Xor;
    if KeyState(a) == KeyState(b) {
      Cancel(LeWord(a[..8]), I0);
      Cancel(LeWord(b[..8]), I0);
      Cancel(LeWord(a[8..]), I1);
      Cancel(LeWord(b[8..]), I1);
      LeOnce(a[..8], b[..8]);
      LeOnce(a[8..], b[8..]);
      assert a == a[..8] + a[8..] && b == b[..8] + b[8..];
    }
  }

  function HashOf(key: State, data: Bytes): Word {
    var s := Finalized(Absorbed(key, Words(data)));
    Xor(Xor(Xor(s.v0, s.v1), s.v2), s.v3)
  }

  function Of(v: array<Word>): State
    requires v.Length == 4
    reads v
  {
    State(v[0], v[1], v[2], v[3])
  }

  method SipRound(v: array<Word>)
    requires v.Length == 4
    modifies v
    ensures Of(v) == Round(old(Of(v)))
  {
    hide Add, Xor, Left;
    v[0] := Add(v[0], v[1]);
    v[2] := Add(v[2], v[3]);
    v[1] := Left(v[1], T13);
    v[3] := Left(v[3], T16);
    v[1] := Xor(v[1], v[0]);
    v[3] := Xor(v[3], v[2]);
    v[0] := Left(v[0], T32);
    v[2] := Add(v[2], v[1]);
    v[0] := Add(v[0], v[3]);
    v[1] := Left(v[1], T17);
    v[3] := Left(v[3], T21);
    v[1] := Xor(v[1], v[2]);
    v[3] := Xor(v[3], v[0]);
    v[2] := Left(v[2], T32);
  }

  method Compress(v: array<Word>, m: Word)
    requires v.Length == 4
    modifies v
    ensures Of(v) == Compressed(old(Of(v)), m)
  {
    hide Round, Xor;
    v[3] := Xor(v[3], m);
    ghost var s := Of(v);
    for i := 0 to COMPRESSION_ROUNDS
      invariant Of(v) == Rounds(s, i)
    {
      SipRound(v);
    }
    v[0] := Xor(v[0], m);
  }

  method Finalize(v: array<Word>)
    requires v.Length == 4
    modifies v
    ensures Of(v) == Finalized(old(Of(v)))
  {
    hide Round, Xor;
    v[2] := Xor(v[2], 0xff);
    ghost var s := Of(v);
    for i := 0 to FINALIZATION_ROUNDS
      invariant Of(v) == Rounds(s, i)
    {
      SipRound(v);
    }
  }

  method Hash(key: State, data: Bytes) returns (h: Word)
    ensures h == HashOf(key, data)
  {
    hide Compressed, Finalized, Le, Xor, LastBytes;
    var v := new Word[4](i => 0);
    v[0], v[1], v[2], v[3] := key.v0, key.v1, key.v2, key.v3;
    ghost var words := Words(data);
    for i := 0 to |data| / 8
      invariant Of(v) == Absorbed(key, words[..i])
    {
      Compress(v, LeWord(data[8 * i..8 * i + 8]));
      assert words[..i + 1][..i] == words[..i];
    }
    var n := |data| / 8;
    Compress(v, LeWord(LastBytes(data[8 * n..], |data|)));
    assert words[..n + 1] == words;
    Finalize(v);
    h := Xor(Xor(Xor(v[0], v[1]), v[2]), v[3]);
  }

  /** "somepseudorandomlygeneratedbytes", which the four initial words spell. */
  const INITIAL: seq<byte> := [
    0x73, 0x6f, 0x6d, 0x65, 0x70, 0x73, 0x65, 0x75, 0x64, 0x6f, 0x72, 0x61, 0x6e, 0x64, 0x6f, 0x6d,
    0x6c, 0x79, 0x67, 0x65, 0x6e, 0x65, 0x72, 0x61, 0x74, 0x65, 0x64, 0x62, 0x79, 0x74, 0x65, 0x73]

  lemma InitialWords()
    ensures Be64(I0) + Be64(I1) + Be64(I2) + Be64(I3) == INITIAL
  {
    hide INITIAL, Be64;
    Spelled(I0, 0x73, 0x6f, 0x6d, 0x65, 0x70, 0x73, 0x65, 0x75);
    Spelled(I1, 0x64, 0x6f, 0x72, 0x61, 0x6e, 0x64, 0x6f, 0x6d);
    Spelled(I2, 0x6c, 0x79, 0x67, 0x65, 0x6e, 0x65, 0x72, 0x61);
    Spelled(I3, 0x74, 0x65, 0x64, 0x62, 0x79, 0x74, 0x65, 0x73);
    InitialIs(Be64(I0), Be64(I1), Be64(I2), Be64(I3));
  }

  /** The word that eight bytes spell. */
  lemma Spelled(w: Word, a: byte, b: byte, c: byte, d: byte, e: byte, f: byte, g: byte, h: byte)
    requires w == (a as int * 0x100_0000 + b as int * 0x1_0000 + c as int * 0x100 + d as int) * TWO32
                  + (e as int * 0x100_0000 + f as int * 0x1_0000 + g as int * 0x100 + h as int)
    ensures Be64(w) == [a, b, c, d, e, f, g, h]
  {
    var hi := a as int * 0x100_0000 + b as int * 0x1_0000 + c as int * 0x100 + d as int;
    var lo := e as int * 0x100_0000 + f as int * 0x1_0000 + g as int * 0x100 + h as int;
    hide Be32;
    FourBytes(a, b, c, d);
    FourBytes(e, f, g, h);
    HalvesOf(hi, lo);
  }

  lemma HalvesOf(hi: int, lo: int)
    requires 0 <= lo < TWO32
    ensures (hi * TWO32 + lo) / TWO32 == hi && (hi * TWO32 + lo) % TWO32 == lo
  {
  }

  lemma InitialIs(a: Bytes, b: Bytes, c: Bytes, d: Bytes)
    requires a == [0x73, 0x6f, 0x6d, 0x65, 0x70, 0x73, 0x65, 0x75] && b == [0x64, 0x6f, 0x72, 0x61, 0x6e, 0x64, 0x6f, 0x6d]
    requires c == [0x6c, 0x79, 0x67, 0x65, 0x6e, 0x65, 0x72, 0x61] && d == [0x74, 0x65, 0x64, 0x62, 0x79, 0x74, 0x65, 0x73]
    ensures a + b + c + d == INITIAL
  {
  }

  /** A word is read with its lowest byte first. */
  lemma {:induction false} LeIs(b: Bytes)
    ensures b != [] ==> Le(b) == b[0] + 256 * Le(b[1..])
    ensures Le(b) == Number(Backwards(b))
    decreases |b|
  {
    hide Le, Number, Pow256;
    NothingLe();
    if b != [] {
      LeCons(b);
      LeIs(b[1..]);
      NumberLast(Backwards(b[1..]), b[0]);
    }
  }

  function Backwards(b: Bytes): Bytes { if b == [] then [] else Backwards(b[1..]) + [b[0]] }

  lemma NothingLe()
    ensures Le([]) == 0 && Number([]) == 0 && Backwards([]) == []
  {
  }

  /** The examples of section 2: an empty message is one word of nulls, and the byte ab is the word
      01000000000000ab. */
  lemma WordExamples()
    ensures Words([]) == [0] && Words([0xab]) == [0x0100_0000_0000_00ab]
  {
    hide Le;
    var none: Bytes, one: Bytes := [], [0xab];
    assert LastBytes(none, 0) == [0, 0, 0, 0, 0, 0, 0, 0] && LastBytes(one, 1) == [0xab, 0, 0, 0, 0, 0, 0, 1];
    EightBytes(0, 0);
    EightBytes(0xab, 1);
    assert none[8 * 0..] == none && one[8 * 0..] == one;
  }

  lemma EightBytes(x: byte, y: byte)
    ensures Le([x, 0, 0, 0, 0, 0, 0, y]) == x as int + 0x100_0000_0000_0000 * y as int
  {
    hide Le, Pow256;
    NothingLe();
    var b: Bytes := [x, 0, 0, 0, 0, 0, 0, y];
    LeCons(b);
    LeCons(b[1..]);
    LeCons(b[1..][1..]);
    LeCons(b[1..][1..][1..]);
    LeCons(b[1..][1..][1..][1..]);
    LeCons(b[1..][1..][1..][1..][1..]);
    LeCons(b[1..][1..][1..][1..][1..][1..]);
    LeCons(b[1..][1..][1..][1..][1..][1..][1..]);
    assert b[1..][1..][1..][1..][1..][1..][1..][1..] == [];
  }

  /** Bit `i` of a number. */
  function Bit(x: nat, i: nat): int { if i == 0 then x % 2 else Bit(x / 2, i - 1) }

  lemma {:induction false} BitIs(x: nat, i: nat)
    ensures Bit(x, i) == x / Pow2(i) % 2
    decreases i
  {
    hide Pow2;
    if i == 0 {
      PowOne();
    } else {
      BitIs(x / 2, i - 1);
      PowStep(i);
      HalfThen(x, Pow2(i - 1));
    }
  }

  /** Bit by bit: bit `i` of an exclusive or is the sum of the two bits, without its carry. */
  lemma {:induction false} XorIs(x: nat, y: nat, n: nat, i: nat)
    requires i < n
    ensures Bit(XorBits(x, y, n), i) == (Bit(x, i) + Bit(y, i)) % 2
    decreases i
  {
    hide XorBits, Pow2;
    XorCons(x, y, n);
    var r := XorBits(x / 2, y / 2, n - 1);
    LowBit(r, x, y);
    if i > 0 { XorIs(x / 2, y / 2, n - 1, i - 1); }
  }

  lemma PowOne()
    ensures Pow2(0) == 1
  {
  }

  lemma PowStep(i: nat)
    requires i > 0
    ensures Pow2(i) == 2 * Pow2(i - 1)
  {
  }

  lemma LowBit(r: int, x: int, y: int)
    ensures (2 * r + (x + y) % 2) % 2 == (x % 2 + y % 2) % 2 && (2 * r + (x + y) % 2) / 2 == r
  {
  }

  lemma HalfThen(x: int, p: int)
    requires p > 0 && x >= 0
    ensures x / (2 * p) == x / 2 / p
  {
    var q := x / 2 / p;
    assert x == 2 * (x / 2) + x % 2 && x / 2 == p * q + x / 2 % p;
    assert x == (2 * p) * q + (2 * (x / 2 % p) + x % 2);
    DivMod(x, q, 2 * (x / 2 % p) + x % 2, 2 * p);
  }

  lemma {:induction false} XorNothing(x: int, n: nat)
    requires 0 <= x < Pow2(n)
    ensures XorBits(x, 0, n) == x && XorBits(0, x, n) == x
    decreases n
  {
    if n > 0 {
      hide XorBits, Pow2;
      XorCons(x, 0, n);
      XorCons(0, x, n);
      XorNothing(x / 2, n - 1);
    }
  }

  /** Where no bit is in both, an exclusive or is a sum. */
  lemma {:induction false} XorApart(h: int, b: int, k: nat, n: nat)
    requires h >= 0 && 0 <= b < Pow2(k) && k <= n && h * Pow2(k) < Pow2(n)
    ensures XorBits(h * Pow2(k), b, n) == h * Pow2(k) + b
    decreases k
  {
    hide XorBits, Pow2;
    if k == 0 {
      PowOne();
      XorNothing(h, n);
    } else {
      PowStep(k);
      PowStep(n);
      var x := h * Pow2(k - 1);
      assert h * Pow2(k) == 2 * x;
      XorCons(2 * x, b, n);
      XorApart(h, b / 2, k - 1, n - 1);
      Doubled(x, b);
    }
  }

  lemma Doubled(x: int, b: int)
    ensures 2 * x / 2 == x && (2 * x + b) % 2 == b % 2 && b == 2 * (b / 2) + b % 2
  {
  }

  lemma LeftSmall(x: Word, k: Turn)
    requires x < High(k)
    ensures x * Low(k) < M && Left(x, k) == x * Low(k)
  {
    Parts(x, Low(k), High(k));
    Small(x, High(k));
  }

  lemma Small(x: int, q: int)
    requires 0 <= x < q
    ensures x / q == 0 && x % q == x
  {
  }

  lemma XorWords(h: int, b: int, k: nat, p: int)
    requires h >= 0 && 0 <= b < p == Pow2(k) && k <= 64 && h * p < M && b < M
    ensures Xor(h * p, b) == h * p + b
  {
    hide XorBits, Pow2;
    Pow64();
    XorApart(h, b, k, 64);
  }

  lemma XorZero(x: Word)
    ensures Xor(x, 0) == x && Xor(0, x) == x
  {
    hide XorBits, Pow2;
    Pow64();
    XorNothing(x, 64);
  }

  lemma Powers()
    ensures Pow2(13) == 0x2000 && Pow2(16) == 0x1_0000 && Pow2(17) == 0x2_0000 && Pow2(21) == 0x20_0000
  {
    assert Pow2(4) == 16 by { assert Pow2(2) == 4; assert Pow2(3) == 8; }
    PowStep(5);
    hide Pow2;
    PowAdd(4, 4);
    PowAdd(8, 4);
    PowStep(13);
    PowAdd(8, 8);
    PowStep(17);
    PowAdd(16, 5);
  }

  /** A round of each of the four words alone, by the paper's diagram: where it goes, how far it is turned, and what
      it is mixed with. First, v0. */
  lemma RoundOfV0()
    ensures Round(State(1, 0, 0, 0)) == State(0x1_0000_0000, 0x2_0001, 0x1_0000_0000, 0x1_0000_0000)
  {
    hide Xor, Left, Pow2;
    Powers();
    XorZero(0);
    XorZero(1);
    XorZero(0x1_0000_0000);
    LeftSmall(0, T13);
    LeftSmall(0, T16);
    LeftSmall(1, T32);
    LeftSmall(1, T17);
    LeftSmall(0, T21);
    XorWords(1, 1, 17, 0x2_0000);
    assert FirstHalf(State(1, 0, 0, 0)) == State(0x1_0000_0000, 1, 0, 0);
  }

  /** v1. */
  lemma RoundOfV1()
    ensures Round(State(0, 1, 0, 0)) == State(0x1_0000_0000, 0x4002_2001, 0x2001_0000_0000, 0x1_0000_0000)
  {
    hide Xor, Left, Pow2;
    Powers();
    XorZero(0);
    XorZero(0x1_0000_0000);
    LeftSmall(1, T13);
    LeftSmall(0, T16);
    LeftSmall(1, T32);
    LeftSmall(0x2001, T17);
    LeftSmall(0x2001, T32);
    LeftSmall(0, T21);
    XorWords(1, 1, 13, 0x2000);
    XorWords(0x2001, 0x2001, 17, 0x2_0000);
    assert FirstHalf(State(0, 1, 0, 0)) == State(0x1_0000_0000, 0x2001, 0, 0);
  }

  /** v2. */
  lemma RoundOfV2()
    ensures Round(State(0, 0, 1, 0)) == State(1, 1, 0x1_0000_0000, 0x20_0001)
  {
    hide Xor, Left, Pow2;
    Powers();
    XorZero(0);
    XorZero(1);
    LeftSmall(0, T13);
    LeftSmall(0, T16);
    LeftSmall(0, T17);
    LeftSmall(0, T32);
    LeftSmall(1, T21);
    LeftSmall(1, T32);
    XorWords(1, 1, 21, 0x20_0000);
    assert FirstHalf(State(0, 0, 1, 0)) == State(0, 0, 1, 1);
  }

  /** v3. */
  lemma RoundOfV3()
    ensures Round(State(0, 0, 0, 1)) == State(0x1_0001, 1, 0x1_0000_0000, 0x20_0021_0001)
  {
    hide Xor, Left, Pow2;
    Powers();
    XorZero(0);
    XorZero(1);
    LeftSmall(0, T13);
    LeftSmall(1, T16);
    LeftSmall(0, T17);
    LeftSmall(0, T32);
    LeftSmall(0x1_0001, T21);
    LeftSmall(1, T32);
    XorWords(1, 1, 16, 0x1_0000);
    XorWords(0x1_0001, 0x1_0001, 21, 0x20_0000);
    assert FirstHalf(State(0, 0, 0, 1)) == State(0, 0, 1, 0x1_0001);
  }

  lemma RoundOfNothing()
    ensures Round(State(0, 0, 0, 0)) == State(0, 0, 0, 0)
  {
    hide Xor, Left;
    XorZero(0);
    LeftSmall(0, T13);
    LeftSmall(0, T16);
    LeftSmall(0, T17);
    LeftSmall(0, T21);
    LeftSmall(0, T32);
    assert FirstHalf(State(0, 0, 0, 0)) == State(0, 0, 0, 0);
  }

  lemma {:induction false} RoundsOfNothing(n: nat)
    ensures Rounds(State(0, 0, 0, 0), n) == State(0, 0, 0, 0)
    decreases n
  {
    hide Round;
    RoundOfNothing();
    if n > 0 { RoundsOfNothing(n - 1); }
  }

  /** Where a word of the message goes in, before the rounds and after them, and where and what the last constant
      is: the state that each of them cancels stays at rest. */
  lemma AtRest(m: Word)
    ensures Compressed(State(0, 0, 0, m), m) == State(m, 0, 0, 0)
    ensures Finalized(State(0, 0, 0xff, 0)) == State(0, 0, 0, 0)
  {
    hide Xor, Rounds;
    XorZero(m);
    XorZero(0xff);
    Cancel(0, m);
    Cancel(0, 0xff);
    RoundsOfNothing(COMPRESSION_ROUNDS);
    RoundsOfNothing(FINALIZATION_ROUNDS);
  }

  /** The hash takes in all four words of the final state. */
  lemma AllFourWords(key: State, data: Bytes, x: Word)
    requires var s := Finalized(Absorbed(key, Words(data)));
      s == State(x, 0, 0, 0) || s == State(0, x, 0, 0) || s == State(0, 0, x, 0) || s == State(0, 0, 0, x)
    ensures HashOf(key, data) == x
  {
    hide Xor, Finalized, Absorbed, Words;
    XorZero(0);
    XorZero(x);
  }
}
