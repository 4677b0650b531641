/** Bytes, big-endian words, padding and UTF-8: the layer under the XDR codec. */
module Wire {

  type byte = x: int | 0 <= x < 256

  type Bytes = seq<byte>

  const TWO32: int := 0x1_0000_0000
  const UNIT: nat := 4

  /** A whole number of units. */
  predicate Units(n: nat) { n % 4 == 0 }

  lemma UnitsSum(m: nat, n: nat)
    requires Units(m) && Units(n)
    ensures Units(m + n)
  {
  }

  lemma UnitsOne()
    ensures Units(0) && Units(4)
  {
  }

  /** Zero padding that brings `len` up to a whole number of units. */
  function Pad4(len: nat): (p: nat)
    ensures p < UNIT && Units(len + p)
  {
    (4 - len % 4) % 4
  }

  function Zeros(n: nat): (z: Bytes)
    ensures |z| == n && forall i :: 0 <= i < n ==> z[i] == 0
  {
    seq(n, _ => 0)
  }

  /** The four bytes of a 32-bit word, most significant first. */
  function Be32(w: int): (s: Bytes)
    requires 0 <= w < TWO32
    ensures |s| == 4
  {
    [w / 0x100_0000, w / 0x1_0000 % 0x100, w / 0x100 % 0x100, w % 0x100]
  }

  /** The word that the first four bytes of `s` hold. */
  function U32(s: Bytes): (w: int)
    requires 4 <= |s|
    ensures 0 <= w < TWO32
  {
    s[0] as int * 0x100_0000 + s[1] as int * 0x1_0000 + s[2] as int * 0x100 + s[3] as int
  }

  function Be64(w: int): (s: Bytes)
    requires 0 <= w < TWO32 * TWO32
    ensures |s| == 8
  {
    Be32(w / TWO32) + Be32(w % TWO32)
  }

  function U64(s: Bytes): (w: int)
    requires 8 <= |s|
    ensures 0 <= w < TWO32 * TWO32
  {
    U32(s) * TWO32 + U32(s[4..])
  }

  lemma Be32Inverse(w: int, tail: Bytes)
    requires 0 <= w < TWO32
    ensures U32(Be32(w) + tail) == w
  {
    assert w == w / 0x100_0000 * 0x100_0000 + w % 0x100_0000;
    assert w / 0x1_0000 == w / 0x100_0000 * 0x100 + w / 0x1_0000 % 0x100;
    assert w / 0x100 == w / 0x1_0000 * 0x100 + w / 0x100 % 0x100;
  }

  lemma U32Inverse(s: Bytes)
    requires 4 <= |s|
    ensures Be32(U32(s)) == s[..4]
  {
    ByteOf(s[0], s[1], s[2], s[3]);
  }

  lemma ByteOf(a: byte, b: byte, c: byte, d: byte)
    ensures var w := a as int * 0x100_0000 + b as int * 0x1_0000 + c as int * 0x100 + d as int;
      w / 0x100_0000 == a && w / 0x1_0000 % 0x100 == b && w / 0x100 % 0x100 == c && w % 0x100 == d
  {
    var ab := b as int + 256 * a as int;
    var abc := c as int + 256 * ab;
    LowByte(b, a);
    LowByte(c, ab);
    LowByte(d, abc);
    HighBytes(ab, c as int * 0x100 + d as int);
    HighByte(a, b as int * 0x1_0000 + c as int * 0x100 + d as int);
  }

  /** The word that four bytes are, and back. */
  lemma FourBytes(a: byte, b: byte, c: byte, d: byte)
    ensures Be32(a as int * 0x100_0000 + b as int * 0x1_0000 + c as int * 0x100 + d as int) == [a, b, c, d]
  {
    ByteOf(a, b, c, d);
  }

  lemma LowByte(x: byte, y: int)
    ensures (x as int + 256 * y) % 256 == x as int && (x as int + 256 * y) / 256 == y
  {
  }

  lemma HighBytes(q: int, r: int)
    requires 0 <= r < 0x1_0000
    ensures (q * 0x1_0000 + r) / 0x1_0000 == q
  {
  }

  lemma HighByte(q: int, r: int)
    requires 0 <= r < 0x100_0000
    ensures (q * 0x100_0000 + r) / 0x100_0000 == q
  {
  }

  lemma Be64Inverse(w: int, tail: Bytes)
    requires 0 <= w < TWO32 * TWO32
    ensures U64(Be64(w) + tail) == w
  {
    var hi, lo := w / TWO32, w % TWO32;
    Be32Inverse(hi, Be32(lo) + tail);
    Be32Inverse(lo, tail);
    assert Be64(w) + tail == Be32(hi) + (Be32(lo) + tail);
    assert (Be64(w) + tail)[4..] == Be32(lo) + tail;
  }

  lemma U64Inverse(s: Bytes)
    requires 8 <= |s|
    ensures Be64(U64(s)) == s[..8]
  {
    U32Inverse(s);
    U32Inverse(s[4..]);
    assert U64(s) / TWO32 == U32(s);
    assert s[..8] == s[..4] + s[4..][..4];
  }

  /** The order of a dictionary. */
  predicate Before(a: Bytes, b: Bytes) {
    b != [] && (a == [] || a[0] < b[0] || (a[0] == b[0] && Before(a[1..], b[1..])))
  }

  lemma BeforeCons(x: byte, a: Bytes, y: byte, b: Bytes)
    ensures Before([x] + a, [y] + b) <==> x < y || (x == y && Before(a, b))
  {
    assert ([x] + a)[1..] == a && ([y] + b)[1..] == b;
  }

  /** Two numbers by their low byte and the rest. */
  lemma HighFirst(v: int, w: int)
    ensures v < w <==> v / 256 < w / 256 || (v / 256 == w / 256 && v % 256 < w % 256)
  {
  }

  lemma {:induction false} BeforeLast(a: Bytes, x: byte, b: Bytes, y: byte)
    requires |a| == |b|
    ensures Before(a + [x], b + [y]) <==> Before(a, b) || (a == b && x < y)
    decreases |a|
  {
    if a == [] {
      assert a + [x] == [x] && b + [y] == [y];
    } else {
      BeforeLast(a[1..], x, b[1..], y);
      assert a + [x] == [a[0]] + (a[1..] + [x]) && b + [y] == [b[0]] + (b[1..] + [y]);
      BeforeCons(a[0], a[1..] + [x], b[0], b[1..] + [y]);
      assert a == [a[0]] + a[1..] && b == [b[0]] + b[1..];
    }
  }

  /** The number that bytes spell, the first of them the highest. */
  function Number(s: Bytes): nat {
    if s == [] then 0 else 256 * Number(s[..|s| - 1]) + s[|s| - 1]
  }

  lemma NumberLast(s: Bytes, x: byte)
    ensures Number(s + [x]) == 256 * Number(s) + x as int
  {
    assert (s + [x])[..|s|] == s;
  }

  /** Among strings of one length, the order of the bytes is the order of the numbers they spell. */
  lemma {:induction false} NumberOrder(a: Bytes, b: Bytes)
    requires |a| == |b|
    ensures Before(a, b) <==> Number(a) < Number(b)
    ensures Number(a) == Number(b) <==> a == b
    decreases |a|
  {
    if a != [] {
      var n := |a| - 1;
      NumberOrder(a[..n], b[..n]);
      assert a == a[..n] + [a[n]] && b == b[..n] + [b[n]];
      BeforeLast(a[..n], a[n], b[..n], b[n]);
      LowByte(a[n], Number(a[..n]));
      LowByte(b[n], Number(b[..n]));
      HighFirst(Number(a), Number(b));
    }
  }

  lemma NumberOfFour(a: byte, b: byte, c: byte, d: byte)
    ensures Number([a, b, c, d]) == a as int * 0x100_0000 + b as int * 0x1_0000 + c as int * 0x100 + d as int
  {
    assert Number([]) == 0;
    hide Number;
    assert [a, b, c, d] == [] + [a] + [b] + [c] + [d];
    NumberLast([], a);
    NumberLast([] + [a], b);
    NumberLast([] + [a] + [b], c);
    NumberLast([] + [a] + [b] + [c], d);
  }

  lemma {:induction false} NumberJoin(a: Bytes, b: Bytes)
    requires |b| == 4
    ensures Number(a + b) == Number(a) * TWO32 + Number(b)
  {
    hide Number;
    NumberOfFour(b[0], b[1], b[2], b[3]);
    assert a + b == a + [b[0]] + [b[1]] + [b[2]] + [b[3]] && b == [b[0], b[1], b[2], b[3]];
    NumberLast(a, b[0]);
    NumberLast(a + [b[0]], b[1]);
    NumberLast(a + [b[0]] + [b[1]], b[2]);
    NumberLast(a + [b[0]] + [b[1]] + [b[2]], b[3]);
  }

  lemma WordIs(s: Bytes)
    requires |s| >= 4
    ensures U32(s) == Number(s[..4])
  {
    assert s[..4] == [s[0], s[1], s[2], s[3]];
    NumberOfFour(s[0], s[1], s[2], s[3]);
  }

  /** A word spells its number, and words are in the order of their bytes: what makes the order of the four bytes
      the only one. */
  lemma WordOrder(v: int, w: int)
    requires 0 <= v < TWO32 && 0 <= w < TWO32
    ensures Number(Be32(v)) == v
    ensures v < w <==> Before(Be32(v), Be32(w))
  {
    hide Number, Be32, U32, Before;
    Be32Inverse(v, []);
    Be32Inverse(w, []);
    assert Be32(v) + [] == Be32(v) == Be32(v)[..4] && Be32(w) + [] == Be32(w) == Be32(w)[..4];
    WordIs(Be32(v));
    WordIs(Be32(w));
    NumberOrder(Be32(v), Be32(w));
  }

  lemma HyperOrder(v: int, w: int)
    requires 0 <= v < TWO32 * TWO32 && 0 <= w < TWO32 * TWO32
    ensures Number(Be64(v)) == v
    ensures v < w <==> Before(Be64(v), Be64(w))
  {
    hide Number, Be32, Before;
    HyperIs(v);
    HyperIs(w);
    NumberOrder(Be64(v), Be64(w));
  }

  lemma HyperIs(v: int)
    requires 0 <= v < TWO32 * TWO32
    ensures Number(Be64(v)) == v
  {
    hide Number, Be32;
    WordOrder(v / TWO32, v % TWO32);
    WordOrder(v % TWO32, v % TWO32);
    NumberJoin(Be32(v / TWO32), Be32(v % TWO32));
  }

  /** A byte that continues a multi-byte UTF-8 sequence. */
  predicate Continues(b: byte) {
    0x80 <= b <= 0xBF
  }

  /** Length of the well-formed UTF-8 sequence at the front of `s`, 0 if there is none (Unicode Table 3-7). */
  function ScalarLen(s: Bytes): (n: nat)
    ensures n <= |s| && n <= 4
  {
    if |s| >= 1 && s[0] <= 0x7F then 1
    else if |s| >= 2 && 0xC2 <= s[0] <= 0xDF && Continues(s[1]) then 2
    else if |s| >= 3 && Continues(s[1]) && Continues(s[2])
         && ((s[0] == 0xE0 && 0xA0 <= s[1]) || 0xE1 <= s[0] <= 0xEC
             || (s[0] == 0xED && s[1] <= 0x9F) || 0xEE <= s[0] <= 0xEF) then 3
    else if |s| >= 4 && Continues(s[1]) && Continues(s[2]) && Continues(s[3])
         && ((s[0] == 0xF0 && 0x90 <= s[1]) || 0xF1 <= s[0] <= 0xF3
             || (s[0] == 0xF4 && s[1] <= 0x8F)) then 4
    else 0
  }

  predicate ValidUtf8(s: Bytes)
    decreases |s|
  {
    s == [] || (ScalarLen(s) > 0 && ValidUtf8(s[ScalarLen(s)..]))
  }

  /** Two inputs that start with the same `n` bytes. */
  predicate Agree(s: Bytes, s': Bytes, n: nat) {
    n <= |s| && n <= |s'| && s[..n] == s'[..n]
  }

  lemma AgreeDrop(s: Bytes, s': Bytes, k: nat, n: nat)
    requires Agree(s, s', n) && k <= n
    ensures Agree(s, s', k) && Agree(s[k..], s'[k..], n - k)
  {
    assert s[..k] == s[..n][..k] == s'[..n][..k] == s'[..k];
    assert s[k..][..n - k] == s[..n][k..] == s'[..n][k..] == s'[k..][..n - k];
  }

  lemma AgreeWords(s: Bytes, s': Bytes, n: nat)
    requires Agree(s, s', n)
    ensures 4 <= n ==> U32(s) == U32(s')
    ensures 8 <= n ==> U64(s) == U64(s')
  {
    assert forall i :: 0 <= i < n ==> s[i] == s[..n][i] == s'[..n][i] == s'[i];
  }
}
