/** Finding where one message ends in a stream of bytes, against the grammar of JSON texts, RFC 8259. */
module JsonFrame {
  import opened Wire
  import opened Wrappers

  const QUOTE: byte := 34
  const BACKSLASH: byte := 92
  const COMMA: byte := 44
  const COLON: byte := 58

  predicate IsWs(b: byte) { b == 32 || b == 9 || b == 10 || b == 13 }

  predicate Opens(b: byte) { b == 123 || b == 91 }

  predicate Closes(b: byte) { b == 125 || b == 93 }

  datatype Frame = Complete(n: nat) | Incomplete | Invalid

  /** Where the scan is: between tokens, in a string, or after a backslash in one. */
  datatype Where = Between | InString | Escaped

  function Shift(k: nat, r: Option<nat>): Option<nat> { if r.Some? then Some(k + r.value) else None }

  /** The depth and the place after one byte, or `None` if it closes the message. */
  function Feed(depth: nat, at: Where, b: byte): Option<(nat, Where)> {
    match at
    case Escaped => Some((depth, InString))
    case InString => Some((depth, if b == BACKSLASH then Escaped else if b == QUOTE then Between else InString))
    case Between =>
      if b == QUOTE then Some((depth, InString))
      else if Opens(b) then Some((depth + 1, Between))
      else if !Closes(b) then Some((depth, Between))
      else if depth <= 1 then None
      else Some((depth - 1, Between))
  }

  /** How many bytes it takes for the depth to come back to zero. */
  function Scan(depth: nat, at: Where, s: Bytes): (r: Option<nat>)
    ensures r.Some? ==> 0 < r.value <= |s|
    decreases |s|
  {
    if s == [] then None
    else
      var next := Feed(depth, at, s[0]);
      if next.None? then Some(1) else Shift(1, Scan(next.value.0, next.value.1, s[1..]))
  }

  lemma ScanNone(depth: nat, at: Where)
    ensures Scan(depth, at, []) == None
  {
  }

  lemma ScanCons(depth: nat, at: Where, b: byte, rest: Bytes)
    ensures Scan(depth, at, [b] + rest) ==
      var next := Feed(depth, at, b);
      if next.None? then Some(1) else Shift(1, Scan(next.value.0, next.value.1, rest))
  {
    assert ([b] + rest)[1..] == rest;
  }

  /** How many bytes of whitespace come first. */
  function Leading(s: Bytes): (n: nat)
    ensures n <= |s| && (forall i :: 0 <= i < n ==> IsWs(s[i])) && (n < |s| ==> !IsWs(s[n]))
  {
    if s == [] || !IsWs(s[0]) then 0 else
    var n := Leading(s[1..]);
    assert forall i :: 0 < i < |s| ==> s[i] == s[1..][i - 1];
    1 + n
  }

  function Framed(buf: Bytes): (f: Frame)
    ensures f.Complete? ==> 0 < f.n <= |buf|
  {
    var i := Leading(buf);
    if i == |buf| then Incomplete
    else if !Opens(buf[i]) then Invalid
    else
      var r := Scan(0, Between, buf[i..]);
      if r.Some? then Complete(i + r.value) else Incomplete
  }

  function Place(inString: bool, escaped: bool): Where {
    if escaped then Escaped else if inString then InString else Between
  }

  method FindFrame(buf: Bytes) returns (f: Frame)
    ensures f == Framed(buf)
  {
    hide Scan, Leading;
    var i := 0;
    while i < |buf| && IsWs(buf[i])
      invariant i <= |buf| && forall j :: 0 <= j < i ==> IsWs(buf[j])
    {
      i := i + 1;
    }
    assert i == Leading(buf);
    if i == |buf| { return Incomplete; }
    if !Opens(buf[i]) { return Invalid; }
    var depth: nat, inString, escaped := 0, false, false;
    var at := i;
    ghost var whole := Scan(0, Between, buf[i..]);
    while at < |buf|
      invariant i <= at <= |buf| && (at == i ==> depth == 0 && !inString) && (at > i ==> depth > 0)
      invariant escaped ==> inString
      invariant whole == Shift(at - i, Scan(depth, Place(inString, escaped), buf[at..]))
    {
      var byte := buf[at];
      assert buf[at..] == [byte] + buf[at + 1..];
      ScanCons(depth, Place(inString, escaped), byte, buf[at + 1..]);
      if inString {
        if escaped { escaped := false; }
        else if byte == BACKSLASH { escaped := true; }
        else if byte == QUOTE { inString := false; }
      } else if byte == QUOTE {
        inString := true;
      } else if Opens(byte) {
        depth := depth + 1;
      } else if Closes(byte) {
        depth := depth - 1;
        if depth == 0 { return Complete(at + 1); }
      }
      at := at + 1;
    }
    ScanNone(depth, Place(inString, escaped));
    f := Incomplete;
  }

  /** A part of a string: a byte that stands for itself, or a backslash and the byte it escapes. */
  datatype Piece = Char(b: byte) | Escape(b: byte)

  /** A JSON text with its layout: a number or literal, a string, or an object or array with the whitespace
      around its tokens. The items of an object have names. */
  datatype Json = Atom(text: Bytes) | Str(body: seq<Piece>) | Box(named: bool, pad: Bytes, items: seq<Item>)

  datatype Name = Name(body: seq<Piece>, mid: Bytes, gap: Bytes)

  datatype Item = Item(before: Bytes, name: Option<Name>, value: Json, after: Bytes)

  predicate AllWs(s: Bytes) { forall i :: 0 <= i < |s| ==> IsWs(s[i]) }

  /** Bytes that neither open nor close anything. */
  predicate Inert(s: Bytes) { forall i :: 0 <= i < |s| ==> s[i] != QUOTE && !Opens(s[i]) && !Closes(s[i]) }

  predicate ValidPieces(body: seq<Piece>) {
    forall i :: 0 <= i < |body| && body[i].Char? ==> body[i].b != QUOTE && body[i].b != BACKSLASH
  }

  /** A JSON text. What the grammar asks of numbers, literals and escapes beyond this plays no part. */
  predicate Valid(j: Json) {
    match j
    case Atom(text) => text != [] && Inert(text) && !IsWs(text[0])
    case Str(body) => ValidPieces(body)
    case Box(named, pad, items) => AllWs(pad) && ValidItems(named, items)
  }

  predicate ValidItems(named: bool, items: seq<Item>)
    decreases items
  {
    items == [] || (ValidItem(named, items[0]) && ValidItems(named, items[1..]))
  }

  predicate ValidItem(named: bool, item: Item)
    decreases item
  {
    && AllWs(item.before) && AllWs(item.after) && item.name.Some? == named
    && (named ==> ValidPieces(item.name.value.body) && AllWs(item.name.value.mid) && AllWs(item.name.value.gap))
    && Valid(item.value)
  }

  function PieceText(p: Piece): Bytes { if p.Char? then [p.b] else [BACKSLASH, p.b] }

  function Pieces(body: seq<Piece>): Bytes { if body == [] then [] else PieceText(body[0]) + Pieces(body[1..]) }

  function Quoted(body: seq<Piece>): Bytes { [QUOTE] + Pieces(body) + [QUOTE] }

  function NameText(name: Option<Name>): Bytes {
    if name.None? then [] else Quoted(name.value.body) + name.value.mid + [COLON] + name.value.gap
  }

  function OpenByte(named: bool): byte { if named then 123 else 91 }

  function CloseByte(named: bool): byte { if named then 125 else 93 }

  function Text(j: Json): Bytes {
    match j
    case Atom(text) => text
    case Str(body) => Quoted(body)
    case Box(named, pad, items) => [OpenByte(named)] + pad + Items(items) + [CloseByte(named)]
  }

  function Items(items: seq<Item>): Bytes {
    if items == [] then []
    else ItemText(items[0]) + if |items| == 1 then [] else [COMMA] + Items(items[1..])
  }

  function ItemText(item: Item): Bytes { item.before + NameText(item.name) + Text(item.value) + item.after }

  lemma {:induction false} InertThrough(s: Bytes, depth: nat, rest: Bytes)
    requires Inert(s)
    ensures Scan(depth, Between, s + rest) == Shift(|s|, Scan(depth, Between, rest))
    decreases |s|
  {
    hide Scan;
    if s == [] {
      assert s + rest == rest;
    } else {
      assert s + rest == [s[0]] + (s[1..] + rest);
      ScanCons(depth, Between, s[0], s[1..] + rest);
      InertThrough(s[1..], depth, rest);
    }
  }

  lemma {:induction false} PiecesThrough(body: seq<Piece>, depth: nat, rest: Bytes)
    requires ValidPieces(body)
    ensures Scan(depth, InString, Pieces(body) + rest) == Shift(|Pieces(body)|, Scan(depth, InString, rest))
    decreases |body|
  {
    hide Scan;
    if body == [] {
      assert Pieces(body) + rest == rest;
    } else {
      var b, more := body[0].b, Pieces(body[1..]) + rest;
      PiecesThrough(body[1..], depth, rest);
      if body[0].Char? {
        assert Pieces(body) + rest == [b] + more;
        ScanCons(depth, InString, b, more);
      } else {
        assert Pieces(body) + rest == [BACKSLASH] + ([b] + more);
        ScanCons(depth, InString, BACKSLASH, [b] + more);
        ScanCons(depth, Escaped, b, more);
      }
    }
  }

  lemma QuotedThrough(body: seq<Piece>, depth: nat, rest: Bytes)
    requires ValidPieces(body)
    ensures Scan(depth, Between, Quoted(body) + rest) == Shift(|Quoted(body)|, Scan(depth, Between, rest))
  {
    hide Scan;
    var inner := Pieces(body) + ([QUOTE] + rest);
    assert Quoted(body) + rest == [QUOTE] + inner;
    ScanCons(depth, Between, QUOTE, inner);
    PiecesThrough(body, depth, [QUOTE] + rest);
    ScanCons(depth, InString, QUOTE, rest);
  }

  lemma WsInert(s: Bytes)
    requires AllWs(s)
    ensures Inert(s)
  {
  }

  lemma NameThrough(name: Option<Name>, depth: nat, rest: Bytes)
    requires name.Some? ==> ValidPieces(name.value.body) && AllWs(name.value.mid) && AllWs(name.value.gap)
    ensures Scan(depth, Between, NameText(name) + rest) == Shift(|NameText(name)|, Scan(depth, Between, rest))
  {
    hide Scan, Quoted, Inert;
    if name.None? {
      assert NameText(name) + rest == rest;
    } else {
      var Name(body, mid, gap) := name.value;
      var colon := [COLON];
      WsInert(mid);
      WsInert(gap);
      assert NameText(name) + rest == Quoted(body) + (mid + (colon + (gap + rest)));
      QuotedThrough(body, depth, mid + (colon + (gap + rest)));
      InertThrough(mid, depth, colon + (gap + rest));
      ScanCons(depth, Between, COLON, gap + rest);
      InertThrough(gap, depth, rest);
    }
  }

  /** Inside a message, a whole JSON text leaves the scan at the depth it found it. */
  lemma {:induction false} TextThrough(j: Json, depth: nat, rest: Bytes)
    requires Valid(j) && depth > 0
    ensures Scan(depth, Between, Text(j) + rest) == Shift(|Text(j)|, Scan(depth, Between, rest))
    decreases j, 0
  {
    hide Scan, Items, Quoted, Inert, ValidItems, ValidPieces;
    match j
    case Atom(text) => InertThrough(text, depth, rest);
    case Str(body) => QuotedThrough(body, depth, rest);
    case Box(named, pad, items) =>
      var shut := [CloseByte(named)] + rest;
      var inner := pad + (Items(items) + shut);
      assert Text(j) + rest == [OpenByte(named)] + inner;
      ScanCons(depth, Between, OpenByte(named), inner);
      InsideThrough(named, pad, items, depth + 1, shut);
      ScanCons(depth + 1, Between, CloseByte(named), rest);
  }

  lemma {:induction false} InsideThrough(named: bool, pad: Bytes, items: seq<Item>, depth: nat, rest: Bytes)
    requires AllWs(pad) && ValidItems(named, items) && depth > 0
    ensures Scan(depth, Between, pad + (Items(items) + rest)) == Shift(|pad| + |Items(items)|, Scan(depth, Between, rest))
    decreases items, 1
  {
    hide Scan, Inert, Items;
    WsInert(pad);
    InertThrough(pad, depth, Items(items) + rest);
    ItemsThrough(named, items, depth, rest);
  }

  lemma ItemsCons(named: bool, items: seq<Item>)
    requires ValidItems(named, items) && items != []
    ensures ValidItem(named, items[0]) && ValidItems(named, items[1..])
    ensures Items(items) == ItemText(items[0]) + if |items| == 1 then [] else [COMMA] + Items(items[1..])
  {
    hide ValidItem, ItemText;
  }

  lemma {:induction false} ItemsThrough(named: bool, items: seq<Item>, depth: nat, rest: Bytes)
    requires ValidItems(named, items) && depth > 0
    ensures Scan(depth, Between, Items(items) + rest) == Shift(|Items(items)|, Scan(depth, Between, rest))
    decreases items, 0
  {
    hide Scan, ItemText, Items, ValidItem, ValidItems;
    if items == [] {
      assert Items(items) == [] by { NoItems(); }
      assert Items(items) + rest == rest;
    } else {
      var first, others := ItemText(items[0]), Items(items[1..]);
      ItemsCons(named, items);
      if |items| == 1 {
        assert Items(items) + rest == first + rest;
        ItemThrough(named, items[0], depth, rest);
      } else {
        assert Items(items) + rest == first + ([COMMA] + (others + rest));
        ItemThrough(named, items[0], depth, [COMMA] + (others + rest));
        ScanCons(depth, Between, COMMA, others + rest);
        ItemsThrough(named, items[1..], depth, rest);
      }
    }
  }

  lemma NoItems()
    ensures Items([]) == []
  {
  }

  lemma {:induction false} ItemThrough(named: bool, item: Item, depth: nat, rest: Bytes)
    requires ValidItem(named, item) && depth > 0
    ensures Scan(depth, Between, ItemText(item) + rest) == Shift(|ItemText(item)|, Scan(depth, Between, rest))
    decreases item, 0
  {
    hide Scan, NameText, Text, Inert, Valid;
    var Item(before, name, value, after) := item;
    WsInert(before);
    WsInert(after);
    assert ItemText(item) + rest == before + (NameText(name) + (Text(value) + (after + rest)));
    InertThrough(before, depth, NameText(name) + (Text(value) + (after + rest)));
    NameThrough(name, depth, Text(value) + (after + rest));
    TextThrough(value, depth, after + rest);
    InertThrough(after, depth, rest);
  }

  /** A message closes with its own last byte, whatever follows. */
  lemma MessageCloses(j: Json, rest: Bytes)
    requires Valid(j) && j.Box?
    ensures Scan(0, Between, Text(j) + rest) == Some(|Text(j)|)
  {
    hide Scan, Items, ValidItems, AllWs;
    var Box(named, pad, items) := j;
    var shut := [CloseByte(named)] + rest;
    var inner := pad + (Items(items) + shut);
    assert Text(j) + rest == [OpenByte(named)] + inner;
    ScanCons(0, Between, OpenByte(named), inner);
    InsideThrough(named, pad, items, 1, shut);
    ScanCons(1, Between, CloseByte(named), rest);
  }

  lemma {:induction false} LeadingOf(ws: Bytes, rest: Bytes)
    requires AllWs(ws)
    ensures Leading(ws + rest) == |ws| + Leading(rest)
    decreases |ws|
  {
    if ws == [] {
      assert ws + rest == rest;
    } else {
      assert (ws + rest)[1..] == ws[1..] + rest;
      LeadingOf(ws[1..], rest);
    }
  }

  /** A message with whitespace before it is found whole, whatever follows. */
  lemma MessageFrames(ws: Bytes, j: Json, rest: Bytes)
    requires AllWs(ws) && Valid(j) && j.Box?
    ensures Framed(ws + Text(j) + rest) == Complete(|ws| + |Text(j)|)
  {
    hide Scan, Leading, Valid;
    var buf := ws + Text(j) + rest;
    assert buf == ws + (Text(j) + rest) && buf[|ws|..] == Text(j) + rest;
    LeadingOf(ws, Text(j) + rest);
    assert Opens((Text(j) + rest)[0]) && !IsWs((Text(j) + rest)[0]);
    MessageCloses(j, rest);
  }

  lemma {:induction false} ScanSurvives(depth: nat, at: Where, s: Bytes, more: Bytes)
    requires Scan(depth, at, s).Some?
    ensures Scan(depth, at, s + more) == Scan(depth, at, s)
    decreases |s|
  {
    hide Scan;
    ScanNone(depth, at);
    assert s == [s[0]] + s[1..] && s + more == [s[0]] + (s[1..] + more);
    ScanCons(depth, at, s[0], s[1..]);
    ScanCons(depth, at, s[0], s[1..] + more);
    var next := Feed(depth, at, s[0]);
    if next.Some? { ScanSurvives(next.value.0, next.value.1, s[1..], more); }
  }

  /** Bytes are refused exactly when the first that is not whitespace is neither `{` nor `[`. */
  lemma RefusedExactly(buf: Bytes)
    ensures Framed(buf).Invalid? <==>
      exists i :: 0 <= i < |buf| && AllWs(buf[..i]) && !IsWs(buf[i]) && buf[i] != 123 && buf[i] != 91
  {
    hide Scan, Leading;
    var n := Leading(buf);
    assert AllWs(buf[..n]);
    if Framed(buf).Invalid? {
      assert !IsWs(buf[n]) && buf[n] != 123 && buf[n] != 91;
    }
    if i :| 0 <= i < |buf| && AllWs(buf[..i]) && !IsWs(buf[i]) && buf[i] != 123 && buf[i] != 91 {
      if n < i { assert buf[..i][n] == buf[n]; }
    }
  }

  /** A verdict other than "read on" stands, whatever arrives later. */
  lemma Survives(buf: Bytes, more: Bytes)
    requires !Framed(buf).Incomplete?
    ensures Framed(buf + more) == Framed(buf)
  {
    hide Scan, Leading;
    var i := Leading(buf);
    var longer := buf + more;
    assert longer == buf[..i] + (buf[i..] + more) && longer[i..] == buf[i..] + more;
    LeadingOf(buf[..i], buf[i..] + more);
    assert longer[i..][0] == buf[i];
    assert Leading(longer[i..]) == 0;
    if Opens(buf[i]) { ScanSurvives(0, Between, buf[i..], more); }
  }

  /** Part of a message is never taken for one, nor refused. */
  lemma PartIsIncomplete(ws: Bytes, j: Json, k: nat)
    requires AllWs(ws) && Valid(j) && j.Box? && k < |ws| + |Text(j)|
    ensures Framed((ws + Text(j))[..k]) == Incomplete
  {
    hide Framed, Text, Valid;
    var whole := ws + Text(j);
    assert whole[..k] + whole[k..] == whole && ws + Text(j) + [] == whole;
    MessageFrames(ws, j, []);
    if !Framed(whole[..k]).Incomplete? { Survives(whole[..k], whole[k..]); }
  }

  datatype Message = Message(ws: Bytes, j: Json)

  predicate IsMessage(m: Message) { AllWs(m.ws) && Valid(m.j) && m.j.Box? }

  function Sent(m: Message): Bytes { m.ws + Text(m.j) }

  predicate AllMessages(ms: seq<Message>) { forall i :: 0 <= i < |ms| ==> IsMessage(ms[i]) }

  /** The bytes of a stream of messages. */
  function Stream(ms: seq<Message>): Bytes { if ms == [] then [] else Sent(ms[0]) + Stream(ms[1..]) }

  function Sents(ms: seq<Message>): seq<Bytes> { seq(|ms|, i requires 0 <= i < |ms| => Sent(ms[i])) }

  datatype Cut = Cut(messages: seq<Bytes>, rest: Bytes)

  /** What a transport cuts from its buffer, and what it keeps. */
  function Cuts(buf: Bytes): Cut
    decreases |buf|
  {
    var f := Framed(buf);
    if !f.Complete? then Cut([], buf)
    else var more := Cuts(buf[f.n..]); Cut([buf[..f.n]] + more.messages, more.rest)
  }

  lemma CutsFirst(m: Message, rest: Bytes)
    requires IsMessage(m)
    ensures Cuts(Sent(m) + rest) == Cut([Sent(m)] + Cuts(rest).messages, Cuts(rest).rest)
  {
    hide Framed, Text, Valid;
    MessageFrames(m.ws, m.j, rest);
    var buf, n := Sent(m) + rest, |Sent(m)|;
    assert buf[..n] == Sent(m) && buf[n..] == rest;
  }

  /** At every moment of a stream's arrival: cutting gives the messages that have arrived whole, in order,
      keeps the part of the next one that has arrived, and asks for more. */
  lemma {:induction false} CutsOfStream(ms: seq<Message>, k: nat) returns (n: nat)
    requires AllMessages(ms) && k <= |Stream(ms)|
    ensures n <= |ms| && Cuts(Stream(ms)[..k]).messages == Sents(ms[..n])
    ensures var rest := Cuts(Stream(ms)[..k]).rest;
      && Framed(rest) == Incomplete && Stream(ms)[..k] == Stream(ms[..n]) + rest
      && (if n == |ms| then rest == [] else rest < Sent(ms[n]))
    decreases |ms|
  {
    hide Framed, Cuts, Sent, IsMessage;
    if ms == [] {
      n := 0;
      CutsEnd([]);
      assert Stream(ms)[..k] == [];
    } else {
      var first, later := Sent(ms[0]), Stream(ms[1..]);
      if k < |first| {
        n := 0;
        assert Stream(ms)[..k] == first[..k];
        PartOfMessage(ms[0], k);
        CutsEnd(first[..k]);
        assert ms[..0] == [] && Stream(ms[..0]) + first[..k] == first[..k];
      } else {
        var i := CutsOfStream(ms[1..], k - |first|);
        n := i + 1;
        assert Stream(ms)[..k] == first + later[..k - |first|];
        CutsFirst(ms[0], later[..k - |first|]);
        assert ms[..n] == [ms[0]] + ms[1..][..i] && ms[..n][1..] == ms[1..][..i];
        SentsCons(ms[..n]);
        StreamCons(ms[..n]);
        var rest := Cuts(later[..k - |first|]).rest;
        assert first + (Stream(ms[1..][..i]) + rest) == first + Stream(ms[1..][..i]) + rest;
      }
    }
  }

  lemma CutsEnd(buf: Bytes)
    requires buf == [] || Framed(buf) == Incomplete
    ensures Cuts(buf) == Cut([], buf) && Framed(buf) == Incomplete
  {
    hide Scan;
  }

  lemma PartOfMessage(m: Message, k: nat)
    requires IsMessage(m) && k < |Sent(m)|
    ensures Framed(Sent(m)[..k]) == Incomplete && Sent(m)[..k] < Sent(m)
  {
    hide Framed, Text, Valid;
    PartIsIncomplete(m.ws, m.j, k);
  }

  lemma SentsCons(ms: seq<Message>)
    requires ms != []
    ensures Sents(ms) == [Sent(ms[0])] + Sents(ms[1..])
  {
    hide Sent;
  }

  lemma StreamCons(ms: seq<Message>)
    requires ms != []
    ensures Stream(ms) == Sent(ms[0]) + Stream(ms[1..])
  {
  }

  /** A whole stream is cut into exactly its messages, and whatever else follows is left. */
  lemma {:induction false} CutsRecover(ms: seq<Message>, rest: Bytes)
    requires AllMessages(ms) && !Framed(rest).Complete?
    ensures Cuts(Stream(ms) + rest) == Cut(Sents(ms), rest)
    decreases |ms|
  {
    hide Framed, Sent, IsMessage;
    if ms == [] {
      assert Stream(ms) + rest == rest;
    } else {
      assert Stream(ms) + rest == Sent(ms[0]) + (Stream(ms[1..]) + rest);
      CutsFirst(ms[0], Stream(ms[1..]) + rest);
      CutsRecover(ms[1..], rest);
      SentsCons(ms);
    }
  }
}
