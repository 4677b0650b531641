/** The frames the crate builds: each is one JSON text, so a peer's framer finds it whole. */
module JsonBuild {
  import opened Wire
  import opened JsonFrame
  import opened Wrappers

  /** The bytes of an ASCII literal. */
  function Lit(s: string): Bytes { seq(|s|, i requires 0 <= i < |s| => s[i] as int % 256) }

  lemma LitCat(a: string, b: string)
    ensures Lit(a + b) == Lit(a) + Lit(b)
  {
  }

  /** A string body whose bytes all stand for themselves. */
  function Plain(s: Bytes): seq<Piece> { seq(|s|, i requires 0 <= i < |s| => Char(s[i])) }

  lemma {:induction false} PlainText(s: Bytes)
    ensures Pieces(Plain(s)) == s
  {
    if s != [] {
      assert Plain(s)[0] == Char(s[0]) && Plain(s)[1..] == Plain(s[1..]);
      PlainText(s[1..]);
    }
  }

  function Digit(d: int): byte
    requires 0 <= d < 10
  {
    48 + d
  }

  /** A number in decimal, as `to_string` writes it. */
  function Decimal(n: nat): (s: Bytes)
    ensures s != [] && forall i :: 0 <= i < |s| ==> 48 <= s[i] < 58
  {
    if n < 10 then [Digit(n)] else Decimal(n / 10) + [Digit(n % 10)]
  }

  function Integer(n: int): (s: Bytes)
    ensures s != [] && Inert(s) && !IsWs(s[0])
  {
    if n < 0 then [45] + Decimal(-n) else Decimal(n)
  }

  predicate AllDigits(s: Bytes) { forall i :: 0 <= i < |s| ==> 48 <= s[i] < 58 }

  /** The number that decimal digits stand for, read from the left after `acc`. */
  function ReadDigits(acc: nat, s: Bytes): nat
    requires AllDigits(s)
    decreases |s|
  {
    if s == [] then acc else ReadDigits(acc * 10 + (s[0] - 48), s[1..])
  }

  lemma {:induction false} ReadLast(acc: nat, s: Bytes, d: byte)
    requires AllDigits(s) && 48 <= d < 58
    ensures AllDigits(s + [d]) && ReadDigits(acc, s + [d]) == ReadDigits(acc, s) * 10 + (d - 48)
    decreases |s|
  {
    if s == [] {
      assert [] + [d] == [d] && [d][1..] == [];
    } else {
      assert (s + [d])[1..] == s[1..] + [d];
      ReadLast(acc * 10 + (s[0] - 48), s[1..], d);
    }
  }

  /** What is written reads back, and without a zero in front. */
  lemma {:induction false} DecimalBack(n: nat)
    ensures ReadDigits(0, Decimal(n)) == n
    ensures Decimal(n)[0] == 48 ==> n == 0
    ensures n == 0 ==> Decimal(n) == [48]
    decreases n
  {
    hide ReadDigits;
    if n < 10 {
      ReadLast(0, [], Digit(n));
      ReadNone(0);
      assert [] + [Digit(n)] == [Digit(n)];
    } else {
      DecimalBack(n / 10);
      ReadLast(0, Decimal(n / 10), Digit(n % 10));
    }
  }

  lemma ReadNone(acc: nat)
    ensures ReadDigits(acc, []) == acc
  {
  }

  /** An integer is its decimal digits, behind a minus sign if it is negative; so no two are written alike. */
  lemma IntegerBack(n: int, m: int)
    ensures var s := Integer(n);
      && (s[0] == 45 <==> n < 0)
      && (n < 0 ==> AllDigits(s[1..]) && ReadDigits(0, s[1..]) == -n)
      && (n >= 0 ==> AllDigits(s) && ReadDigits(0, s) == n)
    ensures Integer(n) == Integer(m) <==> n == m
  {
    hide ReadDigits, Decimal;
    DecimalBack(if n < 0 then -n else n);
    DecimalBack(if m < 0 then -m else m);
    if n < 0 { assert Integer(n)[1..] == Decimal(-n); }
    if m < 0 { assert Integer(m)[1..] == Decimal(-m); }
  }

  lemma NextDigit(n: nat, d: nat)
    requires n > 0 && d < 10
    ensures Decimal(10 * n + d) == Decimal(n) + [48 + d]
  {
  }

  /** The code of a method that is not found, -32601, and the twelfth id. */
  lemma WrittenOut()
    ensures Integer(-32601) == [45, 51, 50, 54, 48, 49] && Integer(12) == [49, 50]
  {
    assert Decimal(1) == [49] && Decimal(3) == [51];
    hide Decimal;
    NextDigit(1, 2);
    NextDigit(3, 2);
    NextDigit(32, 6);
    NextDigit(326, 0);
    NextDigit(3260, 1);
  }

  /** A member of an object, without whitespace. */
  function Member(name: string, value: Json): Item { Item([], Some(Name(Plain(Lit(name)), [], [])), value, []) }

  /** An item of an array, without whitespace. */
  function Bare(value: Json): Item { Item([], None, value, []) }

  function Bares(js: seq<Json>): seq<Item> { seq(|js|, i requires 0 <= i < |js| => Bare(js[i])) }

  lemma MemberText(name: string, value: Json)
    ensures ItemText(Member(name, value)) == [QUOTE] + Lit(name) + [QUOTE, COLON] + Text(value)
  {
    hide Text;
    PlainText(Lit(name));
  }

  lemma BareText(value: Json)
    ensures ItemText(Bare(value)) == Text(value)
  {
    hide Text;
  }

  lemma OneItem(a: Item)
    ensures Items([a]) == ItemText(a)
  {
    hide ItemText;
  }

  lemma ItemsCat(a: Item, items: seq<Item>)
    requires items != []
    ensures Items([a] + items) == ItemText(a) + [COMMA] + Items(items)
  {
    hide ItemText;
    assert ([a] + items)[1..] == items;
  }

  /** What `to_json` of the response is: `None` where the member is left out. */
  datatype ErrorObject = ErrorObject(code: int, message: seq<Piece>, data: Option<Json>)

  datatype Payload = Result(raw: Json) | Error(e: ErrorObject)

  datatype Response = Response(payload: Payload, id: Json)

  const VERSION := "2.0"

  predicate ValidError(e: ErrorObject) { ValidPieces(e.message) && (e.data.Some? ==> Valid(e.data.value)) }

  predicate ValidResponse(r: Response) {
    Valid(r.id) && if r.payload.Result? then Valid(r.payload.raw) else ValidError(r.payload.e)
  }

  function Version(): Item { Member("jsonrpc", Str(Plain(Lit(VERSION)))) }

  function ErrorJson(e: ErrorObject): Json {
    Box(true, [], [Member("code", Atom(Integer(e.code)))]
                  + ([Member("message", Str(e.message))]
                     + if e.data.Some? then [Member("data", e.data.value)] else []))
  }

  /** The Response object of section 5 of the JSON-RPC 2.0 specification. */
  function ResponseJson(r: Response): Json {
    Box(true, [], [Version()]
                  + ([if r.payload.Result? then Member("result", r.payload.raw) else Member("error", ErrorJson(r.payload.e))]
                     + [Member("id", r.id)]))
  }

  lemma PlainValid(s: string)
    requires forall i :: 0 <= i < |s| ==> s[i] != 34 as char && s[i] != 92 as char && s[i] as int < 128
    ensures ValidPieces(Plain(Lit(s)))
  {
  }

  lemma ItemsValid(named: bool, a: Item, items: seq<Item>)
    requires ValidItem(named, a) && ValidItems(named, items)
    ensures ValidItems(named, [a] + items)
  {
    hide ValidItem;
    assert ([a] + items)[1..] == items;
  }

  lemma MemberValid(name: string, value: Json)
    requires Valid(value) && forall i :: 0 <= i < |name| ==> 'a' <= name[i] <= 'z'
    ensures ValidItem(true, Member(name, value))
  {
    hide Valid;
    PlainValid(name);
  }

  lemma NoneValid(named: bool)
    ensures ValidItems(named, [])
  {
  }

  lemma ErrorValid(e: ErrorObject)
    requires ValidError(e)
    ensures Valid(ErrorJson(e))
  {
    hide ValidItems, ValidItem;
    MemberValid("code", Atom(Integer(e.code)));
    MemberValid("message", Str(e.message));
    NoneValid(true);
    var last := if e.data.Some? then [Member("data", e.data.value)] else [];
    if e.data.Some? {
      MemberValid("data", e.data.value);
      ItemsValid(true, Member("data", e.data.value), []);
      assert last == [Member("data", e.data.value)] + [];
    }
    ItemsValid(true, Member("message", Str(e.message)), last);
    ItemsValid(true, Member("code", Atom(Integer(e.code))), [Member("message", Str(e.message))] + last);
  }

  lemma ResponseValid(r: Response)
    requires ValidResponse(r)
    ensures Valid(ResponseJson(r)) && ResponseJson(r).Box?
  {
    hide ValidItems, ValidItem, ErrorJson, ValidError;
    VersionValid();
    MemberValid("id", r.id);
    NoneValid(true);
    ItemsValid(true, Member("id", r.id), []);
    assert [Member("id", r.id)] + [] == [Member("id", r.id)];
    if r.payload.Error? { ErrorValid(r.payload.e); }
    var middle := if r.payload.Result? then Member("result", r.payload.raw) else Member("error", ErrorJson(r.payload.e));
    MemberValid(if r.payload.Result? then "result" else "error",
                if r.payload.Result? then r.payload.raw else ErrorJson(r.payload.e));
    ItemsValid(true, middle, [Member("id", r.id)]);
    ItemsValid(true, Version(), [middle] + [Member("id", r.id)]);
  }

  lemma VersionValid()
    ensures ValidItem(true, Version())
  {
    PlainValid(VERSION);
    MemberValid("jsonrpc", Str(Plain(Lit(VERSION))));
  }

  /** A member's name as it is written before its value. */
  function Label(name: string): string { "\"" + name + "\":" }

  lemma LabelText(lead: string, name: string)
    ensures Lit(lead + Label(name)) == Lit(lead) + [QUOTE] + Lit(name) + [QUOTE, COLON]
  {
    LitCat(lead, Label(name));
    LitCat("\"" + name, "\":");
    LitCat("\"", name);
    assert Lit("\"") == [QUOTE] && Lit("\":") == [QUOTE, COLON];
  }

  lemma LeadText(lead: string, name: string, value: Json)
    ensures Lit(lead) + ItemText(Member(name, value)) == Lit(lead + Label(name)) + Text(value)
  {
    hide ItemText, Text, Lit;
    LabelText(lead, name);
    MemberText(name, value);
  }

  /** The bytes every object begins with: a brace and the version. */
  function Opening(): Bytes { Lit("{" + Label("jsonrpc")) + Lit("\"") + Lit(VERSION) + Lit("\",") }

  lemma VersionText()
    ensures [OpenByte(true)] + ItemText(Version()) + [COMMA] == Opening()
  {
    hide ItemText;
    LeadText("{", "jsonrpc", Str(Plain(Lit(VERSION))));
    PlainText(Lit(VERSION));
    assert Lit("{") == [123] && Lit("\"") == [QUOTE] && Lit("\",") == [QUOTE, COMMA];
  }

  lemma CommaText(name: string, value: Json)
    ensures [COMMA] + ItemText(Member(name, value)) == Lit("," + Label(name)) + Text(value)
  {
    hide ItemText, Text;
    LeadText(",", name, value);
    assert Lit(",") == [COMMA];
  }

  lemma FirstText(name: string, value: Json)
    ensures ItemText(Member(name, value)) == Lit(Label(name)) + Text(value)
  {
    hide ItemText, Text;
    LeadText("", name, value);
    assert Lit("") == [] && "" + Label(name) == Label(name);
  }

  method WriteError(e: ErrorObject, out: Bytes) returns (o: Bytes)
    ensures o == out + Text(ErrorJson(e))
  {
    hide Lit, ItemText, Items, Label, Integer, Member;
    o := out + Lit("{" + Label("code"));
    o := o + Integer(e.code);
    o := o + Lit("," + Label("message"));
    o := o + Quoted(e.message);
    if e.data.Some? {
      o := o + Lit("," + Label("data"));
      o := o + Text(e.data.value);
    }
    o := o + [CloseByte(true)];
    ErrorText(e);
  }

  lemma TwoMembers(a: Item, b: Item)
    ensures Text(Box(true, [], [a] + [b])) == ([OpenByte(true)] + ItemText(a)) + ([COMMA] + ItemText(b)) + [CloseByte(true)]
  {
    hide ItemText, Items;
    OneItem(b);
    ItemsCat(a, [b]);
  }

  lemma ThreeMembers(a: Item, b: Item, c: Item)
    ensures Text(Box(true, [], [a] + ([b] + [c]))) ==
      ([OpenByte(true)] + ItemText(a)) + ([COMMA] + ItemText(b)) + ([COMMA] + ItemText(c)) + [CloseByte(true)]
  {
    hide ItemText, Items;
    OneItem(c);
    ItemsCat(b, [c]);
    ItemsCat(a, [b] + [c]);
  }

  lemma ErrorText(e: ErrorObject)
    ensures Text(ErrorJson(e)) ==
      Lit("{" + Label("code")) + Integer(e.code) + (Lit("," + Label("message")) + Quoted(e.message))
      + (if e.data.Some? then Lit("," + Label("data")) + Text(e.data.value) else []) + [CloseByte(true)]
  {
    hide Lit, ItemText, Items, Label, Integer, Member;
    var code, message := Member("code", Atom(Integer(e.code))), Member("message", Str(e.message));
    BraceText("code", Atom(Integer(e.code)));
    CommaText("message", Str(e.message));
    if e.data.Some? {
      CommaText("data", e.data.value);
      ThreeMembers(code, message, Member("data", e.data.value));
    } else {
      assert [message] + [] == [message];
      TwoMembers(code, message);
    }
  }

  lemma BraceText(name: string, value: Json)
    ensures [OpenByte(true)] + ItemText(Member(name, value)) == Lit("{" + Label(name)) + Text(value)
  {
    hide ItemText, Text;
    LeadText("{", name, value);
    assert Lit("{") == [123];
  }

  /** Append a response. */
  method WriteInto(r: Response, out: Bytes) returns (o: Bytes)
    ensures o == out + Text(ResponseJson(r))
  {
    hide Lit, ItemText, Items, Label, ErrorJson, Opening, Member;
    o := out + Opening();
    if r.payload.Result? {
      o := o + Lit(Label("result"));
      o := o + Text(r.payload.raw);
    } else {
      o := o + Lit(Label("error"));
      o := WriteError(r.payload.e, o);
    }
    o := o + Lit("," + Label("id"));
    o := o + Text(r.id);
    o := o + [CloseByte(true)];
    ResponseText(r);
  }

  lemma ResponseText(r: Response)
    ensures Text(ResponseJson(r)) ==
      Opening() + (if r.payload.Result? then Lit(Label("result")) + Text(r.payload.raw)
                   else Lit(Label("error")) + Text(ErrorJson(r.payload.e)))
      + (Lit("," + Label("id")) + Text(r.id)) + [CloseByte(true)]
  {
    hide Lit, ItemText, Items, Label, ErrorJson, Opening, Member, Version;
    var id := Member("id", r.id);
    var name := if r.payload.Result? then "result" else "error";
    var value := if r.payload.Result? then r.payload.raw else ErrorJson(r.payload.e);
    var middle := Member(name, value);
    VersionText();
    FirstText(name, value);
    CommaText("id", r.id);
    ThreeMembers(Version(), middle, id);
    AfterVersion(middle);
  }

  lemma AfterVersion(a: Item)
    ensures ([OpenByte(true)] + ItemText(Version())) + ([COMMA] + ItemText(a)) == Opening() + ItemText(a)
  {
    hide ItemText, Opening;
    VersionText();
  }

  /** A built response is one message, found whole by the framer wherever it stands. */
  lemma ResponseFrames(r: Response, rest: Bytes)
    requires ValidResponse(r)
    ensures Framed(Text(ResponseJson(r)) + rest) == Complete(|Text(ResponseJson(r))|)
  {
    hide Framed, Text, Valid, ResponseJson, ValidResponse;
    ResponseValid(r);
    MessageFrames([], ResponseJson(r), rest);
    assert [] + Text(ResponseJson(r)) + rest == Text(ResponseJson(r)) + rest;
  }

  /** Texts with a comma between each two. */
  function Joined(texts: seq<Bytes>): Bytes {
    if texts == [] then [] else
    var n := |texts| - 1;
    Joined(texts[..n]) + (if n == 0 then [] else [COMMA]) + texts[n]
  }

  function Texts(js: seq<Json>): seq<Bytes> { seq(|js|, i requires 0 <= i < |js| => Text(js[i])) }

  lemma {:induction false} ItemsSnoc(items: seq<Item>, a: Item)
    ensures Items(items + [a]) == Items(items) + (if items == [] then [] else [COMMA]) + ItemText(a)
    decreases |items|
  {
    hide ItemText, Items;
    OneItem(a);
    if items == [] {
      NoItems();
      assert items + [a] == [a];
    } else {
      assert items + [a] == [items[0]] + (items[1..] + [a]);
      ItemsCat(items[0], items[1..] + [a]);
      ItemsSnoc(items[1..], a);
      if |items| == 1 {
        OneItem(items[0]);
        NoItems();
        assert items == [items[0]] && items[1..] == [];
      } else {
        assert items == [items[0]] + items[1..];
        ItemsCat(items[0], items[1..]);
      }
    }
  }

  lemma {:induction false} JoinedItems(js: seq<Json>)
    ensures Joined(Texts(js)) == Items(Bares(js))
    decreases |js|
  {
    hide Items, ItemText, Text;
    NoItems();
    if js == [] {
      assert Bares(js) == [] && Texts(js) == [];
    } else {
      var n := |js| - 1;
      JoinedItems(js[..n]);
      assert Texts(js)[..n] == Texts(js[..n]) && Bares(js) == Bares(js[..n]) + [Bare(js[n])];
      ItemsSnoc(Bares(js[..n]), Bare(js[n]));
      BareText(js[n]);
    }
  }

  /** The Array of section 6, or nothing where there is nothing to put in it. */
  function BatchText(texts: seq<Bytes>): Option<Bytes> {
    if texts == [] then None else Some([OpenByte(false)] + Joined(texts) + [CloseByte(false)])
  }

  /** A batch of JSON texts is one JSON text, and a message found whole. */
  lemma BatchFrames(js: seq<Json>, rest: Bytes)
    requires js != [] && forall i :: 0 <= i < |js| ==> Valid(js[i])
    ensures var b := BatchText(Texts(js));
      b.Some? && b.value == Text(Box(false, [], Bares(js))) && Framed(b.value + rest) == Complete(|b.value|)
  {
    hide Framed, Valid, Items;
    JoinedItems(js);
    BaresValid(js);
    var j, b := Box(false, [], Bares(js)), BatchText(Texts(js)).value;
    assert b == Text(j);
    BoxValid(Bares(js));
    MessageFrames([], j, rest);
    assert [] + Text(j) + rest == b + rest;
  }

  lemma BoxValid(items: seq<Item>)
    requires ValidItems(false, items)
    ensures Valid(Box(false, [], items))
  {
  }

  lemma {:induction false} BaresValid(js: seq<Json>)
    requires forall i :: 0 <= i < |js| ==> Valid(js[i])
    ensures ValidItems(false, Bares(js))
    decreases |js|
  {
    hide ValidItems, Valid;
    NoneValid(false);
    if js != [] {
      assert Bares(js) == [Bare(js[0])] + Bares(js[1..]);
      BaresValid(js[1..]);
      ItemsValid(false, Bare(js[0]), Bares(js[1..]));
    }
  }

  method BatchOf(objects: seq<Bytes>) returns (r: Option<Bytes>)
    ensures r == BatchText(objects)
  {
    if objects == [] { return None; }
    var out := [OpenByte(false)];
    for i := 0 to |objects|
      invariant out == [OpenByte(false)] + Joined(objects[..i])
    {
      assert objects[..i + 1][..i] == objects[..i];
      if i > 0 { out := out + [COMMA]; }
      out := out + objects[i];
    }
    assert objects[..|objects|] == objects;
    out := out + [CloseByte(false)];
    r := Some(out);
  }

  function ResponseJsons(rs: seq<Response>): seq<Json> { seq(|rs|, i requires 0 <= i < |rs| => ResponseJson(rs[i])) }

  method BatchFrame(responses: seq<Response>) returns (r: Option<Bytes>)
    ensures r == BatchText(Texts(ResponseJsons(responses)))
  {
    hide Text, ResponseJson;
    if responses == [] { return None; }
    ghost var texts := Texts(ResponseJsons(responses));
    var out := [OpenByte(false)];
    for i := 0 to |responses|
      invariant out == [OpenByte(false)] + Joined(texts[..i])
    {
      assert texts[..i + 1][..i] == texts[..i];
      if i > 0 { out := out + [COMMA]; }
      out := WriteInto(responses[i], out);
    }
    assert texts[..|responses|] == texts;
    out := out + [CloseByte(false)];
    r := Some(out);
  }

  /** The answers to a batch are one message, found whole by the framer. */
  lemma BatchOfResponsesFrames(responses: seq<Response>, rest: Bytes)
    requires responses != [] && forall i :: 0 <= i < |responses| ==> ValidResponse(responses[i])
    ensures var b := BatchText(Texts(ResponseJsons(responses)));
      b.Some? && Framed(b.value + rest) == Complete(|b.value|)
  {
    hide Framed, Text, Valid, ResponseJson, ValidResponse, BatchText;
    forall i | 0 <= i < |responses|
      ensures Valid(ResponseJsons(responses)[i])
    {
      ResponseValid(responses[i]);
    }
    BatchFrames(ResponseJsons(responses), rest);
  }

  /** What a caller gives for `params`: nothing, a value that does not encode, or one that does. */
  datatype Params = Absent | Unencodable | Given(j: Json)

  datatype Built = Built(bytes: Bytes) | Encode | ParamsNotStructured

  function Named(name: string, value: Option<Json>): seq<Item> {
    if value.Some? then [Member(name, value.value)] else []
  }

  function AsOption(params: Params): Option<Json> { if params.Given? then Some(params.j) else None }

  /** The Request object of section 4, or the notification of section 4.1 without an id. */
  function RequestJson(name: seq<Piece>, params: Params, id: Option<Json>): Json {
    Box(true, [], [Version()] + ([Member("method", Str(name))] + (Named("params", AsOption(params)) + Named("id", id))))
  }

  /** The text of each item behind a comma. */
  function Behind(items: seq<Item>): Bytes {
    if items == [] then [] else [COMMA] + ItemText(items[0]) + Behind(items[1..])
  }

  lemma {:induction false} ItemsBehind(a: Item, items: seq<Item>)
    ensures Items([a] + items) == ItemText(a) + Behind(items)
    decreases |items|
  {
    hide ItemText, Items;
    if items == [] {
      assert [a] + items == [a];
      OneItem(a);
    } else {
      ItemsCat(a, items);
      assert items == [items[0]] + items[1..];
      ItemsBehind(items[0], items[1..]);
    }
  }

  lemma BehindNamed(name: string, value: Option<Json>, more: seq<Item>)
    ensures Behind(Named(name, value) + more)
         == (if value.Some? then Lit("," + Label(name)) + Text(value.value) else []) + Behind(more)
  {
    hide ItemText, Lit, Label, Text, Member;
    var all := Named(name, value) + more;
    if value.Some? {
      CommaText(name, value.value);
      assert all[1..] == more;
    } else {
      assert all == more;
    }
  }

  lemma BehindTwo(params: Params, id: Option<Json>)
    ensures Behind(Named("params", AsOption(params)) + Named("id", id)) ==
      (if params.Given? then Lit("," + Label("params")) + Text(params.j) else [])
      + (if id.Some? then Lit("," + Label("id")) + Text(id.value) else [])
  {
    hide Lit, Label, Text, Named, Behind;
    var ids := Named("id", id);
    BehindNamed("params", AsOption(params), ids);
    assert ids + [] == ids;
    BehindNamed("id", id, []);
    BehindNone();
  }

  lemma RequestText(name: seq<Piece>, params: Params, id: Option<Json>)
    ensures Text(RequestJson(name, params, id)) ==
      Opening() + Lit(Label("method")) + Quoted(name)
      + (if params.Given? then Lit("," + Label("params")) + Text(params.j) else [])
      + (if id.Some? then Lit("," + Label("id")) + Text(id.value) else []) + [CloseByte(true)]
  {
    hide ItemText, Items, Lit, Label, Opening, Version, Quoted, Named, Behind, Member;
    var m, ps, ids := Member("method", Str(name)), Named("params", AsOption(params)), Named("id", id);
    ItemsBehind(Version(), [m] + (ps + ids));
    BehindCons(m, ps + ids);
    BehindTwo(params, id);
    AfterVersion(m);
    FirstText("method", Str(name));
    var p := if params.Given? then Lit("," + Label("params")) + Text(params.j) else [];
    var i := if id.Some? then Lit("," + Label("id")) + Text(id.value) else [];
    Regroup([OpenByte(true)], ItemText(Version()), [COMMA] + ItemText(m), p, i, [CloseByte(true)]);
  }

  lemma Regroup(a: Bytes, b: Bytes, c: Bytes, d: Bytes, e: Bytes, f: Bytes)
    ensures a + [] + (b + (c + (d + e))) + f == (a + b) + c + d + e + f
  {
    assert a + [] == a && a + (b + (c + (d + e))) == (a + b) + c + d + e;
  }

  lemma BehindCons(a: Item, items: seq<Item>)
    ensures Behind([a] + items) == [COMMA] + ItemText(a) + Behind(items)
  {
    hide ItemText;
    assert ([a] + items)[1..] == items;
  }

  lemma BehindNone()
    ensures Behind([]) == []
  {
  }

  /** What a text begins with tells whether it is an object or an array. */
  lemma FirstByte(j: Json)
    requires Valid(j)
    ensures Text(j) != [] && (Opens(Text(j)[0]) <==> j.Box?)
  {
    hide Items;
    if j.Atom? { assert !Opens(j.text[0]); }
  }

  /** The object up to its id, left open. */
  function OpenText(name: seq<Piece>, params: Params): Bytes {
    Opening() + Lit(Label("method")) + Quoted(name)
    + if params.Given? then Lit("," + Label("params")) + Text(params.j) else []
  }

  function Refusal(params: Params): Option<Built> {
    if params.Unencodable? then Some(Encode)
    else if params.Given? && !params.j.Box? then Some(ParamsNotStructured)
    else None
  }

  method Open(out: Bytes, name: seq<Piece>, params: Params) returns (r: Built)
    requires params.Given? ==> Valid(params.j)
    ensures r == if Refusal(params).Some? then Refusal(params).value else Built(out + OpenText(name, params))
  {
    hide Lit, Label, Text, Quoted, Valid;
    var o := out + Opening();
    o := o + Lit(Label("method"));
    o := o + Quoted(name);
    if params.Unencodable? { return Encode; }
    if params.Given? {
      FirstByte(params.j);
      if !Opens(Text(params.j)[0]) { return ParamsNotStructured; }
      o := o + Lit("," + Label("params"));
      o := o + Text(params.j);
    }
    r := Built(o);
  }

  method RequestWithId(id: Json, name: seq<Piece>, params: Params) returns (r: Built)
    requires params.Given? ==> Valid(params.j)
    ensures r == if Refusal(params).Some? then Refusal(params).value else Built(Text(RequestJson(name, params, Some(id))))
  {
    hide Lit, Label, Text, Quoted, Opening, RequestJson;
    r := Open([], name, params);
    if !r.Built? { return; }
    RequestText(name, params, Some(id));
    var o := r.bytes + Lit("," + Label("id"));
    o := o + Text(id);
    r := Built(o + [CloseByte(true)]);
  }

  method Notification(name: seq<Piece>, params: Params) returns (r: Built)
    requires params.Given? ==> Valid(params.j)
    ensures r == if Refusal(params).Some? then Refusal(params).value else Built(Text(RequestJson(name, params, None)))
  {
    hide Lit, Label, Text, Quoted, Opening, RequestJson;
    r := Open([], name, params);
    if !r.Built? { return; }
    RequestText(name, params, None);
    r := Built(r.bytes + [CloseByte(true)]);
  }

  /** A request or notification that is built is one message, found whole by the framer. */
  lemma RequestFrames(name: seq<Piece>, params: Params, id: Option<Json>, rest: Bytes)
    requires ValidPieces(name) && (params.Given? ==> Valid(params.j)) && (id.Some? ==> Valid(id.value))
    ensures var t := Text(RequestJson(name, params, id)); Framed(t + rest) == Complete(|t|)
  {
    hide Framed, Text, ValidItems, ValidItem, ValidPieces, Member;
    RequestItemsValid(name, params, id);
    var j := RequestJson(name, params, id);
    MessageFrames([], j, rest);
    assert [] + Text(j) + rest == Text(j) + rest;
  }

  lemma RequestItemsValid(name: seq<Piece>, params: Params, id: Option<Json>)
    requires ValidPieces(name) && (params.Given? ==> Valid(params.j)) && (id.Some? ==> Valid(id.value))
    ensures ValidItems(true, RequestJson(name, params, id).items)
  {
    hide ValidItems, ValidItem;
    var m, ps, ids := Member("method", Str(name)), Named("params", AsOption(params)), Named("id", id);
    VersionValid();
    MemberValid("method", Str(name));
    NoneValid(true);
    if id.Some? {
      MemberValid("id", id.value);
      ItemsValid(true, Member("id", id.value), []);
      assert ids == [Member("id", id.value)] + [];
    }
    if params.Given? {
      MemberValid("params", params.j);
      ItemsValid(true, Member("params", params.j), ids);
    } else {
      assert ps + ids == ids;
    }
    ItemsValid(true, m, ps + ids);
    ItemsValid(true, Version(), [m] + (ps + ids));
  }

  const U64_MAX: nat := 0xFFFF_FFFF_FFFF_FFFF

  /** The id after a call: a request that is refused uses none up, and the last number is not passed. */
  function IdAfter(next: nat, params: Params): nat {
    if Refusal(params).Some? || next >= U64_MAX then next else next + 1
  }

  /** Numbers its requests. */
  class Caller {
    var next: nat

    constructor ()
      ensures next == 1
    {
      next := 1;
    }

    /** A request under the next id. */
    method Request(name: seq<Piece>, params: Params) returns (id: nat, r: Built)
      requires next <= U64_MAX && (params.Given? ==> Valid(params.j))
      modifies this
      ensures next <= U64_MAX && id == old(next) && next == IdAfter(old(next), params)
      ensures r == if Refusal(params).Some? then Refusal(params).value
                   else Built(Text(RequestJson(name, params, Some(Atom(Integer(id))))))
    {
      hide Text, RequestJson, Valid;
      id := next;
      r := RequestWithId(Atom(Integer(id)), name, params);
      if r.Built? && next < U64_MAX { next := next + 1; }
    }
  }

  /** The ids of the requests that a run of calls builds, in order. */
  function Ids(next: nat, calls: seq<Params>): seq<nat>
    decreases |calls|
  {
    if calls == [] then []
    else (if Refusal(calls[0]).Some? then [] else [next]) + Ids(IdAfter(next, calls[0]), calls[1..])
  }

  lemma {:induction false} IdIs(next: nat, calls: seq<Params>, i: nat)
    requires next <= U64_MAX && i < |Ids(next, calls)|
    ensures Ids(next, calls)[i] == if next + i < U64_MAX then next + i else U64_MAX
    decreases |calls|
  {
    hide Refusal;
    var later := IdAfter(next, calls[0]);
    if Refusal(calls[0]).Some? {
      assert Ids(next, calls) == Ids(later, calls[1..]);
      IdIs(later, calls[1..], i);
    } else if i > 0 {
      assert Ids(next, calls)[i] == Ids(later, calls[1..])[i - 1];
      IdIs(later, calls[1..], i - 1);
    }
  }

  /** Over a run of calls, whichever of them are refused, two requests have the same id if and only if the
      counter had reached its last number by the first of them. */
  lemma IdsDistinct(calls: seq<Params>, i: nat, j: nat)
    requires i < j < |Ids(1, calls)|
    ensures Ids(1, calls)[i] == Ids(1, calls)[j] <==> 1 + i >= U64_MAX
  {
    hide Ids;
    IdIs(1, calls, i);
    IdIs(1, calls, j);
  }

  /** The same of the ids as they are sent: the digits that end two requests are the same if and only if the counter
      had reached its last number, and they stand for the id. */
  lemma SentIdsDistinct(calls: seq<Params>, i: nat, j: nat)
    requires i < j < |Ids(1, calls)|
    ensures var x, y := Integer(Ids(1, calls)[i]), Integer(Ids(1, calls)[j]);
      && (x == y <==> 1 + i >= U64_MAX)
      && AllDigits(x) && ReadDigits(0, x) == if 1 + i < U64_MAX then 1 + i else U64_MAX
  {
    hide Ids, Integer, ReadDigits;
    IdIs(1, calls, i);
    IdsDistinct(calls, i, j);
    IntegerBack(Ids(1, calls)[i], Ids(1, calls)[j]);
  }

  /** A request ends with its id: what was asked under one id and what was asked under another are not alike. */
  lemma RequestEnds(name: seq<Piece>, params: Params, id: nat, id': nat)
    ensures Text(RequestJson(name, params, Some(Atom(Integer(id))))) ==
      OpenText(name, params) + (Lit("," + Label("id")) + Integer(id)) + [CloseByte(true)]
    ensures Text(RequestJson(name, params, Some(Atom(Integer(id))))) == Text(RequestJson(name, params, Some(Atom(Integer(id')))))
       <==> id == id'
  {
    hide RequestJson, Lit, Label, OpenText, Integer;
    EndsWith(name, params, id);
    EndsWith(name, params, id');
    IntegerBack(id, id');
    var head := OpenText(name, params) + Lit("," + Label("id"));
    Middle(head, Integer(id), Integer(id'), [CloseByte(true)]);
    assert OpenText(name, params) + (Lit("," + Label("id")) + Integer(id)) == head + Integer(id);
    assert OpenText(name, params) + (Lit("," + Label("id")) + Integer(id')) == head + Integer(id');
  }

  lemma EndsWith(name: seq<Piece>, params: Params, id: nat)
    ensures Text(RequestJson(name, params, Some(Atom(Integer(id))))) ==
      OpenText(name, params) + (Lit("," + Label("id")) + Integer(id)) + [CloseByte(true)]
  {
    hide RequestJson, Lit, Label, Opening, Quoted, Integer;
    RequestText(name, params, Some(Atom(Integer(id))));
  }

  lemma Middle(head: Bytes, a: Bytes, b: Bytes, tail: Bytes)
    ensures head + a + tail == head + b + tail <==> a == b
  {
    if head + a + tail == head + b + tail {
      assert |head + a + tail| == |head| + |a| + |tail| && |head + b + tail| == |head| + |b| + |tail|;
      assert a == (head + a + tail)[|head|..|head| + |a|] && b == (head + b + tail)[|head|..|head| + |b|];
    }
  }

  lemma OpeningIs()
    ensures Opening() == Lit("{\"jsonrpc\":\"2.0\",")
  {
    LitCat("{" + Label("jsonrpc"), "\"");
    LitCat("{" + Label("jsonrpc") + "\"", VERSION);
    LitCat("{" + Label("jsonrpc") + "\"" + VERSION, "\",");
    assert "{" + Label("jsonrpc") + "\"" + VERSION + "\"," == "{\"jsonrpc\":\"2.0\",";
  }

  lemma LabelIs(lead: string, name: string)
    ensures Lit(lead) + Lit(Label(name)) == Lit(lead + Label(name))
  {
    LitCat(lead, Label(name));
  }

  lemma BraceIs()
    ensures [CloseByte(true)] == Lit("}")
  {
  }

  /** The text of every response, letter by letter: the object of section 5. */
  lemma ResponseLayout(r: Response)
    ensures Text(ResponseJson(r)) ==
      (if r.payload.Result? then Lit("{\"jsonrpc\":\"2.0\",\"result\":") + Text(r.payload.raw)
       else Lit("{\"jsonrpc\":\"2.0\",\"error\":") + Text(ErrorJson(r.payload.e)))
      + (Lit(",\"id\":") + Text(r.id)) + Lit("}")
  {
    FirstLabels();
    NextLabels();
    hide Lit, Label, Opening, ErrorJson, ResponseJson;
    ResponseText(r);
    OpeningIs();
    BraceIs();
    LabelIs("{\"jsonrpc\":\"2.0\",", "result");
    LabelIs("{\"jsonrpc\":\"2.0\",", "error");
  }

  lemma FirstLabels()
    ensures "{\"jsonrpc\":\"2.0\"," + Label("result") == "{\"jsonrpc\":\"2.0\",\"result\":"
    ensures "{\"jsonrpc\":\"2.0\"," + Label("error") == "{\"jsonrpc\":\"2.0\",\"error\":"
    ensures "{\"jsonrpc\":\"2.0\"," + Label("method") == "{\"jsonrpc\":\"2.0\",\"method\":"
  {
  }

  lemma NextLabels()
    ensures "," + Label("id") == ",\"id\":" && "," + Label("params") == ",\"params\":"
    ensures "," + Label("message") == ",\"message\":" && "," + Label("data") == ",\"data\":"
    ensures "{" + Label("code") == "{\"code\":"
  {
  }

  /** The text of every error object: section 5.1. */
  lemma ErrorLayout(e: ErrorObject)
    ensures Text(ErrorJson(e)) ==
      Lit("{\"code\":") + Integer(e.code) + (Lit(",\"message\":") + Quoted(e.message))
      + (if e.data.Some? then Lit(",\"data\":") + Text(e.data.value) else []) + Lit("}")
  {
    NextLabels();
    hide Lit, Label, ErrorJson, Integer, Quoted;
    ErrorText(e);
    BraceIs();
  }

  /** The text of every request and notification: sections 4 and 4.1. */
  lemma RequestLayout(name: seq<Piece>, params: Params, id: Option<Json>)
    ensures Text(RequestJson(name, params, id)) ==
      Lit("{\"jsonrpc\":\"2.0\",\"method\":") + Quoted(name)
      + (if params.Given? then Lit(",\"params\":") + Text(params.j) else [])
      + (if id.Some? then Lit(",\"id\":") + Text(id.value) else []) + Lit("}")
  {
    FirstLabels();
    NextLabels();
    hide Lit, Label, Opening, RequestJson, Quoted;
    RequestText(name, params, id);
    OpeningIs();
    BraceIs();
    LabelIs("{\"jsonrpc\":\"2.0\",", "method");
  }
}
