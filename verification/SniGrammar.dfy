/**
 * The ClientHello as a grammar, written by its serialisation, and the theorem that the
 * parser accepts exactly what the grammar derives, with the outcome the grammar gives.
 *
 * The layouts are those of RFC 8446 sections 4.1.2, 4.2 and 5.1 and RFC 6066 section 3,
 * as far as the parser looks: it does not look past the first server_name extension,
 * past the extension block, or past the handshake message.
 */
module SniGrammar {
  import opened Wrappers
  import opened Bytes
  import opened Pipe
  import opened Sni

  datatype Extension = Extension(typ: int, data: bytes)

  /** The body of a server_name extension that opens with a host_name entry: the name,
      whatever else is in the list, and whatever follows the list. */
  datatype NameList = NameList(name: bytes, more: bytes, slack: bytes)

  /** The tail of a ClientHello after the compression methods. */
  datatype Block =
    | NoBlock(short: bytes)
    | Ended(before: seq<Extension>, stray: bytes, beyond: bytes)
    | WithName(before: seq<Extension>, names: NameList, after: bytes, beyond: bytes)
    | WithoutHostName(before: seq<Extension>, data: bytes, after: bytes, beyond: bytes)

  datatype Hello = Hello(opening: bytes, sessionId: bytes, suites: bytes, compressions: bytes, block: Block)

  /** A handshake message and what follows it in the record. */
  datatype Message = Message(hello: Hello, trailing: bytes)

  function Bytes8(v: bytes): bytes
    requires |v| < 0x100
  {
    [|v|] + v
  }

  function Bytes16(v: bytes): bytes
    requires |v| < 0x1_0000
  {
    BE16(|v|) + v
  }

  predicate ValidExtension(e: Extension)
  {
    0 <= e.typ < 0x1_0000 && |e.data| < 0x1_0000
  }

  function ExtensionBytes(e: Extension): bytes
    requires ValidExtension(e)
  {
    BE16(e.typ) + Bytes16(e.data)
  }

  predicate ValidBefore(es: seq<Extension>)
  {
    forall i | 0 <= i < |es| :: ValidExtension(es[i]) && es[i].typ != 0
  }

  function ExtensionsBytes(es: seq<Extension>): bytes
    requires forall i | 0 <= i < |es| :: ValidExtension(es[i])
  {
    if es == [] then [] else ExtensionBytes(es[0]) + ExtensionsBytes(es[1..])
  }

  /** The list is at least 5 bytes: a lone one-byte name is shorter, and is not seen. */
  predicate ValidNames(n: NameList)
  {
    5 <= 3 + |n.name| + |n.more| < 0x1_0000
  }

  function NamesBytes(n: NameList): bytes
    requires ValidNames(n)
  {
    Bytes16([0] + Bytes16(n.name) + n.more) + n.slack
  }

  ghost predicate IsHostNameList(data: bytes)
  {
    exists n :: ValidNames(n) && NamesBytes(n) == data
  }

  /** The extension block without its length. */
  function Inner(b: Block): bytes
    requires !b.NoBlock? && ValidBefore(b.before)
    requires b.WithName? ==> ValidNames(b.names) && |NamesBytes(b.names)| < 0x1_0000
    requires b.WithoutHostName? ==> |b.data| < 0x1_0000
  {
    ExtensionsBytes(b.before) + Tail(b)
  }

  /** Its part behind the extensions walked over. */
  function Tail(b: Block): bytes
    requires !b.NoBlock?
    requires b.WithName? ==> ValidNames(b.names) && |NamesBytes(b.names)| < 0x1_0000
    requires b.WithoutHostName? ==> |b.data| < 0x1_0000
  {
    match b
    case Ended(_, stray, _) => stray
    case WithName(_, names, after, _) => ExtensionBytes(Extension(0, NamesBytes(names))) + after
    case WithoutHostName(_, data, after, _) => ExtensionBytes(Extension(0, data)) + after
  }

  ghost predicate ValidBlock(b: Block)
  {
    match b
    case NoBlock(short) => |short| < 2
    case Ended(before, stray, _) =>
      ValidBefore(before) && |stray| < 4 && |Inner(b)| < 0x1_0000
    case WithName(before, names, _, _) =>
      ValidBefore(before) && ValidNames(names) && |NamesBytes(names)| < 0x1_0000 && |Inner(b)| < 0x1_0000
    case WithoutHostName(before, data, _, _) =>
      ValidBefore(before) && |data| < 0x1_0000 && !IsHostNameList(data) && |Inner(b)| < 0x1_0000
  }

  ghost function BlockBytes(b: Block): bytes
    requires ValidBlock(b)
  {
    if b.NoBlock? then b.short else Bytes16(Inner(b)) + b.beyond
  }

  ghost predicate ValidHello(h: Hello)
  {
    && |h.opening| == 34 && |h.sessionId| < 0x100 && |h.suites| < 0x1_0000 && |h.compressions| < 0x100
    && ValidBlock(h.block)
  }

  ghost function HelloBytes(h: Hello): bytes
    requires ValidHello(h)
  {
    h.opening + (Bytes8(h.sessionId) + (Bytes16(h.suites) + (Bytes8(h.compressions) + BlockBytes(h.block))))
  }

  ghost predicate ValidMessage(m: Message)
  {
    ValidHello(m.hello) && |HelloBytes(m.hello)| < 0x100_0000
  }

  ghost function MessageBytes(m: Message): bytes
    requires ValidMessage(m)
  {
    [1] + BE24(|HelloBytes(m.hello)|) + HelloBytes(m.hello) + m.trailing
  }

  /** What the grammar says the name is. */
  function Meaning(b: Block): Parse
  {
    if b.WithName? then Named(b.names.name) else Unnamed
  }

  /** `body` can be read as a ClientHello whose name is `p`. */
  ghost predicate Derives(m: Message, body: bytes, p: Parse)
  {
    ValidMessage(m) && MessageBytes(m) == body && Meaning(m.hello.block) == p
  }

  // ---- Vectors ----

  lemma Vector8Reads(v: bytes, rest: bytes)
    requires |v| < 0x100
    ensures Vector8(Bytes8(v) + rest) == Vector(v, rest)
  {
    var s := Bytes8(v) + rest;
    assert s[1..1 + |v|] == v && s[1 + |v|..] == rest;
  }

  lemma Vector16Reads(v: bytes, rest: bytes)
    requires |v| < 0x1_0000
    ensures Vector16(Bytes16(v) + rest) == Vector(v, rest)
  {
    var s := Bytes16(v) + rest;
    BE16Inverse(|v|, BE16(|v|));
    assert s[..2] == BE16(|v|) && s[2..2 + |v|] == v && s[2 + |v|..] == rest;
  }

  lemma Vector8Written(s: bytes)
    requires Vector8(s).Vector?
    ensures var v := Vector8(s); |v.body| < 0x100 && s == Bytes8(v.body) + v.rest
  {
    assert s == s[..1] + s[1..1 + s[0]] + s[1 + s[0]..];
  }

  lemma Vector16Written(s: bytes)
    requires Vector16(s).Vector?
    ensures var v := Vector16(s); |v.body| < 0x1_0000 && s == Bytes16(v.body) + v.rest
  {
    BE16Inverse(0, s[..2]);
    var n := FromBE16(s[..2]);
    assert s == s[..2] + s[2..2 + n] + s[2 + n..];
  }

  // ---- The server_name extension ----

  lemma NamesRead(n: NameList)
    requires ValidNames(n)
    ensures ServerName(NamesBytes(n)) == Named(n.name)
  {
    var list := [0] + Bytes16(n.name) + n.more;
    Vector16Reads(list, n.slack);
    assert list[1..] == Bytes16(n.name) + n.more;
    Vector16Reads(n.name, n.more);
  }

  lemma NamesWritten(data: bytes) returns (n: NameList)
    requires ServerName(data).Named?
    ensures ValidNames(n) && NamesBytes(n) == data && ServerName(data) == Named(n.name)
  {
    var list := Vector16(data);
    Vector16Written(data);
    var name := Vector16(list.body[1..]);
    Vector16Written(list.body[1..]);
    n := NameList(name.body, name.rest, list.rest);
    assert list.body == [0] + list.body[1..];
    assert list.body == [0] + Bytes16(n.name) + n.more;
  }

  lemma ServerNameExactly(data: bytes)
    ensures ServerName(data).Named? <==> IsHostNameList(data)
    ensures !IsHostNameList(data) ==> ServerName(data) == Unnamed
  {
    if ServerName(data).Named? {
      var n := NamesWritten(data);
    }
    forall n | ValidNames(n) && NamesBytes(n) == data ensures ServerName(data).Named? {
      NamesRead(n);
    }
  }

  // ---- The walk over the extensions ----

  lemma WalkTakesOne(e: Extension, tail: bytes)
    requires ValidExtension(e)
    ensures Walk(ExtensionBytes(e) + tail) == if e.typ == 0 then ServerName(e.data) else Walk(tail)
  {
    var s := ExtensionBytes(e) + tail;
    BE16Inverse(e.typ, BE16(e.typ));
    assert s[..2] == BE16(e.typ) && s[2..] == Bytes16(e.data) + tail;
    Vector16Reads(e.data, tail);
  }

  lemma {:induction false} WalkSkips(before: seq<Extension>, tail: bytes)
    requires ValidBefore(before)
    ensures Walk(ExtensionsBytes(before) + tail) == Walk(tail)
  {
    if before == [] {
      assert ExtensionsBytes(before) + tail == tail;
    } else {
      var rest := ExtensionsBytes(before[1..]) + tail;
      assert ExtensionsBytes(before) + tail == ExtensionBytes(before[0]) + rest;
      WalkTakesOne(before[0], rest);
      WalkSkips(before[1..], tail);
    }
  }

  lemma BlockWalks(b: Block)
    requires ValidBlock(b) && !b.NoBlock?
    ensures Walk(Inner(b)) == Meaning(b)
  {
    match b
    case Ended(before, stray, _) =>
      WalkSkips(before, stray);
    case WithName(before, names, after, _) =>
      WalkSkips(before, ExtensionBytes(Extension(0, NamesBytes(names))) + after);
      WalkTakesOne(Extension(0, NamesBytes(names)), after);
      NamesRead(names);
    case WithoutHostName(before, data, after, _) =>
      WalkSkips(before, ExtensionBytes(Extension(0, data)) + after);
      WalkTakesOne(Extension(0, data), after);
      ServerNameExactly(data);
  }

  /** The same block with one more extension in front. */
  function Prepended(e: Extension, b: Block): Block
    requires !b.NoBlock?
  {
    b.(before := [e] + b.before)
  }

  lemma OneMoreBefore(e: Extension, before: seq<Extension>)
    requires ValidBefore(before) && ValidExtension(e) && e.typ != 0
    ensures ValidBefore([e] + before)
    ensures ExtensionsBytes([e] + before) == ExtensionBytes(e) + ExtensionsBytes(before)
  {
    assert ([e] + before)[1..] == before;
  }

  lemma PrependedBytes(e: Extension, b: Block)
    requires ValidBlock(b) && !b.NoBlock? && ValidExtension(e) && e.typ != 0
    requires |ExtensionBytes(e)| + |Inner(b)| < 0x1_0000
    ensures ValidBlock(Prepended(e, b)) && Inner(Prepended(e, b)) == ExtensionBytes(e) + Inner(b)
    ensures Meaning(Prepended(e, b)) == Meaning(b)
  {
    OneMoreBefore(e, b.before);
    assert Tail(Prepended(e, b)) == Tail(b);
    Regroup(ExtensionBytes(e), ExtensionsBytes(b.before), Tail(b));
  }

  lemma FirstExtension(exts: bytes) returns (e: Extension, rest: bytes)
    requires |exts| >= 4 && Vector16(exts[2..]).Vector?
    ensures ValidExtension(e) && e.typ == FromBE16(exts[..2]) && Vector16(exts[2..]) == Vector(e.data, rest)
    ensures exts == ExtensionBytes(e) + rest
  {
    var data := Vector16(exts[2..]);
    Vector16Written(exts[2..]);
    BE16Inverse(0, exts[..2]);
    e, rest := Extension(FromBE16(exts[..2]), data.body), data.rest;
    assert exts == exts[..2] + exts[2..];
    Regroup(BE16(e.typ), Bytes16(e.data), rest);
  }

  lemma NameBlock(data: bytes, rest: bytes, beyond: bytes) returns (b: Block)
    requires |data| < 0x1_0000 && |ExtensionBytes(Extension(0, data)) + rest| < 0x1_0000
    ensures ValidBlock(b) && !b.NoBlock? && b.beyond == beyond
    ensures Inner(b) == ExtensionBytes(Extension(0, data)) + rest && Meaning(b) == ServerName(data)
  {
    ServerNameExactly(data);
    if ServerName(data).Named? {
      var n := NamesWritten(data);
      b := WithName([], n, rest, beyond);
    } else {
      b := WithoutHostName([], data, rest, beyond);
    }
    assert Inner(b) == [] + Tail(b);
  }

  lemma {:induction false} WalkedBlock(exts: bytes, beyond: bytes) returns (b: Block)
    requires |exts| < 0x1_0000 && !Walk(exts).Malformed?
    ensures ValidBlock(b) && !b.NoBlock? && b.beyond == beyond
    ensures Inner(b) == exts && Meaning(b) == Walk(exts)
    decreases |exts|
  {
    if |exts| < 4 {
      b := Ended([], exts, beyond);
      assert Inner(b) == [] + exts;
      return;
    }
    var e, rest := FirstExtension(exts);
    if e.typ == 0 {
      b := NameBlock(e.data, rest, beyond);
    } else {
      b := WalkedBlock(rest, beyond);
      PrependedBytes(e, b);
      b := Prepended(e, b);
    }
  }

  // ---- The ClientHello and the handshake message ----

  lemma ExtensionsRead(b: Block)
    requires ValidBlock(b)
    ensures ParseExtensions(BlockBytes(b)) == Meaning(b)
  {
    if !b.NoBlock? {
      Vector16Reads(Inner(b), b.beyond);
      BlockWalks(b);
    }
  }

  lemma ExtensionsWritten(s: bytes) returns (b: Block)
    requires !ParseExtensions(s).Malformed?
    ensures ValidBlock(b) && BlockBytes(b) == s && Meaning(b) == ParseExtensions(s)
  {
    if |s| < 2 {
      return NoBlock(s);
    }
    Vector16Written(s);
    b := WalkedBlock(Vector16(s).body, Vector16(s).rest);
  }

  lemma HelloReads(h: Hello)
    requires ValidHello(h)
    ensures ParseHello(HelloBytes(h)) == Meaning(h.block)
  {
    var tail4 := BlockBytes(h.block);
    var tail3 := Bytes8(h.compressions) + tail4;
    var tail2 := Bytes16(h.suites) + tail3;
    var tail1 := Bytes8(h.sessionId) + tail2;
    assert HelloBytes(h)[34..] == tail1;
    Vector8Reads(h.sessionId, tail2);
    Vector16Reads(h.suites, tail3);
    Vector8Reads(h.compressions, tail4);
    ExtensionsRead(h.block);
  }

  lemma HelloWritten(hs: bytes) returns (h: Hello)
    requires !ParseHello(hs).Malformed?
    ensures ValidHello(h) && HelloBytes(h) == hs && Meaning(h.block) == ParseHello(hs)
  {
    var sid := Vector8(hs[34..]);
    Vector8Written(hs[34..]);
    var suites := Vector16(sid.rest);
    Vector16Written(sid.rest);
    var comps := Vector8(suites.rest);
    Vector8Written(suites.rest);
    var b := ExtensionsWritten(comps.rest);
    h := Hello(hs[..34], sid.body, suites.body, comps.body, b);
    assert hs == hs[..34] + hs[34..];
  }

  lemma MessageReads(m: Message)
    requires ValidMessage(m)
    ensures ParseBody(MessageBytes(m)) == Meaning(m.hello.block)
  {
    var hs := HelloBytes(m.hello);
    var body := MessageBytes(m);
    BE24Inverse(|hs|, BE24(|hs|));
    assert body[1..4] == BE24(|hs|) && body[4..4 + |hs|] == hs;
    HelloReads(m.hello);
  }

  lemma MessageWritten(body: bytes) returns (m: Message)
    requires !ParseBody(body).Malformed?
    ensures ValidMessage(m) && MessageBytes(m) == body && Meaning(m.hello.block) == ParseBody(body)
  {
    var n := FromBE24(body[1..4]);
    var h := HelloWritten(body[4..4 + n]);
    m := Message(h, body[4 + n..]);
    HandshakeSplit(body, n);
  }

  lemma HandshakeSplit(body: bytes, n: nat)
    requires |body| >= 4 + n && body[0] == 1 && n == FromBE24(body[1..4])
    ensures n < 0x100_0000 && body == [1] + BE24(n) + body[4..4 + n] + body[4 + n..]
  {
    BE24Inverse(0, body[1..4]);
    assert body == body[..1] + body[1..4] + body[4..4 + n] + body[4 + n..];
  }

  /** On every byte string, the parser gives a name, or no name, exactly when the grammar does. */
  lemma ParserIsTheGrammar(body: bytes, p: Parse)
    requires !p.Malformed?
    ensures ParseBody(body) == p <==> exists m :: Derives(m, body, p)
  {
    if ParseBody(body) == p {
      var m := MessageWritten(body);
      assert Derives(m, body, p);
    }
    forall m | Derives(m, body, p) ensures ParseBody(body) == p {
      MessageReads(m);
    }
  }

  /** And it reports an error exactly on what the grammar does not derive at all. */
  lemma MalformedExactly(body: bytes)
    ensures ParseBody(body).Malformed? <==> forall m, p :: !Derives(m, body, p)
  {
    if !ParseBody(body).Malformed? {
      var m := MessageWritten(body);
      assert Derives(m, body, ParseBody(body));
    }
    forall m, p | Derives(m, body, p) ensures !ParseBody(body).Malformed? {
      MessageReads(m);
    }
  }

  /** One TLS record; the two version bytes are not looked at. */
  function Record(version: bytes, body: bytes): bytes
    requires |version| == 2 && |body| < 0x1_0000
  {
    [0x16] + version + BE16(|body|) + body
  }

  /** `record` is one TLS record of 4 to 16384 bytes holding a ClientHello whose name is `name`. */
  ghost predicate DerivesRecord(version: bytes, m: Message, record: bytes, name: bytes)
  {
    && |version| == 2 && ValidMessage(m) && 4 <= |MessageBytes(m)| <= 16384
    && record == Record(version, MessageBytes(m)) && name == NameOf(Meaning(m.hello.block))
  }

  lemma RecordTaken(version: bytes, body: bytes, after: bytes, final: ReadError)
    requires |version| == 2 && 4 <= |body| <= 16384
    ensures var record, p := Record(version, body), ParseBody(body);
            Peeked(record + after, final) == Peek(NameOf(p), record, ErrorOf(p), after)
  {
    var record := Record(version, body);
    var s := record + after;
    BE16Inverse(|body|, BE16(|body|));
    assert s[3..5] == BE16(|body|) && s[5..5 + |body|] == body;
    assert s[..5 + |body|] == record && s[5 + |body|..] == after;
  }

  lemma RecordWritten(s: bytes, n: nat)
    requires |s| >= 5 + n && s[0] == 0x16 && n == FromBE16(s[3..5])
    ensures n < 0x1_0000 && s[..5 + n] == Record(s[1..3], s[5..5 + n]) && s == s[..5 + n] + s[5 + n..]
  {
    BE16Inverse(0, s[3..5]);
    assert s[..5 + n] == s[..1] + s[1..3] + s[3..5] + s[5..5 + n];
  }

  /** A ClientHello serialised into one record of 4 to 16384 bytes is peeked whole, whatever
      follows it: its name, the record itself for replay, nothing else consumed. */
  lemma SerialisedHelloIsFound(version: bytes, m: Message, after: bytes, final: ReadError)
    requires |version| == 2 && ValidMessage(m) && 4 <= |MessageBytes(m)| <= 16384
    ensures var record := Record(version, MessageBytes(m));
            Peeked(record + after, final) == Peek(NameOf(Meaning(m.hello.block)), record, None, after)
  {
    RecordTaken(version, MessageBytes(m), after, final);
    MessageReads(m);
  }

  lemma PeekedRecord(s: bytes, final: ReadError, version: bytes) returns (m: Message)
    requires |s| >= 5 && version == s[1..3] && Peeked(s, final).err.None?
    ensures var k := Peeked(s, final);
            s == k.raw + k.rest && DerivesRecord(version, m, k.raw, k.sni)
  {
    var n := FromBE16(s[3..5]);
    RecordWritten(s, n);
    m := MessageWritten(s[5..5 + n]);
  }

  /** On every stream: the peek succeeds with this name, these raw bytes and this remainder if and
      only if the stream is those raw bytes and that remainder, and the raw bytes are one record of
      the grammar with that name. */
  lemma PeekIsTheGrammar(s: bytes, final: ReadError, name: bytes, raw: bytes, after: bytes)
    ensures Peeked(s, final) == Peek(name, raw, None, after) <==>
            s == raw + after && exists version, m :: DerivesRecord(version, m, raw, name)
  {
    if Peeked(s, final) == Peek(name, raw, None, after) {
      var m := PeekedRecord(s, final, s[1..3]);
    }
    forall version, m | s == raw + after && DerivesRecord(version, m, raw, name)
      ensures Peeked(s, final) == Peek(name, raw, None, after)
    {
      SerialisedHelloIsFound(version, m, after, final);
    }
  }

  // ---- The layout in numbers ----

  /** The extension block of a hello with one server_name extension, of type 0, holding one entry, of
      kind 0: each length counts what follows it. */
  function PlainBlock(name: bytes): bytes
    requires |name| <= 200
  {
    [0, |name| + 9, 0, 0, 0, |name| + 5, 0, |name| + 3, 0, 0, |name|] + name
  }

  lemma ShortVector(v: bytes)
    requires |v| < 256
    ensures Bytes16(v) == [0, |v|] + v
  {
  }

  lemma PlainNames(name: bytes)
    requires 2 <= |name| <= 200
    ensures ValidNames(NameList(name, [], []))
    ensures NamesBytes(NameList(name, [], [])) == [0, |name| + 3, 0, 0, |name|] + name
  {
    ShortVector(name);
    var list := [0, 0, |name|] + name;
    assert [0] + Bytes16(name) + [] == list;
    ShortVector(list);
    assert NamesBytes(NameList(name, [], [])) == [0, |name| + 3] + list + [];
  }

  lemma PlainExtension(data: bytes)
    requires |data| < 250
    ensures ExtensionBytes(Extension(0, data)) == [0, 0, 0, |data|] + data
  {
    ShortVector(data);
  }

  lemma PlainBlockBytes(name: bytes)
    requires |name| <= 200
    ensures [0, |name| + 9] + ([0, 0, 0, |name| + 5] + ([0, |name| + 3, 0, 0, |name|] + name)) == PlainBlock(name)
  {
  }

  lemma PlainBlockIsDerived(name: bytes) returns (b: Block)
    requires 2 <= |name| <= 200
    ensures ValidBlock(b) && BlockBytes(b) == PlainBlock(name) && Meaning(b) == Named(name)
  {
    PlainNames(name);
    var data := [0, |name| + 3, 0, 0, |name|] + name;
    PlainExtension(data);
    var ext := [0, 0, 0, |name| + 5] + data;
    b := WithName([], NameList(name, [], []), [], []);
    assert Tail(b) == ext;
    assert Inner(b) == ext;
    ShortVector(ext);
    PlainBlockBytes(name);
  }

  /** A version 1.2 hello with one cipher suite, no session and no compression. */
  function PlainHello(random: bytes, name: bytes): bytes
    requires |random| == 32 && |name| <= 200
  {
    [3, 3] + random + [0, 0, 2, 19, 1, 1, 0] + PlainBlock(name)
  }

  lemma PlainFields()
    ensures Bytes8([]) == [0] && Bytes16([19, 1]) == [0, 2, 19, 1] && Bytes8([0]) == [1, 0]
  {
  }

  lemma PlainHelloBytes(front: bytes, block: bytes)
    ensures front + ([0] + ([0, 2, 19, 1] + ([1, 0] + block))) == front + [0, 0, 2, 19, 1, 1, 0] + block
  {
  }

  lemma PlainHelloIsDerived(random: bytes, name: bytes) returns (h: Hello)
    requires |random| == 32 && 2 <= |name| <= 200
    ensures ValidHello(h) && HelloBytes(h) == PlainHello(random, name) && Meaning(h.block) == Named(name)
  {
    var b := PlainBlockIsDerived(name);
    h := Hello([3, 3] + random, [], [19, 1], [0], b);
    PlainFields();
    PlainHelloBytes([3, 3] + random, PlainBlock(name));
  }

  lemma ShortBE24(n: nat)
    requires n < 0x1_0000
    ensures [1] + BE24(n) == [1, 0, n / 256, n % 256]
  {
  }

  lemma PlainMessage(h: Hello, n: nat) returns (m: Message)
    requires ValidHello(h) && |HelloBytes(h)| == n < 0x1_0000
    ensures ValidMessage(m) && m.hello == h && MessageBytes(m) == [1, 0, n / 256, n % 256] + HelloBytes(h)
  {
    m := Message(h, []);
    ShortBE24(n);
    assert MessageBytes(m) == [1] + BE24(n) + HelloBytes(h);
  }

  lemma PlainRecord(hello: bytes, n: nat)
    requires |hello| == n < 16384
    ensures Record([3, 1], [1, 0, n / 256, n % 256] + hello) ==
            [22, 3, 1, (n + 4) / 256, (n + 4) % 256, 1, 0, n / 256, n % 256] + hello
  {
    var front, body := [22, 3, 1, (n + 4) / 256, (n + 4) % 256], [1, 0, n / 256, n % 256];
    assert [0x16] + [3, 1] + BE16(n + 4) == front;
    Regroup(front, body, hello);
    assert front + body == [22, 3, 1, (n + 4) / 256, (n + 4) % 256, 1, 0, n / 256, n % 256];
  }

  /** The least ClientHello a browser could send for a host, byte by byte, is found under that name: a
      handshake record (22) of a client hello (1), with every length written out. */
  lemma PlainRecordIsFound(random: bytes, name: bytes, after: bytes, final: ReadError)
    requires |random| == 32 && 2 <= |name| <= 200
    ensures var n := |name| + 52;
            var record := [22, 3, 1, (n + 4) / 256, (n + 4) % 256, 1, 0, n / 256, n % 256] + PlainHello(random, name);
            Peeked(record + after, final) == Peek(name, record, None, after)
  {
    var n := |name| + 52;
    var h := PlainHelloIsDerived(random, name);
    var m := PlainMessage(h, n);
    SerialisedHelloIsFound([3, 1], m, after, final);
    PlainRecord(PlainHello(random, name), n);
  }

  /** A server_name list holding one one-byte name is four bytes, and reads as no name. */
  lemma OneByteNameIsMissed(name: byte, slack: bytes)
    ensures ServerName(Bytes16([0] + Bytes16([name])) + slack) == Unnamed
  {
    Vector16Reads([0] + Bytes16([name]), slack);
  }
}
