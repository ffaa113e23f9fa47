/**
 * Markup as others write it, with the choices XML leaves them: either quote, references by name or number, line ends of
 * three kinds, and white space in tags. Each token is read as what it stands for.
 */
module Grammar {
  import opened Wrappers
  import opened Bytes
  import opened Lexing
  import opened PrintedLexing
  import opened References

  // ---- Bytes ----

  /** By their ASCII codes: letters, digits, and four signs; and all bytes of multi-byte characters. */
  lemma NameBytes(b: Byte)
    ensures var n := b as int;
            InName(b) <==> 0x80 <= n || 0x41 <= n <= 0x5A || 0x61 <= n <= 0x7A || 0x30 <= n <= 0x39
                           || n in {0x2D, 0x2E, 0x3A, 0x5F}
  {
  }

  predicate Blank(s: seq<Byte>) {
    forall c <- s :: c in {' ', '\t', '\r', '\n'}
  }

  predicate Named(s: seq<Byte>) {
    s != [] && forall c <- s :: InName(c)
  }

  /** Something that is no white space follows. */
  predicate Solid(s: seq<Item>) {
    Getc(s).b.Some? && !Blank([Getc(s).b.value])
  }

  lemma {:induction false} SkipBlank(w: seq<Byte>, rest: seq<Item>)
    requires Blank(w) && Solid(rest)
    ensures SkipSpace(Deliver(w, None, rest)) == (rest, None)
    decreases |w|
  {
    if w == [] {
      assert Getc(rest).b.value in [Getc(rest).b.value];
    } else {
      assert w[0] in w && forall c <- w[1..] :: c in w;
      GetcDeliver(w, rest);
      SkipBlank(w[1..], rest);
    }
  }

  // ---- Text ----

  /** A piece of text: a byte, an entity, a number with the text of its character, or a line end. */
  datatype Piece =
    | Plain(b: Byte)
    | ByName(e: Entity)
    | ByNumber(hex: bool, digits: seq<Byte>, values: seq<nat>, text: seq<Byte>)
    | Cr
    | CrLf

  function Write(p: Piece): seq<Byte> {
    match p
    case Plain(b) => [b]
    case ByName(e) => "&" + (e.Name() + ";")
    case ByNumber(hex, digits, _, _) => "&" + Numeric(hex, digits)
    case Cr => "\r"
    case CrLf => "\r\n"
  }

  function Stands(p: Piece): seq<Byte> {
    match p
    case Plain(b) => [b]
    case ByName(e) => [e.Char()]
    case ByNumber(_, _, _, text) => text
    case Cr => "\n"
    case CrLf => "\n"
  }

  /** A piece between these quotes, or between tags. */
  predicate PieceOk(quote: Option<Byte>, p: Piece) {
    match p
    case Plain(b) => b !in {'<', '&', '\r'} && Some(b) != quote
    case ByName(_) => true
    case ByNumber(hex, digits, values, text) =>
      && digits != [] && Digital(if hex then 16 else 10, digits, values)
      && var n := PlaceValue(if hex then 16 else 10, values);
      n <= 0x10FFFF && DecodeRune(text) == Some(if Surrogate(n) then 0xFFFD else n)
    case Cr => true
    case CrLf => true
  }

  /** A carriage return and a line feed after it are one line end. */
  predicate PiecesOk(quote: Option<Byte>, ps: seq<Piece>)
    decreases |ps|
  {
    ps == [] ||
    (PieceOk(quote, ps[0]) && (ps[0] == Cr && |ps| > 1 ==> ps[1] != Plain('\n')) && PiecesOk(quote, ps[1..]))
  }

  function WriteAll(ps: seq<Piece>): seq<Byte> {
    if ps == [] then [] else Write(ps[0]) + WriteAll(ps[1..])
  }

  function StandsAll(ps: seq<Piece>): seq<Byte> {
    if ps == [] then [] else Stands(ps[0]) + StandsAll(ps[1..])
  }

  function Last(p: Piece): Byte {
    match p
    case Plain(b) => b
    case ByName(_) => '\0'
    case ByNumber(_, _, _, _) => '\0'
    case Cr => '\r'
    case CrLf => '\n'
  }

  lemma ReadPiece(quote: Option<Byte>, p: Piece, rest: seq<Item>, acc: seq<Byte>, before: Byte)
    requires quote in {None, Some('"'), Some('\'')} && PieceOk(quote, p) && (before == '\r' ==> p != Plain('\n'))
    ensures Text(quote, Deliver(Write(p), None, rest), acc, before) == Text(quote, rest, acc + Stands(p), Last(p))
  {
    match p
    case Plain(b) => GetcOne(b, rest);
    case ByName(e) =>
      DeliverAppend("&", e.Name() + ";", None, rest);
      EntityMeans(e, rest);
      ReadReferred(quote, e.Name() + ";", [e.Char()], rest, acc, before);
    case ByNumber(hex, digits, values, text) =>
      DeliverAppend("&", Numeric(hex, digits), None, rest);
      NumericText(hex, digits, values, text, rest);
      ReadReferred(quote, Numeric(hex, digits), text, rest, acc, before);
    case Cr => GetcOne('\r', rest);
    case CrLf => ReadCrLf(quote, rest, acc, before);
  }

  lemma ReadReferred(quote: Option<Byte>, ref: seq<Byte>, text: seq<Byte>, rest: seq<Item>, acc: seq<Byte>,
      before: Byte)
    requires quote in {None, Some('"'), Some('\'')}
    requires Reference(Deliver(ref, None, rest)) == TextScan(Some(text), None, rest)
    ensures Text(quote, Deliver("&", None, Deliver(ref, None, rest)), acc, before)
        == Text(quote, rest, acc + text, '\0')
  {
    GetcOne('&', Deliver(ref, None, rest));
  }

  lemma ReadCrLf(quote: Option<Byte>, rest: seq<Item>, acc: seq<Byte>, before: Byte)
    requires quote in {None, Some('"'), Some('\'')}
    ensures Text(quote, Deliver("\r\n", None, rest), acc, before) == Text(quote, rest, acc + "\n", '\n')
  {
    var s := Deliver("\n", None, rest);
    DeliverAppend("\r", "\n", None, rest);
    assert "\r" + "\n" == "\r\n";
    GetcOne('\r', s);
    GetcOne('\n', rest);
  }

  lemma NumericText(hex: bool, digits: seq<Byte>, values: seq<nat>, text: seq<Byte>, rest: seq<Item>)
    requires PieceOk(None, ByNumber(hex, digits, values, text))
    ensures Reference(Deliver(Numeric(hex, digits), None, rest)) == TextScan(Some(text), None, rest)
  {
    NumericMeans(hex, digits, values, rest);
    var t := Reference(Deliver(Numeric(hex, digits), None, rest));
    RuneUnique(text, t.text.value);
  }

  /** Text is read as what its pieces stand for. */
  lemma {:induction false} ReadPieces(quote: Option<Byte>, ps: seq<Piece>, rest: seq<Item>, acc: seq<Byte>,
      before: Byte)
      returns (last: Byte)
    requires quote in {None, Some('"'), Some('\'')} && PiecesOk(quote, ps)
    requires before == '\r' && ps != [] ==> ps[0] != Plain('\n')
    ensures Text(quote, Deliver(WriteAll(ps), None, rest), acc, before) == Text(quote, rest, acc + StandsAll(ps), last)
    decreases |ps|
  {
    if ps == [] {
      assert acc + [] == acc;
      return before;
    }
    var more := Deliver(WriteAll(ps[1..]), None, rest);
    DeliverAppend(Write(ps[0]), WriteAll(ps[1..]), None, rest);
    ReadPiece(quote, ps[0], more, acc, before);
    last := ReadPieces(quote, ps[1..], rest, acc + Stands(ps[0]), Last(ps[0]));
    Assoc(acc, Stands(ps[0]), StandsAll(ps[1..]));
  }

  /** A quoted value, in either quote. */
  lemma ReadQuoted(quote: Byte, ps: seq<Piece>, rest: seq<Item>)
    requires quote in {'"', '\''} && PiecesOk(Some(quote), ps)
    ensures AttrValue(Deliver([quote], None, Deliver(WriteAll(ps), None, Deliver([quote], None, rest))))
         == TextScan(Some(StandsAll(ps)), None, rest)
  {
    var end := Deliver([quote], None, rest);
    GetcOne(quote, Deliver(WriteAll(ps), None, end));
    GetcOne(quote, rest);
    var last := ReadPieces(Some(quote), ps, end, [], '\0');
    assert [] + StandsAll(ps) == StandsAll(ps);
  }

  lemma PieceHead(p: Piece)
    requires PieceOk(None, p)
    ensures Write(p) != [] && Write(p)[0] != '<'
  {
  }

  /** Text up to a tag. */
  lemma TextMeans(ps: seq<Piece>, rest: seq<Item>)
    requires ps != [] && PiecesOk(None, ps) && Getc(rest).b == Some('<')
    ensures NextToken(Deliver(WriteAll(ps), None, rest)) == Lexed(Chars(StandsAll(ps)), None, rest)
  {
    PieceHead(ps[0]);
    GetcDeliver(WriteAll(ps), rest);
    var last := ReadPieces(None, ps, rest, [], '\0');
    assert [] + StandsAll(ps) == StandsAll(ps);
  }

  // ---- Tags ----

  /** An attribute, with the white space before it and around its equals sign. */
  datatype Written = Written(before: seq<Byte>, name: seq<Byte>, left: seq<Byte>, right: seq<Byte>, quote: Byte,
                             value: seq<Piece>)

  predicate WrittenOk(a: Written) {
    && a.before != [] && Blank(a.before) && Named(a.name) && Blank(a.left) && Blank(a.right)
    && a.quote in {'"', '\''} && PiecesOk(Some(a.quote), a.value)
  }

  predicate AllOk(attrs: seq<Written>) {
    forall a <- attrs :: WrittenOk(a)
  }

  /** The bytes of an attribute in front of others. */
  function Put(a: Written, rest: seq<Item>): seq<Item> {
    Deliver(a.before, None, Deliver(a.name, None, Deliver(a.left, None, Deliver("=", None, Deliver(a.right, None,
      Deliver([a.quote], None, Deliver(WriteAll(a.value), None, Deliver([a.quote], None, rest))))))))
  }

  function PutAll(attrs: seq<Written>, rest: seq<Item>): seq<Item>
    decreases |attrs|
  {
    if attrs == [] then rest else Put(attrs[0], PutAll(attrs[1..], rest))
  }

  function Meant(attrs: seq<Written>): (r: seq<Attr>)
    ensures |r| == |attrs|
    ensures forall i :: 0 <= i < |r| ==> r[i] == Attr(SplitName(attrs[i].name), StandsAll(attrs[i].value))
  {
    seq(|attrs|, i requires 0 <= i < |attrs| => Attr(SplitName(attrs[i].name), StandsAll(attrs[i].value)))
  }

  lemma BlankEnds(w: seq<Byte>, rest: seq<Item>)
    requires Blank(w) && Getc(rest).b.Some? && !InName(Getc(rest).b.value)
    ensures Getc(Deliver(w, None, rest)).b.Some? && !InName(Getc(Deliver(w, None, rest)).b.value)
  {
    if w != [] {
      assert w[0] in w;
      GetcDeliver(w, rest);
    }
  }

  lemma SolidByte(b: Byte, rest: seq<Item>)
    requires !Blank([b])
    ensures Solid(Deliver([b], None, rest)) && Getc(Deliver([b], None, rest)) == Got(Some(b), None, rest)
  {
    GetcOne(b, rest);
  }

  lemma SolidName(w: seq<Byte>, rest: seq<Item>)
    requires Named(w)
    ensures Solid(Deliver(w, None, rest)) && InName(Getc(Deliver(w, None, rest)).b.value)
  {
    GetcDeliver(w, rest);
    assert w[0] in w && [w[0]][0] == w[0];
    assert w[0] in [w[0]];
  }

  lemma ReadAttr(a: Written, rest: seq<Item>)
    requires WrittenOk(a)
    ensures OneAttr(Deliver(a.name, None, Deliver(a.left, None, Deliver("=", None, Deliver(a.right, None,
              Deliver([a.quote], None, Deliver(WriteAll(a.value), None, Deliver([a.quote], None, rest))))))))
         == (Some(Attr(SplitName(a.name), StandsAll(a.value))), None, rest)
  {
    var value := Deliver([a.quote], None, Deliver(WriteAll(a.value), None, Deliver([a.quote], None, rest)));
    var equals := Deliver("=", None, Deliver(a.right, None, value));
    ReadQuoted(a.quote, a.value, rest);
    IsSolid('=');
    IsSolid(a.quote);
    SolidByte('=', Deliver(a.right, None, value));
    SolidByte(a.quote, Deliver(WriteAll(a.value), None, Deliver([a.quote], None, rest)));
    SkipBlank(a.right, value);
    SkipBlank(a.left, equals);
    BlankEnds(a.left, equals);
    ReadWholeName(a.name, Deliver(a.left, None, equals));
  }

  lemma IsSolid(b: Byte)
    requires b !in {' ', '\t', '\r', '\n'}
    ensures !Blank([b])
  {
    assert b in [b];
  }

  lemma {:induction false} ReadAttrs(attrs: seq<Written>, name: Name, acc: seq<Attr>, rest: seq<Item>)
    requires AllOk(attrs)
    ensures StartTail(PutAll(attrs, rest), name, acc) == StartTail(rest, name, acc + Meant(attrs))
    decreases |attrs|
  {
    if attrs == [] {
      assert acc + Meant(attrs) == acc;
    } else {
      var a, more := attrs[0], PutAll(attrs[1..], rest);
      assert a in attrs && forall b <- attrs[1..] :: b in attrs;
      NextAttr(a, name, acc, more);
      ReadAttrs(attrs[1..], name, acc + [Attr(SplitName(a.name), StandsAll(a.value))], rest);
      MeantHead(attrs);
      Assoc(acc, [Attr(SplitName(a.name), StandsAll(a.value))], Meant(attrs[1..]));
    }
  }

  lemma MeantHead(attrs: seq<Written>)
    requires attrs != []
    ensures Meant(attrs) == [Attr(SplitName(attrs[0].name), StandsAll(attrs[0].value))] + Meant(attrs[1..])
  {
  }

  lemma NextAttr(a: Written, name: Name, acc: seq<Attr>, rest: seq<Item>)
    requires WrittenOk(a)
    ensures StartTail(Put(a, rest), name, acc)
         == StartTail(rest, name, acc + [Attr(SplitName(a.name), StandsAll(a.value))])
  {
    var s := Deliver(a.left, None, Deliver("=", None, Deliver(a.right, None,
      Deliver([a.quote], None, Deliver(WriteAll(a.value), None, Deliver([a.quote], None, rest))))));
    ReadAttr(a, rest);
    SolidName(a.name, s);
    SkipBlank(a.before, Deliver(a.name, None, s));
  }

  /** A start tag is read as its name and attributes, whatever white space and quotes it is written with. */
  lemma StartMeans(name: seq<Byte>, attrs: seq<Written>, space: seq<Byte>, closed: bool, rest: seq<Item>)
    requires Named(name) && AllOk(attrs) && Blank(space)
    ensures NextToken(Deliver("<", None, Deliver(name, None, PutAll(attrs,
              Deliver(space, None, Deliver(if closed then "/>" else ">", None, rest))))))
         == Lexed(Start(SplitName(name), Meant(attrs), closed), None, rest)
  {
    var tail := Deliver(space, None, Deliver(if closed then "/>" else ">", None, rest));
    var s := PutAll(attrs, tail);
    TailMeans(SplitName(name), Meant(attrs), space, closed, rest);
    ReadAttrs(attrs, SplitName(name), [], tail);
    assert [] + Meant(attrs) == Meant(attrs);
    AttrsEnd(attrs, tail);
    GetcOne('<', Deliver(name, None, s));
    SolidName(name, s);
    ReadWholeName(name, s);
    GetcDeliver(name, s);
    assert name[0] in name;
  }

  lemma AttrsEnd(attrs: seq<Written>, tail: seq<Item>)
    requires AllOk(attrs) && Getc(tail).b.Some? && !InName(Getc(tail).b.value)
    ensures Getc(PutAll(attrs, tail)).b.Some? && !InName(Getc(PutAll(attrs, tail)).b.value)
  {
    if attrs != [] {
      var a := attrs[0];
      assert a in attrs && a.before[0] in a.before;
      var s := Deliver(a.name, None, Deliver(a.left, None, Deliver("=", None, Deliver(a.right, None,
        Deliver([a.quote], None,
            Deliver(WriteAll(a.value), None, Deliver([a.quote], None, PutAll(attrs[1..], tail))))))));
      GetcDeliver(a.before, s);
    }
  }

  lemma TailMeans(name: Name, acc: seq<Attr>, space: seq<Byte>, closed: bool, rest: seq<Item>)
    requires Blank(space)
    ensures var tail := Deliver(space, None, Deliver(if closed then "/>" else ">", None, rest));
            && StartTail(tail, name, acc) == Lexed(Start(name, acc, closed), None, rest)
            && Getc(tail).b.Some? && !InName(Getc(tail).b.value)
  {
    var end := Deliver(if closed then "/>" else ">", None, rest);
    IsSolid('/');
    IsSolid('>');
    if closed {
      GetcDeliver("/>", rest);
      assert "/>"[1..] == ">";
    }
    GetcOne('>', rest);
    SkipBlank(space, end);
    BlankEnds(space, end);
  }

  /** An end tag, with white space before its bracket. */
  lemma EndMeans(name: seq<Byte>, space: seq<Byte>, rest: seq<Item>)
    requires Named(name) && Blank(space)
    ensures NextToken(Deliver("<", None, Deliver("/", None, Deliver(name, None,
              Deliver(space, None, Deliver(">", None, rest))))))
         == Lexed(End(SplitName(name)), None, rest)
  {
    var end := Deliver(">", None, rest);
    var s := Deliver(name, None, Deliver(space, None, end));
    GetcOne('<', Deliver("/", None, s));
    GetcOne('/', s);
    GetcOne('>', rest);
    IsSolid('>');
    SkipBlank(space, end);
    BlankEnds(space, end);
    ReadWholeName(name, Deliver(space, None, end));
  }

  /** The name before the first colon is the prefix; without a colon there is none. */
  lemma SplitAtColon(prefix: seq<Byte>, local: seq<Byte>)
    requires ':' !in prefix
    ensures SplitName(prefix + ":" + local) == Name(prefix, local)
    ensures SplitName(prefix) == Name([], prefix)
  {
    var s := prefix + ":" + local;
    assert s[|prefix|] == ':';
    forall i | 0 <= i < Colon(s) ensures s[i] != ':' {
      assert s[i] in s[..Colon(s)];
    }
    forall i | 0 <= i < |prefix| ensures s[i] != ':' {
      assert s[i] == prefix[i];
    }
    assert s[..|prefix|] == prefix && s[|prefix| + 1..] == local;
  }

  // ---- Processing instructions ----

  /** No question mark with an angle bracket behind it, also not after the byte before. */
  predicate Unended(before: Byte, s: seq<Byte>)
    decreases |s|
  {
    s != [] ==> !(before == '?' && s[0] == '>') && Unended(s[0], s[1..])
  }

  lemma {:induction false} BodyEnds(before: Byte, body: seq<Byte>, rest: seq<Item>)
    requires Unended(before, body)
    ensures InstructionTail(Deliver(body, None, Deliver("?>", None, rest)), before) == Lexed(Instruction, None, rest)
    decreases |body|
  {
    var end := Deliver("?>", None, rest);
    if body == [] {
      GetcDeliver("?>", rest);
      assert "?>"[1..] == ">";
      GetcOne('>', rest);
    } else {
      GetcDeliver(body, end);
      BodyEnds(body[0], body[1..], rest);
    }
  }

  /** The instruction ends at the first question mark with an angle bracket behind it, and is skipped. */
  lemma InstructionMeans(target: seq<Byte>, space: seq<Byte>, body: seq<Byte>, rest: seq<Item>)
    requires Named(target) && Blank(space) && Unended('\0', body)
    requires body != [] ==> space != [] && !Blank(body[..1])
    ensures NextToken(Deliver("<?", None, Deliver(target, None, Deliver(space, None, Deliver(body, None,
              Deliver("?>", None, rest))))))
         == Lexed(Instruction, None, rest)
  {
    var end := Deliver("?>", None, rest);
    var tail := Deliver(body, None, end);
    var s := Deliver(target, None, Deliver(space, None, tail));
    GetcDeliver("<?", s);
    assert "<?"[1..] == "?";
    GetcOne('?', s);
    GetcDeliver("?>", rest);
    BodyStarts(body, end);
    SkipBlank(space, tail);
    AfterTarget(space, body, end);
    ReadWholeName(target, Deliver(space, None, tail));
    BodyEnds('\0', body, rest);
  }

  lemma BodyStarts(body: seq<Byte>, end: seq<Item>)
    requires Getc(end).b == Some('?') && (body != [] ==> !Blank(body[..1]))
    ensures Solid(Deliver(body, None, end))
  {
    if body == [] {
      IsSolid('?');
    } else {
      GetcDeliver(body, end);
      assert body[..1] == [body[0]];
    }
  }

  lemma AfterTarget(space: seq<Byte>, body: seq<Byte>, end: seq<Item>)
    requires Blank(space) && Getc(end).b == Some('?') && (body != [] ==> space != [])
    ensures var g := Getc(Deliver(space, None, Deliver(body, None, end)));
            g.b.Some? && !InName(g.b.value)
  {
    if space != [] {
      assert space[0] in space;
      GetcDeliver(space, Deliver(body, None, end));
    }
  }

  /** Comments, declarations and marked sections, and all else that starts with no name, are refused. */
  lemma OtherMarkup(b: Byte, rest: seq<Item>)
    requires !InName(b) && b !in {'/', '?'}
    ensures NextToken(Deliver("<", None, Deliver([b], None, rest))).err == Some(Syntax)
  {
    GetcOne('<', Deliver([b], None, rest));
    GetcOne(b, rest);
  }
}
