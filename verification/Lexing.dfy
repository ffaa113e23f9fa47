/**
 * What one token of the pull parser is, as a function of the stream of read results.
 *
 * Every function consumes a prefix of its stream and returns the rest, so that the parser's loops
 * (module XmlDecoder) are steps of these recursions. An error inside a token takes the place of a byte.
 */
module Lexing {
  import opened Wrappers
  import opened Bytes

  /** xml.Name: in a raw token the space is the prefix, in an event it is the namespace. */
  datatype Name = Name(space: seq<Byte>, local: seq<Byte>)

  const NO_NAME := Name([], [])

  datatype Attr = Attr(name: Name, value: seq<Byte>)

  datatype Got = Got(b: Option<Byte>, err: Option<Error>, rest: seq<Item>)

  /** getc */
  function Getc(s: seq<Item>): (g: Got)
    ensures |g.rest| <= |s| && (g.b.Some? ==> |g.rest| < |s| && g.err.None?) && (g.b.None? ==> g.err.Some?)
  {
    if s == [] then Got(None, Some(EOF), [])
    else match s[0]
      case Data(b) => Got(Some(b), None, s[1..])
      case Fail(e) => Got(None, Some(e), s[1..])
  }

  /** mustNotEOF: the end of the input inside a token is a syntax error. */
  function MustNotEOF(err: Option<Error>): Option<Error> {
    if err == Some(EOF) then Some(Syntax) else err
  }

  predicate IsSpace(b: Byte) {
    b == ' ' || b == '\r' || b == '\n' || b == '\t'
  }

  predicate IsNameByte(b: Byte) {
    'A' <= b <= 'Z' || 'a' <= b <= 'z' || '0' <= b <= '9' || b == '_' || b == ':' || b == '.' || b == '-'
  }

  /** A byte that continues a name: every byte of a multi-byte character does. */
  predicate InName(b: Byte) {
    '\U{80}' <= b || IsNameByte(b)
  }

  /** What skipping spaces leaves, and the error it stopped at. A read error is swallowed by the next getc. */
  function SkipSpace(s: seq<Item>): (r: (seq<Item>, Option<Error>))
    ensures |r.0| <= |s|
  {
    var g := Getc(s);
    if g.b.None? then (g.rest, g.err)
    else if IsSpace(g.b.value) then SkipSpace(g.rest)
    else (s, None)
  }

  datatype NameScan = NameScan(ok: bool, run: seq<Byte>, err: Option<Error>, rest: seq<Item>)

  /** The rest of a name of which acc has been read. */
  function NameTail(s: seq<Item>, acc: seq<Byte>): (n: NameScan)
    ensures |n.rest| <= |s| && (n.ok || n.err.Some?) && acc <= n.run
  {
    var g := Getc(s);
    if g.b.None? then NameScan(false, acc, MustNotEOF(g.err), g.rest)
    else if !InName(g.b.value) then NameScan(true, acc, None, s)
    else
      assert acc <= acc + [g.b.value];
      NameTail(g.rest, acc + [g.b.value])
  }

  /** readName */
  function ReadName(s: seq<Item>): (n: NameScan)
    ensures |n.rest| <= |s| && (n.ok ==> |n.rest| < |s| && n.run != [])
  {
    var g := Getc(s);
    if g.b.None? then NameScan(false, [], MustNotEOF(g.err), g.rest)
    else if !InName(g.b.value) then NameScan(false, [], None, s)
    else NameTail(g.rest, [g.b.value])
  }

  /** The index of the first colon, or the length. */
  function Colon(s: seq<Byte>): (i: nat)
    ensures i <= |s| && ':' !in s[..i] && (i < |s| ==> s[i] == ':')
  {
    if s == [] || s[0] == ':' then 0
    else
      var i := 1 + Colon(s[1..]);
      assert s[..i] == [s[0]] + s[1..][..i - 1];
      i
  }

  /** nsname: the part before the first colon is the prefix. */
  function SplitName(s: seq<Byte>): Name {
    var i := Colon(s);
    if i == |s| then Name([], s) else Name(s[..i], s[i + 1..])
  }

  /** The five entities every parser must know. */
  function NamedEntity(name: seq<Byte>): Option<seq<Byte>> {
    if name == "lt" then Some("<")
    else if name == "gt" then Some(">")
    else if name == "amp" then Some("&")
    else if name == "apos" then Some("'")
    else if name == "quot" then Some("\"")
    else None
  }

  predicate IsDigit(b: Byte, base: nat) {
    '0' <= b <= '9' || (base == 16 && ('a' <= b <= 'f' || 'A' <= b <= 'F'))
  }

  function DigitValue(b: Byte): nat
    requires IsDigit(b, 16)
  {
    if b <= '9' then b as int - '0' as int
    else if b <= 'F' then b as int - 'A' as int + 10
    else b as int - 'a' as int + 10
  }

  /** Decoded text, or the error that stopped decoding. */
  datatype TextScan = TextScan(text: Option<seq<Byte>>, err: Option<Error>, rest: seq<Item>)

  const MAX_RUNE: nat := 0x10FFFF

  /** The digits of a numeric reference, once n digits worth value have been read. */
  function Digits(base: nat, s: seq<Item>, n: nat, value: nat): (t: TextScan)
    ensures |t.rest| <= |s| && (t.text.Some? ==> |t.rest| < |s| && t.err.None?) && (t.text.None? ==> t.err.Some?)
  {
    var g := Getc(s);
    if g.b.None? then TextScan(None, MustNotEOF(g.err), g.rest)
    else if IsDigit(g.b.value, base) then Digits(base, g.rest, n + 1, base * value + DigitValue(g.b.value))
    else if g.b.value != ';' then TextScan(None, Some(Syntax), s)
    else if n == 0 || MAX_RUNE < value then TextScan(None, Some(Syntax), g.rest)
    else TextScan(Some(EncodeRune(value)), None, g.rest)
  }

  /** A numeric reference, after its number sign. */
  function NumericReference(s: seq<Item>): (t: TextScan)
    ensures |t.rest| <= |s| && (t.text.Some? ==> |t.rest| < |s| && t.err.None?) && (t.text.None? ==> t.err.Some?)
  {
    var g := Getc(s);
    if g.b.None? then TextScan(None, MustNotEOF(g.err), g.rest)
    else if g.b.value == 'x' then Digits(16, g.rest, 0, 0)
    else Digits(10, s, 0, 0)
  }

  /** A reference, after its ampersand. */
  function Reference(s: seq<Item>): (t: TextScan)
    ensures |t.rest| <= |s| && (t.text.Some? ==> |t.rest| < |s| && t.err.None?) && (t.text.None? ==> t.err.Some?)
  {
    var g := Getc(s);
    if g.b.None? then TextScan(None, MustNotEOF(g.err), g.rest)
    else if g.b.value == '#' then NumericReference(g.rest)
    else
      var n := ReadName(s);
      if !n.ok && n.err.Some? then TextScan(None, n.err, n.rest)
      else
        var h := Getc(n.rest);
        if h.b.None? then TextScan(None, MustNotEOF(h.err), h.rest)
        else if h.b.value != ';' then TextScan(None, Some(Syntax), n.rest)
        else if NamedEntity(n.run).None? then TextScan(None, Some(Syntax), h.rest)
        else TextScan(NamedEntity(n.run), None, h.rest)
  }

  /**
   * Character data, or an attribute value up to its quote, of which acc has been read; before is the byte read last.
   * A read error ends the text but does not lose it: it is reported beside the data.
   */
  function Text(quote: Option<Byte>, s: seq<Item>, acc: seq<Byte>, before: Byte): (t: TextScan)
    ensures |t.rest| <= |s| && (t.text.None? ==> t.err.Some?)
    decreases |s|
  {
    var g := Getc(s);
    if g.b.None? then TextScan(Some(acc), g.err, g.rest)
    else
      var b := g.b.value;
      if b == '<' then
        if quote.Some? then TextScan(None, Some(Syntax), g.rest) else TextScan(Some(acc), None, s)
      else if quote == Some(b) then TextScan(Some(acc), None, g.rest)
      else if b == '&' then
        var r := Reference(g.rest);
        if r.text.None? then r else Text(quote, r.rest, acc + r.text.value, '\0')
      else if b == '\r' then Text(quote, g.rest, acc + ['\n'], b)
      else if before == '\r' && b == '\n' then Text(quote, g.rest, acc, b)
      else Text(quote, g.rest, acc + [b], b)
  }

  /** attrval */
  function AttrValue(s: seq<Item>): (t: TextScan)
    ensures |t.rest| <= |s| && (t.text.None? ==> t.err.Some?)
  {
    var g := Getc(s);
    if g.b.None? then TextScan(None, MustNotEOF(g.err), g.rest)
    else if g.b.value == '"' || g.b.value == '\'' then Text(g.b, g.rest, [], '\0')
    else TextScan(None, Some(Syntax), g.rest)
  }

  /** A token as it is written: names carry prefixes, and empty tells a self-closing start. */
  datatype RawToken =
    | Chars(data: seq<Byte>)
    | Start(name: Name, attrs: seq<Attr>, empty: bool)
    | End(name: Name)
    | Instruction
    | Broken

  /** A token, the error left behind (beside text, or instead of a token), and what is left to read. */
  datatype Lexed = Lexed(tok: RawToken, err: Option<Error>, rest: seq<Item>)

  /** One attribute, the error left behind, and what is left to read. */
  function OneAttr(s: seq<Item>): (a: (Option<Attr>, Option<Error>, seq<Item>))
    ensures |a.2| <= |s| && (a.0.None? ==> a.1.Some?) && (a.0.Some? ==> |a.2| < |s|)
  {
    var n := ReadName(s);
    if !n.ok then (None, if n.err.None? then Some(Syntax) else n.err, n.rest)
    else
      var h := Getc(SkipSpace(n.rest).0);
      if h.b.None? then (None, MustNotEOF(h.err), h.rest)
      else if h.b.value != '=' then (None, Some(Syntax), h.rest)
      else
        var v := AttrValue(SkipSpace(h.rest).0);
        if v.text.None? then (None, v.err, v.rest) else (Some(Attr(SplitName(n.run), v.text.value)), v.err, v.rest)
  }

  /** The attributes and the end of a start tag, of which acc has been read. */
  function StartTail(s: seq<Item>, name: Name, acc: seq<Attr>): (l: Lexed)
    ensures |l.rest| <= |s| && (l.tok.Broken? <==> l.err.Some?) && (l.tok.Broken? || l.tok.Start?)
    decreases |s|
  {
    var s1 := SkipSpace(s).0;
    var g := Getc(s1);
    if g.b.None? then Lexed(Broken, MustNotEOF(g.err), g.rest)
    else if g.b.value == '/' then
      var h := Getc(g.rest);
      if h.b.None? then Lexed(Broken, MustNotEOF(h.err), h.rest)
      else if h.b.value != '>' then Lexed(Broken, Some(Syntax), h.rest)
      else Lexed(Start(name, acc, true), None, h.rest)
    else if g.b.value == '>' then Lexed(Start(name, acc, false), None, g.rest)
    else
      var a := OneAttr(s1);
      if a.0.None? then Lexed(Broken, a.1, a.2) else StartTail(a.2, name, acc + [a.0.value])
  }

  /** A processing instruction after its target; before is the byte read last. */
  function InstructionTail(s: seq<Item>, before: Byte): (l: Lexed)
    ensures |l.rest| <= |s| && (l.tok.Broken? <==> l.err.Some?) && (l.tok.Broken? || l.tok.Instruction?)
  {
    var g := Getc(s);
    if g.b.None? then Lexed(Broken, MustNotEOF(g.err), g.rest)
    else if before == '?' && g.b.value == '>' then Lexed(Instruction, None, g.rest)
    else InstructionTail(g.rest, g.b.value)
  }

  /** A processing instruction, after its question mark. */
  function ProcInst(s: seq<Item>): (l: Lexed)
    ensures |l.rest| <= |s| && (l.tok.Broken? <==> l.err.Some?) && (l.tok.Broken? || l.tok.Instruction?)
  {
    var n := ReadName(s);
    if !n.ok then Lexed(Broken, if n.err.None? then Some(Syntax) else n.err, n.rest)
    else InstructionTail(SkipSpace(n.rest).0, '\0')
  }

  /** An end tag, after its slash. */
  function EndTag(s: seq<Item>): (l: Lexed)
    ensures |l.rest| <= |s| && (l.tok.Broken? <==> l.err.Some?) && (l.tok.Broken? || l.tok.End?)
  {
    var n := ReadName(s);
    if !n.ok then Lexed(Broken, if n.err.None? then Some(Syntax) else n.err, n.rest)
    else
      var h := Getc(SkipSpace(n.rest).0);
      if h.b.None? then Lexed(Broken, MustNotEOF(h.err), h.rest)
      else if h.b.value != '>' then Lexed(Broken, Some(Syntax), h.rest)
      else Lexed(End(SplitName(n.run)), None, h.rest)
  }

  /** Markup, after its opening angle bracket. */
  function Markup(s: seq<Item>): (l: Lexed)
    ensures |l.rest| <= |s| && (l.tok.Broken? <==> l.err.Some?) && !l.tok.Chars?
  {
    var g := Getc(s);
    if g.b.None? then Lexed(Broken, MustNotEOF(g.err), g.rest)
    else if g.b.value == '/' then EndTag(g.rest)
    else if g.b.value == '?' then ProcInst(g.rest)
    else
      var n := ReadName(s);
      if !n.ok then Lexed(Broken, if n.err.None? then Some(Syntax) else n.err, n.rest)
      else StartTail(n.rest, SplitName(n.run), [])
  }

  /** The next token. Only between tokens is EOF reported as such. */
  function NextToken(s: seq<Item>): (l: Lexed)
    ensures l.tok.Broken? ==> l.err.Some?
    ensures !l.tok.Broken? && !l.tok.Chars? ==> l.err.None?
    ensures !l.tok.Broken? ==> |l.rest| < |s|
  {
    var g := Getc(s);
    if g.b.None? then Lexed(Broken, g.err, g.rest)
    else if g.b.value == '<' then Markup(g.rest)
    else
      var t := Text(None, s, [], '\0');
      TextShrinks(s);
      if t.text.None? then Lexed(Broken, t.err, t.rest) else Lexed(Chars(t.text.value), t.err, t.rest)
  }

  lemma TextShrinks(s: seq<Item>)
    requires Getc(s).b.Some? && Getc(s).b != Some('<')
    ensures |Text(None, s, [], '\0').rest| < |s|
  {
  }
}
