/**
 * The pull parser itself: it updates its buffer, its name cache, its prefix map and its linked stack in place,
 * one token at a time. Each method computes the function of the same name in Lexing, Namespaces or Events.
 */
module XmlDecoder {
  import opened Wrappers
  import opened Bytes
  import opened BufferedReader
  import opened Lexing
  import opened Namespaces
  import opened ElementStack
  import opened Events

  const DEFAULT_BUF_SIZE := 4096
  const NAME_CACHE_SIZE := 8

  /** A cache key: the bytes, zero-padded like the array they are copied into. */
  function CacheKey(b: seq<Byte>): (key: seq<Byte>)
    requires |b| <= NAME_CACHE_SIZE
    ensures |key| == NAME_CACHE_SIZE && b <= key
  {
    b + seq(NAME_CACHE_SIZE - |b|, _ => '\0')
  }

  /** The length of the name at the front of a cache key. */
  function NameLength(key: seq<Byte>): nat {
    if key == [] || !InName(key[0]) then 0 else 1 + NameLength(key[1..])
  }

  lemma {:induction false} NameLengthPadded(a: seq<Byte>, n: nat)
    requires forall c <- a :: InName(c)
    ensures NameLength(a + seq(n, _ => '\0')) == |a|
  {
    if a != [] {
      assert (a + seq(n, _ => '\0'))[1..] == a[1..] + seq(n, _ => '\0');
      NameLengthPadded(a[1..], n);
    }
  }

  /** A scanned name contains no zero byte, so its key determines it. */
  lemma CacheKeyInjective(a: seq<Byte>, b: seq<Byte>)
    requires |a| <= NAME_CACHE_SIZE && |b| <= NAME_CACHE_SIZE && CacheKey(a) == CacheKey(b)
    requires (forall c <- a :: InName(c)) && (forall c <- b :: InName(c))
    ensures a == b
  {
    NameLengthPadded(a, NAME_CACHE_SIZE - |a|);
    NameLengthPadded(b, NAME_CACHE_SIZE - |b|);
    assert a == CacheKey(a)[..|a|] && b == CacheKey(b)[..|b|];
  }

  lemma {:induction false} NameTailInName(s: seq<Item>, acc: seq<Byte>)
    requires forall c <- acc :: InName(c)
    ensures forall c <- NameTail(s, acc).run :: InName(c)
    decreases |s|
  {
    var g := Lexing.Getc(s);
    if g.b.Some? && InName(g.b.value) {
      NameTailInName(g.rest, acc + [g.b.value]);
    }
  }

  /** strconv.ParseUint on a run of digits, without its 64-bit limit, which lies above every code point. */
  function ParseDigits(s: seq<Byte>, base: nat): nat
    requires forall c <- s :: IsDigit(c, base) && IsDigit(c, 16)
  {
    if s == [] then 0 else base * ParseDigits(s[..|s| - 1], base) + DigitValue(s[|s| - 1])
  }

  lemma AppendByte(a: seq<Byte>, b: seq<Byte>, c: Byte)
    ensures a + b + [c] == a + (b + [c])
  {
  }

  class Decoder {
    const r: BufioReader
    const elems: Stack
    var names: map<seq<Byte>, seq<Byte>>
    var buf: seq<Byte>
    var needClose: bool
    var toClose: Name
    var ns: Prefixes
    var err: Option<Error>

    /** Every cached name is a scanned name under its own key. */
    ghost predicate CacheOk()
      reads this
    {
      forall key <- names :: |names[key]| <= NAME_CACHE_SIZE && CacheKey(names[key]) == key &&
          forall c <- names[key] :: InName(c)
    }

    ghost predicate Valid()
      reads this, r, r.buf, r.rd, elems, elems.nodes
    {
      r.Valid() && elems.Valid() && CacheOk()
    }

    /** The abstract state that Events reasons about. */
    ghost function Abs(): State
      reads this, r, elems
    {
      State(r.pending, Scope(ns, elems.entries), if needClose then Some(toClose) else None, err)
    }

    constructor (rd: Source)
      ensures Valid() && Abs() == Initial(Stream(rd.chunks, 0))
      ensures fresh(r) && fresh(r.buf) && fresh(elems) && elems.nodes == {} && r.rd == rd
    {
      r := new BufioReader(DEFAULT_BUF_SIZE, rd);
      elems := new Stack();
      names, buf, needClose, toClose, ns, err := map[], [], false, Name([], []), map[], None;
    }

    method Getc() returns (b: Byte, ok: bool)
      requires r.Valid()
      modifies this`err, r, r.buf, r.rd
      ensures r.Valid() && r.nextByte.None?
      ensures var g := Lexing.Getc(old(r.pending));
              r.pending == g.rest && err == g.err && ok == g.b.Some? && (ok ==> g.b == Some(b))
    {
      b, err := r.ReadByte();
      ok := err.None?;
    }

    /** Undoes the Getc that read b from the stream at. The pushback slot is always free. */
    method Ungetc(b: Byte, ghost at: seq<Item>)
      requires r.Valid() && r.nextByte.None?
      requires Lexing.Getc(at).b == Some(b) && Lexing.Getc(at).rest == r.pending
      modifies r
      ensures r.Valid() && r.pending == at
    {
      r.Unread(b);
      assert [Data(b)] + at[1..] == at;
    }

    method SetMustNotEOF()
      modifies this`err
      ensures err == MustNotEOF(old(err))
    {
      if err == Some(EOF) {
        err := Some(Syntax);
      }
    }

    method Space()
      requires r.Valid()
      modifies this`err, r, r.buf, r.rd
      ensures r.Valid()
      ensures (r.pending, err) == SkipSpace(old(r.pending))
    {
      while true
        invariant r.Valid() && SkipSpace(r.pending) == SkipSpace(old(r.pending))
        decreases |r.pending|
      {
        ghost var at := r.pending;
        var b, ok := Getc();
        if !ok { return; }
        if !IsSpace(b) {
          Ungetc(b, at);
          return;
        }
      }
    }

    method ReadName() returns (ok: bool)
      requires r.Valid()
      modifies this`err, this`buf, r, r.buf, r.rd
      ensures r.Valid()
      ensures var n := Lexing.ReadName(old(r.pending));
              ok == n.ok && r.pending == n.rest && err == n.err && buf == old(buf) + n.run
    {
      ghost var at := r.pending;
      var b;
      b, ok := Getc();
      if !ok {
        SetMustNotEOF();
        return;
      }
      if !InName(b) {
        Ungetc(b, at);
        return false;
      }
      buf := buf + [b];
      ghost var acc := [b];
      while true
        invariant r.Valid() && buf == old(buf) + acc
        invariant NameTail(r.pending, acc) == Lexing.ReadName(old(r.pending))
        decreases |r.pending|
      {
        at := r.pending;
        b, ok := Getc();
        if !ok {
          SetMustNotEOF();
          return;
        }
        if !InName(b) {
          Ungetc(b, at);
          return true;
        }
        AppendByte(old(buf), acc, b);
        buf, acc := buf + [b], acc + [b];
      }
    }

    /** Reads a name, through the fast paths and the cache. What it returns is exactly the bytes scanned. */
    method ScanName() returns (s: seq<Byte>, ok: bool)
      requires r.Valid() && CacheOk()
      modifies this`err, this`buf, this`names, r, r.buf, r.rd
      ensures r.Valid() && CacheOk()
      ensures var n := Lexing.ReadName(old(r.pending));
              ok == n.ok && s == (if ok then n.run else []) && r.pending == n.rest && err == n.err
    {
      buf := [];
      ghost var n := Lexing.ReadName(r.pending);
      ghost var g := Lexing.Getc(r.pending);
      NameTailInName(g.rest, if g.b.Some? && InName(g.b.value) then [g.b.value] else []);
      ok := ReadName();
      if !ok {
        return [], false;
      }
      var b := buf;
      assert b == n.run;
      if |b| == 1 {
        if b[0] == 'x' { return "x", true; }
        if b[0] == 'y' { return "y", true; }
        if b[0] == 'z' { return "z", true; }
        if b[0] == 'u' { return "u", true; }
        if b[0] == 'v' { return "v", true; }
      } else if |b| == 2 {
        if b[0] == 'v' {
          if b[1] == '1' { return "v1", true; }
          if b[1] == '2' { return "v2", true; }
          if b[1] == '3' { return "v3", true; }
        } else if b[0] == 'p' {
          if b[1] == '1' { return "p1", true; }
          if b[1] == '2' { return "p2", true; }
          if b[1] == '3' { return "p3", true; }
        }
      } else if b == "vertex" {
        return "vertex", true;
      } else if b == "triangle" {
        return "triangle", true;
      } else if b == "pid" {
        return "pid", true;
      } else if b == "color" {
        return "color", true;
      }
      if |b| <= NAME_CACHE_SIZE {
        var key := CacheKey(b);
        if key in names {
          CacheKeyInjective(b, names[key]);
          return names[key], true;
        }
      }
      if |b| <= NAME_CACHE_SIZE {
        names := names[CacheKey(b) := b];
      }
      s := b;
    }

    method NsName() returns (name: Name, ok: bool)
      requires r.Valid() && CacheOk()
      modifies this`err, this`buf, this`names, r, r.buf, r.rd
      ensures r.Valid() && CacheOk()
      ensures var n := Lexing.ReadName(old(r.pending));
              ok == n.ok && (ok ==> name == SplitName(n.run)) && r.pending == n.rest && err == n.err
    {
      var s;
      s, ok := ScanName();
      name := if ok then SplitName(s) else Name([], []);
    }

    lemma DigitsNext(base: nat, here: seq<Item>, digits: seq<Byte>, b: Byte)
      requires Lexing.Getc(here).b == Some(b) && IsDigit(b, base) && base in {10, 16}
      requires forall c <- digits :: IsDigit(c, base) && IsDigit(c, 16)
      ensures forall c <- digits + [b] :: IsDigit(c, base) && IsDigit(c, 16)
      ensures Digits(base, here, |digits|, ParseDigits(digits, base))
           == Digits(base, Lexing.Getc(here).rest, |digits + [b]|, ParseDigits(digits + [b], base))
    {
      assert (digits + [b])[..|digits|] == digits;
    }

    /** The digits of a numeric reference and its semicolon, after the first byte b of them. */
    method ReadDigits(first: Byte, base: nat, ghost at: seq<Item>) returns (text: Option<seq<Byte>>)
      requires r.Valid() && r.nextByte.None? && base in {10, 16} && err.None?
      requires Lexing.Getc(at).b == Some(first) && Lexing.Getc(at).rest == r.pending
      modifies this`err, this`buf, r, r.buf, r.rd
      ensures r.Valid() && old(buf) <= buf
      ensures TextScan(text, err, r.pending) == Digits(base, at, 0, 0)
    {
      var b, ok := first, true;
      ghost var here := at;
      ghost var was := buf;
      var digits: seq<Byte> := [];
      while IsDigit(b, base)
        invariant r.Valid() && r.nextByte.None? && err.None? && was <= buf
        invariant Lexing.Getc(here).b == Some(b) && Lexing.Getc(here).rest == r.pending
        invariant forall c <- digits :: IsDigit(c, base) && IsDigit(c, 16)
        invariant Digits(base, here, |digits|, ParseDigits(digits, base)) == Digits(base, at, 0, 0)
        decreases |here|
      {
        DigitsNext(base, here, digits, b);
        buf, digits := buf + [b], digits + [b];
        here := r.pending;
        b, ok := Getc();
        if !ok {
          SetMustNotEOF();
          return None;
        }
      }
      text := EndDigits(b, digits, base, here);
    }

    /** What follows the digits, from the byte b on. */
    method EndDigits(b: Byte, digits: seq<Byte>, base: nat, ghost here: seq<Item>) returns (text: Option<seq<Byte>>)
      requires r.Valid() && r.nextByte.None? && base in {10, 16} && err.None? && !IsDigit(b, base)
      requires Lexing.Getc(here).b == Some(b) && Lexing.Getc(here).rest == r.pending
      requires forall c <- digits :: IsDigit(c, base) && IsDigit(c, 16)
      modifies this`err, this`buf, r, r.buf, r.rd
      ensures r.Valid() && old(buf) <= buf
      ensures TextScan(text, err, r.pending) == Digits(base, here, |digits|, ParseDigits(digits, base))
    {
      if b != ';' {
        Ungetc(b, here);
      } else {
        buf := buf + [';'];
        if digits != [] && ParseDigits(digits, base) <= MAX_RUNE {
          return Some(EncodeRune(ParseDigits(digits, base)));
        }
      }
      err := Some(Syntax);
      text := None;
    }

    /** A reference, after its ampersand. Its bytes pile up behind what the buffer holds. */
    method ReadReference() returns (text: Option<seq<Byte>>)
      requires r.Valid()
      modifies this`err, this`buf, r, r.buf, r.rd
      ensures r.Valid() && old(buf) <= buf
      ensures TextScan(text, err, r.pending) == Reference(old(r.pending))
    {
      ghost var at := r.pending;
      var before := |buf|;
      buf := buf + ['&'];
      var b, ok := Getc();
      if !ok {
        SetMustNotEOF();
        return None;
      }
      if b == '#' {
        buf := buf + [b];
        text := ReadNumeric();
      } else {
        Ungetc(b, at);
        text := ReadNamed(before);
      }
    }

    /** A numeric reference, after its number sign. */
    method ReadNumeric() returns (text: Option<seq<Byte>>)
      requires r.Valid()
      modifies this`err, this`buf, r, r.buf, r.rd
      ensures r.Valid() && old(buf) <= buf
      ensures TextScan(text, err, r.pending) == NumericReference(old(r.pending))
    {
      ghost var at := r.pending;
      var b, ok := Getc();
      if !ok {
        SetMustNotEOF();
        return None;
      }
      var base := 10;
      if b == 'x' {
        base := 16;
        buf := buf + [b];
        at := r.pending;
        b, ok := Getc();
        if !ok {
          SetMustNotEOF();
          return None;
        }
      }
      text := ReadDigits(b, base, at);
    }

    /** The name of an entity and its semicolon. */
    method ReadNamed(before: nat) returns (text: Option<seq<Byte>>)
      requires r.Valid() && |buf| == before + 1
      requires Lexing.Getc(r.pending).b.Some? && Lexing.Getc(r.pending).b != Some('#')
      modifies this`err, this`buf, r, r.buf, r.rd
      ensures r.Valid() && old(buf) <= buf
      ensures TextScan(text, err, r.pending) == Reference(old(r.pending))
    {
      ghost var n := Lexing.ReadName(r.pending);
      var ok := ReadName();
      if !ok {
        if err.Some? { return None; }
      }
      ghost var at := r.pending;
      var b;
      b, ok := Getc();
      if !ok {
        SetMustNotEOF();
        return None;
      }
      if b != ';' {
        Ungetc(b, at);
      } else {
        var name := buf[before + 1..];
        assert name == n.run;
        buf := buf + [';'];
        text := NamedEntity(name);
        if text.Some? { return; }
      }
      err := Some(Syntax);
      text := None;
    }

    /** Plain text, or a value up to its closing quote. */
    method ReadText(quote: Option<Byte>) returns (data: Option<seq<Byte>>)
      requires r.Valid()
      modifies this`err, this`buf, r, r.buf, r.rd
      ensures r.Valid()
      ensures TextScan(data, err, r.pending) == Text(quote, old(r.pending), [], '\0')
    {
      buf := [];
      var b1: Byte := '\0';
      while true
        invariant r.Valid() && Text(quote, r.pending, buf, b1) == Text(quote, old(r.pending), [], '\0')
        decreases |r.pending|
      {
        ghost var at := r.pending;
        var b, ok := Getc();
        if !ok { break; }
        if b == '<' {
          if quote.Some? {
            err := Some(Syntax);
            return None;
          }
          Ungetc('<', at);
          break;
        }
        if quote == Some(b) { break; }
        if b == '&' {
          var before := buf;
          var text := ReadReference();
          if text.None? { return None; }
          assert buf[..|before|] == before;
          buf := buf[..|before|] + text.value;
          b1 := '\0';
        } else {
          if b == '\r' {
            buf := buf + ['\n'];
          } else if b1 == '\r' && b == '\n' {
          } else {
            buf := buf + [b];
          }
          b1 := b;
        }
      }
      data := Some(buf);
    }

    method ReadAttrValue() returns (data: Option<seq<Byte>>)
      requires r.Valid()
      modifies this`err, this`buf, r, r.buf, r.rd
      ensures r.Valid()
      ensures TextScan(data, err, r.pending) == AttrValue(old(r.pending))
    {
      var b, ok := Getc();
      if !ok {
        SetMustNotEOF();
        return None;
      }
      if b == '"' || b == '\'' {
        data := ReadText(Some(b));
        return;
      }
      err := Some(Syntax);
      data := None;
    }

    /** Attributes up to the end of the start tag. */
    method ReadAttrs(ghost name: Name) returns (attrs: seq<Attr>, empty: bool, ok: bool)
      requires r.Valid() && CacheOk()
      modifies this`err, this`buf, this`names, r, r.buf, r.rd
      ensures r.Valid() && CacheOk()
      ensures Lexed(if ok then Start(name, attrs, empty) else Broken, err, r.pending)
          == StartTail(old(r.pending), name, [])
    {
      attrs, empty := [], false;
      while true
        invariant r.Valid() && CacheOk() && StartTail(r.pending, name, attrs) == StartTail(old(r.pending), name, []) &&
            !empty
        decreases |r.pending|
      {
        Space();
        ghost var at := r.pending;
        var b;
        b, ok := Getc();
        if !ok {
          SetMustNotEOF();
          return;
        }
        if b == '/' {
          empty := true;
          b, ok := Getc();
          if !ok {
            SetMustNotEOF();
            return;
          }
          if b != '>' {
            err := Some(Syntax);
            return attrs, empty, false;
          }
          return;
        }
        if b == '>' { return; }
        Ungetc(b, at);
        var a: Option<Attr>;
        a := ReadAttr();
        if a.None? { return attrs, empty, false; }
        attrs := attrs + [a.value];
      }
    }

    /** One attribute. */
    method ReadAttr() returns (a: Option<Attr>)
      requires r.Valid() && CacheOk()
      modifies this`err, this`buf, this`names, r, r.buf, r.rd
      ensures r.Valid() && CacheOk()
      ensures (a, err, r.pending) == OneAttr(old(r.pending))
    {
      var name, ok := NsName();
      if !ok {
        if err.None? {
          err := Some(Syntax);
        }
        return None;
      }
      Space();
      var b;
      b, ok := Getc();
      if !ok {
        SetMustNotEOF();
        return None;
      }
      if b != '=' {
        err := Some(Syntax);
        return None;
      }
      Space();
      var data := ReadAttrValue();
      if data.None? { return None; }
      a := Some(Attr(name, data.value));
    }

    /** The reading half of RawToken: everything up to the handling of a whole tag. */
    method ReadToken() returns (tok: RawToken)
      requires r.Valid() && CacheOk()
      modifies this`err, this`buf, this`names, r, r.buf, r.rd
      ensures r.Valid() && CacheOk()
      ensures Lexed(tok, err, r.pending) == NextToken(old(r.pending))
    {
      ghost var at := r.pending;
      var b, ok := Getc();
      if !ok { return Broken; }
      if b != '<' {
        Ungetc(b, at);
        var data := ReadText(None);
        return if data.None? then Broken else Chars(data.value);
      }
      at := r.pending;
      b, ok := Getc();
      if !ok {
        SetMustNotEOF();
        return Broken;
      }
      if b == '/' {
        tok := ReadEnd();
        return;
      }
      if b == '?' {
        tok := ReadInstruction();
        return;
      }
      Ungetc(b, at);
      var name;
      name, ok := NsName();
      if !ok {
        if err.None? {
          err := Some(Syntax);
        }
        return Broken;
      }
      var attrs, empty;
      attrs, empty, ok := ReadAttrs(name);
      tok := if ok then Start(name, attrs, empty) else Broken;
    }

    /** An end tag, after its slash. */
    method ReadEnd() returns (tok: RawToken)
      requires r.Valid() && CacheOk()
      modifies this`err, this`buf, this`names, r, r.buf, r.rd
      ensures r.Valid() && CacheOk()
      ensures Lexed(tok, err, r.pending) == EndTag(old(r.pending))
    {
      var name, ok := NsName();
      if !ok {
        if err.None? {
          err := Some(Syntax);
        }
        return Broken;
      }
      Space();
      var b;
      b, ok := Getc();
      if !ok {
        SetMustNotEOF();
        return Broken;
      }
      if b != '>' {
        err := Some(Syntax);
        return Broken;
      }
      tok := End(name);
    }

    /** A processing instruction, after its question mark. */
    method ReadInstruction() returns (tok: RawToken)
      requires r.Valid() && CacheOk()
      modifies this`err, this`buf, this`names, r, r.buf, r.rd
      ensures r.Valid() && CacheOk()
      ensures Lexed(tok, err, r.pending) == ProcInst(old(r.pending))
    {
      var _, ok := ScanName();
      if !ok {
        if err.None? {
          err := Some(Syntax);
        }
        return Broken;
      }
      Space();
      var b0: Byte := '\0';
      while true
        invariant r.Valid() && CacheOk()
        invariant InstructionTail(r.pending, b0) == ProcInst(old(r.pending))
        decreases |r.pending|
      {
        var b;
        b, ok := Getc();
        if !ok {
          SetMustNotEOF();
          return Broken;
        }
        buf := buf + [b];
        if b0 == '?' && b == '>' { break; }
        b0 := b;
      }
      tok := Instruction;
    }

    /** The end of the input is an error while elements are open. */
    method CheckUnclosed()
      requires elems.Valid() && err.Some?
      modifies this`err
      ensures err == Some(AtEnd(old(err.value), Scope(ns, elems.entries)))
    {
      if err == Some(EOF) && !elems.IsEmpty() {
        err := Some(Syntax);
      }
    }

    /**
     * One call of the parser, with the callback it makes and the error it returns.
     * Errors stick: once one is left in err, every later call returns it.
     */
    method RawToken() returns (ev: Option<Event>, ret: Option<Error>)
      requires Valid()
      modifies this, r, r.buf, r.rd, elems, elems.nodes
      ensures Valid() && fresh(elems.nodes - old(elems.nodes))
      ensures Stepped(Abs(), ev, ret) == Step(old(Abs()))
    {
      if err.Some? {
        CheckUnclosed();
        return None, err;
      }
      if needClose {
        ev, ret := HandleClose();
        return;
      }
      ev, ret := HandleNext();
    }

    /** The end half of a tag that closed itself. */
    method HandleClose() returns (ev: Option<Event>, ret: Option<Error>)
      requires Valid() && err.None? && needClose
      modifies this`ns, this`err, this`needClose, elems, elems.nodes
      ensures Valid() && elems.nodes == old(elems.nodes)
      ensures Stepped(Abs(), ev, ret) == Step(old(Abs()))
    {
      needClose := false;
      ev, ret := HandleEndTag(toClose);
    }

    method HandleNext() returns (ev: Option<Event>, ret: Option<Error>)
      requires Valid() && err.None? && !needClose
      modifies this, r, r.buf, r.rd, elems, elems.nodes
      ensures Valid() && fresh(elems.nodes - old(elems.nodes))
      ensures Stepped(Abs(), ev, ret) == Step(old(Abs()))
    {
      var tok := ReadToken();
      ev, ret := HandleToken(tok);
    }

    /** The other half of RawToken: what becomes of the token just read. */
    method HandleToken(tok: RawToken) returns (ev: Option<Event>, ret: Option<Error>)
      requires elems.Valid() && !needClose && (tok.Broken? ==> err.Some?)
      modifies this`ns, this`err, this`needClose, this`toClose, elems, elems.nodes
      ensures elems.Valid() && fresh(elems.nodes - old(elems.nodes))
      ensures Stepped(Abs(), ev, ret) == Handle(old(Abs()), tok)
    {
      match tok
      case Broken =>
        CheckUnclosed();
        return None, err;
      case Chars(data) =>
        return Some(OnChar(data)), None;
      case Instruction =>
        return None, None;
      case End(name) =>
        ev, ret := HandleEndTag(name);
      case Start(name, attrs, empty) =>
        ev := HandleStartTag(name, attrs, empty);
        ret := None;
    }

    method HandleEndTag(name: Name) returns (ev: Option<Event>, ret: Option<Error>)
      requires elems.Valid()
      modifies this`ns, this`err, elems, elems.nodes
      ensures elems.Valid() && elems.nodes == old(elems.nodes)
      ensures Stepped(Abs(), ev, ret) == Finish(old(Abs()), name)
    {
      ev := HandleEndElement(name);
      ret := if ev.None? then err else None;
    }

    method HandleStartTag(name: Name, attrs: seq<Attr>, empty: bool) returns (ev: Option<Event>)
      requires elems.Valid() && !needClose
      modifies this`ns, this`needClose, this`toClose, elems, elems.nodes
      ensures elems.Valid() && fresh(elems.nodes - old(elems.nodes))
      ensures Stepped(Abs(), ev, None) == Handle(old(Abs()), Start(name, attrs, empty))
    {
      if empty {
        needClose := true;
        toClose := name;
      }
      var e := HandleStartElement(name, attrs);
      ev := Some(e);
    }

    /** Declares, expands and pushes. The declarations go first, the names of the tag itself after them. */
    method HandleStartElement(name: Name, attrs: seq<Attr>) returns (ev: Event)
      requires elems.Valid()
      modifies this`ns, elems, elems.nodes
      ensures elems.Valid() && fresh(elems.nodes - old(elems.nodes))
      ensures var o := Open(old(Scope(ns, elems.entries)), name, attrs);
              Scope(ns, elems.entries) == o.scope && ev == OnStart(o.name, o.attrs)
    {
      DeclareAttrs(attrs);
      var n := Translate(ns, name, true);
      var expanded := ExpandAttrs(attrs);
      elems.PushElement(n);
      ev := OnStart(n, expanded);
    }

    method DeclareAttrs(attrs: seq<Attr>)
      requires elems.Valid()
      modifies this`ns, elems, elems.nodes
      ensures elems.Valid() && fresh(elems.nodes - old(elems.nodes)) && old(elems.nodes) <= elems.nodes
      ensures Scope(ns, elems.entries) == Declare(old(Scope(ns, elems.entries)), attrs)
    {
      ghost var sc := Scope(ns, elems.entries);
      for i := 0 to |attrs|
        invariant elems.Valid() && fresh(elems.nodes - old(elems.nodes)) && old(elems.nodes) <= elems.nodes
        invariant Declare(Scope(ns, elems.entries), attrs[i..]) == Declare(sc, attrs)
      {
        var a := attrs[i];
        assert attrs[i..][1..] == attrs[i + 1..];
        if a.name.space == XMLNS {
          BindPrefix(a.name.local, a.value);
        }
        if a.name.space == [] && a.name.local == XMLNS {
          BindPrefix([], a.value);
        }
      }
    }

    method ExpandAttrs(attrs: seq<Attr>) returns (expanded: seq<Attr>)
      ensures expanded == TranslateAttrs(ns, attrs)
    {
      expanded := [];
      for i := 0 to |attrs|
        invariant expanded == TranslateAttrs(ns, attrs)[..i]
      {
        expanded := expanded + [Attr(Translate(ns, attrs[i].name, false), attrs[i].value)];
      }
    }

    method BindPrefix(prefix: seq<Byte>, url: seq<Byte>)
      requires elems.Valid()
      modifies this`ns, elems, elems.nodes
      ensures elems.Valid() && fresh(elems.nodes - old(elems.nodes)) && old(elems.nodes) <= elems.nodes
      ensures Scope(ns, elems.entries) == Bind(old(Scope(ns, elems.entries)), prefix, url)
    {
      if prefix in ns {
        elems.PushNs(prefix, ns[prefix], true);
      } else {
        elems.PushNs(prefix, [], false);
      }
      ns := ns[prefix := url];
    }

    method HandleEndElement(name: Name) returns (ev: Option<Event>)
      requires elems.Valid()
      modifies this`ns, this`err, elems, elems.nodes
      ensures elems.Valid() && elems.nodes == old(elems.nodes)
      ensures var c := Close(old(Scope(ns, elems.entries)), name);
              && Scope(ns, elems.entries) == c.scope
              && ev == (if c.ok then Some(OnEnd(c.name)) else None) && err == (if c.ok then old(err) else Some(Syntax))
    {
      var expanded := Translate(ns, name, true);
      var ok := PopElement(expanded);
      ev := if ok then Some(OnEnd(expanded)) else None;
    }

    /** Pops the innermost element, which must have the given name, and undoes its declarations. */
    method PopElement(name: Name) returns (ok: bool)
      requires elems.Valid()
      modifies this`ns, this`err, elems, elems.nodes
      ensures elems.Valid() && elems.nodes == old(elems.nodes)
      ensures ok <==> old(elems.entries) != [] && old(elems.entries)[0] == StartEntry(name)
      ensures err == if ok then old(err) else Some(Syntax)
      ensures var popped := Scope(old(ns), if old(elems.entries) == [] then [] else old(elems.entries)[1..]);
              Scope(ns, elems.entries) == if ok then Undo(popped) else popped
    {
      var s := elems.Pop();
      if s == null || s.kind != StkStart || s.name.local != name.local || s.name.space != name.space {
        err := Some(Syntax);
        return false;
      }
      UndoBindings();
      ok := true;
    }

    /** Undoes the bindings above the next element. */
    method UndoBindings()
      requires elems.Valid()
      modifies this`ns, elems, elems.nodes
      ensures elems.Valid() && elems.nodes == old(elems.nodes)
      ensures Scope(ns, elems.entries) == Undo(old(Scope(ns, elems.entries)))
    {
      while elems.stk != null && elems.stk.kind != StkStart
        invariant elems.Valid() && elems.nodes == old(elems.nodes)
        invariant Undo(Scope(ns, elems.entries)) == Undo(old(Scope(ns, elems.entries)))
        decreases |elems.entries|
      {
        assert elems.stk == elems.live[0] && elems.entries[0] == elems.stk.Record();
        UndoBinding();
      }
      assert elems.stk != null ==> elems.stk == elems.live[0] && elems.entries[0] == elems.stk.Record();
    }

    method UndoBinding()
      requires elems.Valid() && elems.entries != [] && elems.entries[0].NsEntry?
      modifies this`ns, elems, elems.nodes
      ensures elems.Valid() && elems.nodes == old(elems.nodes) && |elems.entries| < |old(elems.entries)|
      ensures Undo(Scope(ns, elems.entries)) == Undo(old(Scope(ns, elems.entries)))
    {
      var e := elems.Pop();
      if e.ok {
        ns := ns[e.name.local := e.name.space];
      } else {
        ns := ns - {e.name.local};
      }
    }
  }
}
