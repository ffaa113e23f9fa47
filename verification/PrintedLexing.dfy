/** How the parser reads back what the printer wrote, piece by piece: names, escaped text, attributes, tags. */
module PrintedLexing {
  import opened Wrappers
  import opened Bytes
  import opened Lexing
  import opened Namespaces
  import opened Printer

  /** A name or prefix that needs no colon to be told apart. */
  predicate NcName(s: seq<Byte>) {
    s != [] && forall c <- s :: InName(c) && c != ':'
  }

  lemma NcXmlns()
    ensures NcName(XMLNS)
  {
  }

  /** Bytes XML allows in text. Bytes of multi-byte characters all count as legal. */
  predicate Legal(s: seq<Byte>) {
    forall c <- s :: ' ' <= c || c == '\t' || c == '\n' || c == '\r'
  }

  /** A value that may be written without escaping. */
  predicate RawSafe(s: seq<Byte>) {
    forall c <- s :: c != '<' && c != '"' && c != '&' && c != '\r'
  }

  lemma GetcDeliver(s: seq<Byte>, rest: seq<Item>)
    requires s != []
    ensures Getc(Deliver(s, None, rest)) == Got(Some(s[0]), None, Deliver(s[1..], None, rest))
  {
  }

  lemma GetcOne(c: Byte, rest: seq<Item>)
    ensures Getc(Deliver([c], None, rest)) == Got(Some(c), None, rest)
  {
    GetcDeliver([c], rest);
  }

  lemma {:induction false} ReadNameTail(w: seq<Byte>, acc: seq<Byte>, rest: seq<Item>)
    requires (forall c <- w :: InName(c)) && Getc(rest).b.Some? && !InName(Getc(rest).b.value)
    ensures NameTail(Deliver(w, None, rest), acc) == NameScan(true, acc + w, None, rest)
    decreases |w|
  {
    if w == [] {
      assert acc + w == acc;
    } else {
      GetcDeliver(w, rest);
      ReadNameTail(w[1..], acc + [w[0]], rest);
      assert acc + [w[0]] + w[1..] == acc + w;
    }
  }

  /** A name is read whole, up to the first byte that cannot continue it. */
  lemma ReadWholeName(w: seq<Byte>, rest: seq<Item>)
    requires w != [] && (forall c <- w :: InName(c)) && Getc(rest).b.Some? && !InName(Getc(rest).b.value)
    ensures ReadName(Deliver(w, None, rest)) == NameScan(true, w, None, rest)
  {
    GetcDeliver(w, rest);
    ReadNameTail(w[1..], [w[0]], rest);
    assert [w[0]] + w[1..] == w;
  }

  lemma SplitQualified(prefix: seq<Byte>, local: seq<Byte>)
    requires ':' !in prefix && ':' !in local
    ensures SplitName(prefix + ":" + local) == Name(prefix, local)
    ensures SplitName(local) == Name([], local)
  {
    var s := prefix + ":" + local;
    assert s[|prefix|] == ':' && s[..|prefix|] == prefix && s[|prefix| + 1..] == local;
    FirstColon(s, |prefix|);
    var j := Colon(local);
  }

  lemma {:induction false} FirstColon(s: seq<Byte>, k: nat)
    requires k < |s| && s[k] == ':' && ':' !in s[..k]
    ensures Colon(s) == k
  {
    if k > 0 {
      assert s[0] == s[..k][0];
      assert s[1..][..k - 1] == s[..k][1..];
      FirstColon(s[1..], k - 1);
    }
  }

  /** The reference written for an escaped byte decodes to that byte. */
  lemma DecodeReference(b: Byte, rest: seq<Item>)
    requires Legal([b]) && EscapeByte(b) != [b]
    ensures |EscapeByte(b)| > 1 && EscapeByte(b)[0] == '&'
    ensures Reference(Deliver(EscapeByte(b)[1..], None, rest)) == TextScan(Some([b]), None, rest)
  {
    assert b in [b];
    var e := EscapeByte(b)[1..];
    if b == '"' {
      DecodeDecimal('3', '4', rest);
    } else if b == '\'' {
      DecodeDecimal('3', '9', rest);
    } else if b == '&' {
      DecodeNamed("amp", e, rest);
    } else if b == '<' {
      DecodeNamed("lt", e, rest);
    } else if b == '>' {
      DecodeNamed("gt", e, rest);
    } else if b == '\t' {
      DecodeHex('9', rest);
    } else if b == '\n' {
      DecodeHex('A', rest);
    } else {
      DecodeHex('D', rest);
    }
  }

  lemma DecodeDecimal(d1: Byte, d2: Byte, rest: seq<Item>)
    requires '0' <= d1 <= '9' && '0' <= d2 <= '9'
    ensures Reference(Deliver(['#', d1, d2, ';'], None, rest))
         == TextScan(Some(EncodeRune(10 * DigitValue(d1) + DigitValue(d2))), None, rest)
  {
    GetcDeliver(['#', d1, d2, ';'], rest);
    GetcDeliver([d1, d2, ';'], rest);
    GetcDeliver([d2, ';'], rest);
    GetcOne(';', rest);
    assert ['#', d1, d2, ';'][1..] == [d1, d2, ';'] && [d1, d2, ';'][1..] == [d2, ';'] && [d2, ';'][1..] == [';'];
    assert Digits(10, Deliver([d1, d2, ';'], None, rest), 0, 0)
        == Digits(10, Deliver([d2, ';'], None, rest), 1, DigitValue(d1));
    assert Digits(10, Deliver([d2, ';'], None, rest), 1, DigitValue(d1))
        == Digits(10, Deliver([';'], None, rest), 2, 10 * DigitValue(d1) + DigitValue(d2));
  }

  lemma DecodeHex(d: Byte, rest: seq<Item>)
    requires IsDigit(d, 16)
    ensures Reference(Deliver(['#', 'x', d, ';'], None, rest)) == TextScan(Some(EncodeRune(DigitValue(d))), None, rest)
  {
    GetcDeliver(['#', 'x', d, ';'], rest);
    GetcDeliver(['x', d, ';'], rest);
    GetcDeliver([d, ';'], rest);
    GetcOne(';', rest);
    assert ['#', 'x', d, ';'][1..] == ['x', d, ';'] && ['x', d, ';'][1..] == [d, ';'] && [d, ';'][1..] == [';'];
    assert Digits(16, Deliver([d, ';'], None, rest), 0, 0) == Digits(16, Deliver([';'], None, rest), 1, DigitValue(d));
  }

  lemma DecodeNamed(name: seq<Byte>, e: seq<Byte>, rest: seq<Item>)
    requires name != [] && (forall c <- name :: InName(c)) && e == name + ";" && NamedEntity(name).Some?
    ensures Reference(Deliver(e, None, rest)) == TextScan(NamedEntity(name), None, rest)
  {
    DeliverAppend(name, ";", None, rest);
    GetcOne(';', rest);
    ReadWholeName(name, Deliver(";", None, rest));
    GetcDeliver(name, Deliver(";", None, rest));
    assert name[0] in name;
  }

  lemma ReadEscapedByte(quote: Option<Byte>, b: Byte, rest: seq<Item>, acc: seq<Byte>, before: Byte)
    requires Legal([b]) && quote in {None, Some('"')}
    ensures Text(quote, Deliver(EscapeByte(b), None, rest), acc, before)
         == Text(quote, rest, acc + [b], if EscapeByte(b) == [b] then b else '\0')
  {
    assert b in [b];
    GetcDeliver(EscapeByte(b), rest);
    if EscapeByte(b) != [b] {
      DecodeReference(b, rest);
    }
  }

  /** Escaped text reads back byte by byte, whatever the byte read before it. */
  lemma {:induction false} ReadEscaped(quote: Option<Byte>, d: seq<Byte>, rest: seq<Item>, acc: seq<Byte>, before: Byte)
      returns (last: Byte)
    requires Legal(d) && quote in {None, Some('"')}
    ensures Text(quote, Deliver(Escape(d), None, rest), acc, before) == Text(quote, rest, acc + d, last)
    decreases |d|
  {
    if d == [] {
      assert acc + d == acc;
      return before;
    }
    var b, more := d[0], Deliver(Escape(d[1..]), None, rest);
    DeliverAppend(EscapeByte(b), Escape(d[1..]), None, rest);
    assert b in d && forall c <- d[1..] :: c in d;
    ReadEscapedByte(quote, b, more, acc, before);
    last := ReadEscaped(quote, d[1..], rest, acc + [b], if EscapeByte(b) == [b] then b else '\0');
    assert [b] + d[1..] == d;
    Assoc(acc, [b], d[1..]);
  }

  lemma {:induction false} ReadRaw(v: seq<Byte>, rest: seq<Item>, acc: seq<Byte>, before: Byte) returns (last: Byte)
    requires RawSafe(v) && before != '\r'
    ensures Text(Some('"'), Deliver(v, None, rest), acc, before) == Text(Some('"'), rest, acc + v, last)
    decreases |v|
  {
    if v == [] {
      assert acc + v == acc;
      return before;
    }
    assert v[0] in v && forall c <- v[1..] :: c in v;
    GetcDeliver(v, rest);
    last := ReadRaw(v[1..], rest, acc + [v[0]], v[0]);
    assert acc + [v[0]] + v[1..] == acc + v;
  }

  predicate ValueOk(value: seq<Byte>, raw: bool) {
    if raw then RawSafe(value) else Legal(value)
  }

  /** A quoted value reads back as it was, up to its closing quote. */
  lemma ReadValue(value: seq<Byte>, raw: bool, rest: seq<Item>)
    requires ValueOk(value, raw)
    ensures Text(Some('"'), Deliver(Written(value, raw), None, Deliver("\"", None, rest)), [], '\0')
        == TextScan(Some(value), None, rest)
  {
    GetcOne('"', rest);
    assert [] + value == value;
    if raw {
      var last := ReadRaw(value, Deliver("\"", None, rest), [], '\0');
    } else {
      var last := ReadEscaped(Some('"'), value, Deliver("\"", None, rest), [], '\0');
    }
  }

  /** One attribute, after the space before it. */
  lemma ReadPrintedAttr(q: seq<Byte>, value: seq<Byte>, raw: bool, rest: seq<Item>)
    requires q != [] && (forall c <- q :: InName(c)) && ValueOk(value, raw)
    ensures OneAttr(Deliver(q, None,
        Deliver("=\"", None, Deliver(Written(value, raw), None, Deliver("\"", None, rest)))))
         == (Some(Attr(SplitName(q), value)), None, rest)
  {
    var s3 := Deliver(Written(value, raw), None, Deliver("\"", None, rest));
    var s2 := Deliver("=\"", None, s3);
    GetcDeliver("=\"", s3);
    assert "=\""[1..] == "\"";
    GetcOne('"', s3);
    ReadWholeName(q, s2);
    ReadValue(value, raw, rest);
  }
}
