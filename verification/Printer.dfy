/** The XML printer: what it writes for a token, as functions, and the object that writes it. */
module Printer {
  import opened Bytes
  import opened Lexing
  import opened Namespaces

  /** Namespace to prefix. A namespace without a prefix reads as the empty prefix, as in a Go map. */
  function Lookup(prefixes: Prefixes, ns: seq<Byte>): seq<Byte> {
    if ns in prefixes then prefixes[ns] else []
  }

  /** What xml.EscapeText writes for one byte. A control character that XML forbids becomes U+FFFD. */
  function EscapeByte(b: Byte): seq<Byte> {
    if b == '"' then "&#34;"
    else if b == '\'' then "&#39;"
    else if b == '&' then "&amp;"
    else if b == '<' then "&lt;"
    else if b == '>' then "&gt;"
    else if b == '\t' then "&#x9;"
    else if b == '\n' then "&#xA;"
    else if b == '\r' then "&#xD;"
    else if b < ' ' then EncodeRune(0xFFFD)
    else [b]
  }

  function Escape(s: seq<Byte>): seq<Byte> {
    if s == [] then [] else EscapeByte(s[0]) + Escape(s[1..])
  }

  /** The prefix written before an attribute name, and the prefixes known afterwards. */
  function AttrPrefix(prefixes: Prefixes, a: Attr): (seq<Byte>, Prefixes) {
    if Lookup(prefixes, a.name.space) != [] then (Lookup(prefixes, a.name.space), prefixes)
    else if a.name.space == XML_URL then (XML, prefixes)
    else if a.name.space == XMLNS then (XMLNS, prefixes[a.value := a.name.local])
    else (a.name.space, prefixes[a.name.space := a.name.local])
  }

  function Written(value: seq<Byte>, raw: bool): seq<Byte> {
    if raw then value else Escape(value)
  }

  /** Bytes written, and the prefixes known afterwards. */
  datatype Printed = Printed(out: seq<Byte>, prefixes: Prefixes)

  function PrintAttr(prefixes: Prefixes, a: Attr, raw: bool): Printed {
    if a.name.local == [] then Printed([], prefixes)
    else
      var value := Written(a.value, raw);
      if a.name.space == [] then Printed(" " + a.name.local + "=\"" + value + "\"", prefixes)
      else
        var p := AttrPrefix(prefixes, a);
        Printed(" " + (p.0 + ":" + a.name.local) + "=\"" + value + "\"", p.1)
  }

  function PrintAttrs(prefixes: Prefixes, attrs: seq<Attr>, raw: bool): Printed
    decreases |attrs|
  {
    if attrs == [] then Printed([], prefixes)
    else
      var first := PrintAttr(prefixes, attrs[0], raw);
      var rest := PrintAttrs(first.prefixes, attrs[1..], raw);
      Printed(first.out + rest.out, rest.prefixes)
  }

  /** An element name with the prefix of its namespace, if it has one. */
  function Qualified(prefixes: Prefixes, n: Name): seq<Byte> {
    if n.space != [] && Lookup(prefixes, n.space) != [] then Lookup(prefixes, n.space) + ":" + n.local else n.local
  }

  /** The element name is written before the attributes can declare anything. */
  function PrintStart(prefixes: Prefixes, n: Name, attrs: seq<Attr>, autoClose: bool, raw: bool): Printed {
    var p := PrintAttrs(prefixes, attrs, raw);
    Printed("<" + Qualified(prefixes, n) + p.out + (if autoClose then "/>" else ">"), p.prefixes)
  }

  function PrintEnd(prefixes: Prefixes, n: Name): seq<Byte> {
    "</" + Qualified(prefixes, n) + ">"
  }

  class XmlPrinter {
    var out: seq<Byte>
    var autoClose: bool
    var skipAttrEscape: bool
    var attrPrefix: Prefixes

    constructor ()
      ensures out == [] && !autoClose && !skipAttrEscape && attrPrefix == map[]
    {
      out, autoClose, skipAttrEscape, attrPrefix := [], false, false, map[];
    }

    method CreateAttrPrefix(a: Attr) returns (prefix: seq<Byte>)
      modifies this`attrPrefix
      ensures (prefix, attrPrefix) == AttrPrefix(old(attrPrefix), a)
    {
      prefix := Lookup(attrPrefix, a.name.space);
      if prefix != [] { return; }
      if a.name.space == XML_URL { return XML; }
      var ns, p := a.name.space, a.name.local;
      if a.name.space == XMLNS {
        ns, p := a.value, a.name.local;
      }
      attrPrefix := attrPrefix[ns := p];
      return a.name.space;
    }

    method EscapeString(s: seq<Byte>)
      modifies this`out
      ensures out == old(out) + Escape(s)
    {
      for i := 0 to |s|
        invariant out + Escape(s[i..]) == old(out) + Escape(s)
      {
        assert s[i..][1..] == s[i + 1..];
        out := out + EscapeByte(s[i]);
      }
    }

    method WriteString(s: seq<Byte>)
      modifies this`out
      ensures out == old(out) + s
    {
      out := out + s;
    }

    method WriteName(n: Name)
      modifies this`out
      ensures out == old(out) + Qualified(attrPrefix, n)
    {
      if n.space != [] {
        var prefix := Lookup(attrPrefix, n.space);
        if prefix != [] {
          out := out + (prefix + ":" + n.local);
          return;
        }
      }
      out := out + n.local;
    }

    method WriteAttr(a: Attr)
      modifies this`out, this`attrPrefix
      ensures var p := PrintAttr(old(attrPrefix), a, skipAttrEscape);
              out == old(out) + p.out && attrPrefix == p.prefixes
    {
      if a.name.local == [] { return; }
      var name := a.name.local;
      if a.name.space != [] {
        var prefix := CreateAttrPrefix(a);
        name := prefix + ":" + a.name.local;
      }
      ghost var was, head, value := out, " " + name + "=\"", Written(a.value, skipAttrEscape);
      WriteString(" " + name + "=\"");
      if skipAttrEscape {
        WriteString(a.value);
      } else {
        EscapeString(a.value);
      }
      Assoc(was, head, value);
      WriteString("\"");
      Assoc(was, head + value, "\"");
    }

    method WriteStart(n: Name, attrs: seq<Attr>)
      modifies this`out, this`attrPrefix
      ensures var p := PrintStart(old(attrPrefix), n, attrs, autoClose, skipAttrEscape);
              out == old(out) + p.out && attrPrefix == p.prefixes
    {
      ghost var was, q := out, Qualified(attrPrefix, n);
      ghost var p := PrintAttrs(attrPrefix, attrs, skipAttrEscape);
      WriteString("<");
      WriteName(n);
      Assoc(was, "<", q);
      WriteAttrs(attrs);
      Assoc(was, "<" + q, p.out);
      WriteString(if autoClose then "/>" else ">");
      Assoc(was, "<" + q + p.out, if autoClose then "/>" else ">");
    }

    method WriteAttrs(attrs: seq<Attr>)
      modifies this`out, this`attrPrefix
      ensures var p := PrintAttrs(old(attrPrefix), attrs, skipAttrEscape);
              out == old(out) + p.out && attrPrefix == p.prefixes
    {
      ghost var all := PrintAttrs(attrPrefix, attrs, skipAttrEscape);
      for i := 0 to |attrs|
        invariant out + PrintAttrs(attrPrefix, attrs[i..], skipAttrEscape).out == old(out) + all.out
        invariant PrintAttrs(attrPrefix, attrs[i..], skipAttrEscape).prefixes == all.prefixes
      {
        assert attrs[i..][1..] == attrs[i + 1..];
        ghost var first := PrintAttr(attrPrefix, attrs[i], skipAttrEscape);
        Assoc(out, first.out, PrintAttrs(first.prefixes, attrs[i + 1..], skipAttrEscape).out);
        WriteAttr(attrs[i]);
      }
    }

    method WriteEnd(n: Name)
      modifies this`out
      ensures out == old(out) + PrintEnd(attrPrefix, n)
    {
      WriteString("</");
      WriteName(n);
      WriteString(">");
    }
  }
}
