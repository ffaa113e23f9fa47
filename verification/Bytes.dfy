/** Bytes, the stream of read results the XML parser consumes, and its errors. */
module Bytes {
  import opened Wrappers

  /** One byte of a document. A subset of char, so that byte constants read as characters. */
  type Byte = c: char | c <= '\U{FF}'

  /** What reading or parsing can report. Syntax stands for every SyntaxError, whatever its text. */
  datatype Error = EOF | NoProgress | Read(code: int) | Syntax

  /** One result of reading a byte: the byte, or an error in its place. */
  datatype Item = Data(b: Byte) | Fail(e: Error)

  /** The stream that delivers the bytes of data, then err if there is one, then rest. */
  function Deliver(data: seq<Byte>, err: Option<Error>, rest: seq<Item>): (s: seq<Item>)
  {
    if data != [] then [Data(data[0])] + Deliver(data[1..], err, rest)
    else if err.Some? then [Fail(err.value)] + rest
    else rest
  }

  lemma {:induction false} DeliverAppend(a: seq<Byte>, b: seq<Byte>, err: Option<Error>, rest: seq<Item>)
    ensures Deliver(a + b, err, rest) == Deliver(a, None, Deliver(b, err, rest))
  {
    if a == [] {
      assert a + b == b;
    } else {
      assert (a + b)[1..] == a[1..] + b;
      DeliverAppend(a[1..], b, err, rest);
    }
  }

  lemma Assoc<T>(a: seq<T>, b: seq<T>, c: seq<T>)
    ensures a + b + c == a + (b + c)
  {
  }

  function Chr(n: nat): (b: Byte)
    requires n < 256
    ensures b as int == n
  {
    n as char
  }

  /** The UTF-8 bytes of a code point; a surrogate is replaced by U+FFFD, as Go's string(rune(n)) does. */
  function EncodeRune(n: nat): (s: seq<Byte>)
    requires n <= 0x10FFFF
    decreases 0xD800 <= n < 0xE000
  {
    if n < 0x80 then [Chr(n)]
    else if n < 0x800 then [Chr(0xC0 + n / 0x40), Chr(0x80 + n % 0x40)]
    else if 0xD800 <= n < 0xE000 then EncodeRune(0xFFFD)
    else if n < 0x1_0000 then [Chr(0xE0 + n / 0x1000), Chr(0x80 + n / 0x40 % 0x40), Chr(0x80 + n % 0x40)]
    else [Chr(0xF0 + n / 0x4_0000), Chr(0x80 + n / 0x1000 % 0x40), Chr(0x80 + n / 0x40 % 0x40), Chr(0x80 + n % 0x40)]
  }
}
