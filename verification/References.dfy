/**
 * What references stand for: a decoder of UTF-8 by lead and continuation bytes, and numbers by place value, which know
 * nothing of the way the parser computes either.
 */
module References {
  import opened Wrappers
  import opened Bytes
  import opened Lexing
  import opened PrintedLexing

  // ---- UTF-8 ----

  /** The six bits of a continuation byte. */
  function Continuation(b: Byte): Option<nat> {
    if 0x80 <= b as int < 0xC0 then Some(b as int - 0x80) else None
  }

  /** The number in continuation bytes, six bits to each, after those that gave bits. */
  function Continued(bits: nat, s: seq<Byte>): Option<nat>
    decreases |s|
  {
    if s == [] then Some(bits)
    else match Continuation(s[0])
      case Some(more) => Continued(0x40 * bits + more, s[1..])
      case None => None
  }

  /** The bits of a lead byte, and how many bytes continue it. */
  function Lead(b: Byte): Option<(nat, nat)> {
    var n := b as int;
    if n < 0x80 then Some((n, 0))
    else if 0xC0 <= n < 0xE0 then Some((n - 0xC0, 1))
    else if 0xE0 <= n < 0xF0 then Some((n - 0xE0, 2))
    else if 0xF0 <= n < 0xF8 then Some((n - 0xF0, 3))
    else None
  }

  /** The least number that needs so many continuation bytes. */
  function Least(more: nat): nat {
    if more == 0 then 0 else if more == 1 then 0x80 else if more == 2 then 0x800 else 0x1_0000
  }

  predicate Surrogate(n: nat) {
    0xD800 <= n < 0xE000
  }

  /** The code point of one character: the shortest form only, no surrogate, and none beyond the last code point. */
  function DecodeRune(s: seq<Byte>): Option<nat> {
    if s == [] || Lead(s[0]).None? || |s| != 1 + Lead(s[0]).value.1 then None
    else
      var (bits, more) := Lead(s[0]).value;
      match Continued(bits, s[1..])
      case None => None
      case Some(n) => if n < Least(more) || Surrogate(n) || 0x10FFFF < n then None else Some(n)
  }

  lemma Continue(bits: nat, s: seq<Byte>, b: nat, more: seq<Byte>)
    requires b < 0x40 && s == [Chr(0x80 + b)] + more
    ensures Continued(bits, s) == Continued(0x40 * bits + b, more)
  {
    assert s[1..] == more;
  }

  /** The bytes of a code point are those that stand for it; a surrogate has those of U+FFFD. */
  lemma RuneBytes(n: nat)
    requires n <= 0x10FFFF
    ensures DecodeRune(EncodeRune(n)) == Some(if Surrogate(n) then 0xFFFD else n)
  {
    if Surrogate(n) {
      RuneOfThree(0xFFFD);
    } else if n < 0x80 {
      assert EncodeRune(n)[1..] == [];
    } else if n < 0x800 {
      RuneOfTwo(n);
    } else if n < 0x1_0000 {
      RuneOfThree(n);
    } else {
      RuneOfFour(n);
    }
  }

  lemma RuneOfTwo(n: nat)
    requires 0x80 <= n < 0x800
    ensures DecodeRune(EncodeRune(n)) == Some(n)
  {
    var s := EncodeRune(n);
    assert s[1..] == [Chr(0x80 + n % 0x40)] + [];
    Continue(n / 0x40, s[1..], n % 0x40, []);
  }

  lemma RuneOfThree(n: nat)
    requires 0x800 <= n < 0x1_0000 && !Surrogate(n)
    ensures DecodeRune(EncodeRune(n)) == Some(n)
  {
    var s, a, b, c := EncodeRune(n), n / 0x1000, n / 0x40 % 0x40, n % 0x40;
    var last := [Chr(0x80 + c)];
    assert n == 0x1000 * a + 0x40 * b + c by {
      assert n / 0x40 / 0x40 == n / 0x1000;
    }
    assert s[1..] == [Chr(0x80 + b)] + last && last == last + [];
    Continue(a, s[1..], b, last);
    Continue(0x40 * a + b, last, c, []);
  }

  lemma FourParts(n: nat, a: nat, b: nat, c: nat, d: nat)
    requires a == n / 0x4_0000 && b == n / 0x1000 % 0x40 && c == n / 0x40 % 0x40 && d == n % 0x40
    ensures n == 0x4_0000 * a + 0x1000 * b + 0x40 * c + d
  {
    assert n / 0x40 / 0x40 == n / 0x1000 && n / 0x1000 / 0x40 == n / 0x4_0000;
  }

  lemma RuneOfFour(n: nat)
    requires 0x1_0000 <= n <= 0x10FFFF
    ensures DecodeRune(EncodeRune(n)) == Some(n)
  {
    var s, a, b, c, d := EncodeRune(n), n / 0x4_0000, n / 0x1000 % 0x40, n / 0x40 % 0x40, n % 0x40;
    var last := [Chr(0x80 + d)];
    var two := [Chr(0x80 + c)] + last;
    FourParts(n, a, b, c, d);
    assert s[1..] == [Chr(0x80 + b)] + two;
    ThreeContinue(a, b, c, d, s[1..], two, last);
    assert Lead(s[0]) == Some((a, 3));
  }

  lemma ThreeContinue(a: nat, b: nat, c: nat, d: nat, three: seq<Byte>, two: seq<Byte>, last: seq<Byte>)
    requires b < 0x40 && c < 0x40 && d < 0x40
    requires three == [Chr(0x80 + b)] + two && two == [Chr(0x80 + c)] + last && last == [Chr(0x80 + d)]
    ensures Continued(a, three) == Some(0x4_0000 * a + 0x1000 * b + 0x40 * c + d)
  {
    assert last == last + [];
    Continue(a, three, b, two);
    Continue(0x40 * a + b, two, c, last);
    Continue(0x40 * (0x40 * a + b) + c, last, d, []);
  }

  lemma {:induction false} ContinuedUnique(bits: nat, a: seq<Byte>, b: seq<Byte>, more: nat)
    requires |a| == |b| && Continued(bits, a).Some? && Continued(more, b).Some?
    requires Continued(bits, a) == Continued(more, b)
    ensures a == b && bits == more
    decreases |a|
  {
    if a != [] {
      var x, y := Continuation(a[0]).value, Continuation(b[0]).value;
      ContinuedUnique(0x40 * bits + x, a[1..], b[1..], 0x40 * more + y);
      assert a == [a[0]] + a[1..] && b == [b[0]] + b[1..];
    }
  }

  lemma {:induction false} ContinuedBelow(bits: nat, s: seq<Byte>, bound: nat)
    requires Continued(bits, s).Some? && bits < bound
    ensures Continued(bits, s).value < bound * Power(0x40, |s|)
    decreases |s|
  {
    if s != [] {
      ContinuedBelow(0x40 * bits + Continuation(s[0]).value, s[1..], 0x40 * bound);
      assert 0x40 * bound * Power(0x40, |s| - 1) == bound * (0x40 * Power(0x40, |s| - 1));
    }
  }

  /** More continuation bytes than a number needs are not allowed, so its bytes are determined. */
  lemma RuneUnique(a: seq<Byte>, b: seq<Byte>)
    requires DecodeRune(a).Some? && DecodeRune(a) == DecodeRune(b)
    ensures a == b
  {
    var bits, more := Lead(a[0]).value.0, Lead(b[0]).value.0;
    RuneBelow(a);
    RuneBelow(b);
    ContinuedUnique(bits, a[1..], b[1..], more);
    assert a == [a[0]] + a[1..] && b == [b[0]] + b[1..];
  }

  lemma RuneBelow(s: seq<Byte>)
    requires DecodeRune(s).Some?
    ensures |s| < 4 ==> DecodeRune(s).value < Least(|s|)
    ensures Least(|s| - 1) <= DecodeRune(s).value
  {
    var (bits, more) := Lead(s[0]).value;
    assert Power(0x40, 0) == 1 && Power(0x40, 1) == 0x40 && Power(0x40, 2) == 0x1000;
    if |s| < 4 {
      ContinuedBelow(bits, s[1..], if more == 0 then 0x80 else if more == 1 then 0x20 else 0x10);
    }
  }

  // ---- Numbers by place value ----

  const LOWER := "0123456789abcdef"
  const UPPER := "0123456789ABCDEF"

  /** v is what the digit stands for: its place in the list of digits, in either letter case. */
  predicate StandsFor(b: Byte, v: nat) {
    v < 16 && (LOWER[v] == b || UPPER[v] == b)
  }

  lemma DigitStandsFor(b: Byte)
    ensures IsDigit(b, 16) <==> exists v :: StandsFor(b, v)
    ensures IsDigit(b, 10) <==> exists v :: v < 10 && StandsFor(b, v)
    ensures IsDigit(b, 16) ==> forall v :: StandsFor(b, v) <==> v == DigitValue(b)
  {
    if IsDigit(b, 16) {
      DigitAt(b);
    } else {
      NoDigitAt(b);
    }
  }

  lemma DigitAt(b: Byte)
    requires IsDigit(b, 16)
    ensures StandsFor(b, DigitValue(b)) && forall v :: StandsFor(b, v) ==> v == DigitValue(b)
    ensures IsDigit(b, 10) <==> DigitValue(b) < 10
  {
  }

  lemma NoDigitAt(b: Byte)
    requires !IsDigit(b, 16)
    ensures forall v :: !StandsFor(b, v)
  {
  }

  function Power(base: nat, k: nat): nat {
    if k == 0 then 1 else base * Power(base, k - 1)
  }

  /** The number that digits stand for, each times the power of the base that its place has. */
  function PlaceValue(base: nat, values: seq<nat>): nat
    decreases |values|
  {
    if values == [] then 0 else values[0] * Power(base, |values| - 1) + PlaceValue(base, values[1..])
  }

  predicate Digital(base: nat, digits: seq<Byte>, values: seq<nat>) {
    |values| == |digits| && forall i :: 0 <= i < |digits| ==> StandsFor(digits[i], values[i]) && values[i] < base
  }

  lemma PowerUp(base: nat, value: nat, k: nat, v: nat)
    ensures (base * value + v) * Power(base, k) == value * Power(base, k + 1) + v * Power(base, k)
  {
    var p := Power(base, k);
    assert (base * value + v) * p == base * value * p + v * p;
    assert value * (base * p) == base * value * p;
  }

  lemma DigitStep(base: nat, s: seq<Item>, b: Byte, v: nat, n: nat, value: nat)
    requires base in {10, 16} && Getc(s).b == Some(b) && StandsFor(b, v) && v < base
    ensures Digits(base, s, n, value) == Digits(base, Getc(s).rest, n + 1, base * value + v)
  {
    DigitStandsFor(b);
  }

  lemma DigitsEnd(base: nat, rest: seq<Item>, n: nat, value: nat)
    requires base in {10, 16}
    ensures Digits(base, Deliver(";", None, rest), n, value)
         == if n == 0 || 0x10FFFF < value then TextScan(None, Some(Syntax), rest)
            else TextScan(Some(EncodeRune(value)), None, rest)
  {
    GetcOne(';', rest);
  }

  /** The number of digits after others that are worth value. */
  function Worth(base: nat, value: nat, values: seq<nat>): nat
    decreases |values|
  {
    if values == [] then value else Worth(base, base * value + values[0], values[1..])
  }

  lemma {:induction false} WorthIsPlaceValue(base: nat, value: nat, values: seq<nat>)
    ensures Worth(base, value, values) == value * Power(base, |values|) + PlaceValue(base, values)
    decreases |values|
  {
    if values != [] {
      WorthIsPlaceValue(base, base * value + values[0], values[1..]);
      PowerUp(base, value, |values| - 1, values[0]);
    }
  }

  lemma DigitsOn(base: nat, digits: seq<Byte>, values: seq<nat>, n: nat, value: nat, tail: seq<Item>)
    requires base in {10, 16} && Digital(base, digits, values) && digits != []
    ensures Digits(base, Deliver(digits, None, tail), n, value)
         == Digits(base, Deliver(digits[1..], None, tail), n + 1, base * value + values[0])
    ensures Digital(base, digits[1..], values[1..])
  {
    GetcDeliver(digits, tail);
    DigitStep(base, Deliver(digits, None, tail), digits[0], values[0], n, value);
  }

  /** Digits after n others that are worth value: they are read for what they are worth together. */
  lemma {:induction false} DigitsRead(base: nat, digits: seq<Byte>, values: seq<nat>, n: nat, value: nat,
      tail: seq<Item>)
    requires base in {10, 16} && Digital(base, digits, values)
    ensures Digits(base, Deliver(digits, None, tail), n, value)
         == Digits(base, tail, n + |digits|, Worth(base, value, values))
    decreases |digits|
  {
    if digits == [] {
      assert Deliver(digits, None, tail) == tail;
    } else {
      var next := base * value + values[0];
      assert Worth(base, value, values) == Worth(base, next, values[1..]);
      DigitsOn(base, digits, values, n, value, tail);
      DigitsRead(base, digits[1..], values[1..], n + 1, next, tail);
    }
  }

  // ---- References ----

  /** A numeric reference, from its number sign on. */
  function Numeric(hex: bool, digits: seq<Byte>): seq<Byte> {
    (if hex then "#x" else "#") + (digits + ";")
  }

  /**
   * A numeric reference is read as the bytes of the character whose number its digits stand for, U+FFFD for a
   * surrogate; and beyond the last code point it is an error.
   */
  lemma NumericMeans(hex: bool, digits: seq<Byte>, values: seq<nat>, rest: seq<Item>)
    requires digits != [] && Digital(if hex then 16 else 10, digits, values)
    ensures var n := PlaceValue(if hex then 16 else 10, values);
            var t := Reference(Deliver(Numeric(hex, digits), None, rest));
            if 0x10FFFF < n then t == TextScan(None, Some(Syntax), rest)
            else
              && t.text.Some? && t.err.None? && t.rest == rest
              && DecodeRune(t.text.value) == Some(if Surrogate(n) then 0xFFFD else n)
  {
    var base, n := if hex then 16 else 10, PlaceValue(if hex then 16 else 10, values);
    NumericScan(hex, digits, values, rest, n);
    if n <= 0x10FFFF {
      RuneBytes(n);
    }
  }

  lemma DigitsMean(base: nat, digits: seq<Byte>, values: seq<nat>, rest: seq<Item>)
    requires base in {10, 16} && digits != [] && Digital(base, digits, values)
    ensures var n := PlaceValue(base, values);
            Digits(base, Deliver(digits, None, Deliver(";", None, rest)), 0, 0)
            == if 0x10FFFF < n then TextScan(None, Some(Syntax), rest) else TextScan(Some(EncodeRune(n)), None, rest)
  {
    WorthIsPlaceValue(base, 0, values);
    DigitsRead(base, digits, values, 0, 0, Deliver(";", None, rest));
    DigitsEnd(base, rest, |digits|, PlaceValue(base, values));
  }

  lemma NumericScan(hex: bool, digits: seq<Byte>, values: seq<nat>, rest: seq<Item>, n: nat)
    requires digits != [] && Digital(if hex then 16 else 10, digits, values)
    requires n == PlaceValue(if hex then 16 else 10, values)
    ensures Reference(Deliver(Numeric(hex, digits), None, rest))
         == if 0x10FFFF < n then TextScan(None, Some(Syntax), rest) else TextScan(Some(EncodeRune(n)), None, rest)
  {
    var base, s2 := if hex then 16 else 10, Deliver(";", None, rest);
    var s1 := Deliver(digits, None, s2);
    DeliverAppend(if hex then "#x" else "#", digits + ";", None, rest);
    DeliverAppend(digits, ";", None, rest);
    DigitsMean(base, digits, values, rest);
    AfterNumberSign(hex, digits[0], values[0], s1, Digits(base, s1, 0, 0)) by {
      GetcDeliver(digits, s2);
    }
  }

  lemma AfterNumberSign(hex: bool, b: Byte, v: nat, s: seq<Item>, t: TextScan)
    requires Getc(s).b == Some(b) && StandsFor(b, v) && t == Digits(if hex then 16 else 10, s, 0, 0)
    ensures Reference(Deliver(if hex then "#x" else "#", None, s)) == t
  {
    if hex {
      GetcDeliver("#x", s);
      assert "#x"[1..] == "x";
      GetcOne('x', s);
    } else {
      GetcOne('#', s);
      NotAnX(b, v);
    }
  }

  lemma NotAnX(b: Byte, v: nat)
    requires StandsFor(b, v)
    ensures b != 'x'
  {
  }

  /** The five entities, and the characters they stand for. */
  datatype Entity = Lt | Gt | Amp | Apos | Quot {
    function Name(): seq<Byte> {
      match this case Lt => "lt" case Gt => "gt" case Amp => "amp" case Apos => "apos" case Quot => "quot"
    }

    function Char(): Byte {
      match this case Lt => '<' case Gt => '>' case Amp => '&' case Apos => '\'' case Quot => '"'
    }
  }

  lemma EntityMeans(e: Entity, rest: seq<Item>)
    ensures Reference(Deliver(e.Name() + ";", None, rest)) == TextScan(Some([e.Char()]), None, rest)
  {
    DecodeNamed(e.Name(), e.Name() + ";", rest);
  }

  /** No other name is one of an entity. */
  lemma OtherEntity(name: seq<Byte>, rest: seq<Item>)
    requires name != [] && (forall c <- name :: InName(c)) && forall e: Entity :: name != e.Name()
    ensures Reference(Deliver(name + ";", None, rest)) == TextScan(None, Some(Syntax), rest)
  {
    DeliverAppend(name, ";", None, rest);
    GetcOne(';', rest);
    ReadWholeName(name, Deliver(";", None, rest));
    GetcDeliver(name, Deliver(";", None, rest));
    assert name[0] in name;
    assert Lt.Name() != name && Gt.Name() != name && Amp.Name() != name && Apos.Name() != name && Quot.Name() != name;
  }
}
