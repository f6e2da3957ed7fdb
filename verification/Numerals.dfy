/** Decimal numerals and dotted quads as Python prints and reads them. */
module Numerals {

  function Digit(d: nat): char
    requires d < 10
  {
    '0' + d as char
  }

  predicate IsDigit(c: char) {
    '0' <= c <= '9'
  }

  predicate AllDigits(s: string) {
    forall i :: 0 <= i < |s| ==> IsDigit(s[i])
  }

  /** `"%d" % n`. */
  function Decimal(n: nat): (s: string)
    ensures s != "" && AllDigits(s)
  {
    if n < 10 then [Digit(n)] else Decimal(n / 10) + [Digit(n % 10)]
  }

  /** `int(s)`. */
  function Number(s: string): nat
    requires AllDigits(s)
  {
    if s == "" then 0 else 10 * Number(s[..|s| - 1]) + (s[|s| - 1] - '0') as nat
  }

  lemma {:induction false} NumberOfDecimal(n: nat)
    ensures Number(Decimal(n)) == n
  {
    if n >= 10 {
      NumberOfDecimal(n / 10);
      var s := Decimal(n);
      assert s[..|s| - 1] == Decimal(n / 10);
    } else {
      assert Decimal(n)[..0] == "";
    }
  }

  /** `s.partition(sep)`, first and last component. */
  function Partition(s: string, sep: char): (string, string)
  {
    if s == "" then ("", "")
    else if s[0] == sep then ("", s[1..])
    else var (a, v) := Partition(s[1..], sep); ([s[0]] + a, v)
  }

  lemma {:induction false} PartitionAt(a: string, sep: char, v: string)
    requires sep !in a
    ensures Partition(a + [sep] + v, sep) == (a, v)
  {
    if a != "" {
      PartitionAt(a[1..], sep, v);
      assert (a + [sep] + v)[1..] == a[1..] + [sep] + v;
      assert a == [a[0]] + a[1..];
    } else {
      assert ("" + [sep] + v)[1..] == v;
    }
  }

  lemma {:induction false} PartitionNone(s: string, sep: char)
    requires sep !in s
    ensures Partition(s, sep) == (s, "")
  {
    if s == "" {
    } else {
      PartitionNone(s[1..], sep);
      assert s == [s[0]] + s[1..];
    }
  }

  /** The digits, most significant first, without leading zeros. */
  lemma DecimalExact(n: nat, d: nat)
    requires d < 10
    ensures Decimal(d) == ["0123456789"[d]]
    ensures n > 0 ==> Decimal(10 * n + d) == Decimal(n) + ["0123456789"[d]]
  {
  }

  // ---------------------------------------------------------------- dotted quads

  const DOT := '.'

  function Quad(a: nat, b: nat, c: nat, d: nat): string {
    Decimal(a) + [DOT] + (Decimal(b) + [DOT] + (Decimal(c) + [DOT] + Decimal(d)))
  }

  /** `str(ip_address(n))`. */
  function Dotted(n: nat): string
    requires n < 0x1_0000_0000
  {
    Quad(n / 0x100_0000, n / 0x1_0000 % 256, n / 256 % 256, n % 256)
  }

  lemma SplitAtDot(a: nat, v: string, b: nat, w: string)
    requires Decimal(a) + [DOT] + v == Decimal(b) + [DOT] + w
    ensures a == b && v == w
  {
    assert DOT !in Decimal(a) && DOT !in Decimal(b);
    PartitionAt(Decimal(a), DOT, v);
    PartitionAt(Decimal(b), DOT, w);
    NumberOfDecimal(a);
    NumberOfDecimal(b);
  }

  lemma QuadInjective(a: nat, b: nat, c: nat, d: nat, e: nat, f: nat, g: nat, h: nat)
    requires Quad(a, b, c, d) == Quad(e, f, g, h)
    ensures a == e && b == f && c == g && d == h
  {
    SplitAtDot(a, Decimal(b) + [DOT] + (Decimal(c) + [DOT] + Decimal(d)), e, Decimal(f) + [DOT] + (Decimal(g) + [DOT] + Decimal(h)));
    SplitAtDot(b, Decimal(c) + [DOT] + Decimal(d), f, Decimal(g) + [DOT] + Decimal(h));
    SplitAtDot(c, Decimal(d), g, Decimal(h));
    NumberOfDecimal(d);
    NumberOfDecimal(h);
  }

  lemma FourBytes(n: nat)
    ensures n == 0x100_0000 * (n / 0x100_0000) + 0x1_0000 * (n / 0x1_0000 % 256) + 256 * (n / 256 % 256) + n % 256
  {
    var x := n / 256;
    var y := x / 256;
    assert y == n / 0x1_0000;
    assert y / 256 == n / 0x100_0000;
  }

  lemma DottedInjective(m: nat, n: nat)
    requires m < 0x1_0000_0000 && n < 0x1_0000_0000
    requires Dotted(m) == Dotted(n)
    ensures m == n
  {
    FourBytes(m);
    FourBytes(n);
    var (a, b, c, d) := (m / 0x100_0000, m / 0x1_0000 % 256, m / 256 % 256, m % 256);
    var (e, f, g, h) := (n / 0x100_0000, n / 0x1_0000 % 256, n / 256 % 256, n % 256);
    QuadInjective(a, b, c, d, e, f, g, h);
  }

  /** The four bytes, most significant first. */
  lemma DottedExact(a: nat, b: nat, c: nat, d: nat)
    requires a < 256 && b < 256 && c < 256 && d < 256
    ensures Dotted(0x100_0000 * a + 0x1_0000 * b + 0x100 * c + d) == Decimal(a) + "." + Decimal(b) + "." + Decimal(c) + "." + Decimal(d)
  {
    BytesOf(a, b, c, d);
    Flatten(Decimal(a), Decimal(b), Decimal(c), Decimal(d));
  }

  lemma Flatten(a: string, b: string, c: string, d: string)
    ensures a + [DOT] + (b + [DOT] + (c + [DOT] + d)) == a + "." + b + "." + c + "." + d
  {
  }

  lemma LowByte(x: nat, d: nat)
    requires d < 256
    ensures (256 * x + d) / 256 == x && (256 * x + d) % 256 == d
  {
  }

  lemma BytesOf(a: nat, b: nat, c: nat, d: nat)
    requires a < 256 && b < 256 && c < 256 && d < 256
    ensures var n := 0x100_0000 * a + 0x1_0000 * b + 0x100 * c + d;
      n / 0x100_0000 == a && n / 0x1_0000 % 256 == b && n / 256 % 256 == c && n % 256 == d
  {
    var n := 0x100_0000 * a + 0x1_0000 * b + 0x100 * c + d;
    var x := 0x1_0000 * a + 0x100 * b + c;
    var y := 0x100 * a + b;
    assert n == 256 * x + d && x == 256 * y + c;
    LowByte(x, d);
    LowByte(y, c);
    LowByte(a, b);
    assert n / 256 == x && n / 0x1_0000 == x / 256 && n / 0x100_0000 == x / 256 / 256;
  }
}
