/**
 * IPv4 addresses as the adapter handles them: `resolve_ip4` splits a dotted
 * quad "a.b.c.d" on '.', converts each part with JavaScript's unary `+`, and
 * packs the four values little end first into one 32-bit integer
 * (`d << 24 | c << 16 | b << 8 | a`); `ip4_ntoa` unpacks such an integer
 * back into "a.b.c.d". JavaScript's `<<`, `>>`, `|` and `&` work on 32-bit
 * two's-complement integers, so the packed value is modelled as a `bv32`.
 */
module Ip4 {

  predicate IsDigit(c: char) {
    '0' <= c <= '9'
  }

  /** A non-empty run of decimal digits. */
  predicate IsDigits(s: string) {
    |s| > 0 && forall i | 0 <= i < |s| :: IsDigit(s[i])
  }

  function DigitChar(d: nat): (c: char)
    requires d < 10
    ensures IsDigit(c)
  {
    ('0' as int + d) as char
  }

  /** How JavaScript prints a non-negative integer: decimal, no leading zeros. */
  function Decimal(n: nat): (s: string)
    ensures IsDigits(s)
    ensures n < 10 <==> |s| == 1
  {
    if n < 10 then [DigitChar(n)] else Decimal(n / 10) + [DigitChar(n % 10)]
  }

  function DigitValue(c: char): (d: nat)
    requires IsDigit(c)
    ensures d < 10
  {
    c as int - '0' as int
  }

  /** The number JavaScript's unary `+` makes of a string of decimal digits. */
  function ParseDecimal(s: string): (n: nat)
    requires forall i | 0 <= i < |s| :: IsDigit(s[i])
    ensures n < Pow10(|s|)
  {
    if s == [] then 0
    else 10 * ParseDecimal(s[..|s| - 1]) + DigitValue(s[|s| - 1])
  }

  /** 10 to the power `k`. */
  function Pow10(k: nat): (p: nat)
    ensures p > 0
  {
    if k == 0 then 1 else 10 * Pow10(k - 1)
  }

  /** Printing a number and reading it back gives the number. */
  lemma {:induction false} ParseDecimalOfDecimal(n: nat)
    ensures ParseDecimal(Decimal(n)) == n
  {
    var s := Decimal(n);
    if n >= 10 {
      assert s[..|s| - 1] == Decimal(n / 10);
      ParseDecimalOfDecimal(n / 10);
    }
  }

  /** Joins non-empty `parts` with '.' between neighbours (the inverse of Split). */
  function Join(parts: seq<string>): string
    requires |parts| > 0
  {
    if |parts| == 1 then parts[0] else parts[0] + "." + Join(parts[1..])
  }

  /** `s.split(".")`: the maximal dot-free pieces between the dots of `s`. */
  function Split(s: string): (parts: seq<string>)
    ensures |parts| > 0
    ensures forall i | 0 <= i < |parts| :: '.' !in parts[i]
    ensures Join(parts) == s
  {
    if s == [] then [""]
    else if s[0] == '.' then
      var rest := Split(s[1..]);
      assert Join([""] + rest) == "" + "." + Join(rest);
      [""] + rest
    else
      var rest := Split(s[1..]);
      var parts := [[s[0]] + rest[0]] + rest[1..];
      assert s == [s[0]] + s[1..];
      assert |rest| > 1 ==> parts[1..] == rest[1..];
      parts
  }

  /** A piece without dots followed by a dot splits off as the first part. */
  lemma {:induction false} SplitPrefix(x: string, rest: string)
    requires '.' !in x
    ensures Split(x + "." + rest) == [x] + Split(rest)
  {
    if x == [] {
      assert x + "." + rest == "." + rest;
      assert ("." + rest)[1..] == rest;
    } else {
      var s := x + "." + rest;
      assert s[0] == x[0] && s[1..] == x[1..] + "." + rest;
      SplitPrefix(x[1..], rest);
      assert [x[0]] + x[1..] == x;
    }
  }

  /** A string without dots splits into itself alone. */
  lemma {:induction false} SplitPlain(x: string)
    requires '.' !in x
    ensures Split(x) == [x]
  {
    if x != [] {
      SplitPlain(x[1..]);
      assert [x[0]] + x[1..] == x;
    }
  }

  /** A well-formed dotted quad: exactly four non-empty digit runs. */
  predicate IsDottedQuad(address: string) {
    var parts := Split(address);
    |parts| == 4 && forall i | 0 <= i < 4 :: IsDigits(parts[i])
  }

  /** ToInt32 of a non-negative integer: its low 32 bits. */
  function Int32Bits(n: nat): bv32 {
    (n % 0x1_0000_0000) as bv32
  }

  /** `(d << 24) | (c << 16) | (b << 8) | a` on 32-bit integers. */
  function Pack(a: bv32, b: bv32, c: bv32, d: bv32): (x: bv32)
    ensures x & 0xff == a & 0xff
  {
    (d << 24) | (c << 16) | (b << 8) | a
  }

  /** `(x >> shift) & 0xff`, the byte of `x` that starts at bit `shift`. */
  function OctetAt(x: bv32, shift: nat): bv8
    requires shift <= 24
  {
    ((x >> shift) & 0xff) as bv8
  }

  /** resolve_ip4: splits the address and packs its four parts. */
  function ResolveIp4(address: string): (r: bv32)
    requires IsDottedQuad(address)
    ensures OctetAt(r, 0) == OctetAt(Int32Bits(ParseDecimal(Split(address)[0])), 0)
  {
    var parts := Split(address);
    Pack(Int32Bits(ParseDecimal(parts[0])), Int32Bits(ParseDecimal(parts[1])),
         Int32Bits(ParseDecimal(parts[2])), Int32Bits(ParseDecimal(parts[3])))
  }

  /** The presentation form "a.b.c.d" of four octets. */
  function DottedQuad(a: bv8, b: bv8, c: bv8, d: bv8): string {
    Decimal(a as nat) + "." + Decimal(b as nat) + "." + Decimal(c as nat) + "." + Decimal(d as nat)
  }

  /**
   * ip4_ntoa: the four bytes, lowest first, printed as a dotted quad.
   * (JavaScript's `>>` copies the sign bit in, but `& 0xff` discards it.)
   */
  function Ip4Ntoa(x: bv32): (s: string)
    ensures IsDottedQuad(s)
    ensures Split(s) == [Decimal(OctetAt(x, 0) as nat), Decimal(OctetAt(x, 8) as nat),
                         Decimal(OctetAt(x, 16) as nat), Decimal(OctetAt(x, 24) as nat)]
  {
    SplitDottedQuad(OctetAt(x, 0), OctetAt(x, 8), OctetAt(x, 16), OctetAt(x, 24));
    DottedQuad(OctetAt(x, 0), OctetAt(x, 8), OctetAt(x, 16), OctetAt(x, 24))
  }

  lemma DigitsHaveNoDot(s: string)
    requires IsDigits(s)
    ensures '.' !in s
  {
    forall i | 0 <= i < |s| ensures s[i] != '.' {
      assert IsDigit(s[i]);
    }
  }

  /** Four digit runs joined by dots split back into those four runs. */
  lemma SplitQuad(da: string, db: string, dc: string, dd: string)
    requires IsDigits(da) && IsDigits(db) && IsDigits(dc) && IsDigits(dd)
    ensures Split(da + "." + db + "." + dc + "." + dd) == [da, db, dc, dd]
  {
    DigitsHaveNoDot(da);
    DigitsHaveNoDot(db);
    DigitsHaveNoDot(dc);
    DigitsHaveNoDot(dd);
    var t3 := dc + "." + dd;
    var t2 := db + "." + t3;
    SplitPlain(dd);
    SplitPrefix(dc, dd);
    SplitPrefix(db, t3);
    SplitPrefix(da, t2);
    assert da + "." + db + "." + dc + "." + dd == da + "." + t2;
  }

  /** A printed dotted quad is well formed and splits into its four printed octets. */
  lemma SplitDottedQuad(a: bv8, b: bv8, c: bv8, d: bv8)
    ensures Split(DottedQuad(a, b, c, d))
      == [Decimal(a as nat), Decimal(b as nat), Decimal(c as nat), Decimal(d as nat)]
    ensures IsDottedQuad(DottedQuad(a, b, c, d))
  {
    SplitQuad(Decimal(a as nat), Decimal(b as nat), Decimal(c as nat), Decimal(d as nat));
  }

  /** Widening a byte keeps its value. */
  lemma WidenValue(o: bv8)
    ensures (o as bv32) as nat == o as nat
  {
  }

  /** A 32-bit value read as a number and converted back is unchanged. */
  lemma ValueBits(y: bv32)
    ensures (y as nat) as bv32 == y
  {
  }

  /** A number below 2^32 is its own remainder modulo 2^32. */
  lemma SmallRemainder(n: nat)
    requires n < 0x1_0000_0000
    ensures n % 0x1_0000_0000 == n
  {
  }

  /** An octet read as a number and truncated to 32 bits is the octet widened. */
  lemma OctetBits(o: bv8)
    ensures Int32Bits(o as nat) == o as bv32
  {
    var n := o as nat;
    var w := o as bv32;
    SmallRemainder(n);
    WidenValue(o);
    ValueBits(w);
    calc {
      Int32Bits(n);
      (n % 0x1_0000_0000) as bv32;
      n as bv32;
      (w as nat) as bv32;
      w;
    }
  }

  /** Unpacking a packed address gives back its four octets. */
  lemma UnpackPack(a: bv8, b: bv8, c: bv8, d: bv8)
    ensures var x := Pack(a as bv32, b as bv32, c as bv32, d as bv32);
      OctetAt(x, 0) == a && OctetAt(x, 8) == b && OctetAt(x, 16) == c && OctetAt(x, 24) == d
  {
  }

  /** An octet widened back to 32 bits is the masked shift it was cut from. */
  lemma OctetWiden(x: bv32, shift: nat)
    requires shift <= 24
    ensures OctetAt(x, shift) as bv32 == (x >> shift) & 0xff
  {
  }

  /** Packing the four octets of a 32-bit value gives back the value. */
  lemma PackUnpack(x: bv32)
    ensures Pack(OctetAt(x, 0) as bv32, OctetAt(x, 8) as bv32,
                 OctetAt(x, 16) as bv32, OctetAt(x, 24) as bv32) == x
  {
    OctetWiden(x, 0);
    OctetWiden(x, 8);
    OctetWiden(x, 16);
    OctetWiden(x, 24);
    assert (((x >> 24) & 0xff) << 24) | (((x >> 16) & 0xff) << 16) | (((x >> 8) & 0xff) << 8) | ((x >> 0) & 0xff) == x;
  }

  /** Resolving a printed dotted quad packs its octets; the low byte is the first octet. */
  lemma ResolveDottedQuad(a: bv8, b: bv8, c: bv8, d: bv8)
    ensures IsDottedQuad(DottedQuad(a, b, c, d))
    ensures ResolveIp4(DottedQuad(a, b, c, d)) == Pack(a as bv32, b as bv32, c as bv32, d as bv32)
    ensures OctetAt(ResolveIp4(DottedQuad(a, b, c, d)), 0) == a
  {
    SplitDottedQuad(a, b, c, d);
    ParseDecimalOfDecimal(a as nat);
    ParseDecimalOfDecimal(b as nat);
    ParseDecimalOfDecimal(c as nat);
    ParseDecimalOfDecimal(d as nat);
    OctetBits(a);
    OctetBits(b);
    OctetBits(c);
    OctetBits(d);
    UnpackPack(a, b, c, d);
  }

  /** Address round trip: ip4_ntoa(resolve_ip4("a.b.c.d")) == "a.b.c.d". */
  lemma NtoaResolve(a: bv8, b: bv8, c: bv8, d: bv8)
    ensures IsDottedQuad(DottedQuad(a, b, c, d))
    ensures Ip4Ntoa(ResolveIp4(DottedQuad(a, b, c, d))) == DottedQuad(a, b, c, d)
  {
    ResolveDottedQuad(a, b, c, d);
    UnpackPack(a, b, c, d);
  }

  /** The other round trip: every 32-bit address prints to a dotted quad that resolves back to it. */
  lemma ResolveNtoa(x: bv32)
    ensures IsDottedQuad(Ip4Ntoa(x))
    ensures ResolveIp4(Ip4Ntoa(x)) == x
  {
    ResolveDottedQuad(OctetAt(x, 0), OctetAt(x, 8), OctetAt(x, 16), OctetAt(x, 24));
    PackUnpack(x);
  }
}
