/** The DSSE pre-authentication encoding, the bytes that get signed
    (crates/tb-encode/src/attest.rs): "DSSEv1" SP LEN(type) SP type SP LEN(body) SP body. */
module Pae {
  import opened Words
  import opened Layout

  const SP: byte := 0x20
  const ZERO: byte := 0x30
  const MAX_DECIMAL := 10

  /** "DSSEv1" */
  const HEADER: seq<byte> := [0x44, 0x53, 0x53, 0x45, 0x76, 0x31]

  // ---- Decimal numbers -----------------------------------------------------------------

  /** The digits of `x`, most significant first, and none for zero. */
  function Digits(x: nat): seq<byte> {
    if x == 0 then [] else Digits(x / 10) + [ZERO + x % 10]
  }

  function Decimal(x: nat): (d: seq<byte>)
    ensures |d| >= 1
  {
    if x == 0 then [ZERO] else Digits(x)
  }

  predicate IsDigit(b: byte) {
    ZERO <= b < ZERO + 10
  }

  ghost predicate AllDigits(d: seq<byte>) {
    forall i :: 0 <= i < |d| ==> IsDigit(d[i])
  }

  /** The number a digit string denotes. */
  function Value(d: seq<byte>): int {
    if d == [] then 0 else 10 * Value(d[..|d| - 1]) + (d[|d| - 1] - ZERO)
  }

  lemma ValueGrows(d: seq<byte>, b: byte)
    ensures Value(d + [b]) == 10 * Value(d) + (b - ZERO)
  {
    assert (d + [b])[..|d + [b]| - 1] == d;
  }

  lemma {:induction false} DigitsRead(x: nat)
    ensures AllDigits(Digits(x)) && Value(Digits(x)) == x
    ensures x > 0 ==> Digits(x) != [] && Digits(x)[0] != ZERO
  {
    if x > 0 {
      DigitsRead(x / 10);
      ValueGrows(Digits(x / 10), ZERO + x % 10);
    }
  }

  /** The decimal of a number is made of digits, has no superfluous leading zero, and denotes
      the number. */
  lemma DecimalReads(x: nat)
    ensures AllDigits(Decimal(x)) && Value(Decimal(x)) == x
    ensures |Decimal(x)| > 1 ==> Decimal(x)[0] != ZERO
  {
    DigitsRead(x);
    if x == 0 {
      ValueGrows([], ZERO);
      assert [] + [ZERO] == [ZERO];
    }
  }

  lemma {:induction false} DigitsUnique(d: seq<byte>)
    requires AllDigits(d) && (d != [] ==> d[0] != ZERO)
    ensures Value(d) >= 0 && d == Digits(Value(d))
  {
    if d != [] {
      var n := |d| - 1;
      DigitsUnique(d[..n]);
      var v := Value(d[..n]);
      assert Value(d) == 10 * v + (d[n] - ZERO);
      assert Value(d) / 10 == v && Value(d) % 10 == d[n] - ZERO;
      assert v > 0 || n == 0;
      assert d == d[..n] + [d[n]];
    }
  }

  /** And it is the only such string. */
  lemma DecimalIsUnique(d: seq<byte>, x: nat)
    requires d != [] && AllDigits(d) && Value(d) == x && (|d| > 1 ==> d[0] != ZERO)
    ensures d == Decimal(x)
  {
    if d[0] == ZERO {
      ValueGrows([], ZERO);
      assert d == [ZERO] == [] + [ZERO];
    } else {
      DigitsUnique(d);
      assert Digits(x) != [];
    }
  }

  function Pow10(n: nat): nat {
    if n == 0 then 1 else 10 * Pow10(n - 1)
  }

  lemma {:induction false} DigitCount(x: nat, n: nat)
    ensures |Digits(x)| <= n <==> x < Pow10(n)
    decreases n
  {
    if n > 0 && x > 0 {
      DigitCount(x / 10, n - 1);
    } else if n > 0 {
      DigitCount(0, n - 1);
    }
  }

  /** The ten-digit limit on lengths admits exactly the numbers below 10^10. */
  lemma TenDigits(x: nat)
    ensures |Decimal(x)| <= MAX_DECIMAL <==> x < 10_000_000_000
  {
    DigitCount(x, MAX_DECIMAL);
    assert Pow10(10) == 10_000_000_000;
  }

  // ---- The encoding and its parser ---------------------------------------------------------

  function Encoding(ty: seq<byte>, body: seq<byte>): seq<byte> {
    HEADER + [SP] + Decimal(|ty|) + [SP] + ty + [SP] + Decimal(|body|) + [SP] + body
  }

  function PaeLen(ty: seq<byte>, body: seq<byte>): nat {
    6 + 1 + |Decimal(|ty|)| + 1 + |ty| + 1 + |Decimal(|body|)| + 1 + |body|
  }

  /** Reads digits from `i` on, continuing the number `acc`; gives the number and where it ends. */
  function ParseDigits(s: seq<byte>, i: nat, acc: int): (r: (int, nat))
    requires i <= |s|
    ensures i <= r.1 <= |s|
    decreases |s| - i
  {
    if i < |s| && IsDigit(s[i]) then ParseDigits(s, i + 1, 10 * acc + (s[i] - ZERO)) else (acc, i)
  }

  /** A length, a space, that many bytes; gives the bytes and where they end. */
  function ParseSized(s: seq<byte>, i: nat): (r: Option<(seq<byte>, nat)>)
    requires i <= |s|
    ensures r.Some? ==> r.value.1 <= |s|
  {
    var (n, j) := ParseDigits(s, i, 0);
    if j == i || j >= |s| || s[j] != SP || n < 0 || j + 1 + n > |s| then None
    else Some((s[j + 1..j + 1 + n], j + 1 + n))
  }

  function Parse(s: seq<byte>): Option<(seq<byte>, seq<byte>)> {
    if |s| < 7 || s[..7] != HEADER + [SP] then None else
    var ty := ParseSized(s, 7);
    if ty.None? || ty.value.1 >= |s| || s[ty.value.1] != SP then None else
    var body := ParseSized(s, ty.value.1 + 1);
    if body.None? || body.value.1 != |s| then None
    else Some((ty.value.0, body.value.0))
  }

  lemma {:induction false} ParseDigitsOf(s: seq<byte>, at: nat, d: seq<byte>, k: nat)
    requires AllDigits(d) && at + |d| < |s| && s[at..at + |d|] == d && !IsDigit(s[at + |d|]) && k <= |d|
    ensures ParseDigits(s, at + k, Value(d[..k])) == (Value(d), at + |d|)
    decreases |d| - k
  {
    if k == |d| {
      assert d[..k] == d;
    } else {
      assert s[at + k] == s[at..at + |d|][k] == d[k];
      assert d[..k + 1] == d[..k] + [d[k]];
      ValueGrows(d[..k], d[k]);
      ParseDigitsOf(s, at, d, k + 1);
    }
  }

  /** A sized string parses back wherever it stands. */
  lemma ParseSizedOf(s: seq<byte>, at: nat, b: seq<byte>)
    requires at + |Decimal(|b|)| + 1 + |b| <= |s|
    requires s[at..at + |Decimal(|b|)| + 1 + |b|] == Decimal(|b|) + [SP] + b
    ensures ParseSized(s, at) == Some((b, at + |Decimal(|b|)| + 1 + |b|))
  {
    hide Decimal, Value, ParseDigits;
    var d := Decimal(|b|);
    var m := at + |d| + 1 + |b|;
    DecimalReads(|b|);
    assert s[at..at + |d|] == s[at..m][..|d|] == d;
    assert s[at + |d|] == s[at..m][|d|] == SP;
    ParseDigitsOf(s, at, d, 0);
    ValueOfNothing();
    assert d[..0] == [];
    assert s[at + |d| + 1..m] == s[at..m][|d| + 1..] == b;
  }

  lemma ValueOfNothing()
    ensures Value([]) == 0
  {
  }

  /** Parsing an encoding gives its two parts back. */
  lemma ParseOfEncoding(ty: seq<byte>, body: seq<byte>)
    ensures |Encoding(ty, body)| == PaeLen(ty, body)
    ensures Parse(Encoding(ty, body)) == Some((ty, body))
  {
    hide Decimal, ParseSized;
    var s := Encoding(ty, body);
    var d, e := Decimal(|ty|), Decimal(|body|);
    var first, second := d + [SP] + ty, e + [SP] + body;
    assert s == (HEADER + [SP]) + first + [SP] + second;
    assert s[..7] == HEADER + [SP];
    assert s[7..7 + |first|] == first;
    assert s[7 + |first|] == SP;
    assert s[8 + |first|..8 + |first| + |second|] == second;
    ParseSizedOf(s, 7, ty);
    ParseSizedOf(s, 8 + |first|, body);
  }

  /** The bytes of a plain text. */
  function Ascii(text: string): seq<byte> {
    seq(|text|, i requires 0 <= i < |text| => text[i] as int % 0x80)
  }

  lemma Texts()
    ensures Ascii("DSSEv1 ") == HEADER + [SP] && Ascii(" ") == [SP]
    ensures Ascii("DSSEv1 29 ") == HEADER + [SP] + [ZERO + 2] + [ZERO + 9] + [SP]
    ensures Ascii(" 11 ") == [SP] + [ZERO + 1] + [ZERO + 1] + [SP]
  {
  }

  /** The encoding in characters. */
  lemma EncodingIs(ty: seq<byte>, body: seq<byte>)
    ensures Encoding(ty, body) == Ascii("DSSEv1 ") + Decimal(|ty|) + Ascii(" ") + ty + Ascii(" ") + Decimal(|body|) + Ascii(" ") + body
  {
    hide Ascii;
    Texts();
  }

  lemma TwoDigits()
    ensures Decimal(29) == [ZERO + 2] + [ZERO + 9] && Decimal(11) == [ZERO + 1] + [ZERO + 1]
  {
    assert Digits(2) == [] + [ZERO + 2] && Digits(29) == Digits(2) + [ZERO + 9];
    assert Digits(1) == [] + [ZERO + 1] && Digits(11) == Digits(1) + [ZERO + 1];
  }

  /** The test vector of the DSSE protocol. */
  lemma KnownEncoding()
    ensures var ty, body := Ascii("http://example.com/HelloWorld"), Ascii("hello world");
            Encoding(ty, body) == Ascii("DSSEv1 29 ") + ty + Ascii(" 11 ") + body
  {
    hide Decimal, Ascii;
    var ty, body := Ascii("http://example.com/HelloWorld"), Ascii("hello world");
    AsciiLength("http://example.com/HelloWorld");
    AsciiLength("hello world");
    Texts();
    TwoDigits();
    Regroup(HEADER + [SP], [ZERO + 2] + [ZERO + 9], [SP], ty, [ZERO + 1] + [ZERO + 1], body);
  }

  lemma AsciiLength(text: string)
    ensures |Ascii(text)| == |text|
  {
  }

  lemma Regroup(a: seq<byte>, n: seq<byte>, sp: seq<byte>, ty: seq<byte>, k: seq<byte>, body: seq<byte>)
    ensures a + n + sp + ty + sp + k + sp + body == (a + n + sp) + ty + (sp + k + sp) + body
  {
  }

  /** No two pairs share an encoding. */
  lemma EncodingIsInjective(ty: seq<byte>, body: seq<byte>, ty': seq<byte>, body': seq<byte>)
    requires Encoding(ty, body) == Encoding(ty', body')
    ensures ty == ty' && body == body'
  {
    hide Encoding, Parse;
    ParseOfEncoding(ty, body);
    ParseOfEncoding(ty', body');
  }

  // ---- In place -------------------------------------------------------------------------------

  method DecimalLen(x: nat) returns (n: nat)
    ensures n == |Decimal(x)|
  {
    if x == 0 {
      return 1;
    }
    n := CountDigits(x);
  }

  method CountDigits(x: nat) returns (n: nat)
    ensures n == |Digits(x)|
  {
    var tmp := x;
    n := 0;
    while tmp > 0
      invariant n + |Digits(tmp)| == |Digits(x)|
    {
      n := n + 1;
      tmp := tmp / 10;
    }
  }

  lemma DigitsOf(x: nat)
    ensures Digits(x) == [] <==> x == 0
  {
  }

  /** Taking the last digit off the number and putting it before the ones already written. */
  lemma DigitMoves(v: nat, done: seq<byte>)
    requires v > 0
    ensures Digits(v / 10) + ([LastDigit(v)] + done) == Digits(v) + done
    ensures |Digits(v / 10)| == |Digits(v)| - 1
  {
    DigitsEnd(v);
    hide Digits, LastDigit;
    AppendTwice(Digits(v / 10), [LastDigit(v)], done);
  }

  lemma DigitsEnd(v: nat)
    requires v > 0
    ensures Digits(v) == Digits(v / 10) + [LastDigit(v)]
  {
  }

  lemma AppendTwice(a: seq<byte>, b: seq<byte>, c: seq<byte>)
    ensures a + (b + c) == (a + b) + c
  {
  }

  function LastDigit(v: nat): byte {
    ZERO + v % 10
  }

  /** Writing a digit before those already written. */
  lemma DigitPut(s: seq<byte>, before: seq<byte>, at: nat, digit: byte, done: seq<byte>)
    requires at + 1 + |done| <= |before| && s == Splice(before, at + 1, done)
    ensures s[at := digit] == Splice(before, at, [digit] + done)
  {
    hide Splice;
    SpliceOne(s, at, digit);
    SpliceTwice(before, at, [digit], done);
  }

  lemma NoneLeft(rest: seq<byte>, done: seq<byte>, all: seq<byte>)
    requires rest + done == all && |rest| == 0
    ensures done == all
  {
  }

  /** Writes the decimal of `x` at `at`, the last digit first; returns how many digits. */
  method PutDecimal(out: array<byte>, at: nat, x: nat) returns (n: nat)
    requires at + |Decimal(x)| <= out.Length
    modifies out
    ensures n == |Decimal(x)|
    ensures out[..] == Splice(old(out[..]), at, Decimal(x))
  {
    hide Splice, Digits;
    if x == 0 {
      SpliceOne(out[..], at, ZERO);
      out[at] := ZERO;
      return 1;
    }
    n := CountDigits(x);
    PutDigits(out, at, x, n);
  }

  method PutDigits(out: array<byte>, at: nat, x: nat, ndig: nat)
    requires ndig == |Digits(x)| && at + ndig <= out.Length
    modifies out
    ensures out[..] == Splice(old(out[..]), at, Digits(x))
  {
    hide *;
    var v, k := x, ndig;
    ghost var done: seq<byte> := [];
    ghost var before := out[..];
    SpliceTwice(before, at + k, [], []);
    assert Digits(v) + [] == Digits(v);
    while k > 0
      invariant |Digits(v)| == k && Digits(v) + done == Digits(x) && |done| == ndig - k
      invariant out[..] == Splice(before, at + k, done)
      decreases k
    {
      DigitsOf(v);
      var digit := LastDigit(v);
      DigitPut(out[..], before, at + k - 1, digit, done);
      out[at + k - 1] := digit;
      DigitMoves(v, done);
      done := [digit] + done;
      v := v / 10;
      k := k - 1;
    }
    NoneLeft(Digits(v), done, Digits(x));
  }

  /** Writes the encoding at the front of `out` and returns its length; returns 0 and changes
      nothing if the buffer is too small or a length does not fit ten digits. */
  method EncodePae(ty: seq<byte>, body: seq<byte>, out: array<byte>) returns (n: nat)
    modifies out
    ensures n == if PaeLen(ty, body) <= out.Length && |ty| < 10_000_000_000 && |body| < 10_000_000_000
                 then PaeLen(ty, body) else 0
    ensures out[..] == if n > 0 then Encoding(ty, body) + old(out[..])[n..] else old(out[..])
  {
    hide Decimal, Splice;
    TenDigits(|ty|);
    TenDigits(|body|);
    var tyDigits := DecimalLen(|ty|);
    var bodyDigits := DecimalLen(|body|);
    var total := 6 + 1 + tyDigits + 1 + |ty| + 1 + bodyDigits + 1 + |body|;
    if out.Length < total || tyDigits > MAX_DECIMAL || bodyDigits > MAX_DECIMAL {
      return 0;
    }
    ghost var base := out[..];
    ghost var front := HEADER;
    CopyBytes(out, 0, HEADER);
    var off := Append(out, 6, [SP], base, front);
    front := front + [SP];
    off := AppendDecimal(out, off, |ty|, base, front);
    front := front + Decimal(|ty|);
    off := Append(out, off, [SP], base, front);
    front := front + [SP];
    off := Append(out, off, ty, base, front);
    front := front + ty;
    off := Append(out, off, [SP], base, front);
    front := front + [SP];
    off := AppendDecimal(out, off, |body|, base, front);
    front := front + Decimal(|body|);
    off := Append(out, off, [SP], base, front);
    front := front + [SP];
    off := Append(out, off, body, base, front);
    front := front + body;
    SpliceAtFront(base, front);
    n := off;
  }

  /** One byte loop of the encoder: writes `b` at the moving offset. */
  method Append(out: array<byte>, off: nat, b: seq<byte>, ghost base: seq<byte>, ghost front: seq<byte>) returns (off': nat)
    requires off == |front| && |front| + |b| <= out.Length == |base|
    requires out[..] == Splice(base, 0, front)
    modifies out
    ensures off' == |front + b| && out[..] == Splice(base, 0, front + b)
  {
    hide Splice;
    SpliceTwice(base, 0, front, b);
    CopyBytes(out, off, b);
    off' := off + |b|;
  }

  method AppendDecimal(out: array<byte>, off: nat, x: nat, ghost base: seq<byte>, ghost front: seq<byte>) returns (off': nat)
    requires off == |front| && |front| + |Decimal(x)| <= out.Length == |base|
    requires out[..] == Splice(base, 0, front)
    modifies out
    ensures off' == |front + Decimal(x)| && out[..] == Splice(base, 0, front + Decimal(x))
  {
    hide Splice;
    SpliceTwice(base, 0, front, Decimal(x));
    var n := PutDecimal(out, off, x);
    off' := off + n;
  }

  lemma SpliceAtFront(s: seq<byte>, front: seq<byte>)
    requires |front| <= |s|
    ensures Splice(s, 0, front) == front + s[|front|..]
  {
  }
}
