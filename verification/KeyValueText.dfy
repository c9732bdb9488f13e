/** The text that key_value_parser.c reads and writes: bytes, C strings, and integers as printf
    prints them in decimal and sscanf reads them back. */
module KeyValueText {
  import opened Wrappers

  type Byte = b: int | 0 <= b < 256

  /** A C string: its bytes, without the NUL that ends it. */
  type Text = seq<Byte>

  const NUL: Byte := 0
  const NEWLINE: Byte := 10
  const SPACE: Byte := 32
  const PLUS: Byte := 43
  const MINUS: Byte := 45
  const ZERO: Byte := 48
  const COLON: Byte := 58

  function SkipSpaces(s: Text): Text {
    if s != [] && s[0] == SPACE then SkipSpaces(s[1..]) else s
  }

  lemma SkipsSpaces(s: Text)
    ensures SkipSpaces(s) != [] ==> SkipSpaces(s)[0] != SPACE
    ensures |SkipSpaces(s)| <= |s| && SkipSpaces(s) == s[|s| - |SkipSpaces(s)|..]
  {}

  // ----- Decimal

  function Digits(n: nat): (s: Text)
    ensures s != []
  {
    if n < 10 then [ZERO + n] else Digits(n / 10) + [ZERO + n % 10]
  }

  /** As %d and %u print, whatever the width. */
  function Print(v: int): Text {
    if v < 0 then [MINUS] + Digits(-v) else Digits(v)
  }

  predicate IsDigit(b: Byte) { ZERO <= b <= ZERO + 9 }

  /** isspace() */
  predicate IsBlank(b: Byte) { b == SPACE || 9 <= b <= 13 }

  function SkipBlanks(s: Text): Text {
    if s != [] && IsBlank(s[0]) then SkipBlanks(s[1..]) else s
  }

  function DigitRun(s: Text, from: nat): (n: nat)
    requires from <= |s|
    ensures from <= n <= |s|
    decreases |s| - from
  {
    if from < |s| && IsDigit(s[from]) then DigitRun(s, from + 1) else from
  }

  function Value(s: Text, n: nat): nat
    requires n <= |s| && forall i :: 0 <= i < n ==> IsDigit(s[i])
  {
    if n == 0 then 0
    else
      assert IsDigit(s[n - 1]);
      Value(s, n - 1) * 10 + (s[n - 1] - ZERO)
  }

  /** What sscanf finds in front of its argument: a sign and a magnitude. */
  datatype Number = Number(negative: bool, magnitude: nat) {
    function ToInt(): int { if negative then -(magnitude as int) else magnitude }
  }

  function NumberOf(v: int): Number { Number(v < 0, if v < 0 then -v else v) }

  lemma RunIsDigits(s: Text, from: nat)
    requires from <= |s| && forall i :: 0 <= i < from ==> IsDigit(s[i])
    ensures forall i :: 0 <= i < DigitRun(s, from) ==> IsDigit(s[i])
    decreases |s| - from
  {}

  function ScanDigits(s: Text): Option<nat> {
    var n := DigitRun(s, 0);
    RunIsDigits(s, 0);
    if n == 0 then None else Some(Value(s, n))
  }

  function Scan(s: Text): Option<Number> {
    var t := SkipBlanks(s);
    var signed := t != [] && (t[0] == MINUS || t[0] == PLUS);
    match ScanDigits(if signed then t[1..] else t)
    case None => None
    case Some(m) => Some(Number(signed && t[0] == MINUS, m))
  }

  lemma {:induction false} DigitsAreDigits(n: nat)
    ensures forall i :: 0 <= i < |Digits(n)| ==> IsDigit(Digits(n)[i])
  {
    if n >= 10 { DigitsAreDigits(n / 10); }
  }

  lemma {:induction false} ValuePrefix(s: Text, t: Text, n: nat)
    requires n <= |s| && n <= |t| && forall i :: 0 <= i < n ==> s[i] == t[i] && IsDigit(s[i])
    ensures Value(s, n) == Value(t, n)
  {
    if n > 0 { ValuePrefix(s, t, n - 1); }
  }

  lemma {:induction false} DigitsValue(n: nat)
    ensures (forall i :: 0 <= i < |Digits(n)| ==> IsDigit(Digits(n)[i]))
    ensures Value(Digits(n), |Digits(n)|) == n
  {
    DigitsAreDigits(n);
    var s := Digits(n);
    if n < 10 {
      assert Value(s, 0) == 0;
    } else {
      DigitsValue(n / 10);
      var t := Digits(n / 10);
      ValuePrefix(t, s, |t|);
      assert s == t + [ZERO + n % 10];
    }
  }

  lemma {:induction false} WholeRun(s: Text, from: nat)
    requires from <= |s| && forall i :: 0 <= i < |s| ==> IsDigit(s[i])
    ensures DigitRun(s, from) == |s|
    decreases |s| - from
  {
    if from < |s| { WholeRun(s, from + 1); }
  }

  /** Reading back what was printed. */
  lemma ScanPrint(v: int)
    ensures Scan(Print(v)) == Some(NumberOf(v))
  {
    var m := if v < 0 then -v else v;
    DigitsValue(m);
    WholeRun(Digits(m), 0);
    assert Print(v)[0] == MINUS || IsDigit(Print(v)[0]);
    if v < 0 { assert Print(v)[1..] == Digits(m); }
  }

  lemma PrintIsPlain(v: int)
    ensures forall i :: 0 <= i < |Print(v)| ==> Print(v)[i] == MINUS || IsDigit(Print(v)[i])
    ensures Print(v) != []
  {
    DigitsAreDigits(if v < 0 then -v else v);
  }

  // ----- Integers in memory

  function Power256(n: nat): (p: nat)
    ensures p > 0
  {
    if n == 0 then 1 else 256 * Power256(n - 1)
  }

  /** The little-endian bytes of a w-byte word. */
  function WordBytes(p: nat, w: nat): (s: seq<Byte>)
    ensures |s| == w
  {
    if w == 0 then [] else [p % 256] + WordBytes(p / 256, w - 1)
  }

  function WordOf(s: seq<Byte>): nat {
    if s == [] then 0 else s[0] + 256 * WordOf(s[1..])
  }

  lemma {:induction false} WordBounds(s: seq<Byte>)
    ensures WordOf(s) < Power256(|s|)
  {
    if s != [] { WordBounds(s[1..]); }
  }

  lemma {:induction false} WordRoundTrip(s: seq<Byte>)
    ensures WordBytes(WordOf(s), |s|) == s
  {
    if s != [] {
      WordRoundTrip(s[1..]);
      assert WordOf(s) % 256 == s[0] && WordOf(s) / 256 == WordOf(s[1..]);
    }
  }

  /** The value of a w-byte word read as signed (two's complement) or unsigned. */
  function Interpret(signed: bool, w: nat, p: nat): int {
    if signed && 2 * p >= Power256(w) then p - Power256(w) else p
  }

  const LONG_LIMIT: int := 0x8000_0000_0000_0000
  const ULONG_LIMIT: int := 0x1_0000_0000_0000_0000

  /** What sscanf stores in w bytes for a number: it is converted as a 64-bit integer, signed or
      unsigned, out of range to the nearest (a minus sign before an unsigned one negates it
      modulo 2^64), and cut down to w bytes. */
  function Convert(signed: bool, w: nat, n: Number): nat {
    var v := n.ToInt();
    if signed then
      (if v < -LONG_LIMIT then -LONG_LIMIT else if v >= LONG_LIMIT then LONG_LIMIT - 1 else v)
        % Power256(w)
    else
      (if n.magnitude >= ULONG_LIMIT then ULONG_LIMIT - 1 else v % ULONG_LIMIT) % Power256(w)
  }

  lemma Power256Of8()
    ensures Power256(8) == ULONG_LIMIT
  {
    assert Power256(4) == 0x1_0000_0000;
  }

  lemma {:induction false} Power256Grows(m: nat, n: nat)
    requires m <= n
    ensures Power256(m) <= Power256(n)
  {
    if m < n { Power256Grows(m, n - 1); }
  }

  /** A word printed and read back is the same word. */
  lemma ConvertPrinted(signed: bool, w: nat, p: nat)
    requires 0 < w <= 8 && p < Power256(w)
    ensures Convert(signed, w, NumberOf(Interpret(signed, w, p))) == p
  {
    Power256Of8();
    Power256Grows(w, 8);
    var m, v := Power256(w), Interpret(signed, w, p);
    assert NumberOf(v).ToInt() == v;
    assert signed ==> -LONG_LIMIT <= v < LONG_LIMIT;
    if v < 0 {
      Shifted(p, m);
    } else {
      Small(p, m);
      Small(p, ULONG_LIMIT);
    }
  }

  lemma Small(p: nat, m: nat)
    requires p < m
    ensures p % m == p
  {}

  lemma Shifted(p: nat, m: nat)
    requires p < m
    ensures (p - m) % m == p
  {
    assert p - m == -1 * m + p;
  }
}
