/** What key_value_parser.c reads and writes, on values: a table of fields laid out in memory, the
    text that stands for them, and what parsing text does to memory. */
module KeyValueSpec {
  import opened Wrappers

  import opened KeyValueText

  /** KVS_STRING; the eight integer types; and characters that stand for no type. Tables with fields
      of type float or double are not modelled. */
  datatype Kind = Str | Int(signed: bool, width: nat) | Unknown

  /** struct key_value_specification */
  datatype Field = Field(key: Text, kind: Kind, index: nat, offset: nat, size: nat) {

    /** How many bytes of memory the field takes: an integer goes by its type. */
    function Extent(): nat {
      match kind
      case Str => size
      case Int(_, width) => width
      case Unknown => 0
    }
  }

  /** base_address[address_index] + address_offset; memory is one array of bytes. */
  function Address(k: Field, base: seq<nat>): nat
    requires k.index < |base|
  {
    base[k.index] + k.offset
  }

  predicate InMemory(k: Field, base: seq<nat>, n: nat) {
    && k.index < |base| && Address(k, base) + k.Extent() <= n
    && (k.kind.Str? ==> k.size > 0)
    && (k.kind.Int? ==> k.kind.width in {1, 2, 4, 8})
  }

  ghost predicate TableInMemory(table: seq<Field>, base: seq<nat>, n: nat) {
    forall i :: 0 <= i < |table| ==> InMemory(table[i], base, n)
  }

  function Slice(mem: seq<Byte>, at: nat, n: nat): (s: seq<Byte>)
    requires at + n <= |mem|
    ensures |s| == n
  {
    mem[at..at + n]
  }

  function Splice(mem: seq<Byte>, at: nat, s: seq<Byte>): (r: seq<Byte>)
    requires at + |s| <= |mem|
    ensures |r| == |mem|
    ensures forall i {:trigger r[i]} :: 0 <= i < |mem| ==>
              r[i] == if at <= i < at + |s| then s[i - at] else mem[i]
  {
    mem[..at] + s + mem[at + |s|..]
  }

  function FieldBytes(k: Field, base: seq<nat>, mem: seq<Byte>): seq<Byte>
    requires InMemory(k, base, |mem|)
  {
    Slice(mem, Address(k, base), k.Extent())
  }

  function Store(k: Field, base: seq<nat>, mem: seq<Byte>, s: seq<Byte>): (r: seq<Byte>)
    requires InMemory(k, base, |mem|) && |s| == k.Extent()
    ensures |r| == |mem|
  {
    Splice(mem, Address(k, base), s)
  }

  lemma StoredBytes(k: Field, base: seq<nat>, mem: seq<Byte>, s: seq<Byte>)
    requires InMemory(k, base, |mem|) && |s| == k.Extent()
    ensures FieldBytes(k, base, Store(k, base, mem, s)) == s
  {}

  predicate Disjoint(k: Field, l: Field, base: seq<nat>)
    requires k.index < |base| && l.index < |base|
  {
    || Address(k, base) + k.Extent() <= Address(l, base)
    || Address(l, base) + l.Extent() <= Address(k, base)
  }

  lemma OtherBytes(k: Field, l: Field, base: seq<nat>, mem: seq<Byte>, s: seq<Byte>)
    requires InMemory(k, base, |mem|) && InMemory(l, base, |mem|) && |s| == k.Extent()
    requires Disjoint(k, l, base)
    ensures FieldBytes(l, base, Store(k, base, mem, s)) == FieldBytes(l, base, mem)
  {}

  // ----- Strings in memory

  /** The bytes before the first NUL. */
  function CString(s: seq<Byte>): (t: Text) {
    if s == [] || s[0] == NUL then [] else [s[0]] + CString(s[1..])
  }

  function Zeros(n: nat): (s: seq<Byte>)
    ensures |s| == n && forall i :: 0 <= i < n ==> s[i] == NUL
  {
    if n == 0 then [] else [NUL] + Zeros(n - 1)
  }

  /** What parse_string leaves in a field of the given size, for the text after the colon. */
  function StringBytes(text: Text, size: nat): (s: seq<Byte>)
    requires size > 0
    ensures |s| == size
  {
    var t := SkipSpaces(text);
    var n := if |t| > size - 1 then size - 1 else |t|;
    t[..n] + Zeros(size - n)
  }

  lemma {:induction false} CStringPadded(t: Text, n: nat)
    requires NUL !in t && n > 0
    ensures CString(t + Zeros(n)) == t
  {
    if t == [] {
      assert t + Zeros(n) == Zeros(n);
    } else {
      assert (t + Zeros(n))[1..] == t[1..] + Zeros(n);
      CStringPadded(t[1..], n);
    }
  }

  lemma {:induction false} CStringHasNoNul(s: seq<Byte>)
    ensures NUL !in CString(s) && |CString(s)| <= |s|
    ensures CString(s) == s[..|CString(s)|]
  {
    if s != [] && s[0] != NUL { CStringHasNoNul(s[1..]); }
  }

  // ----- Writing

  /** What a field holds, as printed: write_string and write_int. */
  function Printed(k: Field, base: seq<nat>, mem: seq<Byte>): Text
    requires InMemory(k, base, |mem|)
  {
    match k.kind
    case Str => CString(FieldBytes(k, base, mem))
    case Int(signed, w) => Print(Interpret(signed, w, WordOf(FieldBytes(k, base, mem))))
    case Unknown => []
  }

  function Line(k: Field, base: seq<nat>, mem: seq<Byte>): Text
    requires InMemory(k, base, |mem|)
  {
    if k.kind.Unknown? then [] else k.key + [COLON] + Printed(k, base, mem) + [NEWLINE]
  }

  /** The lines of all fields. */
  function Lines(table: seq<Field>, base: seq<nat>, mem: seq<Byte>): (lines: seq<Text>)
    requires TableInMemory(table, base, |mem|)
    ensures |lines| == |table|
  {
    seq(|table|, i requires 0 <= i < |table| && InMemory(table[i], base, |mem|) =>
          Line(table[i], base, mem))
  }

  /** The first n texts, one after the other. */
  function Joined(texts: seq<Text>, n: nat): Text
    requires n <= |texts|
  {
    if n == 0 then [] else Joined(texts, n - 1) + texts[n - 1]
  }

  /** key_value_write_lines: the lines of the first n fields, and how many have no known type. */
  function WriteText(table: seq<Field>, n: nat, base: seq<nat>, mem: seq<Byte>): Text
    requires n <= |table| && TableInMemory(table, base, |mem|)
  {
    Joined(Lines(table, base, mem), n)
  }

  function Unknowns(table: seq<Field>, n: nat): nat
    requires n <= |table|
  {
    if n == 0 then 0 else Unknowns(table, n - 1) + if table[n - 1].kind.Unknown? then 1 else 0
  }

  // ----- Parsing

  predicate KeyMatches(k: Field, line: Text) {
    |line| >= |k.key| + 1 && line[..|k.key|] == k.key && line[|k.key|] == COLON
  }

  function ValueText(k: Field, line: Text): Text
    requires KeyMatches(k, line)
  {
    SkipSpaces(line[|k.key| + 1..])
  }

  /** The return codes of key_value_parse_line_with_key: 0 parsed, positive not this field,
      negative failed. An integer that does not scan counts as "not this field". */
  datatype Parsed = Parsed(rc: int, mem: seq<Byte>)

  function ParseWithKey(k: Field, line: Text, base: seq<nat>, mem: seq<Byte>): (p: Parsed)
    requires InMemory(k, base, |mem|)
    ensures |p.mem| == |mem|
  {
    if !KeyMatches(k, line) then Parsed(1, mem)
    else
      match k.kind
      case Str => Parsed(0, Store(k, base, mem, StringBytes(ValueText(k, line), k.size)))
      case Int(signed, w) =>
        (match Scan(ValueText(k, line))
         case None => Parsed(1, mem)
         case Some(n) =>
           Parsed(0, Store(k, base, mem, WordBytes(Convert(signed, w, n), w))))
      case Unknown => Parsed(-1, mem)
  }

  /** One line, given to the fields from number `from` on, in order, until one takes it. A blank
      line, or one that no field takes, changes nothing. */
  function ParseLine(table: seq<Field>, from: nat, line: Text, base: seq<nat>, mem: seq<Byte>)
    : (p: Parsed)
    requires from <= |table| && TableInMemory(table, base, |mem|)
    ensures |p.mem| == |mem| && p.rc <= 0
    decreases |table| - from
  {
    if line == [] || from == |table| then Parsed(0, mem)
    else
      var p := ParseWithKey(table[from], line, base, mem);
      if p.rc > 0 then ParseLine(table, from + 1, line, base, mem) else p
  }

  /** Where the line that starts at `from` ends: at a newline or at the end of the text. */
  function LineEnd(text: Text, from: nat): (n: nat)
    requires from <= |text|
    ensures from <= n <= |text| && (n < |text| ==> text[n] == NEWLINE)
    decreases |text| - from
  {
    if from < |text| && text[from] != NEWLINE then LineEnd(text, from + 1) else from
  }

  function NextLine(text: Text, from: nat): (n: nat)
    requires from <= |text|
    ensures n <= |text| && (from < |text| ==> from < n)
  {
    var e := LineEnd(text, from);
    if e < |text| then e + 1 else e
  }

  function LineAt(text: Text, from: nat): Text
    requires from <= |text|
  {
    text[from..LineEnd(text, from)]
  }

  lemma {:induction false} LineIsOne(text: Text, from: nat)
    requires from <= |text|
    ensures NEWLINE !in LineAt(text, from)
    ensures forall x <- LineAt(text, from) :: x in text
    decreases |text| - from
  {
    if from < |text| && text[from] != NEWLINE {
      LineIsOne(text, from + 1);
      assert LineAt(text, from) == [text[from]] + LineAt(text, from + 1);
    }
  }

  /** key_value_parse_lines, from position `from` of the text on: line after line, until one
      fails. */
  function ParseText(table: seq<Field>, text: Text, from: nat, base: seq<nat>, mem: seq<Byte>)
    : (p: Parsed)
    requires from <= |text| && TableInMemory(table, base, |mem|)
    ensures |p.mem| == |mem|
    decreases |text| - from
  {
    if from == |text| then Parsed(0, mem)
    else
      var p := ParseLine(table, 0, LineAt(text, from), base, mem);
      if p.rc != 0 then p else ParseText(table, text, NextLine(text, from), base, p.mem)
  }
}
