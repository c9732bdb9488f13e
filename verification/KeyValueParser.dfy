/** key_value_parser.c itself: loops over text that write into memory in place, proved to do what
    KeyValueSpec says. Text is given without its final NUL, and NUL is read at its end. */
module KeyValueParser {
  import opened Wrappers

  import opened KeyValueText
  import opened KeyValueSpec

  function At(s: Text, i: nat): Byte { if i < |s| then s[i] else NUL }

  /** memcpy into memory. */
  method Copy(mem: array<Byte>, at: nat, s: seq<Byte>)
    requires at + |s| <= mem.Length
    modifies mem
    ensures mem[..] == Splice(old(mem[..]), at, s)
  {
    for i := 0 to |s|
      invariant forall k :: 0 <= k < i ==> mem[at + k] == s[k]
      invariant forall k :: 0 <= k < mem.Length && !(at <= k < at + i) ==> mem[k] == old(mem[k])
    {
      mem[at + i] := s[i];
    }
    forall k | 0 <= k < mem.Length ensures mem[k] == Splice(old(mem[..]), at, s)[k] {
      if at <= k < at + |s| { assert mem[at + (k - at)] == s[k - at]; }
    }
  }

  /** memset to zero. */
  method Clear(mem: array<Byte>, at: nat, n: nat)
    requires at + n <= mem.Length
    modifies mem
    ensures mem[..] == Splice(old(mem[..]), at, Zeros(n))
  {
    Copy(mem, at, Zeros(n));
  }

  method SpacesEnd(s: Text, from: nat) returns (i: nat)
    requires from <= |s|
    ensures from <= i <= |s| && s[i..] == SkipSpaces(s[from..])
  {
    i := from;
    while At(s, i) == SPACE
      invariant from <= i <= |s| && SkipSpaces(s[i..]) == SkipSpaces(s[from..])
      decreases |s| - i
    {
      assert s[i..][1..] == s[i + 1..];
      i := i + 1;
    }
  }

  /** strdup_to_newline: a copy of the line that starts at p, or none for an empty line. */
  method StrdupToNewline(text: Text, p: nat) returns (line: Option<Text>)
    requires p <= |text| && NUL !in text
    ensures line == if LineAt(text, p) == [] then None else Some(LineAt(text, p))
  {
    var i := p;
    while At(text, i) != NEWLINE && At(text, i) != NUL
      invariant p <= i <= |text| && LineEnd(text, p) == LineEnd(text, i)
      decreases |text| - i
    {
      i := i + 1;
    }
    return if i == p then None else Some(text[p..i]);
  }

  /** parse_string */
  method ParseString(text: Text, k: Field, base: seq<nat>, mem: array<Byte>)
    requires InMemory(k, base, mem.Length) && k.kind.Str?
    modifies mem
    ensures mem[..] == Store(k, base, old(mem[..]), StringBytes(text, k.size))
  {
    var i := SpacesEnd(text, 0);
    assert text[0..] == text;
    var len := |text| - i;
    if len > k.size - 1 { len := k.size - 1; }
    var at := Address(k, base);
    ghost var was := mem[..];
    Clear(mem, at, k.size);
    Copy(mem, at, text[i..i + len]);
    assert text[i..][..len] == text[i..i + len];
    SpliceOver(was, at, text[i..i + len], k.size);
  }

  lemma SpliceOver(mem: seq<Byte>, at: nat, t: Text, size: nat)
    requires at + size <= |mem| && |t| <= size
    ensures Splice(Splice(mem, at, Zeros(size)), at, t)
            == Splice(mem, at, t + Zeros(size - |t|))
  {
    var a, b := Splice(Splice(mem, at, Zeros(size)), at, t), Splice(mem, at, t + Zeros(size - |t|));
    forall i | 0 <= i < |mem| ensures a[i] == b[i] {}
  }

  /** key_value_parse_line_with_key */
  method ParseLineWithKey(k: Field, line: Text, base: seq<nat>, mem: array<Byte>) returns (rc: int)
    requires InMemory(k, base, mem.Length)
    modifies mem
    ensures ParseWithKey(k, line, base, old(mem[..])) == Parsed(rc, mem[..])
  {
    var klen := |k.key|;
    if |line| < klen + 1 { return 1; }
    if line[..klen] != k.key { return 1; }
    if line[klen] != COLON { return 1; }
    var start := SpacesEnd(line, klen + 1);
    var value := line[start..];
    match k.kind
    case Str =>
      ParseString(value, k, base, mem);
      return 0;
    case Int(signed, w) =>
      match Scan(value) {
        case None => return 1;
        case Some(n) =>
          Copy(mem, Address(k, base), WordBytes(Convert(signed, w, n), w));
          return 0;
      }
    case Unknown =>
      return -1;
  }

  /** key_value_parse_line, for the line of `text` that starts at p. */
  method ParseOneLine(table: seq<Field>, text: Text, p: nat, base: seq<nat>, mem: array<Byte>)
    returns (rc: int)
    requires p <= |text| && NUL !in text && TableInMemory(table, base, mem.Length)
    modifies mem
    ensures ParseLine(table, 0, LineAt(text, p), base, old(mem[..])) == Parsed(rc, mem[..])
  {
    var copy := StrdupToNewline(text, p);
    if copy == None { return 0; }
    var line := copy.value;
    for i := 0 to |table|
      invariant mem[..] == old(mem[..])
      invariant ParseLine(table, 0, line, base, old(mem[..]))
                == ParseLine(table, i, line, base, old(mem[..]))
    {
      rc := ParseLineWithKey(table[i], line, base, mem);
      if rc > 0 { continue; }
      return rc;
    }
    return 0;
  }

  /** key_value_parse_lines. Runs of newlines are skipped at once. */
  method ParseLines(table: seq<Field>, text: Text, base: seq<nat>, mem: array<Byte>)
    returns (rc: int)
    requires NUL !in text && TableInMemory(table, base, mem.Length)
    modifies mem
    ensures ParseText(table, text, 0, base, old(mem[..])) == Parsed(rc, mem[..])
  {
    var p := 0;
    while At(text, p) != NUL
      invariant p <= |text|
      invariant ParseText(table, text, 0, base, old(mem[..]))
                == ParseText(table, text, p, base, mem[..])
      decreases |text| - p
    {
      rc := ParseOneLine(table, text, p, base, mem);
      if rc != 0 { return rc; }
      var q := p;
      while At(text, q) != NEWLINE && At(text, q) != NUL
        invariant p <= q <= |text| && LineEnd(text, p) == LineEnd(text, q)
        decreases |text| - q
      {
        q := q + 1;
      }
      var r := NewlinesEnd(text, q);
      BlankLines(table, text, NextLine(text, p), r, base, mem[..]);
      p := r;
    }
    return 0;
  }

  method NewlinesEnd(text: Text, from: nat) returns (p: nat)
    requires from <= |text|
    ensures from <= p <= |text| && forall i :: from <= i < p ==> text[i] == NEWLINE
    ensures from < |text| && text[from] == NEWLINE ==> from < p
  {
    p := from;
    while At(text, p) == NEWLINE
      invariant from <= p <= |text| && forall i :: from <= i < p ==> text[i] == NEWLINE
      decreases |text| - p
    {
      p := p + 1;
    }
  }

  /** Blank lines change nothing. */
  lemma {:induction false} BlankLines(table: seq<Field>, text: Text, from: nat, to: nat,
                                      base: seq<nat>, mem: seq<Byte>)
    requires from <= to <= |text| && TableInMemory(table, base, |mem|)
    requires forall i :: from <= i < to ==> text[i] == NEWLINE
    ensures ParseText(table, text, from, base, mem) == ParseText(table, text, to, base, mem)
    decreases |text| - from
  {
    if from < to { BlankLines(table, text, from + 1, to, base, mem); }
  }

  /** key_value_write_lines: what is printed, and how many fields could not be. */
  method WriteLines(table: seq<Field>, base: seq<nat>, mem: array<Byte>)
    returns (output: Text, errs: nat)
    requires TableInMemory(table, base, mem.Length)
    ensures output == WriteText(table, |table|, base, mem[..]) && errs == Unknowns(table, |table|)
  {
    output, errs := [], 0;
    for i := 0 to |table|
      invariant output == WriteText(table, i, base, mem[..])
      invariant errs == Unknowns(table, i)
    {
      var k := table[i];
      output := output + Line(k, base, mem[..]);  // nothing, for an unknown type
      if k.kind.Unknown? { errs := errs + 1; }
    }
  }
}
