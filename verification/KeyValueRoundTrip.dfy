/** What writing and parsing a table of fields promise together: text that was written restores
    what it was written from, whatever it is parsed into. */
module KeyValueRoundTrip {
  import opened Wrappers

  import opened KeyValueText
  import opened KeyValueSpec

  predicate GoodKey(k: Field) {
    COLON !in k.key && NEWLINE !in k.key && NUL !in k.key
  }

  predicate GoodField(table: seq<Field>, i: nat)
    requires i < |table|
  {
    GoodKey(table[i]) && !table[i].kind.Unknown?
  }

  predicate GoodPair(table: seq<Field>, i: nat, j: nat, base: seq<nat>)
    requires i < |table| && j < |table| && table[i].index < |base| && table[j].index < |base|
  {
    table[i].key != table[j].key && Disjoint(table[i], table[j], base)
  }

  /** Integer and string fields under distinct keys, apart from each other in memory. */
  ghost predicate GoodTable(table: seq<Field>, base: seq<nat>, n: nat) {
    && TableInMemory(table, base, n)
    && (forall i {:trigger GoodField(table, i)} :: 0 <= i < |table| ==> GoodField(table, i))
    && (forall i, j {:trigger GoodPair(table, i, j, base)} ::
          0 <= i < j < |table| ==> GoodPair(table, i, j, base))
  }

  // ----- Which field takes a line

  lemma OneKey(k: Field, l: Field, line: Text)
    requires KeyMatches(k, line) && KeyMatches(l, line) && COLON !in k.key && COLON !in l.key
    ensures k.key == l.key
  {
    FirstColon(k, line);
    FirstColon(l, line);
  }

  lemma FirstColon(k: Field, line: Text)
    requires KeyMatches(k, line) && COLON !in k.key
    ensures forall i :: 0 <= i < |k.key| ==> line[i] != COLON
  {
    forall i | 0 <= i < |k.key| ensures line[i] != COLON { assert line[i] == k.key[i]; }
  }

  lemma NoOtherKey(table: seq<Field>, base: seq<nat>, n: nat, i: nat, j: nat, line: Text)
    requires GoodTable(table, base, n) && i < |table| && j < |table| && i != j
    requires KeyMatches(table[i], line)
    ensures !KeyMatches(table[j], line)
  {
    assert GoodField(table, i) && GoodField(table, j);
    assert GoodPair(table, if i < j then i else j, if i < j then j else i, base);
    if KeyMatches(table[j], line) { OneKey(table[i], table[j], line); }
  }

  /** A line under field i's key is parsed into field i; if it does not scan there, it is
      ignored. */
  lemma {:induction false} TakesOwnLine(table: seq<Field>, from: nat, i: nat, line: Text,
                                        base: seq<nat>, mem: seq<Byte>)
    requires GoodTable(table, base, |mem|) && from <= |table| && i < |table|
    requires KeyMatches(table[i], line)
    ensures ParseLine(table, from, line, base, mem)
            == if from <= i && ParseWithKey(table[i], line, base, mem).rc == 0
               then ParseWithKey(table[i], line, base, mem) else Parsed(0, mem)
    decreases |table| - from
  {
    if from < |table| {
      TakesOwnLine(table, from + 1, i, line, base, mem);
      assert GoodField(table, i);
      if from != i { NoOtherKey(table, base, |mem|, i, from, line); }
    }
  }

  /** A line under no field's key is ignored. */
  lemma {:induction false} NoTaker(table: seq<Field>, from: nat, line: Text, base: seq<nat>,
                                   mem: seq<Byte>)
    requires TableInMemory(table, base, |mem|) && from <= |table|
    requires forall i :: from <= i < |table| ==> !KeyMatches(table[i], line)
    ensures ParseLine(table, from, line, base, mem) == Parsed(0, mem)
    decreases |table| - from
  {
    if from < |table| { NoTaker(table, from + 1, line, base, mem); }
  }

  /** Fields from..i do not take the line: another key, or an integer that does not scan. */
  ghost predicate PassedOver(table: seq<Field>, from: nat, i: nat, line: Text, base: seq<nat>,
                             mem: seq<Byte>)
    requires TableInMemory(table, base, |mem|) && i <= |table|
  {
    forall j :: from <= j < i ==> ParseWithKey(table[j], line, base, mem).rc > 0
  }

  /** Parsing fails on a line just when the first field to take it has no known type. */
  lemma {:induction false} FailsOnUnknown(table: seq<Field>, from: nat, line: Text, base: seq<nat>,
                                          mem: seq<Byte>)
    requires TableInMemory(table, base, |mem|) && from <= |table| && line != []
    ensures ParseLine(table, from, line, base, mem).rc != 0
            <==> exists i: nat :: from <= i < |table| && PassedOver(table, from, i, line, base, mem)
                   && KeyMatches(table[i], line) && table[i].kind.Unknown?
    decreases |table| - from
  {
    if from < |table| {
      FailsOnUnknown(table, from + 1, line, base, mem);
      if ParseWithKey(table[from], line, base, mem).rc > 0 {
        assert forall i: nat :: from < i < |table| ==>
          (PassedOver(table, from, i, line, base, mem)
           <==> PassedOver(table, from + 1, i, line, base, mem));
      } else {
        assert PassedOver(table, from, from, line, base, mem);
      }
    }
  }

  /** With no unknown types in the table no text fails to parse. */
  lemma {:induction false} NeverFails(table: seq<Field>, text: Text, from: nat, base: seq<nat>,
                                      mem: seq<Byte>)
    requires from <= |text| && TableInMemory(table, base, |mem|)
    requires forall i :: 0 <= i < |table| ==> !table[i].kind.Unknown?
    ensures ParseText(table, text, from, base, mem).rc == 0
    decreases |text| - from
  {
    if from < |text| {
      var line := LineAt(text, from);
      if line != [] { FailsOnUnknown(table, 0, line, base, mem); }
      NeverFails(table, text, NextLine(text, from), base, ParseLine(table, 0, line, base, mem).mem);
    }
  }

  lemma GoodNeverFails(table: seq<Field>, text: Text, base: seq<nat>, mem: seq<Byte>)
    requires GoodTable(table, base, |mem|)
    ensures ParseText(table, text, 0, base, mem).rc == 0
  {
    forall i | 0 <= i < |table| ensures !table[i].kind.Unknown? { assert GoodField(table, i); }
    NeverFails(table, text, 0, base, mem);
  }

  // ----- Text as a sequence of lines

  ghost predicate WholeLines(text: Text) {
    text == [] || text[|text| - 1] == NEWLINE
  }

  lemma {:induction false} LineEndShifted(a: Text, b: Text, k: nat)
    requires k <= |b|
    ensures LineEnd(a + b, |a| + k) == |a| + LineEnd(b, k)
    decreases |b| - k
  {
    if k < |b| && b[k] != NEWLINE { LineEndShifted(a, b, k + 1); }
  }

  /** Parsing the second part of a text is parsing it alone. */
  lemma {:induction false} ParseShifted(table: seq<Field>, a: Text, b: Text, k: nat,
                                        base: seq<nat>, mem: seq<Byte>)
    requires k <= |b| && TableInMemory(table, base, |mem|)
    ensures ParseText(table, a + b, |a| + k, base, mem) == ParseText(table, b, k, base, mem)
    decreases |b| - k
  {
    if k < |b| {
      LineEndShifted(a, b, k);
      assert LineAt(a + b, |a| + k) == LineAt(b, k);
      var p := ParseLine(table, 0, LineAt(b, k), base, mem);
      ParseShifted(table, a, b, NextLine(b, k), base, p.mem);
    }
  }

  lemma {:induction false} LineEndBefore(a: Text, b: Text, k: nat)
    requires k < |a| && WholeLines(a)
    ensures LineEnd(a, k) < |a| && LineEnd(a + b, k) == LineEnd(a, k)
    decreases |a| - k
  {
    if a[k] != NEWLINE { LineEndBefore(a, b, k + 1); }
  }

  lemma {:induction false} ParseAppend(table: seq<Field>, a: Text, b: Text, k: nat, base: seq<nat>,
                                       mem: seq<Byte>)
    requires TableInMemory(table, base, |mem|) && WholeLines(a) && k <= |a|
    ensures var p := ParseText(table, a, k, base, mem);
      ParseText(table, a + b, k, base, mem)
      == if p.rc != 0 then p else ParseText(table, b, 0, base, p.mem)
    decreases |a| - k
  {
    if k == |a| {
      ParseShifted(table, a, b, 0, base, mem);
    } else {
      LineEndBefore(a, b, k);
      assert LineAt(a + b, k) == LineAt(a, k);
      var p := ParseLine(table, 0, LineAt(a, k), base, mem);
      ParseAppend(table, a, b, NextLine(a, k), base, p.mem);
    }
  }

  lemma LineIsWhole(k: Field, base: seq<nat>, mem: seq<Byte>)
    requires InMemory(k, base, |mem|)
    ensures WholeLines(Line(k, base, mem))
  {}

  lemma LinesAreWhole(table: seq<Field>, base: seq<nat>, mem: seq<Byte>)
    requires TableInMemory(table, base, |mem|)
    ensures AllWhole(Lines(table, base, mem))
  {
    forall i | 0 <= i < |table| ensures WholeLines(Lines(table, base, mem)[i]) {
      LineIsWhole(table[i], base, mem);
    }
  }

  ghost predicate AllWhole(texts: seq<Text>) {
    forall i :: 0 <= i < |texts| ==> WholeLines(texts[i])
  }

  lemma {:induction false} JoinedIsWhole(texts: seq<Text>, n: nat)
    requires n <= |texts| && AllWhole(texts)
    ensures WholeLines(Joined(texts, n))
  {
    if n > 0 { JoinedIsWhole(texts, n - 1); }
  }

  /** Parsing n texts is parsing the first n - 1 and then the last one. */
  lemma ParseJoined(table: seq<Field>, texts: seq<Text>, n: nat, base: seq<nat>, mem: seq<Byte>)
    requires TableInMemory(table, base, |mem|) && 0 < n <= |texts| && AllWhole(texts)
    ensures var p := ParseText(table, Joined(texts, n - 1), 0, base, mem);
      ParseText(table, Joined(texts, n), 0, base, mem)
      == if p.rc != 0 then p else ParseText(table, texts[n - 1], 0, base, p.mem)
  {
    JoinedIsWhole(texts, n - 1);
    ParseAppend(table, Joined(texts, n - 1), texts[n - 1], 0, base, mem);
  }

  lemma {:induction false} LineEndIs(text: Text, from: nat, n: nat)
    requires from <= n <= |text| && forall i :: from <= i < n ==> text[i] != NEWLINE
    requires n < |text| ==> text[n] == NEWLINE
    ensures LineEnd(text, from) == n
    decreases |text| - from
  {
    if from < n { LineEndIs(text, from + 1, n); }
  }

  lemma ParseOneLine(table: seq<Field>, line: Text, base: seq<nat>, mem: seq<Byte>)
    requires TableInMemory(table, base, |mem|) && NEWLINE !in line
    ensures ParseText(table, line + [NEWLINE], 0, base, mem) == ParseLine(table, 0, line, base, mem)
  {
    var text := line + [NEWLINE];
    LineEndIs(text, 0, |line|);
    assert LineAt(text, 0) == line;
  }

  /** A line under no field's key may stand anywhere in a text without effect. */
  lemma ForeignLine(table: seq<Field>, a: Text, line: Text, b: Text, base: seq<nat>, mem: seq<Byte>)
    requires TableInMemory(table, base, |mem|) && WholeLines(a) && NEWLINE !in line
    requires forall i :: 0 <= i < |table| ==> !KeyMatches(table[i], line)
    ensures ParseText(table, a + (line + [NEWLINE] + b), 0, base, mem)
            == ParseText(table, a + b, 0, base, mem)
  {
    var p := ParseText(table, a, 0, base, mem);
    ParseAppend(table, a, b, 0, base, mem);
    ParseAppend(table, a, line + [NEWLINE] + b, 0, base, mem);
    if p.rc == 0 {
      ParseAppend(table, line + [NEWLINE], b, 0, base, p.mem);
      ParseOneLine(table, line, base, p.mem);
      NoTaker(table, 0, line, base, p.mem);
    }
  }

  // ----- One line written and read back

  /** What a string field can hold and give back: ended within its size, on one line, and not
      starting with a space. */
  predicate Plain(s: Text, size: nat) {
    |s| < size && NEWLINE !in s && (s != [] ==> s[0] != SPACE)
  }

  ghost predicate Restored(k: Field, base: seq<nat>, was: seq<Byte>, now: seq<Byte>)
    requires InMemory(k, base, |was|) && |now| == |was|
  {
    if k.kind.Str? then CString(FieldBytes(k, base, now)) == CString(FieldBytes(k, base, was))
    else FieldBytes(k, base, now) == FieldBytes(k, base, was)
  }

  ghost predicate Writable(k: Field, base: seq<nat>, mem: seq<Byte>)
    requires InMemory(k, base, |mem|)
  {
    k.kind.Str? ==> Plain(CString(FieldBytes(k, base, mem)), k.size)
  }

  ghost predicate WritableAt(table: seq<Field>, i: nat, base: seq<nat>, mem: seq<Byte>)
    requires TableInMemory(table, base, |mem|) && i < |table|
  {
    Writable(table[i], base, mem)
  }

  /** Every string field is plain. */
  ghost predicate AllWritable(table: seq<Field>, base: seq<nat>, mem: seq<Byte>)
    requires TableInMemory(table, base, |mem|)
  {
    forall i {:trigger WritableAt(table, i, base, mem)} :: 0 <= i < |table| ==> WritableAt(table, i, base, mem)
  }

  lemma PrintedLine(k: Field, base: seq<nat>, mem: seq<Byte>)
    requires InMemory(k, base, |mem|) && GoodKey(k) && !k.kind.Unknown?
    requires Writable(k, base, mem)
    ensures NEWLINE !in Printed(k, base, mem) && NUL !in Printed(k, base, mem)
    ensures SkipSpaces(Printed(k, base, mem)) == Printed(k, base, mem)
  {
    match k.kind
    case Str => CStringHasNoNul(FieldBytes(k, base, mem));
    case Int(signed, w) =>
      PrintIsPlain(Interpret(signed, w, WordOf(FieldBytes(k, base, mem))));
  }

  /** Field k's own line, parsed with its key, stores what is restored. */
  lemma OwnLineRestores(k: Field, base: seq<nat>, was: seq<Byte>, mem: seq<Byte>)
    requires InMemory(k, base, |was|) && |mem| == |was| && GoodKey(k) && !k.kind.Unknown?
    requires Writable(k, base, was)
    ensures var line := k.key + [COLON] + Printed(k, base, was);
      && KeyMatches(k, line) && ParseWithKey(k, line, base, mem).rc == 0
      && Restored(k, base, was, ParseWithKey(k, line, base, mem).mem)
  {
    var value := Printed(k, base, was);
    var line := k.key + [COLON] + value;
    PrintedLine(k, base, was);
    assert line[..|k.key|] == k.key && line[|k.key| + 1..] == value;
    var field := FieldBytes(k, base, was);
    match k.kind
    case Str =>
      CStringHasNoNul(field);
      CStringPadded(value, k.size - |value|);
      assert StringBytes(value, k.size) == value + Zeros(k.size - |value|);
      StoredBytes(k, base, mem, StringBytes(value, k.size));
    case Int(signed, w) =>
      WordBounds(field);
      ScanPrint(Interpret(signed, w, WordOf(field)));
      ConvertPrinted(signed, w, WordOf(field));
      WordRoundTrip(field);
      StoredBytes(k, base, mem, field);
  }

  lemma OwnLineElsewhere(k: Field, l: Field, line: Text, base: seq<nat>, was: seq<Byte>,
                         mem: seq<Byte>)
    requires InMemory(k, base, |mem|) && InMemory(l, base, |mem|) && Disjoint(k, l, base)
    requires |was| == |mem| && Restored(l, base, was, mem)
    ensures Restored(l, base, was, ParseWithKey(k, line, base, mem).mem)
  {
    var p := ParseWithKey(k, line, base, mem);
    if p.mem != mem {
      match k.kind
      case Str => OtherBytes(k, l, base, mem, StringBytes(ValueText(k, line), k.size));
      case Int(signed, w) =>
        OtherBytes(k, l, base, mem, WordBytes(Convert(signed, w, Scan(ValueText(k, line)).value), w));
    }
  }

  // ----- The whole table

  ghost predicate RestoredAt(table: seq<Field>, i: nat, base: seq<nat>, was: seq<Byte>, now: seq<Byte>)
    requires TableInMemory(table, base, |was|) && |now| == |was| && i < |table|
  {
    Restored(table[i], base, was, now)
  }

  /** The first n fields are restored. */
  ghost predicate AllRestored(table: seq<Field>, n: nat, base: seq<nat>, was: seq<Byte>, now: seq<Byte>)
    requires TableInMemory(table, base, |was|) && |now| == |was| && n <= |table|
  {
    forall i {:trigger RestoredAt(table, i, base, was, now)} ::
      0 <= i < n ==> RestoredAt(table, i, base, was, now)
  }

  /** Text i parses without failing into field i, and undoes nothing in the fields before. */
  ghost predicate RestoresInto(table: seq<Field>, i: nat, text: Text, base: seq<nat>,
                               was: seq<Byte>, mem: seq<Byte>)
    requires TableInMemory(table, base, |was|) && |mem| == |was| && i < |table|
  {
    var p := ParseText(table, text, 0, base, mem);
    && p.rc == 0 && RestoredAt(table, i, base, was, p.mem)
    && (AllRestored(table, i, base, was, mem) ==> AllRestored(table, i, base, was, p.mem))
  }

  ghost predicate Restores(table: seq<Field>, i: nat, text: Text, base: seq<nat>, was: seq<Byte>)
    requires TableInMemory(table, base, |was|) && i < |table|
  {
    forall mem: seq<Byte> {:trigger RestoresInto(table, i, text, base, was, mem)} ::
      |mem| == |was| ==> RestoresInto(table, i, text, base, was, mem)
  }

  /** One text for each field, all in a row, restores them all. */
  lemma {:induction false} JoinedRestores(table: seq<Field>, texts: seq<Text>, n: nat,
                                          base: seq<nat>, was: seq<Byte>, mem: seq<Byte>)
    requires TableInMemory(table, base, |was|) && |mem| == |was| && n <= |table| == |texts|
    requires AllWhole(texts)
    requires forall i {:trigger Restores(table, i, texts[i], base, was)} ::
               0 <= i < |table| ==> Restores(table, i, texts[i], base, was)
    ensures var p := ParseText(table, Joined(texts, n), 0, base, mem);
      p.rc == 0 && AllRestored(table, n, base, was, p.mem)
  {
    if n > 0 {
      JoinedRestores(table, texts, n - 1, base, was, mem);
      ParseJoined(table, texts, n, base, mem);
      var p := ParseText(table, Joined(texts, n - 1), 0, base, mem);
      assert Restores(table, n - 1, texts[n - 1], base, was);
      assert RestoresInto(table, n - 1, texts[n - 1], base, was, p.mem);
    }
  }

  /** Parsing what was written for the first n fields, into any memory, succeeds and restores
      them all. */
  lemma RoundTrip(table: seq<Field>, n: nat, base: seq<nat>, was: seq<Byte>, mem: seq<Byte>)
    requires GoodTable(table, base, |was|) && |mem| == |was| && n <= |table|
    requires AllWritable(table, base, was)
    ensures var p := ParseText(table, WriteText(table, n, base, was), 0, base, mem);
      p.rc == 0 && AllRestored(table, n, base, was, p.mem)
  {
    var texts := Lines(table, base, was);
    LinesAreWhole(table, base, was);
    forall i | 0 <= i < |table| ensures Restores(table, i, texts[i], base, was) {
      assert WritableAt(table, i, base, was);
      LineRestores(table, i, base, was);
    }
    JoinedRestores(table, texts, n, base, was, mem);
  }

  lemma LineRestores(table: seq<Field>, i: nat, base: seq<nat>, was: seq<Byte>)
    requires GoodTable(table, base, |was|) && i < |table| && Writable(table[i], base, was)
    ensures Restores(table, i, Line(table[i], base, was), base, was)
  {
    forall mem: seq<Byte> | |mem| == |was|
      ensures RestoresInto(table, i, Line(table[i], base, was), base, was, mem)
    {
      OwnTextRestores(table, i, base, was, mem);
    }
  }

  lemma OwnTextRestores(table: seq<Field>, i: nat, base: seq<nat>, was: seq<Byte>, mem: seq<Byte>)
    requires GoodTable(table, base, |was|) && |mem| == |was| && i < |table|
    requires Writable(table[i], base, was)
    ensures RestoresInto(table, i, Line(table[i], base, was), base, was, mem)
  {
    assert GoodField(table, i);
    var k := table[i];
    var line := k.key + [COLON] + Printed(k, base, was);
    PrintedLine(k, base, was);
    ParseOneLine(table, line, base, mem);
    OwnLineRestores(k, base, was, mem);
    TakesOwnLine(table, 0, i, line, base, mem);
    if AllRestored(table, i, base, was, mem) {
      forall j | 0 <= j < i ensures RestoredAt(table, j, base, was, ParseWithKey(k, line, base, mem).mem) {
        assert RestoredAt(table, j, base, was, mem);
        Apart(table, i, j, base, |was|);
        OwnLineElsewhere(k, table[j], line, base, was, mem);
      }
    }
  }

  lemma Apart(table: seq<Field>, i: nat, j: nat, base: seq<nat>, n: nat)
    requires GoodTable(table, base, n) && i < |table| && j < |table| && i != j
    ensures Disjoint(table[i], table[j], base)
  {
    assert GoodPair(table, if i < j then i else j, if i < j then j else i, base);
  }

  lemma NoNulInLine(k: Field, base: seq<nat>, mem: seq<Byte>)
    requires InMemory(k, base, |mem|) && NUL !in k.key
    ensures NUL !in Line(k, base, mem)
  {
    match k.kind
    case Str => CStringHasNoNul(FieldBytes(k, base, mem));
    case Int(signed, w) =>
      PrintIsPlain(Interpret(signed, w, WordOf(FieldBytes(k, base, mem))));
    case Unknown =>
  }

  ghost predicate NoNuls(texts: seq<Text>) {
    forall i :: 0 <= i < |texts| ==> NUL !in texts[i]
  }

  lemma {:induction false} JoinedHasNoNul(texts: seq<Text>, n: nat)
    requires n <= |texts| && NoNuls(texts)
    ensures NUL !in Joined(texts, n)
  {
    if n > 0 { JoinedHasNoNul(texts, n - 1); }
  }

  lemma LinesHaveNoNul(table: seq<Field>, base: seq<nat>, mem: seq<Byte>)
    requires GoodTable(table, base, |mem|)
    ensures NoNuls(Lines(table, base, mem))
  {
    forall i | 0 <= i < |table| ensures NUL !in Lines(table, base, mem)[i] {
      assert GoodField(table, i);
      NoNulInLine(table[i], base, mem);
    }
  }

  /** What is written has no NUL in it, so that it can be parsed as a C string. */
  lemma NoNulWritten(table: seq<Field>, base: seq<nat>, mem: seq<Byte>)
    requires GoodTable(table, base, |mem|)
    ensures NUL !in WriteText(table, |table|, base, mem)
  {
    LinesHaveNoNul(table, base, mem);
    JoinedHasNoNul(Lines(table, base, mem), |table|);
  }

  lemma {:induction false} NoUnknowns(table: seq<Field>, base: seq<nat>, n: nat, size: nat)
    requires GoodTable(table, base, size) && n <= |table|
    ensures Unknowns(table, n) == 0
  {
    if n > 0 {
      NoUnknowns(table, base, n - 1, size);
      assert GoodField(table, n - 1);
    }
  }

  // ----- Only plain strings come back

  /** Whatever text is parsed into a string field, it then holds a plain string. */
  lemma ParsedIsPlain(text: Text, size: nat)
    requires size > 0 && NUL !in text && NEWLINE !in text
    ensures Plain(CString(StringBytes(text, size)), size)
  {
    SkipsSpaces(text);
    var t := SkipSpaces(text);
    var n := if |t| > size - 1 then size - 1 else |t|;
    assert forall i :: 0 <= i < |t| ==> t[i] in text;
    CStringPadded(t[..n], size - n);
  }

  ghost predicate HoldsPlain(k: Field, base: seq<nat>, mem: seq<Byte>)
    requires InMemory(k, base, |mem|) && k.kind.Str?
  {
    Plain(CString(FieldBytes(k, base, mem)), k.size)
  }

  lemma ParseKeepsPlain(table: seq<Field>, i: nat, j: nat, line: Text, base: seq<nat>,
                        mem: seq<Byte>)
    requires GoodTable(table, base, |mem|) && i < |table| && j < |table| && table[i].kind.Str?
    requires NEWLINE !in line && NUL !in line
    ensures HoldsPlain(table[i], base, mem) || (i == j && KeyMatches(table[j], line)) ==>
              HoldsPlain(table[i], base, ParseWithKey(table[j], line, base, mem).mem)
  {
    var k, l := table[j], table[i];
    var p := ParseWithKey(k, line, base, mem);
    if i == j && KeyMatches(k, line) {
      var value := ValueText(k, line);
      SkipsSpaces(line[|k.key| + 1..]);
      assert forall x :: 0 <= x < |value| ==> value[x] in line[|k.key| + 1..];
      ParsedIsPlain(value, k.size);
      StoredBytes(k, base, mem, StringBytes(value, k.size));
    } else if i != j && HoldsPlain(l, base, mem) {
      Apart(table, j, i, base, |mem|);
      assert Restored(l, base, mem, mem);
      OwnLineElsewhere(k, l, line, base, mem, mem);
    }
  }

  lemma {:induction false} LineKeepsPlain(table: seq<Field>, from: nat, i: nat, line: Text,
                                          base: seq<nat>, mem: seq<Byte>)
    requires GoodTable(table, base, |mem|) && from <= |table| && i < |table| && table[i].kind.Str?
    requires NEWLINE !in line && NUL !in line
    ensures HoldsPlain(table[i], base, mem) ==>
              HoldsPlain(table[i], base, ParseLine(table, from, line, base, mem).mem)
    decreases |table| - from
  {
    if from < |table| && line != [] {
      ParseKeepsPlain(table, i, from, line, base, mem);
      LineKeepsPlain(table, from + 1, i, line, base, mem);
    }
  }

  lemma {:induction false} TextKeepsPlain(table: seq<Field>, i: nat, text: Text, from: nat,
                                          base: seq<nat>, mem: seq<Byte>)
    requires GoodTable(table, base, |mem|) && i < |table| && table[i].kind.Str? && NUL !in text
    requires from <= |text|
    ensures HoldsPlain(table[i], base, mem) ==>
              HoldsPlain(table[i], base, ParseText(table, text, from, base, mem).mem)
    decreases |text| - from
  {
    if from < |text| {
      var line := LineAt(text, from);
      LineIsOne(text, from);
      LineKeepsPlain(table, 0, i, line, base, mem);
      TextKeepsPlain(table, i, text, NextLine(text, from), base,
                     ParseLine(table, 0, line, base, mem).mem);
    }
  }

  /** However a string field was filled, reading back its own line leaves a plain string in it. */
  lemma OwnTextPlain(table: seq<Field>, i: nat, base: seq<nat>, was: seq<Byte>, mem: seq<Byte>)
    requires GoodTable(table, base, |was|) && |mem| == |was| && i < |table| && table[i].kind.Str?
    ensures HoldsPlain(table[i], base, ParseText(table, Line(table[i], base, was), 0, base, mem).mem)
  {
    assert GoodField(table, i);
    var k := table[i];
    var text := Line(k, base, was);
    NoNulInLine(k, base, was);
    var line := LineAt(text, 0);
    LineIsOne(text, 0);
    assert forall m :: 0 <= m <= |k.key| ==> text[m] == if m < |k.key| then k.key[m] else COLON;
    assert text[|text| - 1] == NEWLINE;
    assert line[..|k.key|] == k.key;
    ParseKeepsPlain(table, i, i, line, base, mem);
    TakesOwnLine(table, 0, i, line, base, mem);
    TextKeepsPlain(table, i, text, NextLine(text, 0), base,
                   ParseLine(table, 0, line, base, mem).mem);
  }

  /** Text i leaves a plain string in field i, whatever was there. */
  ghost predicate LeavesPlain(table: seq<Field>, i: nat, text: Text, base: seq<nat>, n: nat)
    requires TableInMemory(table, base, n) && i < |table| && table[i].kind.Str?
  {
    forall mem: seq<Byte> {:trigger HoldsPlain(table[i], base, ParseText(table, text, 0, base, mem).mem)} ::
      |mem| == n ==> HoldsPlain(table[i], base, ParseText(table, text, 0, base, mem).mem)
  }

  lemma {:induction false} JoinedLeavesPlain(table: seq<Field>, texts: seq<Text>, n: nat,
                                             base: seq<nat>, mem: seq<Byte>, i: nat)
    requires GoodTable(table, base, |mem|) && i < n <= |table| == |texts| && table[i].kind.Str?
    requires AllWhole(texts) && NoNuls(texts) && LeavesPlain(table, i, texts[i], base, |mem|)
    ensures HoldsPlain(table[i], base, ParseText(table, Joined(texts, n), 0, base, mem).mem)
    decreases n
  {
    var p := ParseText(table, Joined(texts, n - 1), 0, base, mem);
    ParseJoined(table, texts, n, base, mem);
    GoodNeverFails(table, Joined(texts, n - 1), base, mem);
    if i < n - 1 {
      JoinedLeavesPlain(table, texts, n - 1, base, mem, i);
      TextKeepsPlain(table, i, texts[n - 1], 0, base, p.mem);
    }
  }

  /** Whatever the fields held, reading back what was written leaves plain strings. */
  lemma AlwaysPlain(table: seq<Field>, n: nat, base: seq<nat>, was: seq<Byte>, mem: seq<Byte>, i: nat)
    requires GoodTable(table, base, |was|) && |mem| == |was| && i < n <= |table|
    requires table[i].kind.Str?
    ensures HoldsPlain(table[i], base,
                       ParseText(table, WriteText(table, n, base, was), 0, base, mem).mem)
  {
    LinesAreWhole(table, base, was);
    LinesHaveNoNul(table, base, was);
    forall mem: seq<Byte> | |mem| == |was|
      ensures HoldsPlain(table[i], base, ParseText(table, Lines(table, base, was)[i], 0, base, mem).mem)
    {
      OwnTextPlain(table, i, base, was, mem);
    }
    JoinedLeavesPlain(table, Lines(table, base, was), n, base, mem, i);
  }

  /** Text written from memory `was` restores it, whatever it is parsed into, exactly when every
      string field ends within its size, is on one line, and does not start with a space. */
  lemma RoundTripsExactly(table: seq<Field>, base: seq<nat>, was: seq<Byte>, mem: seq<Byte>)
    requires GoodTable(table, base, |was|) && |mem| == |was|
    ensures var p := ParseText(table, WriteText(table, |table|, base, was), 0, base, mem);
      && p.rc == 0
      && (AllRestored(table, |table|, base, was, p.mem) <==> AllWritable(table, base, was))
  {
    var text := WriteText(table, |table|, base, was);
    GoodNeverFails(table, text, base, mem);
    var now := ParseText(table, text, 0, base, mem).mem;
    if AllWritable(table, base, was) { RoundTrip(table, |table|, base, was, mem); }
    if AllRestored(table, |table|, base, was, now) {
      forall i | 0 <= i < |table| ensures WritableAt(table, i, base, was) {
        assert RestoredAt(table, i, base, was, now);
        if table[i].kind.Str? { AlwaysPlain(table, |table|, base, was, mem, i); }
      }
    }
  }

  // ----- What one line can change

  ghost predicate SameOutside(k: Field, base: seq<nat>, mem: seq<Byte>, now: seq<Byte>)
    requires InMemory(k, base, |mem|) && |now| == |mem|
  {
    var at := Address(k, base);
    && (forall a :: 0 <= a < at ==> now[a] == mem[a])
    && (forall a :: at + k.Extent() <= a < |mem| ==> now[a] == mem[a])
  }

  /** A parsed line leaves memory as it was, or changes it only within one field, whose key it
      carries. */
  lemma {:induction false} LineFrame(table: seq<Field>, from: nat, line: Text, base: seq<nat>,
                                     mem: seq<Byte>)
    returns (i: nat)
    requires TableInMemory(table, base, |mem|) && from <= |table|
    ensures var now := ParseLine(table, from, line, base, mem).mem;
      || now == mem
      || (i < |table| && KeyMatches(table[i], line) && SameOutside(table[i], base, mem, now))
    decreases |table| - from
  {
    i := from;
    if from < |table| && line != [] && ParseWithKey(table[from], line, base, mem).rc > 0 {
      i := LineFrame(table, from + 1, line, base, mem);
    }
  }
}
