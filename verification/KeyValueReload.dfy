/** The round trip of key_value_parser.c's two entry points, in memory. */
module KeyValueReload {
  import opened KeyValueText
  import opened KeyValueSpec
  import opened KeyValueParser
  import opened KeyValueRoundTrip

  /** key_value_write_lines and then key_value_parse_lines on what it wrote, into the same memory or
      another: nothing fails, and the fields are restored exactly when all strings are plain. */
  method Reload(table: seq<Field>, base: seq<nat>, was: array<Byte>, mem: array<Byte>)
    returns (errs: nat, rc: int)
    requires GoodTable(table, base, was.Length) && mem.Length == was.Length
    modifies mem
    ensures errs == 0 && rc == 0
    ensures AllRestored(table, |table|, base, old(was[..]), mem[..])
            <==> AllWritable(table, base, old(was[..]))
  {
    var text;
    text, errs := WriteLines(table, base, was);
    NoNulWritten(table, base, was[..]);
    NoUnknowns(table, base, |table|, was.Length);
    RoundTripsExactly(table, base, was[..], mem[..]);
    rc := ParseLines(table, text, base, mem);
  }
}
