/** An object table written out as text, and read back. */
module JsonDocument {
  import opened CStrings
  import opened Entries
  import opened JsonValues
  import opened JsonGrammar
  import opened JsonRoundTrip
  import opened JsonSerializer
  import opened JsonParser
  import opened ObjectTable

  /** The text of the object in a table, with its items in the order of the table's arrays. */
  method PrintTable(table: Table<Value>, style: Style) returns (text: array<byte>)
    requires table.Valid()
    ensures fresh(text) && text[..] == Print(Object(table.Contents()), 0, style) + [0]
  {
    var items := table.Items();
    text := SerializeToString(Object(items), style);
  }

  /** Printing a table and parsing the text gives its pairs back, in order, exactly when they are not nested too deep. */
  method Reload(table: Table<Value>, style: Style) returns (r: Option<Value>)
    requires table.Valid() && Storable(Object(table.Contents()))
    ensures r == if Depth(Object(table.Contents())) <= MAX_NESTING then Some(Object(table.Contents())) else None
  {
    ghost var v := Object(table.Contents());
    var text := PrintTable(table, style);
    var s := text[..text.Length - 1];
    assert s == Print(v, 0, style) + [];
    ParsePrinted(v, 0, style, [], 0);
    var parser := new Parser(s);
    assert s[0..] == s;
    r := parser.ParseValue(0);
  }
}
