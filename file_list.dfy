/**
 * The JSON directory listing built by `handleFileList`: an array with one
 * object per directory entry, in iteration order.
 */
module FileList {
  import opened ArduinoString

  /**
   * The object for one entry: the handler's `substring(1)` drops the
   * name's first character, whatever it is (the leading `/` for names
   * that have one). The kind is always "file". Names are inserted
   * without JSON escaping.
   */
  function EntryJson(name: string): (r: string)
    ensures |r| == 25 + |SubstringFrom(name, 1)|
    ensures r[0] == '{' && r[|r| - 1] == '}'
  {
    "{\"type\":\"file\",\"name\":\"" + SubstringFrom(name, 1) + "\"}"
  }

  /** Reference definition: the entries' objects, comma-separated, first to last. */
  function JoinEntries(names: seq<string>): string {
    if names == [] then ""
    else if |names| == 1 then EntryJson(names[0])
    else EntryJson(names[0]) + "," + JoinEntries(names[1..])
  }

  /** The response body for a directory whose entries come in the order `names`. */
  function Listing(names: seq<string>): string {
    "[" + JoinEntries(names) + "]"
  }

  /** Appending one more entry adds a comma only when there already was one. */
  lemma {:induction false} JoinEntriesSnoc(names: seq<string>, name: string)
    ensures JoinEntries(names + [name]) ==
      JoinEntries(names) + (if names == [] then "" else ",") + EntryJson(name)
    decreases |names|
  {
    if |names| == 1 {
      assert names + [name] == [names[0], name];
      assert [names[0], name][1..] == [name];
    } else if |names| > 1 {
      assert (names + [name])[1..] == names[1..] + [name];
      JoinEntriesSnoc(names[1..], name);
    }
  }

  /** A non-empty join starts with an object's `{` and ends with an object's `}`. */
  lemma {:induction false} JoinEntriesBraces(names: seq<string>)
    requires names != []
    ensures var j := JoinEntries(names); |j| > 0 && j[0] == '{' && j[|j| - 1] == '}'
    decreases |names|
  {
    if |names| > 1 {
      JoinEntriesBraces(names[1..]);
    }
  }

  /**
   * The listing is a bracketed array, `[]` for an empty directory, and has
   * no leading or trailing comma: after `[` and before `]` come an object's
   * braces.
   */
  lemma ListingShape(names: seq<string>)
    ensures var r := Listing(names);
      && |r| >= 2 && r[0] == '[' && r[|r| - 1] == ']'
      && (names == [] <==> r == "[]")
      && (names != [] ==> r[1] == '{' && r[|r| - 2] == '}')
  {
    if names != [] {
      JoinEntriesBraces(names);
    }
  }

  /** One iteration of `handleFileList`'s loop: a comma unless `output` is still `[`, then the entry. */
  method AppendEntry(output: string, name: string) returns (output': string)
    ensures output' == output + (if output != "[" then "," else "") + EntryJson(name)
  {
    output' := output;
    if output' != "[" {
      output' := output' + ",";
    }
    var isDir := false;
    output' := output' + "{\"type\":\"";
    output' := output' + (if isDir then "dir" else "file");
    output' := output' + "\",\"name\":\"";
    output' := output' + SubstringFrom(name, 1);
    output' := output' + "\"}";
  }

  /**
   * `handleFileList`'s loop: starts from `[`, puts a comma before every
   * entry but the first (tested, as in the handler, by `output != "["`),
   * then closes with `]`.
   */
  method BuildListing(entries: seq<string>) returns (output: string)
    ensures output == Listing(entries)
  {
    output := "[";
    var i := 0;
    while i < |entries|
      invariant 0 <= i <= |entries|
      invariant output == "[" + JoinEntries(entries[..i])
    {
      ghost var done := entries[..i];
      if i > 0 {
        JoinEntriesBraces(done);
        assert output[1] == '{';
      }
      output := AppendEntry(output, entries[i]);
      JoinEntriesSnoc(done, entries[i]);
      assert entries[..i + 1] == done + [entries[i]];
      i := i + 1;
    }
    output := output + "]";
    assert entries[..i] == entries;
  }
}
