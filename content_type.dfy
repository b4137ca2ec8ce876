/**
 * MIME-type selection for files served by the web server
 * (`getContentType`): a `download` argument forces a binary download,
 * otherwise the first matching filename suffix decides.
 */
module ContentType {
  import opened ArduinoString

  const Download: string := "application/octet-stream"
  const Fallback: string := "text/plain"

  /** The suffixes in the order the handler tries them, each with its type. */
  const Suffixes: seq<(string, string)> := [
    (".htm", "text/html"),
    (".html", "text/html"),
    (".css", "text/css"),
    (".js", "application/javascript"),
    (".png", "image/png"),
    (".gif", "image/gif"),
    (".jpg", "image/jpeg"),
    (".ico", "image/x-icon"),
    (".xml", "text/xml"),
    (".pdf", "application/x-pdf"),
    (".zip", "application/x-zip"),
    (".gz", "application/x-gzip")
  ]

  /** The types the suffix table can give. */
  const KnownTypes: set<string> := {
    "text/html", "text/css", "application/javascript", "image/png", "image/gif", "image/jpeg",
    "image/x-icon", "text/xml", "application/x-pdf", "application/x-zip", "application/x-gzip"
  }

  /** `KnownTypes` holds the type of every entry of the suffix table. */
  lemma KnownTypesCoverTable()
    ensures forall e :: e in Suffixes ==> e.1 in KnownTypes
  {
  }

  /** The handler's chain of tests, as written. */
  function GetContentType(filename: string, download: bool): (r: string)
    ensures r == Download || r == Fallback || r in KnownTypes
  {
    if download then Download
    else if EndsWith(filename, ".htm") then "text/html"
    else if EndsWith(filename, ".html") then "text/html"
    else if EndsWith(filename, ".css") then "text/css"
    else if EndsWith(filename, ".js") then "application/javascript"
    else if EndsWith(filename, ".png") then "image/png"
    else if EndsWith(filename, ".gif") then "image/gif"
    else if EndsWith(filename, ".jpg") then "image/jpeg"
    else if EndsWith(filename, ".ico") then "image/x-icon"
    else if EndsWith(filename, ".xml") then "text/xml"
    else if EndsWith(filename, ".pdf") then "application/x-pdf"
    else if EndsWith(filename, ".zip") then "application/x-zip"
    else if EndsWith(filename, ".gz") then "application/x-gzip"
    else Fallback
  }

  /**
   * Reference definition: the type of the first entry of `table`, from
   * entry `k` on, whose suffix `filename` ends with; `text/plain` if none.
   */
  function Lookup(filename: string, table: seq<(string, string)>, k: nat): string
    decreases |table| - k
  {
    if k >= |table| then Fallback
    else if EndsWith(filename, table[k].0) then table[k].1
    else Lookup(filename, table, k + 1)
  }

  /** Entry `i` is the first entry of `table` whose suffix `filename` ends with. */
  ghost predicate IsFirstMatch(filename: string, table: seq<(string, string)>, i: int) {
    && 0 <= i < |table|
    && EndsWith(filename, table[i].0)
    && forall j :: 0 <= j < i ==> !EndsWith(filename, table[j].0)
  }

  /** Searching from any entry up to the first match returns that match's type. */
  lemma {:induction false} LookupFirstMatch(filename: string, table: seq<(string, string)>, k: nat, i: int)
    requires IsFirstMatch(filename, table, i) && k <= i
    ensures Lookup(filename, table, k) == table[i].1
    decreases i - k
  {
    if k < i {
      assert !EndsWith(filename, table[k].0);
      LookupFirstMatch(filename, table, k + 1, i);
    }
  }

  /** Searching a stretch of the table where nothing matches falls back to `text/plain`. */
  lemma {:induction false} LookupNoMatch(filename: string, table: seq<(string, string)>, k: nat)
    requires forall j :: k <= j < |table| ==> !EndsWith(filename, table[j].0)
    ensures Lookup(filename, table, k) == Fallback
    decreases |table| - k
  {
    if k < |table| {
      assert !EndsWith(filename, table[k].0);
      LookupNoMatch(filename, table, k + 1);
    }
  }

  /** The handler's if-chain agrees with the table lookup, and `download` overrides it. */
  lemma GetContentTypeIsLookup(filename: string, download: bool)
    ensures GetContentType(filename, download) == if download then Download else Lookup(filename, Suffixes, 0)
  {
    if !download {
      var t := Suffixes;
      assert Lookup(filename, t, 12) == Fallback;
      assert Lookup(filename, t, 11) == if EndsWith(filename, ".gz") then "application/x-gzip" else Fallback;
      assert Lookup(filename, t, 10) == if EndsWith(filename, ".zip") then "application/x-zip" else Lookup(filename, t, 11);
      assert Lookup(filename, t, 9) == if EndsWith(filename, ".pdf") then "application/x-pdf" else Lookup(filename, t, 10);
      assert Lookup(filename, t, 8) == if EndsWith(filename, ".xml") then "text/xml" else Lookup(filename, t, 9);
      assert Lookup(filename, t, 7) == if EndsWith(filename, ".ico") then "image/x-icon" else Lookup(filename, t, 8);
      assert Lookup(filename, t, 6) == if EndsWith(filename, ".jpg") then "image/jpeg" else Lookup(filename, t, 7);
      assert Lookup(filename, t, 5) == if EndsWith(filename, ".gif") then "image/gif" else Lookup(filename, t, 6);
      assert Lookup(filename, t, 4) == if EndsWith(filename, ".png") then "image/png" else Lookup(filename, t, 5);
      assert Lookup(filename, t, 3) == if EndsWith(filename, ".js") then "application/javascript" else Lookup(filename, t, 4);
      assert Lookup(filename, t, 2) == if EndsWith(filename, ".css") then "text/css" else Lookup(filename, t, 3);
      assert Lookup(filename, t, 1) == if EndsWith(filename, ".html") then "text/html" else Lookup(filename, t, 2);
      assert Lookup(filename, t, 0) == if EndsWith(filename, ".htm") then "text/html" else Lookup(filename, t, 1);
    }
  }

  /** Without `download`, the first matching suffix in the listed order decides the type. */
  lemma ContentTypeOfFirstMatch(filename: string, i: int)
    requires IsFirstMatch(filename, Suffixes, i)
    ensures GetContentType(filename, false) == Suffixes[i].1
  {
    GetContentTypeIsLookup(filename, false);
    LookupFirstMatch(filename, Suffixes, 0, i);
  }

  /** Without `download`, a filename with none of the suffixes is `text/plain`. */
  lemma ContentTypeFallback(filename: string)
    requires forall j :: 0 <= j < |Suffixes| ==> !EndsWith(filename, Suffixes[j].0)
    ensures GetContentType(filename, false) == Fallback
  {
    GetContentTypeIsLookup(filename, false);
    LookupNoMatch(filename, Suffixes, 0);
  }

  /** A `download` argument gives a binary type whatever the filename. */
  lemma DownloadOverrides(filename: string)
    ensures GetContentType(filename, true) == Download
  {
  }

  /** Both `.htm` and `.html` files are served as HTML. */
  lemma HtmlSuffixes(stem: string)
    ensures GetContentType(stem + ".htm", false) == "text/html"
    ensures GetContentType(stem + ".html", false) == "text/html"
  {
    EndsWithAppended(stem, ".htm");
    EndsWithAppended(stem, ".html");
  }

  /** A compressed HTML file named by its `.gz` name would be typed as gzip, not HTML. */
  lemma GzipNameTypedAsGzip(stem: string)
    ensures GetContentType(stem + ".html.gz", false) == "application/x-gzip"
  {
    var f := stem + ".html.gz";
    assert f == (stem + ".html") + ".gz";
    EndsWithAppended(stem + ".html", ".gz");
    var tail := f[|f| - 3..];
    assert tail == ".gz";
    forall j | 0 <= j < 11 ensures !EndsWith(f, Suffixes[j].0) {
      var suf := Suffixes[j].0;
      if |suf| <= |f| {
        assert f[|f| - 1] == 'z';
        assert suf[|suf| - 1] != 'z';
        assert f[|f| - |suf|..][|suf| - 1] == f[|f| - 1];
      }
    }
    assert IsFirstMatch(f, Suffixes, 11);
    ContentTypeOfFirstMatch(f, 11);
  }
}
