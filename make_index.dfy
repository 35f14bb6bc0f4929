/** The stateful part of make_index.py: the module-level dictionary MacOSpkgs
    (make_index.py:19-23), the classification loop and create_table, which
    work on it (90-106, 115-123), and process, which puts the document
    together (109-129). */
module MakeIndex {
  import opened Results
  import opened Text
  import opened Manifest
  import opened Metadata
  import opened Render

  /** MacOSpkgs: one list of package file names per platform, appended to in place. */
  class PackageBuckets {
    var elCapitan: seq<string>
    var mojave: seq<string>
    var catalina: seq<string>

    /** The dictionary as the module defines it: an empty list per platform. */
    constructor ()
      ensures forall p :: Bucket(p) == []
    {
      elCapitan, mojave, catalina := [], [], [];
    }

    /** MacOSpkgs[Id(p)] */
    function Bucket(p: Platform): seq<string>
      reads this
    {
      match p
      case Macos1011 => elCapitan
      case Macos1014 => mojave
      case Macos1015 => catalina
    }

    /** The loop of process that routes each manifest entry into a bucket by
        its suffix. Each bucket grows by exactly the entries Filter assigns
        to it, in manifest order. */
    method ClassifyAll(packages: seq<string>)
      modifies this
      ensures forall p :: Bucket(p) == old(Bucket(p)) + Filter(packages, p)
    {
      var i := 0;
      while i < |packages|
        invariant 0 <= i <= |packages|
        invariant elCapitan == old(elCapitan) + Filter(packages[..i], Macos1011)
        invariant mojave == old(mojave) + Filter(packages[..i], Macos1014)
        invariant catalina == old(catalina) + Filter(packages[..i], Macos1015)
      {
        FilterStep(packages, i, Macos1011);
        FilterStep(packages, i, Macos1014);
        FilterStep(packages, i, Macos1015);
        Route(packages[i]);
        i := i + 1;
      }
      assert packages[..i] == packages;
    }

    /** One pass of that loop's body: `package` is appended to the bucket its
        suffix selects, and no other bucket changes. */
    method Route(package: string)
      modifies this
      ensures elCapitan == old(elCapitan) + (if Classify(package) == Macos1011 then [package] else [])
      ensures mojave == old(mojave)
      ensures catalina == old(catalina) + (if Classify(package) == Macos1015 then [package] else [])
    {
      if EndsWith(package, ElCapitanSuffix) {
        elCapitan := elCapitan + [package];
      } else if EndsWith(package, CatalinaSuffix) {
        catalina := catalina + [package];
      } else {
        elCapitan := elCapitan + [package];
      }
    }

    /** create_table(html, macosver, metadata, url): appends the table of
        bucket `p` to `html`. Indexing a metadata row with fewer than five
        fields raises IndexError, which happens exactly when the bucket is not
        empty and such a row exists. */
    method CreateTable(html: string, p: Platform, metadata: seq<seq<string>>, url: string)
      returns (r: Result<string>)
      ensures Bucket(p) != [] && !AllComplete(metadata) ==> r == Err(IndexError)
      ensures Bucket(p) == [] || AllComplete(metadata)
              ==> r == Ok(html + Table(p, Bucket(p), metadata, url))
    {
      var title := Title(p);
      var start := html + TableHead(Id(p), title);
      var rows := AppendTableRows(start, Bucket(p), metadata, url);
      if rows.Err? {
        return rows;
      }
      TableParts(html, p, Bucket(p), metadata, url);
      r := Ok(rows.value + EndPackageTable);
    }
  }

  /** The outer loop of create_table (make_index.py:93-104): appends to `html`
      the rows of each package in bucket order, or raises IndexError as soon
      as a package meets a metadata row with fewer than five fields. */
  method AppendTableRows(html: string, packages: seq<string>, metadata: seq<seq<string>>, url: string)
    returns (r: Result<string>)
    ensures packages != [] && !AllComplete(metadata) ==> r == Err(IndexError)
    ensures packages == [] || AllComplete(metadata)
            ==> r == Ok(html + TableRows(url, packages, metadata))
  {
    var out := html;
    var i := 0;
    while i < |packages|
      invariant 0 <= i <= |packages|
      invariant i > 0 ==> AllComplete(metadata)
      invariant out == html + TableRows(url, packages[..i], metadata)
    {
      var package := packages[i];
      var rows := AppendPackageRows(out, package, metadata, url);
      if rows.Err? {
        return rows;
      }
      out := rows.value;
      TableRowsAppend(url, packages[..i], package, metadata);
      assert packages[..i + 1] == packages[..i] + [package];
      i := i + 1;
    }
    assert packages[..i] == packages;
    r := Ok(out);
  }

  /** The inner loop of create_table (make_index.py:95-104): appends to
      `html` one row for each metadata row whose name-version starts
      `package`, in metadata order, or raises IndexError at the first row
      with fewer than five fields. */
  method AppendPackageRows(html: string, package: string, metadata: seq<seq<string>>, url: string)
    returns (r: Result<string>)
    ensures !AllComplete(metadata) ==> r == Err(IndexError)
    ensures AllComplete(metadata) ==> r == Ok(html + PackageRows(url, package, metadata))
  {
    var out := html;
    var j := 0;
    while j < |metadata|
      invariant 0 <= j <= |metadata|
      invariant AllComplete(metadata[..j])
      invariant out == html + PackageRows(url, package, metadata[..j])
    {
      var next := AppendRow(out, package, metadata[j], url);
      if next.Err? {
        return next;
      }
      PackageRowsStep(url, package, metadata, j);
      ConcatAssoc3(html, PackageRows(url, package, metadata[..j]), RowText(url, package, metadata[j]));
      out := next.value;
      j := j + 1;
    }
    assert metadata[..j] == metadata;
    r := Ok(out);
  }

  /** One pass of the inner loop body (make_index.py:96-104): the row of
      `package` for the metadata row `row` if the row describes it, or
      IndexError if `row` lacks one of the five fields. */
  method AppendRow(html: string, package: string, row: seq<string>, url: string)
    returns (r: Result<string>)
    ensures |row| < 5 <==> r == Err(IndexError)
    ensures |row| >= 5 && Matches(package, row) ==> r == Ok(html + RenderRow(url, package, row))
    ensures |row| >= 5 && !Matches(package, row) ==> r == Ok(html)
  {
    if |row| < 5 {
      // row[0], row[1], row[2] or row[4] is out of range
      return Err(IndexError);
    }
    var nameVersion := row[0] + "-" + row[1];
    var summary := row[2] + " " + row[1];
    var homepage := row[4];
    homepage := ReplaceAll(homepage, Https, "");
    homepage := ReplaceAll(homepage, Http, "");
    var out := html;
    if StartsWith(package, nameVersion) {
      out := out + Fill(PackageRow(), [url, package, package, summary, row[3], row[4], homepage]);
    }
    r := Ok(out);
  }

  /** The document process writes, or the exception that stops it:
      the begin fragment, the macos10.15 table, one more `</table>\n`, and the
      end fragment. `lines` are the manifest lines as readlines returns them,
      `csvRows` the rows the CSV reader yields. */
  function Document(lines: seq<string>, csvRows: seq<seq<string>>, begin: string, end: string,
                    url: string): Result<string>
  {
    match ReadMetadata(csvRows)
    case Err(e) => Err(e)
    case Ok((_, metadata)) =>
      var catalina := Filter(StripLines(lines), Macos1015);
      if catalina != [] && !AllComplete(metadata) then Err(IndexError)
      else Ok(begin + Table(Macos1015, catalina, metadata, url) + EndPackageTable + end)
  }

  /** The document, stated through the independent listing of matching
      pairs: the begin fragment, the opening of the macos10.15 table, one row
      per (package, metadata row) pair of MatchPairs in its order, the
      table's `</table>\n`, the extra `</table>\n`, and the end fragment.
      An empty metadata file raises StopIteration; a short metadata row
      raises IndexError once the macos10.15 bucket is not empty. */
  lemma DocumentLayout(lines: seq<string>, csvRows: seq<seq<string>>, begin: string, end: string,
                       url: string)
    ensures csvRows == [] ==> Document(lines, csvRows, begin, end, url) == Err(StopIteration)
    ensures csvRows != [] && Filter(StripLines(lines), Macos1015) != [] && !AllComplete(csvRows[1..])
            ==> Document(lines, csvRows, begin, end, url) == Err(IndexError)
    ensures csvRows != [] && Filter(StripLines(lines), Macos1015) == []
            ==> Document(lines, csvRows, begin, end, url)
                == Ok(begin + TableHead("macos10.15", "macOS Catalina (Version 10.15)")
                      + "</table>\n" + "</table>\n" + end)
    ensures csvRows != [] ==>
            var catalina, metadata := Filter(StripLines(lines), Macos1015), csvRows[1..];
            AllComplete(metadata)
            ==> InRange(catalina, metadata, MatchPairs(catalina, metadata))
                && Document(lines, csvRows, begin, end, url)
                   == Ok(begin + TableHead("macos10.15", "macOS Catalina (Version 10.15)")
                         + RenderPairs(url, catalina, metadata, MatchPairs(catalina, metadata))
                         + "</table>\n" + "</table>\n" + end)
  {
    if csvRows != [] {
      var catalina, metadata := Filter(StripLines(lines), Macos1015), csvRows[1..];
      if catalina == [] || AllComplete(metadata) {
        var head, rows := TableHead(Id(Macos1015), Title(Macos1015)), TableRows(url, catalina, metadata);
        DocumentParts(lines, csvRows, begin, end, url);
        ConcatAssoc(begin, head, rows, EndPackageTable);
        if catalina == [] {
          assert rows == "";
          assert begin + head + rows == begin + head;
        }
        if AllComplete(metadata) {
          TableRowsAreMatchPairs(url, catalina, metadata);
        }
      }
    }
  }

  lemma DocumentParts(lines: seq<string>, csvRows: seq<seq<string>>, begin: string, end: string,
                      url: string)
    requires csvRows != []
    requires Filter(StripLines(lines), Macos1015) == [] || AllComplete(csvRows[1..])
    ensures Document(lines, csvRows, begin, end, url)
            == Ok(begin + Table(Macos1015, Filter(StripLines(lines), Macos1015), csvRows[1..], url)
                  + EndPackageTable + end)
  {
  }

  /** The macos10.15 table lists exactly the stripped manifest lines that end
      in `-macos10.15.pkg` but not in `-macos10.11.pkg`, in manifest order. */
  lemma CatalinaEntries(lines: seq<string>, x: string)
    ensures x in Filter(StripLines(lines), Macos1015)
            <==> (exists k :: 0 <= k < |lines| && x == Strip(lines[k]))
                 && EndsWith(x, CatalinaSuffix) && !EndsWith(x, ElCapitanSuffix)
    ensures IsSubsequence(Filter(StripLines(lines), Macos1015), StripLines(lines))
  {
    var packages := StripLines(lines);
    FilterMembers(packages, Macos1015, x);
    FilterKeepsOrder(packages, Macos1015);
    ClassifyRules(x);
    if x in packages {
      var k :| 0 <= k < |packages| && packages[k] == x;
      assert x == Strip(lines[k]);
    }
    if exists k :: 0 <= k < |lines| && x == Strip(lines[k]) {
      var k :| 0 <= k < |lines| && x == Strip(lines[k]);
      assert packages[k] == x;
    }
  }

  /** process() with its files replaced by their contents: the manifest
      lines, the metadata rows, the begin and end fragments and the base URL.
      MacOSpkgs is created afresh, as it is when the module is loaded. */
  method Process(lines: seq<string>, csvRows: seq<seq<string>>, begin: string, end: string,
                 url: string)
    returns (r: Result<string>)
    ensures r == Document(lines, csvRows, begin, end, url)
  {
    var packages := StripLines(lines);
    var read := ReadMetadata(csvRows);
    if read.Err? {
      return Err(read.error);
    }
    var (_, metadata) := read.value;
    var html := begin;
    var buckets := new PackageBuckets();
    buckets.ClassifyAll(packages);
    var table := buckets.CreateTable(html, Macos1015, metadata, url);
    if table.Err? {
      return table;
    }
    assert buckets.Bucket(Macos1015) == Filter(packages, Macos1015);
    html := table.value;
    html := html + EndPackageTable;
    html := html + end;
    r := Ok(html);
  }

  /** A two-line manifest: `foo-1.0-macos10.15.pkg` goes to the macos10.15
      bucket and `bar-2.0.pkg`, which has no recognised suffix, to macos10.11,
      so only the first can appear in the table process writes. */
  lemma ExampleBuckets()
    ensures Filter(["foo-1.0-macos10.15.pkg", "bar-2.0.pkg"], Macos1015) == ["foo-1.0-macos10.15.pkg"]
    ensures Filter(["foo-1.0-macos10.15.pkg", "bar-2.0.pkg"], Macos1011) == ["bar-2.0.pkg"]
  {
    var foo, bar := "foo-1.0-macos10.15.pkg", "bar-2.0.pkg";
    assert Classify(foo) == Macos1015 by {
      assert foo[|foo| - |ElCapitanSuffix|..][10] != ElCapitanSuffix[10];
    }
    assert Classify(bar) == Macos1011;
    assert [foo, bar][1..] == [bar];
  }

  /** The metadata row (foo, 1.0, Foo tool, MIT, https://foo.org) describes
      `foo-1.0-macos10.15.pkg`; its row shows the summary `Foo tool 1.0` and
      the homepage as `foo.org`. */
  lemma ExampleRow()
    ensures Matches("foo-1.0-macos10.15.pkg", ["foo", "1.0", "Foo tool", "MIT", "https://foo.org"])
    ensures Summary(["foo", "1.0", "Foo tool", "MIT", "https://foo.org"]) == "Foo tool 1.0"
    ensures HomepageText("https://foo.org") == "foo.org"
  {
    var rest := "foo.org";
    assert Https + rest == "https://foo.org";
    assert !Contains(rest, Http) by {
      forall j | 0 <= j <= |rest| ensures !OccursAt(rest, Http, j) {
        if j == 0 { assert rest[0] != Http[0]; }
      }
    }
    HomepageDropsHttps(rest);
  }
}
