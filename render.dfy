/** The HTML that create_table writes (make_index.py:25-41 and 90-106), given as
    specification functions. `TableRows` follows the shape of the two nested
    loops; `MatchPairs` lists independently which (package, metadata row) pairs
    produce a row, and the two are proved to agree. The loops themselves are
    `MakeIndex.PackageBuckets.CreateTable`. */
module Render {
  import opened Text
  import opened Manifest

  /** The module's table-opening template BeginPackageTable, held as the text
      around its two `%s` conversions (the table id and the caption); the
      template itself is `Join(BeginPackageTable(), "%s")`. */
  function BeginPackageTable(): seq<string> {
    ["<table id='", "'>\n<caption>",
     "</caption>\n" + "<tr>\n" + "  <th>Package</th>\n" + "  <th>Summary</th>\n"
     + "  <th id='optionalB'>License</th>\n" + "  <th id='optionalA'>Homepage</th>\n" + "</tr>\n"]
  }

  /** The module's row template PackageRow, held as the text around its seven
      `%s` conversions (the download URL, the package twice, the summary, the
      license, the homepage and its display text). */
  function PackageRow(): seq<string> {
    ["<tr>\n  <td><a href=\"", "/", "\">", "</a></td>\n  <td>", "</td>\n  <td id='optionalB'>",
     "</td>\n  <td id='optionalA'><a href=\"", "\">", "</a></td>\n</tr>\n"]
  }

  const EndPackageTable := "</table>\n"

  /** `BeginPackageTable % (id, title)` */
  function TableHead(id: string, title: string): string {
    Fill(BeginPackageTable(), [id, title])
  }

  /** The opening of a table: its id and caption, then the header row. */
  lemma TableHeadCells(id: string, title: string)
    ensures TableHead(id, title)
            == "<table id='" + id + "'>\n<caption>" + title + "</caption>\n"
               + "<tr>\n" + "  <th>Package</th>\n" + "  <th>Summary</th>\n"
               + "  <th id='optionalB'>License</th>\n" + "  <th id='optionalA'>Homepage</th>\n" + "</tr>\n"
  {
    var p, a := BeginPackageTable(), [id, title];
    FillStep(p, a, 1);
    FillStep(p, a, 2);
    assert Fill(p[..1], a[..0]) == p[0];
    assert p[..3] == p && a[..2] == a;
  }

  /** The table-opening template has no `%` besides its conversions, so
      Python's `%` on it fills in the id and the caption as TableHead does
      (TableHeadIsFormat). */
  lemma BeginPackageTablePlain()
    ensures forall k :: 0 <= k < |BeginPackageTable()| ==> '%' !in BeginPackageTable()[k]
  {
    var a, b, c, d := "</caption>\n", "<tr>\n", "  <th>Package</th>\n", "  <th>Summary</th>\n";
    var e, f, g := "  <th id='optionalB'>License</th>\n", "  <th id='optionalA'>Homepage</th>\n", "</tr>\n";
    HeaderLinesPlain();
    NoPercentConcat(a, b);
    NoPercentConcat(a + b, c);
    NoPercentConcat(a + b + c, d);
    NoPercentConcat(a + b + c + d, e);
    NoPercentConcat(a + b + c + d + e, f);
    NoPercentConcat(a + b + c + d + e + f, g);
    assert '%' !in "<table id='" && '%' !in "'>\n<caption>";
  }

  lemma HeaderLinesPlain()
    ensures '%' !in "</caption>\n" && '%' !in "<tr>\n" && '%' !in "  <th>Package</th>\n"
    ensures '%' !in "  <th>Summary</th>\n" && '%' !in "</tr>\n"
    ensures '%' !in "  <th id='optionalB'>License</th>\n"
    ensures '%' !in "  <th id='optionalA'>Homepage</th>\n"
  {
    LicenseHeadPlain();
    HomepageHeadPlain();
  }

  lemma LicenseHeadPlain()
    ensures '%' !in "  <th id='optionalB'>License</th>\n"
  {
  }

  lemma HomepageHeadPlain()
    ensures '%' !in "  <th id='optionalA'>Homepage</th>\n"
  {
  }

  /** The row template has no `%` besides its conversions, so Python's `%`
      on it fills in the seven cells in order (RenderRowIsFormat). */
  lemma PackageRowPlain()
    ensures forall k :: 0 <= k < |PackageRow()| ==> '%' !in PackageRow()[k]
  {
    RowPiecesPlain();
  }

  lemma RowPiecesPlain()
    ensures '%' !in "<tr>\n  <td><a href=\"" && '%' !in "/" && '%' !in "\">"
    ensures '%' !in "</a></td>\n  <td>" && '%' !in "</td>\n  <td id='optionalB'>"
    ensures '%' !in "</td>\n  <td id='optionalA'><a href=\"" && '%' !in "</a></td>\n</tr>\n"
  {
    LicenseCellPlain();
    HomepageCellPlain();
  }

  lemma LicenseCellPlain()
    ensures '%' !in "</td>\n  <td id='optionalB'>"
  {
  }

  lemma HomepageCellPlain()
    ensures '%' !in "</td>\n  <td id='optionalA'><a href=\""
  {
  }

  /** `BeginPackageTable % (id, title)`, with Python's `%` applied to the
      template as the module writes it, is TableHead. */
  lemma TableHeadIsFormat(id: string, title: string)
    ensures Format(Join(BeginPackageTable(), "%s"), [id, title]) == TableHead(id, title)
  {
    BeginPackageTablePlain();
    FormatFills(BeginPackageTable(), [id, title]);
  }

  /** `PackageRow % (url, package, package, summary, row[3], row[4], homepage)`,
      with Python's `%` applied to the template as the module writes it, is
      RenderRow. */
  lemma RenderRowIsFormat(url: string, package: string, row: seq<string>)
    requires |row| >= 5
    ensures Format(Join(PackageRow(), "%s"),
                   [url, package, package, Summary(row), row[3], row[4], HomepageText(row[4])])
            == RenderRow(url, package, row)
  {
    PackageRowPlain();
    FormatFills(PackageRow(), [url, package, package, Summary(row), row[3], row[4], HomepageText(row[4])]);
  }

  /** Every metadata row has the five fields create_table indexes:
      name, version, summary, license and homepage. */
  predicate AllComplete(metadata: seq<seq<string>>) {
    forall j :: 0 <= j < |metadata| ==> |metadata[j]| >= 5
  }

  /** `'%s-%s' % (row[0], row[1])` */
  function NameVersion(row: seq<string>): string
    requires |row| >= 2
  {
    row[0] + "-" + row[1]
  }

  /** `'%s %s' % (row[2], row[1])` */
  function Summary(row: seq<string>): string
    requires |row| >= 3
  {
    row[2] + " " + row[1]
  }

  const Https := "https://"
  const Http := "http://"

  /** The text shown for a homepage link: every `https://` removed, then every `http://`. */
  function HomepageText(homepage: string): string {
    ReplaceAll(ReplaceAll(homepage, Https, ""), Http, "")
  }

  /** The test that decides whether `row` describes `package`. */
  predicate Matches(package: string, row: seq<string>)
    requires |row| >= 2
  {
    StartsWith(package, NameVersion(row))
  }

  /** The table row written for `package` and the metadata row `row`. */
  function RenderRow(url: string, package: string, row: seq<string>): string
    requires |row| >= 5
  {
    Fill(PackageRow(), [url, package, package, Summary(row), row[3], row[4], HomepageText(row[4])])
  }

  /** The cells of a rendered row: a link to `url/package` reading `package`,
      the summary (`row[2] + " " + row[1]`), the license `row[3]`, and a link
      to the unmodified homepage `row[4]` reading its display text. */
  lemma RowCells(url: string, package: string, row: seq<string>)
    requires |row| >= 5
    ensures RenderRow(url, package, row)
            == "<tr>\n  <td><a href=\"" + url + "/" + package + "\">" + package
               + "</a></td>\n  <td>" + Summary(row)
               + "</td>\n  <td id='optionalB'>" + row[3]
               + "</td>\n  <td id='optionalA'><a href=\"" + row[4] + "\">" + HomepageText(row[4])
               + "</a></td>\n</tr>\n"
  {
    var p := PackageRow();
    var a := [url, package, package, Summary(row), row[3], row[4], HomepageText(row[4])];
    FillStep(p, a, 1);
    FillStep(p, a, 2);
    FillStep(p, a, 3);
    FillStep(p, a, 4);
    FillStep(p, a, 5);
    FillStep(p, a, 6);
    FillStep(p, a, 7);
    assert Fill(p[..1], a[..0]) == p[0];
    assert p[..8] == p && a[..7] == a;
  }

  /** The text the inner loop body appends for metadata row `row`: its
      table row if it describes `package`, and nothing otherwise. */
  function RowText(url: string, package: string, row: seq<string>): string
    requires |row| >= 5
  {
    if Matches(package, row) then RenderRow(url, package, row) else ""
  }

  /** What the inner loop appends for one package: a row for each metadata
      row it matches, in metadata order. */
  function PackageRows(url: string, package: string, metadata: seq<seq<string>>): string
    requires AllComplete(metadata)
  {
    if metadata == [] then ""
    else RowText(url, package, metadata[0]) + PackageRows(url, package, metadata[1..])
  }

  /** What the outer loop appends: the rows of each package in bucket order.
      With no packages, the metadata is never looked at. */
  function TableRows(url: string, packages: seq<string>, metadata: seq<seq<string>>): string
    requires packages == [] || AllComplete(metadata)
  {
    if packages == [] then ""
    else PackageRows(url, packages[0], metadata) + TableRows(url, packages[1..], metadata)
  }

  /** The text create_table appends to `html` for bucket `p` holding `packages`. */
  function Table(p: Platform, packages: seq<string>, metadata: seq<seq<string>>, url: string): string
    requires packages == [] || AllComplete(metadata)
  {
    TableHead(Id(p), Title(p)) + TableRows(url, packages, metadata) + EndPackageTable
  }

  /** The table assembled from its three parts, as create_table appends them to `html`. */
  lemma TableParts(html: string, p: Platform, packages: seq<string>, metadata: seq<seq<string>>, url: string)
    requires packages == [] || AllComplete(metadata)
    ensures html + TableHead(Id(p), Title(p)) + TableRows(url, packages, metadata) + EndPackageTable
            == html + Table(p, packages, metadata, url)
  {
    var b, rows := TableHead(Id(p), Title(p)), TableRows(url, packages, metadata);
    assert Table(p, packages, metadata, url) == b + rows + EndPackageTable;
    ConcatAssoc(html, b, rows, EndPackageTable);
  }

  lemma ConcatAssoc(a: string, b: string, c: string, d: string)
    ensures a + b + c + d == a + (b + c + d)
  {
  }

  lemma AllCompleteConcat(a: seq<seq<string>>, b: seq<seq<string>>)
    requires AllComplete(a) && AllComplete(b)
    ensures AllComplete(a + b)
  {
    var c := a + b;
    forall k | 0 <= k < |c| ensures |c[k]| >= 5 {
      if k < |a| { assert c[k] == a[k]; } else { assert c[k] == b[k - |a|]; }
    }
  }

  lemma AllCompleteTail(a: seq<seq<string>>)
    requires AllComplete(a) && a != []
    ensures AllComplete(a[1..])
  {
    forall k | 0 <= k < |a| - 1 ensures |a[1..][k]| >= 5 {
      assert a[1..][k] == a[k + 1];
    }
  }

  /** The inner loop's text for metadata whose first row is `row`. */
  lemma PackageRowsCons(url: string, package: string, row: seq<string>, rest: seq<seq<string>>)
    requires |row| >= 5 && AllComplete(rest)
    ensures AllComplete([row] + rest)
    ensures PackageRows(url, package, [row] + rest) == RowText(url, package, row) + PackageRows(url, package, rest)
  {
    AllCompleteConcat([row], rest);
    var m := [row] + rest;
    assert m[0] == row;
    assert m[1..] == rest;
  }

  /** The inner loop's text after one more metadata row. */
  lemma {:induction false} PackageRowsAppend(url: string, package: string,
                                             metadata: seq<seq<string>>, row: seq<string>)
    requires AllComplete(metadata) && |row| >= 5
    ensures AllComplete(metadata + [row])
    ensures PackageRows(url, package, metadata + [row])
            == PackageRows(url, package, metadata) + RowText(url, package, row)
    decreases |metadata|
  {
    AllCompleteConcat(metadata, [row]);
    if metadata == [] {
      assert metadata + [row] == [row] + [];
      PackageRowsCons(url, package, row, []);
    } else {
      var x, tail := metadata[0], metadata[1..];
      AllCompleteTail(metadata);
      AllCompleteConcat(tail, [row]);
      assert metadata == [x] + tail;
      assert metadata + [row] == [x] + (tail + [row]);
      PackageRowsCons(url, package, x, tail);
      PackageRowsCons(url, package, x, tail + [row]);
      PackageRowsAppend(url, package, tail, row);
      ConcatAssoc3(RowText(url, package, x), PackageRows(url, package, tail), RowText(url, package, row));
    }
  }

  /** The inner loop's text after the metadata row at index `j`. */
  lemma PackageRowsStep(url: string, package: string, metadata: seq<seq<string>>, j: nat)
    requires j < |metadata| && AllComplete(metadata[..j]) && |metadata[j]| >= 5
    ensures AllComplete(metadata[..j + 1])
    ensures PackageRows(url, package, metadata[..j + 1])
            == PackageRows(url, package, metadata[..j]) + RowText(url, package, metadata[j])
  {
    assert metadata[..j + 1] == metadata[..j] + [metadata[j]];
    PackageRowsAppend(url, package, metadata[..j], metadata[j]);
  }

  /** The outer loop's text after one more package. */
  lemma {:induction false} TableRowsAppend(url: string, packages: seq<string>, package: string,
                                           metadata: seq<seq<string>>)
    requires AllComplete(metadata)
    ensures TableRows(url, packages + [package], metadata)
            == TableRows(url, packages, metadata) + PackageRows(url, package, metadata)
    decreases |packages|
  {
    var tail := PackageRows(url, package, metadata);
    if packages == [] {
      assert [] + [package] == [package];
      assert [package][1..] == [];
    } else {
      var ps := packages + [package];
      assert ps[0] == packages[0];
      assert ps[1..] == packages[1..] + [package];
      TableRowsAppend(url, packages[1..], package, metadata);
      var head := PackageRows(url, packages[0], metadata);
      assert TableRows(url, ps, metadata) == head + TableRows(url, packages[1..] + [package], metadata);
      assert head + (TableRows(url, packages[1..], metadata) + tail)
             == (head + TableRows(url, packages[1..], metadata)) + tail;
    }
  }

  /** A package that no metadata row describes contributes no rows. */
  lemma {:induction false} UnmatchedPackageHasNoRows(url: string, package: string,
                                                     metadata: seq<seq<string>>)
    requires AllComplete(metadata)
    requires forall j :: 0 <= j < |metadata| ==> !Matches(package, metadata[j])
    ensures PackageRows(url, package, metadata) == ""
    decreases |metadata|
  {
    if metadata != [] {
      assert !Matches(package, metadata[0]);
      UnmatchedPackageHasNoRows(url, package, metadata[1..]);
    }
  }

  // ---------------------------------------------------------------------------
  // Which pairs produce a row, listed by index.

  /** Package `i` and metadata row `j` exist and the row describes the package. */
  predicate IsMatch(packages: seq<string>, metadata: seq<seq<string>>, i: int, j: int)
    requires AllComplete(metadata)
  {
    0 <= i < |packages| && 0 <= j < |metadata| && Matches(packages[i], metadata[j])
  }

  /** Pair `x` comes before pair `y`: package-major, then metadata order. */
  predicate Before(x: (nat, nat), y: (nat, nat)) {
    x.0 < y.0 || (x.0 == y.0 && x.1 < y.1)
  }

  predicate StrictlyOrdered(pairs: seq<(nat, nat)>) {
    forall k, l :: 0 <= k < l < |pairs| ==> Before(pairs[k], pairs[l])
  }

  /** The matching pairs of package `i` with metadata rows `j` onwards. */
  function RowPairs(packages: seq<string>, metadata: seq<seq<string>>, i: nat, j: nat): seq<(nat, nat)>
    requires AllComplete(metadata) && i < |packages| && j <= |metadata|
    decreases |metadata| - j
  {
    if j == |metadata| then []
    else (if Matches(packages[i], metadata[j]) then [(i, j)] else [])
         + RowPairs(packages, metadata, i, j + 1)
  }

  /** The matching pairs of packages `i` onwards. */
  function PairsFrom(packages: seq<string>, metadata: seq<seq<string>>, i: nat): seq<(nat, nat)>
    requires AllComplete(metadata) && i <= |packages|
    decreases |packages| - i
  {
    if i == |packages| then []
    else RowPairs(packages, metadata, i, 0) + PairsFrom(packages, metadata, i + 1)
  }

  /** Every (package index, metadata index) pair that produces a table row. */
  function MatchPairs(packages: seq<string>, metadata: seq<seq<string>>): seq<(nat, nat)>
    requires AllComplete(metadata)
  {
    PairsFrom(packages, metadata, 0)
  }

  lemma SortedConcat(a: seq<(nat, nat)>, b: seq<(nat, nat)>)
    requires StrictlyOrdered(a) && StrictlyOrdered(b)
    requires forall x, y :: x in a && y in b ==> Before(x, y)
    ensures StrictlyOrdered(a + b)
  {
    var c := a + b;
    forall k, l | 0 <= k < l < |c| ensures Before(c[k], c[l]) {
      if l < |a| {
        assert c[k] == a[k] && c[l] == a[l];
      } else if k >= |a| {
        assert c[k] == b[k - |a|] && c[l] == b[l - |a|];
      } else {
        assert c[k] == a[k] && c[l] == b[l - |a|];
      }
    }
  }

  lemma {:induction false} RowPairsSpec(packages: seq<string>, metadata: seq<seq<string>>, i: nat, j: nat)
    requires AllComplete(metadata) && i < |packages| && j <= |metadata|
    ensures forall q :: q in RowPairs(packages, metadata, i, j)
              <==> q.0 == i && j <= q.1 && IsMatch(packages, metadata, q.0, q.1)
    ensures StrictlyOrdered(RowPairs(packages, metadata, i, j))
    decreases |metadata| - j
  {
    if j < |metadata| {
      RowPairsSpec(packages, metadata, i, j + 1);
      var head: seq<(nat, nat)> := if Matches(packages[i], metadata[j]) then [(i, j)] else [];
      SortedConcat(head, RowPairs(packages, metadata, i, j + 1));
    }
  }

  lemma {:induction false} PairsFromSpec(packages: seq<string>, metadata: seq<seq<string>>, i: nat)
    requires AllComplete(metadata) && i <= |packages|
    ensures forall q :: q in PairsFrom(packages, metadata, i)
              <==> i <= q.0 && IsMatch(packages, metadata, q.0, q.1)
    ensures StrictlyOrdered(PairsFrom(packages, metadata, i))
    decreases |packages| - i
  {
    if i < |packages| {
      PairsFromSpec(packages, metadata, i + 1);
      RowPairsSpec(packages, metadata, i, 0);
      SortedConcat(RowPairs(packages, metadata, i, 0), PairsFrom(packages, metadata, i + 1));
    }
  }

  /** Exactly the pairs whose package starts with the row's name-version
      produce a row, each once, package-major and then in metadata order. */
  lemma MatchPairsSpec(packages: seq<string>, metadata: seq<seq<string>>)
    requires AllComplete(metadata)
    ensures forall q :: q in MatchPairs(packages, metadata) <==> IsMatch(packages, metadata, q.0, q.1)
    ensures StrictlyOrdered(MatchPairs(packages, metadata))
  {
    PairsFromSpec(packages, metadata, 0);
  }

  /** Every listed pair indexes an existing package and metadata row. */
  predicate InRange(packages: seq<string>, metadata: seq<seq<string>>, pairs: seq<(nat, nat)>) {
    forall k :: 0 <= k < |pairs| ==> pairs[k].0 < |packages| && pairs[k].1 < |metadata|
  }

  /** The rows of the listed pairs, in list order. */
  function RenderPairs(url: string, packages: seq<string>, metadata: seq<seq<string>>,
                       pairs: seq<(nat, nat)>): string
    requires AllComplete(metadata) && InRange(packages, metadata, pairs)
  {
    if pairs == [] then ""
    else RenderRow(url, packages[pairs[0].0], metadata[pairs[0].1])
         + RenderPairs(url, packages, metadata, pairs[1..])
  }

  lemma InRangeConcat(packages: seq<string>, metadata: seq<seq<string>>, a: seq<(nat, nat)>, b: seq<(nat, nat)>)
    requires InRange(packages, metadata, a) && InRange(packages, metadata, b)
    ensures InRange(packages, metadata, a + b)
  {
    var c := a + b;
    forall k | 0 <= k < |c| ensures c[k].0 < |packages| && c[k].1 < |metadata| {
      if k < |a| { assert c[k] == a[k]; } else { assert c[k] == b[k - |a|]; }
    }
  }

  lemma InRangeTail(packages: seq<string>, metadata: seq<seq<string>>, a: seq<(nat, nat)>)
    requires InRange(packages, metadata, a) && a != []
    ensures InRange(packages, metadata, a[1..])
  {
    forall k | 0 <= k < |a| - 1 ensures a[1..][k].0 < |packages| && a[1..][k].1 < |metadata| {
      assert a[1..][k] == a[k + 1];
    }
  }

  /** The rows of a list whose first pair is `x`. */
  lemma RenderPairsCons(url: string, packages: seq<string>, metadata: seq<seq<string>>,
                        x: (nat, nat), rest: seq<(nat, nat)>)
    requires AllComplete(metadata) && x.0 < |packages| && x.1 < |metadata|
    requires InRange(packages, metadata, rest)
    ensures InRange(packages, metadata, [x] + rest)
    ensures RenderPairs(url, packages, metadata, [x] + rest)
            == RenderRow(url, packages[x.0], metadata[x.1]) + RenderPairs(url, packages, metadata, rest)
  {
    var c := [x] + rest;
    InRangeConcat(packages, metadata, [x], rest);
    assert c[0] == x;
    assert c[1..] == rest;
  }

  lemma {:induction false} RenderPairsConcat(url: string, packages: seq<string>,
                                             metadata: seq<seq<string>>, a: seq<(nat, nat)>, b: seq<(nat, nat)>)
    requires AllComplete(metadata)
    requires InRange(packages, metadata, a) && InRange(packages, metadata, b)
    ensures InRange(packages, metadata, a + b)
    ensures RenderPairs(url, packages, metadata, a + b)
            == RenderPairs(url, packages, metadata, a) + RenderPairs(url, packages, metadata, b)
    decreases |a|
  {
    InRangeConcat(packages, metadata, a, b);
    if a == [] {
      assert a + b == b;
    } else {
      var x, tail := a[0], a[1..];
      assert a == [x] + tail;
      assert a + b == [x] + (tail + b);
      InRangeTail(packages, metadata, a);
      InRangeConcat(packages, metadata, tail, b);
      RenderPairsCons(url, packages, metadata, x, tail);
      RenderPairsCons(url, packages, metadata, x, tail + b);
      RenderPairsConcat(url, packages, metadata, tail, b);
      ConcatAssoc3(RenderRow(url, packages[x.0], metadata[x.1]),
                   RenderPairs(url, packages, metadata, tail), RenderPairs(url, packages, metadata, b));
    }
  }

  lemma {:induction false} RowPairsRender(url: string, packages: seq<string>,
                                          metadata: seq<seq<string>>, i: nat, j: nat)
    requires AllComplete(metadata) && i < |packages| && j <= |metadata|
    ensures InRange(packages, metadata, RowPairs(packages, metadata, i, j))
    ensures RenderPairs(url, packages, metadata, RowPairs(packages, metadata, i, j))
            == PackageRows(url, packages[i], metadata[j..])
    decreases |metadata| - j
  {
    if j < |metadata| {
      var head: seq<(nat, nat)> := if Matches(packages[i], metadata[j]) then [(i, j)] else [];
      var rest := RowPairs(packages, metadata, i, j + 1);
      assert RowPairs(packages, metadata, i, j) == head + rest;
      RowPairsRender(url, packages, metadata, i, j + 1);
      RenderPairsConcat(url, packages, metadata, head, rest);
      assert metadata[j..][0] == metadata[j];
      assert metadata[j..][1..] == metadata[j + 1..];
    }
  }

  lemma {:induction false} PairsFromRender(url: string, packages: seq<string>,
                                           metadata: seq<seq<string>>, i: nat)
    requires AllComplete(metadata) && i <= |packages|
    ensures InRange(packages, metadata, PairsFrom(packages, metadata, i))
    ensures RenderPairs(url, packages, metadata, PairsFrom(packages, metadata, i))
            == TableRows(url, packages[i..], metadata)
    decreases |packages| - i
  {
    if i < |packages| {
      var first := RowPairs(packages, metadata, i, 0);
      var rest := PairsFrom(packages, metadata, i + 1);
      assert PairsFrom(packages, metadata, i) == first + rest;
      PairsFromRender(url, packages, metadata, i + 1);
      RowPairsRender(url, packages, metadata, i, 0);
      RenderPairsConcat(url, packages, metadata, first, rest);
      assert metadata[0..] == metadata;
      assert packages[i..][0] == packages[i];
      assert packages[i..][1..] == packages[i + 1..];
    }
  }

  /** The rows create_table writes are the rows of the matching pairs, in
      the order MatchPairs lists them. */
  lemma TableRowsAreMatchPairs(url: string, packages: seq<string>, metadata: seq<seq<string>>)
    requires AllComplete(metadata)
    ensures InRange(packages, metadata, MatchPairs(packages, metadata))
    ensures TableRows(url, packages, metadata)
            == RenderPairs(url, packages, metadata, MatchPairs(packages, metadata))
  {
    PairsFromRender(url, packages, metadata, 0);
    assert packages[0..] == packages;
  }

  // ---------------------------------------------------------------------------
  // The homepage display text.

  /** The display text cuts the homepage at every `https://`, glues the pieces
      back together, then does the same at every `http://`; no piece of either
      cut contains the scheme it was cut at. */
  lemma HomepageTextPieces(homepage: string)
    ensures var stage := Join(Split(homepage, Https), "");
            HomepageText(homepage) == Join(Split(stage, Http), "")
    ensures forall k :: 0 <= k < |Split(homepage, Https)| ==> !Contains(Split(homepage, Https)[k], Https)
  {
    ReplaceIsJoinOfSplit(homepage, Https, "");
    ReplaceIsJoinOfSplit(ReplaceAll(homepage, Https, ""), Http, "");
    SplitPiecesAvoidSeparator(homepage, Https);
  }

  /** A homepage containing neither `https://` nor `http://` is shown as it is. */
  lemma HomepageWithoutScheme(homepage: string)
    requires !Contains(homepage, Https) && !Contains(homepage, Http)
    ensures HomepageText(homepage) == homepage
  {
    ReplaceAbsent(homepage, Https, "");
    ReplaceAbsent(homepage, Http, "");
  }

  /** `https://host/path` is shown as `host/path`. */
  lemma HomepageDropsHttps(rest: string)
    requires !Contains(rest, Https) && !Contains(rest, Http)
    ensures HomepageText(Https + rest) == rest
  {
    var s := Https + rest;
    assert s[..|Https|] == Https;
    assert s[|Https|..] == rest;
    assert ReplaceAll(s, Https, "") == ReplaceAll(rest, Https, "");
    HomepageWithoutScheme(rest);
    ReplaceAbsent(rest, Https, "");
  }

  lemma HttpsNotInHttpPrefix(rest: string, j: nat)
    requires j < |Http| && j + |Https| <= |Http + rest|
    ensures (Http + rest)[j..j + |Https|] != Https
  {
    var s := Http + rest;
    var w := s[j..j + |Https|];
    assert w[0] == s[j] && w[4] == s[j + 4];
    assert s[..|Http|] == Http;
    if j == 0 {
      assert w[4] == ':';
    } else {
      assert w[0] != 'h';
    }
  }

  /** `http://host/path` is shown as `host/path`. */
  lemma HomepageDropsHttp(rest: string)
    requires !Contains(rest, Https) && !Contains(rest, Http)
    ensures HomepageText(Http + rest) == rest
  {
    var s := Http + rest;
    forall j | OccursAt(s, Https, j) ensures false {
      var w := s[j..j + |Https|];
      assert w == Https;
      if j < |Http| {
        HttpsNotInHttpPrefix(rest, j);
      } else {
        assert w == rest[j - |Http|..j - |Http| + |Https|];
        assert OccursAt(rest, Https, j - |Http|);
      }
    }
    ReplaceAbsent(s, Https, "");
    assert s[..|Http|] == Http;
    assert s[|Http|..] == rest;
    ReplaceAbsent(rest, Http, "");
  }
}
