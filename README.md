# make_index: a verified model

`make_index.py` builds the HTML package index of the Rudix package catalogue.
It reads a manifest that names one package file per line and sorts the names
into platform buckets by their `-macos10.NN.pkg` suffix. It then reads a CSV
metadata file with one row per package: name, version, summary, license and
homepage. For the macOS Catalina bucket it writes an HTML table with one row
for each pair of a package and a metadata row whose `name-version` the
package name starts with. The table sits between a begin fragment and an end
fragment.

This project models that core in Dafny and proves what it does.

| file | module | models |
|---|---|---|
| `results.dfy` | `Results` | the exceptions the code can raise (`StopIteration`, `IndexError`), `Result` and `Option` |
| `text.dfy` | `Text` | the Python `str` operations used: `startswith`, `endswith`, `replace`, `strip` and `%` with `%s`; `find`, `split` and `join` serve as reference definitions |
| `manifest.dfy` | `Manifest` | the platforms, the suffix rule of the classification loop, the `strip` of manifest lines, and `Filter`, the contents each bucket should get |
| `metadata.dfy` | `Metadata` | `read_metadata`'s split into a header row and data rows |
| `render.dfy` | `Render` | the templates `BeginPackageTable`, `PackageRow` and `EndPackageTable`; the text `create_table` appends, defined twice: `TableRows` follows the nested loops, `MatchPairs` lists the matching pairs by index |
| `make_index.dfy` | `MakeIndex` | the dictionary `MacOSpkgs` as class `PackageBuckets`; the classification loop; `create_table` as nested accumulator loops; `process` |

Design points:

- **Buckets.** `MacOSpkgs` is a mutable dictionary of lists. Here it is a class with one `seq<string>` field per platform.
  - `ClassifyAll` is the loop of `process` that appends to those fields. It is proved to give each bucket exactly `Filter(packages, p)`.
  - The `Filter` lemmas show the rest: every entry lands in exactly one bucket, buckets keep manifest order, and the macos10.14 bucket stays empty.
- **Tables.** `create_table` is modelled by three methods: `CreateTable`, `AppendTableRows` for the outer loop and `AppendPackageRows` for the inner one.
  - Their accumulated `html` is proved equal to the recursive function `Table`.
  - `Table` is in turn proved equal to the rows of `MatchPairs` in order. `MatchPairs` is the listing of all (package, metadata row) pairs that match, package-major.
- **Templates.** The templates are held as the text between their `%s` conversions.
  - `Fill` puts the arguments in between.
  - `Render.TableHeadIsFormat` and `Render.RenderRowIsFormat` prove that Python's `%` on each joined template gives `TableHead` and `RenderRow`.
- **Malformed input.** This is modelled as the exception Python raises, not as a precondition:
  - an empty metadata file makes `next` raise `StopIteration`;
  - a metadata row with fewer than five fields makes `row[k]` raise `IndexError` as soon as the bucket has a package.
- **Inputs.** The files are replaced by their contents: the manifest lines as `readlines` returns them, the rows `csv.reader` yields, the begin and end fragments, and the base URL. The output is the document string that would be written.

Two details of the code that the model keeps exactly:

- **Homepage text.** `str.replace` removes every non-overlapping `https://`, then every `http://`, anywhere in the homepage, not only a leading scheme. `Render.HomepageText` does the same.
- **Table id quoting.** The template quotes the table id with single quotes: `<table id='%s'>`.

## Model

| member | source | states |
|---|---|---|
| Text.Find | make_index.py:100-101 | the index returned is an occurrence of the pattern with no occurrence before it; `None` only when the pattern does not occur |
| Text.ReplaceAll | make_index.py:100-101 | `s.replace(pat, rep)`: scanning left to right, each occurrence of `pat` is replaced by `rep` and scanning resumes after it; other characters are copied |
| Text.JoinSplit | make_index.py:100-101 | joining the pieces of `s.split(sep)` with `sep` gives back `s` |
| Text.SplitPiecesAvoidSeparator | make_index.py:100-101 | no piece of `s.split(sep)` contains `sep` |
| Text.ReplaceIsJoinOfSplit | make_index.py:100-101 | `s.replace(pat, rep) == rep.join(s.split(pat))`: replacing scans left to right and replaces every non-overlapping occurrence |
| Text.ReplaceAbsent | make_index.py:100-101 | replacing a pattern that does not occur leaves the string unchanged |
| Text.Format | make_index.py:91-92 | `template % args` for `%s` conversions: each `%s` in turn becomes the next argument, other characters are copied |
| Text.Fill | make_index.py:92-104 | the template's literal pieces with the arguments between them, in order |
| Text.FormatFills | make_index.py:92 | `%` on a template whose only `%` signs are `%s` conversions puts the arguments, in order, between the template's literal pieces |
| Text.FillSnoc | make_index.py:103-104 | filling a template with one more trailing conversion appends that argument and the last piece |
| Text.TrimLeft | make_index.py:112 | `lstrip` removes exactly the leading whitespace: what remains is a suffix that does not start with whitespace |
| Text.TrimRight | make_index.py:112 | `rstrip` removes exactly the trailing whitespace: what remains is a prefix that does not end with whitespace |
| Text.Strip | make_index.py:112 | a stripped line neither starts nor ends with whitespace and is no longer than the line |
| Text.StripIsTrimmedInfix | make_index.py:112 | `strip` returns the one infix that has only whitespace around it and is bounded by non-whitespace |
| Text.StripIdempotent | make_index.py:112 | stripping a stripped line changes nothing |
| Manifest.Classify | make_index.py:116-123 | the bucket an entry is appended to: macos10.11 for `-macos10.11.pkg`, else macos10.15 for `-macos10.15.pkg`, else macos10.11 |
| Manifest.ClassifyRules | make_index.py:116-123 | `-macos10.11.pkg` goes to macos10.11; otherwise `-macos10.15.pkg` goes to macos10.15; everything else, the empty line included, goes to macos10.11; nothing goes to macos10.14 |
| Manifest.StripLines | make_index.py:112 | one package name per manifest line: the stripped line, in order |
| Manifest.FilterAppend | make_index.py:115-123 | classifying a manifest in two parts fills each bucket with the first part's entries, then the second's |
| Manifest.FilterStep | make_index.py:115-123 | one more manifest entry is appended to its own bucket and to no other |
| Manifest.FilterPartition | make_index.py:115-123 | the three buckets together hold every entry exactly as often as the manifest does; their sizes sum to the number of manifest lines |
| Manifest.FilterMembers | make_index.py:115-123 | a bucket holds exactly the manifest entries classified into it |
| Manifest.FilterKeepsOrder | make_index.py:115-123 | each bucket lists its entries in manifest order |
| Manifest.MojaveBucketEmpty | make_index.py:118-119 | the macos10.14 bucket is never filled |
| Metadata.ReadMetadata | make_index.py:44-47 | the first CSV row is the header and the remaining rows, in order, are the data; a header-only file gives no data; a file with no rows raises StopIteration |
| Render.TableHeadCells | make_index.py:25-33 | the opening of a table is `<table id='…'>`, the caption, and the header row with the four column headings |
| Render.BeginPackageTablePlain | make_index.py:25-33 | the table-opening template has no `%` besides its two conversions |
| Render.PackageRowPlain | make_index.py:34-40 | the row template has no `%` besides its seven conversions |
| Render.TableHeadIsFormat | make_index.py:25-33 | `BeginPackageTable % (id, title)` on the template text is `TableHead(id, title)` |
| Render.RenderRowIsFormat | make_index.py:34-40 | `PackageRow % (url, package, package, summary, row[3], row[4], homepage)` on the template text is `RenderRow` |
| Render.HomepageText | make_index.py:99-101 | the homepage's display text: `row[4]` with every `https://`, then every `http://`, replaced by nothing |
| Render.RenderRow | make_index.py:97-104 | the `PackageRow` template filled with the URL, the package twice, the summary, the license, the homepage and its display text |
| Render.RowText | make_index.py:97-104 | what one inner-loop pass appends: the row when the package starts with `row[0] + "-" + row[1]`, nothing otherwise |
| Render.RowCells | make_index.py:97-104 | a row links `url/package` with text `package`, then shows `row[2] + " " + row[1]`, the license `row[3]`, and a link to the unmodified `row[4]` with its display text |
| Render.PackageRows | make_index.py:95-104 | what the inner loop appends for one package: the row texts of all metadata rows, in file order |
| Render.TableRows | make_index.py:93-104 | what the outer loop appends: the `PackageRows` of each package, in bucket order |
| Render.Table | make_index.py:90-106 | what create_table appends to `html`: the opening with the bucket's id and caption, `TableRows`, then `</table>\n` |
| Render.PackageRowsAppend | make_index.py:95-104 | one more metadata row appends its row, or nothing if it does not describe the package |
| Render.PackageRowsStep | make_index.py:95-104 | after metadata row `j` the inner loop's text has grown by that row's text |
| Render.TableRowsAppend | make_index.py:93-104 | one more package appends that package's rows |
| Render.UnmatchedPackageHasNoRows | make_index.py:102-104 | a package no metadata row describes contributes no rows |
| Render.RowPairsSpec | make_index.py:95-104 | the pairs listed for package `i` are exactly its matches from row `j` on, in metadata order |
| Render.PairsFromSpec | make_index.py:93-104 | the pairs listed from package `i` on are exactly the matches of those packages, package-major |
| Render.MatchPairsSpec | make_index.py:93-104 | exactly the (package, metadata row) pairs where the package starts with `name-version` are listed, each once, package-major then in metadata order |
| Render.RenderPairsConcat | make_index.py:93-104 | the rows of two listings concatenated are the rows of the first followed by those of the second |
| Render.RowPairsRender | make_index.py:95-104 | the inner loop's text is the rows of the package's matching pairs |
| Render.PairsFromRender | make_index.py:93-104 | the nested loops' text is the rows of the matching pairs in their listed order |
| Render.TableRowsAreMatchPairs | make_index.py:93-104 | the rows create_table writes are one row per matching pair, in MatchPairs order |
| Render.HomepageTextPieces | make_index.py:99-101 | the display text cuts the homepage at every `https://`, rejoins the pieces, then does the same at every `http://` |
| Render.HomepageWithoutScheme | make_index.py:99-101 | a homepage containing neither `https://` nor `http://` is shown unchanged |
| Render.HomepageDropsHttps | make_index.py:99-100 | `https://host/path` is shown as `host/path` |
| Render.HomepageDropsHttp | make_index.py:99-101 | `http://host/path` is shown as `host/path` |
| MakeIndex.PackageBuckets.constructor | make_index.py:19-23 | every bucket starts empty |
| MakeIndex.PackageBuckets.ClassifyAll | make_index.py:115-123 | after the loop each bucket has grown by exactly the entries routed to it, in manifest order |
| MakeIndex.PackageBuckets.Route | make_index.py:116-123 | one entry is appended to the bucket its suffix selects; the other buckets are unchanged |
| MakeIndex.PackageBuckets.CreateTable | make_index.py:90-106 | returns `html` followed by the table of the bucket, or raises IndexError exactly when the bucket is non-empty and some metadata row has fewer than five fields |
| MakeIndex.AppendTableRows | make_index.py:93-104 | the outer loop appends the rows of each package in bucket order, or raises IndexError when a package meets a short metadata row |
| MakeIndex.AppendPackageRows | make_index.py:95-104 | the inner loop appends one row per matching metadata row in file order, or raises IndexError at a short row |
| MakeIndex.AppendRow | make_index.py:96-104 | a short row raises IndexError; otherwise the row's HTML is appended when the package starts with `name-version`, and nothing otherwise |
| MakeIndex.Document | make_index.py:109-129 | the output of process: StopIteration for an empty metadata file, IndexError for a non-empty macos10.15 bucket with a short row, else the begin fragment, the macos10.15 table, `</table>\n` and the end fragment |
| MakeIndex.DocumentLayout | make_index.py:113-128 | the document is the begin fragment, the macos10.15 table with one row per matching pair, `</table>\n` twice and the end fragment; an empty metadata file raises StopIteration; a short row raises IndexError once the bucket has a package |
| MakeIndex.CatalinaEntries | make_index.py:112-123 | the macos10.15 table covers exactly the stripped manifest lines that end in `-macos10.15.pkg` but not in `-macos10.11.pkg`, in manifest order |
| MakeIndex.Process | make_index.py:109-129 | process, with the buckets filled by the loop and the table built by create_table, returns exactly the document `Document` describes |
| MakeIndex.ExampleBuckets | make_index.py:115-123 | in the manifest `foo-1.0-macos10.15.pkg`, `bar-2.0.pkg`, only the first goes to macos10.15; the second goes to macos10.11 |
| MakeIndex.ExampleRow | make_index.py:97-102 | the row (foo, 1.0, Foo tool, MIT, https://foo.org) describes `foo-1.0-macos10.15.pkg`, with summary `Foo tool 1.0` and homepage shown as `foo.org` |

## Left out

- Command-line parsing (`parse_args`, make_index.py:50-87) and the logging set-up and calls (8-9, 94, 96): configuration plumbing with no effect on the output.
- File I/O: reading the manifest, the metadata and the fragments, and writing the output (112-114, 128-129). The model takes the contents as parameters and returns the document.
- CSV tokenisation inside `csv.reader` (45): a library parser. Metadata arrives as the rows it would yield. Malformed quoting, which makes the reader raise, is not modelled.
- The commented-out `-macos10.14.pkg` rule and the commented-out `create_table` calls for macos10.14 and macos10.11 (118-119, 125-126): dead code. `Manifest.MojaveBucketEmpty` records that the macos10.14 bucket is never filled.
- Text.Format: models `%` only for `%s` conversions with one string argument each, which is all the module uses. The `TypeError` for a wrong number of arguments is not modelled, because every call site passes the right number.
- Text.Strip: the whitespace set is the one Python 3's `str.isspace` accepts. Python 2's byte-string `strip`, for the `#!/usr/bin/python` interpreter, would remove only ASCII whitespace.
- MakeIndex.Process: builds a fresh `PackageBuckets`. The module-level `MacOSpkgs` starts empty and `process` runs once, so the result is the same. Calling `process` twice in one interpreter, which would append to the same lists again, is not modelled.
- Render.BeginPackageTable and Render.PackageRow hold each template as the text between its `%s` conversions, not as the single literal. The literal is `Text.Join` of the pieces with `%s`.
- `MACOS_VERSIONS.keys()` (110) is computed and never used.
