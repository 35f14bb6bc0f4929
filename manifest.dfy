/** The platform buckets and the rule that routes a manifest entry into one of
    them (make_index.py:13-23 and the loop at 115-123). The loop itself, which
    appends to the buckets in place, is `MakeIndex.PackageBuckets.ClassifyAll`;
    `Filter` below is the specification it is proved against. */
module Manifest {
  import opened Text

  /** The keys shared by MACOS_VERSIONS and MacOSpkgs. */
  datatype Platform = Macos1011 | Macos1014 | Macos1015

  /** The dictionary key naming `p`; it is also the id of the platform's table. */
  function Id(p: Platform): string {
    match p
    case Macos1011 => "macos10.11"
    case Macos1014 => "macos10.14"
    case Macos1015 => "macos10.15"
  }

  /** MACOS_VERSIONS[p]: the caption of the platform's table. */
  function Title(p: Platform): string {
    match p
    case Macos1011 => "OS X El Capitan (Version 10.11)"
    case Macos1014 => "macOS Mojave (Version 10.14)"
    case Macos1015 => "macOS Catalina (Version 10.15)"
  }

  const ElCapitanSuffix := "-macos10.11.pkg"
  const CatalinaSuffix := "-macos10.15.pkg"

  /** The bucket the loop appends `package` to. The `-macos10.14.pkg` test is
      commented out in the source, so nothing is ever routed to Macos1014. */
  function Classify(package: string): Platform {
    if EndsWith(package, ElCapitanSuffix) then Macos1011
    else if EndsWith(package, CatalinaSuffix) then Macos1015
    else Macos1011
  }

  /** The classification rules, stated as the suffix tests they are. */
  lemma ClassifyRules(package: string)
    ensures EndsWith(package, ElCapitanSuffix) ==> Classify(package) == Macos1011
    ensures EndsWith(package, CatalinaSuffix) ==> Classify(package) == Macos1015
    ensures !EndsWith(package, ElCapitanSuffix) && !EndsWith(package, CatalinaSuffix)
            ==> Classify(package) == Macos1011
    ensures Classify(package) != Macos1014
  {
  }

  /** `[x.strip() for x in args.manifest.readlines()]` */
  function StripLines(lines: seq<string>): (packages: seq<string>)
    ensures |packages| == |lines|
    ensures forall k :: 0 <= k < |lines| ==> packages[k] == Strip(lines[k])
  {
    if lines == [] then [] else [Strip(lines[0])] + StripLines(lines[1..])
  }

  /** The entries of `packages` that the loop appends to bucket `p`, in manifest order. */
  function Filter(packages: seq<string>, p: Platform): seq<string> {
    if packages == [] then []
    else (if Classify(packages[0]) == p then [packages[0]] else []) + Filter(packages[1..], p)
  }

  /** Classifying a manifest in two parts fills each bucket with the first
      part's entries followed by the second part's. */
  lemma {:induction false} FilterAppend(a: seq<string>, b: seq<string>, p: Platform)
    ensures Filter(a + b, p) == Filter(a, p) + Filter(b, p)
  {
    if a == [] {
      assert a + b == b;
    } else {
      FilterAppend(a[1..], b, p);
      var head := if Classify(a[0]) == p then [a[0]] else [];
      assert (a + b)[0] == a[0];
      assert (a + b)[1..] == a[1..] + b;
      assert Filter(a + b, p) == head + Filter(a[1..] + b, p);
      assert Filter(a, p) == head + Filter(a[1..], p);
      assert head + (Filter(a[1..], p) + Filter(b, p)) == (head + Filter(a[1..], p)) + Filter(b, p);
    }
  }

  /** The buckets after one more manifest entry. */
  lemma FilterStep(packages: seq<string>, i: nat, p: Platform)
    requires i < |packages|
    ensures Filter(packages[..i + 1], p)
            == Filter(packages[..i], p) + (if Classify(packages[i]) == p then [packages[i]] else [])
  {
    assert packages[..i + 1] == packages[..i] + [packages[i]];
    FilterAppend(packages[..i], [packages[i]], p);
    assert [packages[i]][1..] == [];
  }

  /** Every entry lands in exactly one bucket: the three buckets together hold
      each entry exactly as often as the manifest does, so their sizes add up
      to the number of manifest lines. */
  lemma {:induction false} FilterPartition(packages: seq<string>)
    ensures multiset(Filter(packages, Macos1011)) + multiset(Filter(packages, Macos1014))
            + multiset(Filter(packages, Macos1015)) == multiset(packages)
    ensures |Filter(packages, Macos1011)| + |Filter(packages, Macos1014)|
            + |Filter(packages, Macos1015)| == |packages|
  {
    if packages != [] {
      FilterPartition(packages[1..]);
      assert packages == [packages[0]] + packages[1..];
    }
  }

  /** A bucket holds exactly the manifest entries classified into it. */
  lemma {:induction false} FilterMembers(packages: seq<string>, p: Platform, x: string)
    ensures x in Filter(packages, p) <==> x in packages && Classify(x) == p
  {
    if packages != [] {
      FilterMembers(packages[1..], p, x);
      assert packages == [packages[0]] + packages[1..];
    }
  }

  /** `a` can be obtained from `b` by deleting entries: its entries occur in
      `b` in the same order. */
  predicate IsSubsequence(a: seq<string>, b: seq<string>) {
    a == [] ||
    (b != [] && ((a[0] == b[0] && IsSubsequence(a[1..], b[1..])) || IsSubsequence(a, b[1..])))
  }

  /** A bucket lists its entries in manifest order. */
  lemma {:induction false} FilterKeepsOrder(packages: seq<string>, p: Platform)
    ensures IsSubsequence(Filter(packages, p), packages)
  {
    if packages != [] {
      var rest := Filter(packages[1..], p);
      FilterKeepsOrder(packages[1..], p);
      if Classify(packages[0]) == p {
        assert Filter(packages, p) == [packages[0]] + rest;
        assert ([packages[0]] + rest)[1..] == rest;
      } else {
        assert Filter(packages, p) == rest;
      }
    }
  }

  /** The Mojave bucket is never filled. */
  lemma {:induction false} MojaveBucketEmpty(packages: seq<string>)
    ensures Filter(packages, Macos1014) == []
  {
    if packages != [] {
      ClassifyRules(packages[0]);
      MojaveBucketEmpty(packages[1..]);
    }
  }
}
