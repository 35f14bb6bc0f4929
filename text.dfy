/** The Python `str` operations that make_index.py relies on: `startswith`,
    `endswith`, `replace` and `strip`, together with `find`, `split` and `join`,
    which serve as the reference definition `replace` is proved against. */
module Text {
  import opened Results

  /** `s.startswith(prefix)` */
  predicate StartsWith(s: string, prefix: string) {
    |prefix| <= |s| && s[..|prefix|] == prefix
  }

  /** `s.endswith(suffix)` */
  predicate EndsWith(s: string, suffix: string) {
    |suffix| <= |s| && s[|s| - |suffix|..] == suffix
  }

  /** `pat` occurs in `s` starting at index `j`. */
  predicate OccursAt(s: string, pat: string, j: int) {
    0 <= j && j + |pat| <= |s| && s[j..j + |pat|] == pat
  }

  /** `pat in s` */
  predicate Contains(s: string, pat: string) {
    exists j | 0 <= j <= |s| :: OccursAt(s, pat, j)
  }

  /** Occurrences in `s` past its first character are the occurrences in `s[1..]`, shifted by one. */
  lemma OccursInTail(s: string, pat: string)
    requires |s| > 0
    ensures forall j :: 1 <= j ==> (OccursAt(s, pat, j) <==> OccursAt(s[1..], pat, j - 1))
  {
    forall j | 1 <= j
      ensures OccursAt(s, pat, j) <==> OccursAt(s[1..], pat, j - 1)
    {
      if j + |pat| <= |s| {
        var a, b := s[j..j + |pat|], s[1..][j - 1..j - 1 + |pat|];
        assert |a| == |b| && forall m :: 0 <= m < |a| ==> a[m] == b[m];
      }
    }
  }

  /** `s.find(pat)`: the index of the leftmost occurrence, None where Python answers -1. */
  function Find(s: string, pat: string): (r: Option<nat>)
    requires |pat| > 0
    ensures r.Some? ==> OccursAt(s, pat, r.value)
    ensures r.Some? ==> forall j :: 0 <= j < r.value ==> !OccursAt(s, pat, j)
    ensures r.None? ==> forall j :: !OccursAt(s, pat, j)
    decreases |s|
  {
    if |s| < |pat| then None
    else if s[..|pat|] == pat then assert OccursAt(s, pat, 0); Some(0)
    else
      OccursInTail(s, pat);
      match Find(s[1..], pat)
      case None => None
      case Some(i) => assert OccursAt(s[1..], pat, i); Some(i + 1)
  }

  /** `s.replace(pat, rep)`: every occurrence of `pat`, found left to right
      without overlap, is replaced by `rep`. */
  function ReplaceAll(s: string, pat: string, rep: string): string
    requires |pat| > 0
    decreases |s|
  {
    if |s| < |pat| then s
    else if s[..|pat|] == pat then rep + ReplaceAll(s[|pat|..], pat, rep)
    else [s[0]] + ReplaceAll(s[1..], pat, rep)
  }

  /** `s.split(sep)` for a non-empty separator: the pieces between the
      occurrences of `sep`, found left to right without overlap. */
  function Split(s: string, sep: string): (r: seq<string>)
    requires |sep| > 0
    ensures |r| >= 1
    decreases |s|
  {
    match Find(s, sep)
    case None => [s]
    case Some(i) => [s[..i]] + Split(s[i + |sep|..], sep)
  }

  /** `sep.join(parts)` */
  function Join(parts: seq<string>, sep: string): string {
    if |parts| == 0 then ""
    else if |parts| == 1 then parts[0]
    else parts[0] + sep + Join(parts[1..], sep)
  }

  lemma JoinCons(x: string, tail: seq<string>, sep: string)
    requires |tail| >= 1
    ensures Join([x] + tail, sep) == x + sep + Join(tail, sep)
  {
    assert ([x] + tail)[1..] == tail;
  }

  /** Joining the pieces of a split with the separator gives back the string. */
  lemma {:induction false} JoinSplit(s: string, sep: string)
    requires |sep| > 0
    ensures Join(Split(s, sep), sep) == s
    decreases |s|
  {
    match Find(s, sep)
    case None =>
    case Some(i) =>
      var rest := s[i + |sep|..];
      SplitFound(s, sep, i);
      JoinSplit(rest, sep);
      JoinCons(s[..i], Split(rest, sep), sep);
      Reassemble(s, i, |sep|);
  }

  /** A string is its prefix, the infix that follows and the rest. */
  lemma Reassemble(s: string, i: nat, n: nat)
    requires i + n <= |s|
    ensures s == s[..i] + s[i..i + n] + s[i + n..]
  {
    var t := s[..i] + s[i..i + n] + s[i + n..];
    assert |t| == |s|;
    forall m | 0 <= m < |s| ensures t[m] == s[m] { }
  }

  /** No piece of a split contains the separator. */
  lemma {:induction false} SplitPiecesAvoidSeparator(s: string, sep: string)
    requires |sep| > 0
    ensures forall k :: 0 <= k < |Split(s, sep)| ==> !Contains(Split(s, sep)[k], sep)
    decreases |s|
  {
    match Find(s, sep)
    case None =>
    case Some(i) =>
      var rest := s[i + |sep|..];
      SplitPiecesAvoidSeparator(rest, sep);
      var head := s[..i];
      forall j | OccursAt(head, sep, j) ensures false {
        assert head[j..j + |sep|] == s[j..j + |sep|];
        assert OccursAt(s, sep, j);
      }
      assert !Contains(head, sep);
      var parts := Split(s, sep);
      assert parts == [head] + Split(rest, sep);
      forall k | 0 < k < |parts| ensures !Contains(parts[k], sep) {
        assert parts[k] == Split(rest, sep)[k - 1];
      }
  }

  /** Python's identity `s.replace(pat, rep) == rep.join(s.split(pat))`:
      the scanning definition of replace agrees with split-then-join. */
  lemma {:induction false} ReplaceIsJoinOfSplit(s: string, pat: string, rep: string)
    requires |pat| > 0
    ensures ReplaceAll(s, pat, rep) == Join(Split(s, pat), rep)
    decreases |s|
  {
    if |s| < |pat| {
    } else if s[..|pat|] == pat {
      assert OccursAt(s, pat, 0);
      var rest := s[|pat|..];
      ReplaceIsJoinOfSplit(rest, pat, rep);
      assert Split(s, pat) == [[]] + Split(rest, pat);
      JoinCons([], Split(rest, pat), rep);
    } else {
      ReplaceIsJoinOfSplit(s[1..], pat, rep);
      ReplaceSkipsChar(s, pat, rep);
    }
  }

  /** The step of ReplaceIsJoinOfSplit where `s` does not start with `pat`. */
  lemma ReplaceSkipsChar(s: string, pat: string, rep: string)
    requires |pat| > 0 && |s| >= |pat| && s[..|pat|] != pat
    requires ReplaceAll(s[1..], pat, rep) == Join(Split(s[1..], pat), rep)
    ensures ReplaceAll(s, pat, rep) == Join(Split(s, pat), rep)
  {
    assert ReplaceAll(s, pat, rep) == [s[0]] + ReplaceAll(s[1..], pat, rep);
    JoinSplitSkipsChar(s, pat, rep);
  }

  /** Split-then-join also passes over a first character that does not start `pat`. */
  lemma JoinSplitSkipsChar(s: string, pat: string, rep: string)
    requires |pat| > 0 && |s| >= |pat| && s[..|pat|] != pat
    ensures Join(Split(s, pat), rep) == [s[0]] + Join(Split(s[1..], pat), rep)
  {
    var t := s[1..];
    match Find(t, pat)
    case None =>
      assert Find(s, pat) == None;
      assert [s[0]] + t == s;
    case Some(i) =>
      assert Find(s, pat) == Some(i + 1);
      SplitSkipsChar(s, pat, rep, i);
  }

  lemma SplitSkipsChar(s: string, pat: string, rep: string, i: nat)
    requires |pat| > 0 && |s| >= 1
    requires Find(s, pat) == Some(i + 1) && Find(s[1..], pat) == Some(i)
    ensures Join(Split(s, pat), rep) == [s[0]] + Join(Split(s[1..], pat), rep)
  {
    var t := s[1..];
    var tail := Split(s[i + 1 + |pat|..], pat);
    assert Split(s, pat) == [s[..i + 1]] + tail by {
      SplitFound(s, pat, i + 1);
    }
    assert Split(t, pat) == [t[..i]] + tail by {
      SplitFound(t, pat, i);
      DropDrop(s, 1, i + |pat|);
    }
    assert [s[0]] + t[..i] == s[..i + 1];
    calc {
      Join(Split(s, pat), rep);
      { JoinCons(s[..i + 1], tail, rep); }
      s[..i + 1] + rep + Join(tail, rep);
      [s[0]] + (t[..i] + rep + Join(tail, rep));
      { JoinCons(t[..i], tail, rep); }
      [s[0]] + Join(Split(t, pat), rep);
    }
  }

  lemma DropDrop(s: string, a: nat, b: nat)
    requires a + b <= |s|
    ensures s[a..][b..] == s[a + b..]
  {
    var x, y := s[a..][b..], s[a + b..];
    assert |x| == |y|;
    forall m | 0 <= m < |x| ensures x[m] == y[m] { }
  }

  lemma TakeDrop(s: string, a: nat, b: nat)
    requires a <= b <= |s|
    ensures s[a..][..b - a] == s[a..b]
  {
    var x, y := s[a..][..b - a], s[a..b];
    assert |x| == |y|;
    forall m | 0 <= m < |x| ensures x[m] == y[m] { }
  }

  lemma SplitFound(s: string, sep: string, i: nat)
    requires |sep| > 0 && Find(s, sep) == Some(i)
    ensures i + |sep| <= |s|
    ensures Split(s, sep) == [s[..i]] + Split(s[i + |sep|..], sep)
  {
  }

  /** Replacing a pattern that does not occur leaves the string unchanged. */
  lemma ReplaceAbsent(s: string, pat: string, rep: string)
    requires |pat| > 0
    requires !Contains(s, pat)
    ensures ReplaceAll(s, pat, rep) == s
  {
    ReplaceIsJoinOfSplit(s, pat, rep);
  }

  /** `template % tuple(args)` for a template whose only conversions are `%s`:
      each `%s` in turn is replaced by the next argument. */
  function Format(template: string, args: seq<string>): string
    decreases |template|
  {
    if template == [] then []
    else if |template| >= 2 && template[0] == '%' && template[1] == 's' && args != [] then
      args[0] + Format(template[2..], args[1..])
    else [template[0]] + Format(template[1..], args)
  }

  /** The text between the `%s` conversions of a template, with the arguments
      put in their places: `pieces[0] + args[0] + pieces[1] + ... + pieces[|args|]`. */
  function Fill(pieces: seq<string>, args: seq<string>): string
    requires |pieces| == |args| + 1
  {
    if args == [] then pieces[0] else pieces[0] + args[0] + Fill(pieces[1..], args[1..])
  }

  lemma ConcatAssoc3(a: string, b: string, c: string)
    ensures a + b + c == a + (b + c)
  {
  }

  /** Filling a template with one more conversion at its end. */
  lemma {:induction false} FillSnoc(pieces: seq<string>, args: seq<string>, arg: string, last: string)
    requires |pieces| == |args| + 1
    ensures Fill(pieces + [last], args + [arg]) == Fill(pieces, args) + arg + last
    decreases |args|
  {
    var p, a := pieces + [last], args + [arg];
    if args == [] {
      assert p[1..] == [last] && a[1..] == [];
    } else {
      assert p[0] == pieces[0] && p[1..] == pieces[1..] + [last];
      assert a[0] == args[0] && a[1..] == args[1..] + [arg];
      FillSnoc(pieces[1..], args[1..], arg, last);
      var x := pieces[0] + args[0];
      assert Fill(p, a) == x + Fill(pieces[1..] + [last], args[1..] + [arg]);
      assert Fill(pieces, args) == x + Fill(pieces[1..], args[1..]);
      assert x + (Fill(pieces[1..], args[1..]) + arg + last) == x + Fill(pieces[1..], args[1..]) + arg + last;
    }
  }

  /** FillSnoc on the prefixes of a template and its arguments. */
  lemma FillStep(pieces: seq<string>, args: seq<string>, k: nat)
    requires |pieces| == |args| + 1 && 1 <= k < |pieces|
    ensures Fill(pieces[..k + 1], args[..k]) == Fill(pieces[..k], args[..k - 1]) + args[k - 1] + pieces[k]
  {
    assert pieces[..k + 1] == pieces[..k] + [pieces[k]];
    assert args[..k] == args[..k - 1] + [args[k - 1]];
    FillSnoc(pieces[..k], args[..k - 1], args[k - 1], pieces[k]);
  }

  lemma NoPercentConcat(a: string, b: string)
    requires '%' !in a && '%' !in b
    ensures '%' !in a + b
  {
  }

  /** Formatting copies text without a `%` unchanged. */
  lemma {:induction false} FormatPlain(text: string, rest: string, args: seq<string>)
    requires '%' !in text
    ensures Format(text + rest, args) == text + Format(rest, args)
    decreases |text|
  {
    if text != [] {
      var t := text + rest;
      assert t[0] == text[0] && t[0] != '%';
      assert t[1..] == text[1..] + rest;
      FormatPlain(text[1..], rest, args);
      ConcatAssoc3([text[0]], text[1..], Format(rest, args));
      assert text == [text[0]] + text[1..];
    } else {
      assert text + rest == rest;
    }
  }

  /** A template whose only `%` signs are its `%s` conversions, formatted with
      one argument per conversion, puts each argument in its place. */
  lemma {:induction false} FormatFills(pieces: seq<string>, args: seq<string>)
    requires |pieces| == |args| + 1
    requires forall k :: 0 <= k < |pieces| ==> '%' !in pieces[k]
    ensures Format(Join(pieces, "%s"), args) == Fill(pieces, args)
    decreases |args|
  {
    if args == [] {
      FormatPlain(pieces[0], [], args);
      assert pieces[0] + [] == pieces[0];
    } else {
      var rest := Join(pieces[1..], "%s");
      JoinCons(pieces[0], pieces[1..], "%s");
      assert [pieces[0]] + pieces[1..] == pieces;
      assert Join(pieces, "%s") == pieces[0] + ("%s" + rest);
      FormatPlain(pieces[0], "%s" + rest, args);
      var t := "%s" + rest;
      assert t[0] == '%' && t[1] == 's' && t[2..] == rest;
      FormatFills(pieces[1..], args[1..]);
    }
  }

  /** The characters Python 3's `str.isspace` accepts, which `str.strip()` removes. */
  predicate IsSpace(c: char) {
    var n := c as int;
    (0x09 <= n <= 0x0D) || (0x1C <= n <= 0x20) || n == 0x85 || n == 0xA0 || n == 0x1680
    || (0x2000 <= n <= 0x200A) || n == 0x2028 || n == 0x2029 || n == 0x202F
    || n == 0x205F || n == 0x3000
  }

  /** `s.lstrip()`: the longest suffix of `s` that does not start with whitespace. */
  function TrimLeft(s: string): (r: string)
    ensures |r| <= |s| && r == s[|s| - |r|..]
    ensures forall k :: 0 <= k < |s| - |r| ==> IsSpace(s[k])
    ensures r != [] ==> !IsSpace(r[0])
  {
    if s != [] && IsSpace(s[0]) then TrimLeft(s[1..]) else s
  }

  /** `s.rstrip()`: the longest prefix of `s` that does not end with whitespace. */
  function TrimRight(s: string): (r: string)
    ensures |r| <= |s| && r == s[..|r|]
    ensures forall k :: |r| <= k < |s| ==> IsSpace(s[k])
    ensures r != [] ==> !IsSpace(r[|r| - 1])
  {
    if s != [] && IsSpace(s[|s| - 1]) then TrimRight(s[..|s| - 1]) else s
  }

  /** `s.strip()` */
  function Strip(s: string): (r: string)
    ensures |r| <= |s|
    ensures r != [] ==> !IsSpace(r[0]) && !IsSpace(r[|r| - 1])
  {
    var left := TrimLeft(s);
    var r := TrimRight(left);
    assert r != [] ==> r[0] == left[0];
    r
  }

  /** The stripped string is the one infix `s[i..j]` that neither starts nor
      ends with whitespace and has only whitespace outside it. */
  lemma StripIsTrimmedInfix(s: string, i: nat, j: nat)
    requires i <= j <= |s|
    requires forall k :: 0 <= k < i ==> IsSpace(s[k])
    requires forall k :: j <= k < |s| ==> IsSpace(s[k])
    requires i < j ==> !IsSpace(s[i]) && !IsSpace(s[j - 1])
    ensures Strip(s) == s[i..j]
  {
    if i == j {
      AllSpaceStripsToEmpty(s, i);
    } else {
      TrimLeftAt(s, i);
      var t := s[i..];
      forall k | j - i <= k < |t| ensures IsSpace(t[k]) {
        assert t[k] == s[i + k];
      }
      TrimRightAt(t, j - i);
      TakeDrop(s, i, j);
    }
  }

  /** A line of whitespace only strips to the empty string. */
  lemma AllSpaceStripsToEmpty(s: string, i: nat)
    requires i <= |s|
    requires forall k :: 0 <= k < i ==> IsSpace(s[k])
    requires forall k :: i <= k < |s| ==> IsSpace(s[k])
    ensures Strip(s) == []
  {
  }

  lemma {:induction false} TrimLeftAt(s: string, i: nat)
    requires i < |s|
    requires forall k :: 0 <= k < i ==> IsSpace(s[k])
    requires !IsSpace(s[i])
    ensures TrimLeft(s) == s[i..]
    decreases i
  {
    if i > 0 {
      TrimLeftAt(s[1..], i - 1);
      assert s[1..][i - 1..] == s[i..];
    }
  }

  lemma {:induction false} TrimRightAt(s: string, j: nat)
    requires 0 < j <= |s|
    requires forall k :: j <= k < |s| ==> IsSpace(s[k])
    requires !IsSpace(s[j - 1])
    ensures TrimRight(s) == s[..j]
    decreases |s| - j
  {
    if j < |s| {
      TrimRightAt(s[..|s| - 1], j);
      assert s[..|s| - 1][..j] == s[..j];
    }
  }

  /** Stripping twice is the same as stripping once. */
  lemma StripIdempotent(s: string)
    ensures Strip(Strip(s)) == Strip(s)
  {
    var r := Strip(s);
    StripIsTrimmedInfix(r, 0, |r|);
    assert r[0..|r|] == r;
  }
}
