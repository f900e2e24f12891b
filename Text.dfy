/** The pure string helpers of the module generator: the import block
    (ModuleGenerationExt.kt:173-176) and the argument list of `includes(...)`
    (ModuleGenerationExt.kt:178-186), with Kotlin's `joinToString` and
    `split` written out. */
module Text {
  import opened Metadata

  /** Kotlin's `joinToString(separator)`, with no prefix and no postfix. */
  function JoinToString(parts: seq<string>, separator: string): string
    decreases |parts|
  {
    if parts == [] then ""
    else if |parts| == 1 then parts[0]
    else JoinToString(parts[..|parts| - 1], separator) + separator + parts[|parts| - 1]
  }

  /** Kotlin's `split` on one delimiter character: the text between
      delimiters, at least one part, empty parts kept. */
  function SplitOn(s: string, c: char): (parts: seq<string>)
    ensures |parts| > 0
    decreases |s|
  {
    if s == [] then [""]
    else
      var init := SplitOn(s[..|s| - 1], c);
      if s[|s| - 1] == c then init + [""]
      else init[..|init| - 1] + [init[|init| - 1] + [s[|s| - 1]]]
  }

  /** `parts` with `t` put in front of every part but the first. */
  function Prefixed(parts: seq<string>, t: string): (r: seq<string>)
    ensures |r| == |parts|
  {
    seq(|parts|, i requires 0 <= i < |parts| => if i == 0 then parts[0] else t + parts[i])
  }

  lemma SplitAfterDelimiter(x: string, c: char)
    ensures SplitOn(x + [c], c) == SplitOn(x, c) + [""]
  {
    assert (x + [c])[..|x|] == x;
  }

  /** Text free of the delimiter extends the last part. */
  lemma {:induction false} SplitFreeSuffix(x: string, p: string, c: char)
    requires c !in p
    ensures var ps := SplitOn(x, c);
            SplitOn(x + p, c) == ps[..|ps| - 1] + [ps[|ps| - 1] + p]
    decreases |p|
  {
    var ps := SplitOn(x, c);
    if p == [] {
      assert x + p == x;
      assert ps[|ps| - 1] + p == ps[|ps| - 1];
      assert ps[..|ps| - 1] + [ps[|ps| - 1]] == ps;
    } else {
      var q, ch := p[..|p| - 1], p[|p| - 1];
      assert p == q + [ch];
      SplitFreeSuffix(x, q, c);
      assert (x + p)[..|x + p| - 1] == x + q;
      assert ps[|ps| - 1] + q + [ch] == ps[|ps| - 1] + p;
    }
  }

  lemma JoinLast(parts: seq<string>, separator: string)
    requires |parts| > 1
    ensures JoinToString(parts, separator)
         == JoinToString(parts[..|parts| - 1], separator) + separator + parts[|parts| - 1]
  {
  }

  lemma PrefixedLast(parts: seq<string>, t: string)
    requires |parts| > 1
    ensures Prefixed(parts, t) == Prefixed(parts[..|parts| - 1], t) + [t + parts[|parts| - 1]]
  {
    var init := parts[..|parts| - 1];
    assert forall i | 0 <= i < |init| :: Prefixed(parts, t)[i] == Prefixed(init, t)[i];
  }

  /** Splitting the joined text on the first character of the separator
      gives the parts back, each but the first preceded by the rest of the
      separator. */
  lemma {:induction false} JoinSplitRoundTrip(parts: seq<string>, c: char, t: string)
    requires |parts| > 0
    requires c !in t
    requires forall p | p in parts :: c !in p
    ensures SplitOn(JoinToString(parts, [c] + t), c) == Prefixed(parts, t)
    decreases |parts|
  {
    if |parts| == 1 {
      SplitFreeSuffix("", parts[0], c);
      assert "" + parts[0] == parts[0];
    } else {
      var init, last := parts[..|parts| - 1], parts[|parts| - 1];
      assert forall p | p in init :: p in parts;
      JoinSplitRoundTrip(init, c, t);
      var j := JoinToString(init, [c] + t);
      var ps := SplitOn(j + [c], c);
      JoinLast(parts, [c] + t);
      assert JoinToString(parts, [c] + t) == (j + [c]) + (t + last);
      SplitAfterDelimiter(j, c);
      assert ps == Prefixed(init, t) + [""];
      assert c !in t + last;
      SplitFreeSuffix(j + [c], t + last, c);
      assert SplitOn(JoinToString(parts, [c] + t), c) == ps[..|ps| - 1] + [ps[|ps| - 1] + (t + last)];
      assert ps[..|ps| - 1] == Prefixed(init, t);
      assert ps[|ps| - 1] + (t + last) == t + last;
      PrefixedLast(parts, t);
    }
  }

  /** One `import X` line per definition whose keyword needs an import,
      in input order, duplicates kept (`mapNotNull`). */
  function ImportLines(definitions: seq<Definition>): seq<string>
    decreases |definitions|
  {
    if definitions == [] then []
    else
      var init, last := definitions[..|definitions| - 1], definitions[|definitions| - 1];
      ImportLines(init) +
      match last.keyword.importPath
      case Some(path) => ["import " + path]
      case None => []
  }

  /** The import block: the lines joined by newlines, plus a final newline. */
  function GenerateImports(definitions: seq<Definition>): (r: string)
    ensures |r| > 0 && r[|r| - 1] == '\n'
  {
    JoinToString(ImportLines(definitions), "\n") + "\n"
  }

  /** The import lines of a concatenation are those of its parts, in order:
      no line is dropped, reordered or de-duplicated. */
  lemma {:induction false} ImportLinesAppend(a: seq<Definition>, b: seq<Definition>)
    ensures ImportLines(a + b) == ImportLines(a) + ImportLines(b)
    decreases |b|
  {
    if b == [] {
      assert a + b == a;
    } else {
      var init := b[..|b| - 1];
      assert (a + b)[..|a + b| - 1] == a + init;
      assert (a + b)[|a + b| - 1] == b[|b| - 1];
      ImportLinesAppend(a, init);
    }
  }

  predicate NoNewlineInImports(definitions: seq<Definition>) {
    forall d | d in definitions && d.keyword.importPath.Some? :: '\n' !in d.keyword.importPath.value
  }

  lemma {:induction false} ImportLinesHaveNoNewline(definitions: seq<Definition>)
    requires NoNewlineInImports(definitions)
    ensures forall l | l in ImportLines(definitions) :: '\n' !in l
    decreases |definitions|
  {
    if definitions != [] {
      var init := definitions[..|definitions| - 1];
      assert forall d | d in init :: d in definitions;
      ImportLinesHaveNoNewline(init);
      assert '\n' !in "import ";
    }
  }

  /** Read back line by line, the import block is its import lines followed
      by an empty line; with no imports it is one empty line. */
  lemma ImportsLineByLine(definitions: seq<Definition>)
    requires NoNewlineInImports(definitions)
    ensures var lines := ImportLines(definitions);
            SplitOn(GenerateImports(definitions), '\n') == (if lines == [] then [""] else lines) + [""]
  {
    var lines := ImportLines(definitions);
    ImportLinesHaveNoNewline(definitions);
    if lines == [] {
      assert GenerateImports(definitions) == "" + ['\n'];
      SplitAfterDelimiter("", '\n');
    } else {
      var parts := lines + [""];
      assert parts[..|parts| - 1] == lines;
      JoinLast(parts, "\n");
      assert ['\n'] + "" == "\n";
      assert JoinToString(lines, "\n") + "\n" + "" == JoinToString(lines, "\n") + "\n";
      JoinSplitRoundTrip(parts, '\n', "");
      assert forall i | 0 <= i < |parts| :: Prefixed(parts, "")[i] == parts[i];
    }
  }

  /** What follows the class name in an included module's accessor. */
  const AccessorSuffix: string := "().module"

  /** The accessor of an included module: `<package>.<Class>().module`.
      A class name holds no `.`, so the accessor names the module it was
      built from: it parses back to that package and class. */
  function ModuleInclude(included: Include): (r: string)
    ensures '.' !in included.className ==> ParseModuleInclude(r) == Some(included)
  {
    AccessorParses(included.packageName, included.className);
    included.packageName + "." + included.className + AccessorSuffix
  }

  /** `s` cut at its last `c`: the text before it and the text after it,
      or `None` when `s` holds no `c`. */
  function SplitAtLast(s: string, c: char): (r: Option<(string, string)>)
    ensures r.None? <==> c !in s
    ensures r.Some? ==> s == r.value.0 + [c] + r.value.1 && c !in r.value.1
    decreases |s|
  {
    if s == [] then None
    else
      var init, last := s[..|s| - 1], s[|s| - 1];
      assert s == init + [last];
      if last == c then Some((init, ""))
      else
        match SplitAtLast(init, c)
        case None => None
        case Some(parts) =>
          assert s == parts.0 + [c] + (parts.1 + [last]);
          Some((parts.0, parts.1 + [last]))
  }

  /** Reading an accessor back: the package before its last `.`, the class
      after it. Whatever it accepts, `ModuleInclude` writes back unchanged. */
  function ParseModuleInclude(accessor: string): (r: Option<Include>)
    ensures r.Some? ==> '.' !in r.value.className
    ensures r.Some? ==> r.value.packageName + "." + r.value.className + AccessorSuffix == accessor
  {
    var n := |accessor| - |AccessorSuffix|;
    if n < 0 || accessor[n..] != AccessorSuffix then None
    else
      match SplitAtLast(accessor[..n], '.')
      case None => None
      case Some(parts) =>
        assert accessor == accessor[..n] + accessor[n..];
        Some(Include(parts.0, parts.1))
  }

  lemma {:induction false} SplitAtLastOf(p: string, c: char, q: string)
    requires c !in q
    ensures SplitAtLast(p + [c] + q, c) == Some((p, q))
    decreases |q|
  {
    var s := p + [c] + q;
    if q == [] {
      assert s[..|s| - 1] == p;
    } else {
      var init := q[..|q| - 1];
      assert s[..|s| - 1] == p + [c] + init;
      assert q == init + [q[|q| - 1]];
      SplitAtLastOf(p, c, init);
    }
  }

  lemma AccessorParses(packageName: string, className: string)
    ensures '.' !in className ==>
              ParseModuleInclude(packageName + "." + className + AccessorSuffix) == Some(Include(packageName, className))
  {
    if '.' !in className {
      var accessor := packageName + "." + className + AccessorSuffix;
      var n := |accessor| - |AccessorSuffix|;
      assert accessor[n..] == AccessorSuffix;
      assert accessor[..n] == packageName + ['.'] + className;
      SplitAtLastOf(packageName, '.', className);
    }
  }

  function ModuleIncludes(includes: seq<Include>): (r: seq<string>)
    ensures |r| == |includes|
    ensures forall i | 0 <= i < |includes| :: r[i] == ModuleInclude(includes[i])
  {
    seq(|includes|, i requires 0 <= i < |includes| => ModuleInclude(includes[i]))
  }

  /** The argument list of `includes(...)`, joined by Kotlin's default ", ". */
  function GenerateModuleIncludes(includes: seq<Include>): (r: string)
    ensures r == "" <==> includes == []
  {
    JoinToString(ModuleIncludes(includes), ", ")
  }

  predicate NoCommaInIncludes(includes: seq<Include>) {
    forall i | i in includes :: ',' !in i.packageName && ',' !in i.className
  }

  /** Read back at its commas, the argument list is the included modules'
      accessors in list order, each but the first after one space. */
  lemma IncludesEntryByEntry(includes: seq<Include>)
    requires |includes| > 0
    requires NoCommaInIncludes(includes)
    ensures SplitOn(GenerateModuleIncludes(includes), ',') == Prefixed(ModuleIncludes(includes), " ")
  {
    var entries := ModuleIncludes(includes);
    forall e | e in entries
      ensures ',' !in e
    {
      var k :| 0 <= k < |entries| && entries[k] == e;
      assert includes[k] in includes;
      assert ',' !in "." && ',' !in "().module";
    }
    assert ", " == [','] + " ";
    JoinSplitRoundTrip(entries, ',', " ");
  }
}
