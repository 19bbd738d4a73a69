/**
 * Module resolution and import collection for one source file. The file
 * system is a predicate `isFile` (a path names an existing regular file; a
 * failing stat is `false`), and URL resolution of a specifier against the
 * importing file is an abstract function `join`.
 */
module Resolve {
  import opened Options
  import opened Sets

  /** The recognised source extensions, in the order they are tried. */
  const Exts: seq<string> := [".ts", ".tsx", ".js", ".jsx"]

  /** base followed by each extension, in order. */
  function Suffixed(base: string, exts: seq<string>): (r: seq<string>)
    ensures |r| == |exts|
    ensures forall i :: 0 <= i < |r| ==> r[i] == base + exts[i]
  {
    seq(|exts|, i requires 0 <= i < |exts| => base + exts[i])
  }

  /**
   * The paths tried for a resolved base path: the path itself, then the
   * path with each extension, then `index` with each extension inside the
   * path taken as a directory.
   */
  function Candidates(base: string): (r: seq<string>)
    ensures |r| == 1 + 2 * |Exts|
    ensures r[0] == base
  {
    [base] + Suffixed(base, Exts) + Suffixed(base + "/index", Exts)
  }

  /** The positions of the candidates after the path: the extensions, then the index files. */
  lemma CandidatesAt(base: string)
    ensures forall m :: 0 <= m < |Exts| ==>
              Candidates(base)[1 + m] == base + Exts[m] &&
              Candidates(base)[1 + |Exts| + m] == base + "/index" + Exts[m]
  {
  }

  /** The first of cands that is a file, or None when none is. */
  function FirstFile(isFile: string -> bool, cands: seq<string>): (r: Option<string>)
    ensures r.None? <==> forall c :: c in cands ==> !isFile(c)
    ensures r.Some? ==> exists i :: 0 <= i < |cands| && cands[i] == r.value && isFile(cands[i]) &&
                                    forall j :: 0 <= j < i ==> !isFile(cands[j])
  {
    if |cands| == 0 then None
    else if isFile(cands[0]) then Some(cands[0])
    else
      var r := FirstFile(isFile, cands[1..]);
      assert forall c :: c in cands ==> c == cands[0] || c in cands[1..];
      if r.Some? then
        var i :| 0 <= i < |cands[1..]| && cands[1..][i] == r.value && isFile(cands[1..][i]) &&
                 forall j :: 0 <= j < i ==> !isFile(cands[1..][j]);
        assert cands[i + 1] == r.value && forall j :: 1 <= j < i + 1 ==> cands[j] == cands[1..][j - 1];
        r
      else
        r
  }

  /**
   * Tries the candidates for `spec` resolved against `baseFile` in order and
   * returns the first that is a file, or None when none is.
   */
  method ResolveModule(isFile: string -> bool, join: (string, string) -> string, baseFile: string, spec: string)
    returns (r: Option<string>)
    ensures r == FirstFile(isFile, Candidates(join(baseFile, spec)))
  {
    var candidates := Candidates(join(baseFile, spec));
    for i := 0 to |candidates|
      invariant FirstFile(isFile, candidates) == FirstFile(isFile, candidates[i..])
    {
      assert candidates[i..][1..] == candidates[i + 1..];
      if isFile(candidates[i]) {
        return Some(candidates[i]);
      }
    }
    return None;
  }

  /** When the resolved path is itself a file, it is the result. */
  lemma ExactPathFirst(isFile: string -> bool, base: string)
    requires isFile(base)
    ensures FirstFile(isFile, Candidates(base)) == Some(base)
  {
  }

  /**
   * When base with an extension is a file, the result is base itself or base
   * with one of the extensions up to that one; an index file is never chosen.
   */
  lemma DirectBeatsIndex(isFile: string -> bool, base: string, k: nat)
    requires k < |Exts| && isFile(base + Exts[k])
    ensures FirstFile(isFile, Candidates(base)).Some?
    ensures var c := FirstFile(isFile, Candidates(base)).value;
            c == base || exists j :: 0 <= j <= k && c == base + Exts[j]
  {
    CandidatesAt(base);
    var cands := Candidates(base);
    assert isFile(cands[1 + k]);
    var c := FirstFile(isFile, cands).value;
    var i :| 0 <= i < |cands| && cands[i] == c && isFile(cands[i]) &&
             forall j :: 0 <= j < i ==> !isFile(cands[j]);
    assert i <= 1 + k;
    if i > 0 {
      assert cands[1 + (i - 1)] == base + Exts[i - 1];
    }
  }

  /**
   * When neither the resolved path nor any of its extensions is a file but
   * base/index with an extension is, the result is one of those index files,
   * the earliest extension first.
   */
  lemma IndexFallback(isFile: string -> bool, base: string, k: nat)
    requires k < |Exts| && isFile(base + "/index" + Exts[k])
    requires !isFile(base) && forall m :: 0 <= m < |Exts| ==> !isFile(base + Exts[m])
    ensures FirstFile(isFile, Candidates(base)).Some?
    ensures var c := FirstFile(isFile, Candidates(base)).value;
            exists j :: 0 <= j <= k && c == base + "/index" + Exts[j]
  {
    CandidatesAt(base);
    var cands := Candidates(base);
    assert isFile(cands[1 + |Exts| + k]);
    var c := FirstFile(isFile, cands).value;
    var i :| 0 <= i < |cands| && cands[i] == c && isFile(cands[i]) &&
             forall j :: 0 <= j < i ==> !isFile(cands[j]);
    assert !isFile(cands[0]);
    forall m | 1 <= m <= |Exts|
      ensures !isFile(cands[m])
    {
      assert cands[1 + (m - 1)] == base + Exts[m - 1];
    }
    assert |Exts| < i <= 1 + |Exts| + k;
    assert cands[1 + |Exts| + (i - 1 - |Exts|)] == base + "/index" + Exts[i - 1 - |Exts|];
  }

  /** A relative specifier: one that starts with `.`. */
  predicate IsRelative(spec: string) {
    |spec| > 0 && spec[0] == '.'
  }

  /**
   * d is what the relative specifier `spec` in `file` resolves to; an empty
   * path is dropped like any other falsy resolution.
   */
  ghost predicate Resolves(isFile: string -> bool, join: (string, string) -> string,
                           file: string, spec: string, d: string)
  {
    IsRelative(spec) && FirstFile(isFile, Candidates(join(file, spec))) == Some(d) && d != ""
  }

  /**
   * The dependency list of a file, given the module specifiers captured from
   * its import and require forms in the order they are matched: the
   * resolutions of its relative specifiers, without duplicates, each an
   * existing file.
   */
  method ParseImports(isFile: string -> bool, join: (string, string) -> string,
                      file: string, specs: seq<string>)
    returns (deps: seq<string>)
    ensures NoDup(deps)
    ensures forall d :: d in deps <==> exists s :: s in specs && Resolves(isFile, join, file, s, d)
    ensures forall d :: d in deps ==> isFile(d) && d != ""
  {
    deps := [];
    for i := 0 to |specs|
      invariant NoDup(deps)
      invariant forall d :: d in deps <==> exists s :: s in specs[..i] && Resolves(isFile, join, file, s, d)
    {
      assert specs[..i + 1] == specs[..i] + [specs[i]];
      ghost var before := deps;
      if IsRelative(specs[i]) {
        var resolved := ResolveModule(isFile, join, file, specs[i]);
        if resolved.Some? && resolved.value != "" {
          deps := Add(deps, resolved.value);
        }
        assert forall d :: Resolves(isFile, join, file, specs[i], d) <==> resolved == Some(d) && d != "";
      }
      assert forall d :: d in deps <==> d in before || Resolves(isFile, join, file, specs[i], d);
    }
    assert specs[..|specs|] == specs;
    forall d | d in deps
      ensures isFile(d)
    {
      var s :| s in specs && Resolves(isFile, join, file, s, d);
    }
  }
}
