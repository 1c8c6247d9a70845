/**
 * Which directory entries the reader opens: the file name's extension, as
 * std::filesystem::path::extension() defines it, must be ".csv" ignoring
 * ASCII case, and the name must contain one of the masks (any name passes an
 * empty mask list).
 */
module FileFilter {
  import opened Wrappers

  /**
   * `::tolower` in the "C" locale: no upper-case letter is left, letters stay
   * letters, and nothing but an upper-case letter changes.
   */
  function ToLowerChar(c: char): (r: char)
    ensures !('A' <= r <= 'Z')
    ensures ('a' <= r <= 'z') <==> ('a' <= c <= 'z' || 'A' <= c <= 'Z')
    ensures r != c ==> 'A' <= c <= 'Z'
  {
    if 'A' <= c <= 'Z' then (c as int + 32) as char else c
  }

  /** `std::transform(..., ::tolower)` over a whole string. */
  function ToLower(s: string): (r: string)
    ensures |r| == |s|
    ensures forall k :: 0 <= k < |s| ==> r[k] == ToLowerChar(s[k])
  {
    if s == [] then [] else [ToLowerChar(s[0])] + ToLower(s[1..])
  }

  /** Lower-casing twice is lower-casing once. */
  lemma {:induction false} ToLowerIdempotent(s: string)
    ensures ToLower(ToLower(s)) == ToLower(s)
  {
    var once := ToLower(s);
    forall k | 0 <= k < |s|
      ensures ToLower(once)[k] == once[k]
    {
      assert ToLowerChar(once[k]) == once[k];
    }
  }

  /** Index of the last `c` in `s`. */
  function LastIndexOf(s: string, c: char): (r: Option<nat>)
    ensures r.Some? ==> r.value < |s| && s[r.value] == c
    ensures r.Some? ==> forall k :: r.value < k < |s| ==> s[k] != c
    ensures r.None? ==> forall k :: 0 <= k < |s| ==> s[k] != c
  {
    if s == [] then None
    else if s[|s| - 1] == c then Some(|s| - 1)
    else LastIndexOf(s[..|s| - 1], c)
  }

  /**
   * `path::extension()` of a file name: from the rightmost '.' to the end,
   * except that "." and "..", names without a '.', and a name whose only
   * leading '.' marks a hidden file have no extension.
   */
  function Extension(fname: string): (ext: string)
    ensures ext == [] || (ext[0] == '.' && |ext| < |fname| && ext == fname[|fname| - |ext|..])
    ensures ext != [] ==> '.' !in ext[1..]
  {
    if fname == "." || fname == ".." then ""
    else
      match LastIndexOf(fname, '.')
      case None => ""
      case Some(i) =>
        if i == 0 then ""
        else
          assert forall j :: 0 <= j < |fname[i..][1..]| ==> fname[i..][1..][j] == fname[i + 1 + j];
          fname[i..]
  }

  /** The extension test: a non-empty extension whose lower-case form is ".csv". */
  predicate IsCsvFile(fname: string)
  {
    var ext := Extension(fname);
    |ext| != 0 && ToLower(ext) == ".csv"
  }

  /** A name is a CSV file exactly when it has at least one character before a ".csv" suffix in any case. */
  lemma CsvFileIff(fname: string)
    ensures IsCsvFile(fname) <==> |fname| >= 5 && ToLower(fname[|fname| - 4..]) == ".csv"
  {
    var n := |fname|;
    if n >= 5 && ToLower(fname[n - 4..]) == ".csv" {
      var suffix := fname[n - 4..];
      assert suffix[0] == '.' by {
        assert ToLowerChar(suffix[0]) == '.';
      }
      forall k | n - 4 < k < n
        ensures fname[k] != '.'
      {
        assert ToLowerChar(suffix[k - (n - 4)]) != '.';
      }
      assert LastIndexOf(fname, '.') == Some(n - 4);
      assert Extension(fname) == suffix;
    }
    if IsCsvFile(fname) {
      assert |Extension(fname)| == 4;
    }
  }

  /** Position `k` of `s` starts an occurrence of `pat`. */
  predicate OccursAt(s: string, pat: string, k: nat)
  {
    k + |pat| <= |s| && s[k..k + |pat|] == pat
  }

  /** `std::string::find`: the first position where `pat` occurs, or npos (None). */
  function Find(s: string, pat: string): (r: Option<nat>)
    ensures r.Some? ==> OccursAt(s, pat, r.value)
    ensures r.Some? ==> forall k :: 0 <= k < r.value ==> !OccursAt(s, pat, k)
    ensures r.None? ==> forall k :: 0 <= k ==> !OccursAt(s, pat, k)
    decreases |s|
  {
    if |pat| > |s| then None
    else if s[..|pat|] == pat then Some(0)
    else
      match Find(s[1..], pat)
      case None =>
        OccursInTail(s, pat);
        None
      case Some(i) =>
        OccursInTail(s, pat);
        Some(i + 1)
  }

  /** An occurrence after position 0 is an occurrence in the tail, one position earlier. */
  lemma OccursInTail(s: string, pat: string)
    requires |s| > 0
    ensures forall k :: 1 <= k ==> (OccursAt(s, pat, k) <==> OccursAt(s[1..], pat, k - 1))
  {
    forall k | 1 <= k
      ensures OccursAt(s, pat, k) <==> OccursAt(s[1..], pat, k - 1)
    {
      if k + |pat| <= |s| {
        var here, there := s[k..k + |pat|], s[1..][k - 1..k - 1 + |pat|];
        forall j | 0 <= j < |pat|
          ensures here[j] == there[j]
        {
        }
        assert here == there;
      }
    }
  }

  /** The mask filter: an empty list accepts everything, else some mask must occur in the name. */
  predicate MatchesMask(fname: string, masks: seq<string>)
  {
    |masks| == 0 || exists m :: m in masks && Find(fname, m).Some?
  }

  /** The mask loop of the reader: stop at the first mask found in the name. */
  method PassesMasks(fname: string, masks: seq<string>) returns (pass: bool)
    ensures pass == MatchesMask(fname, masks)
  {
    pass := |masks| == 0;
    var i := 0;
    while i < |masks|
      invariant 0 <= i <= |masks|
      invariant pass == (|masks| == 0)
      invariant forall j :: 0 <= j < i ==> Find(fname, masks[j]).None?
    {
      if Find(fname, masks[i]).Some? {
        pass := true;
        break;
      }
      i := i + 1;
    }
  }

  /** `find` reports a match exactly when the mask occurs somewhere in the name. */
  lemma FindIffOccurs(s: string, pat: string)
    ensures Find(s, pat).Some? <==> exists k :: OccursAt(s, pat, k)
  {
    if Find(s, pat).Some? {
      assert OccursAt(s, pat, Find(s, pat).value);
    }
  }

  /** The empty mask occurs at position 0 of every name, so it accepts every name. */
  lemma EmptyMaskMatches(fname: string, masks: seq<string>)
    requires "" in masks
    ensures MatchesMask(fname, masks)
  {
    assert OccursAt(fname, "", 0);
    FindIffOccurs(fname, "");
  }
}
