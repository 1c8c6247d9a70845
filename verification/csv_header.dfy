/**
 * Locating the required columns in the header row: each header field is
 * trimmed of spaces, tabs, CR and LF at both ends and compared with the
 * column name; when a name repeats, the last matching field wins; -1 means
 * the column is missing.
 */
module CsvHeader {

  /** The characters the header trimming removes: " \t\r\n". */
  predicate IsBlank(c: char)
  {
    c == ' ' || c == '\t' || c == '\r' || c == '\n'
  }

  predicate AllBlank(s: string)
  {
    forall k :: 0 <= k < |s| ==> IsBlank(s[k])
  }

  /** `find_first_not_of(" \t\r\n")`, with npos written as |s|. */
  function FirstNotBlank(s: string): (i: nat)
    ensures i <= |s| && AllBlank(s[..i])
    ensures i < |s| ==> !IsBlank(s[i])
  {
    if s == [] || !IsBlank(s[0]) then 0
    else
      var i := 1 + FirstNotBlank(s[1..]);
      assert forall k :: 1 <= k < i ==> s[..i][k] == s[1..][..i - 1][k - 1];
      i
  }

  /**
   * `find_last_not_of(" \t\r\n") + 1`: one past the last non-blank character;
   * when there is none, npos + 1 wraps around to 0.
   */
  function EndOfNonBlank(s: string): (n: nat)
    ensures n <= |s| && AllBlank(s[n..])
    ensures n > 0 ==> !IsBlank(s[n - 1])
  {
    if s == [] || !IsBlank(s[|s| - 1]) then |s|
    else
      var n := EndOfNonBlank(s[..|s| - 1]);
      assert forall k :: 0 <= k < |s| - 1 - n ==> s[n..][k] == s[..|s| - 1][n..][k];
      n
  }

  /** `c.erase(0, c.find_first_not_of(...)); c.erase(c.find_last_not_of(...) + 1);` */
  function Trim(s: string): (r: string)
    ensures r == [] || (!IsBlank(r[0]) && !IsBlank(r[|r| - 1]))
    ensures |r| <= |s|
  {
    var left := s[FirstNotBlank(s)..];
    left[..EndOfNonBlank(left)]
  }

  /** Trimming removes exactly the blank padding around a field and nothing else. */
  lemma TrimStripsPadding(pre: string, core: string, post: string)
    requires AllBlank(pre) && AllBlank(post)
    requires core == [] || (!IsBlank(core[0]) && !IsBlank(core[|core| - 1]))
    ensures Trim(pre + core + post) == core
  {
    var s := pre + core + post;
    var i := FirstNotBlank(s);
    if core == [] {
      assert AllBlank(s) by {
        forall k | 0 <= k < |s|
          ensures IsBlank(s[k])
        {
          if k < |pre| {
            assert s[k] == pre[k];
          } else {
            assert s[k] == post[k - |pre|];
          }
        }
      }
      assert i == |s|;
    } else {
      assert s[|pre|] == core[0];
      assert forall k :: 0 <= k < |pre| ==> s[k] == pre[k];
      assert forall k :: 0 <= k < i ==> s[..i][k] == s[k];
      assert i == |pre|;
      var left := s[i..];
      assert left == core + post;
      var n := EndOfNonBlank(left);
      assert left[|core| - 1] == core[|core| - 1];
      assert forall k :: n <= k < |left| ==> left[n..][k - n] == left[k];
      assert forall k :: |core| <= k < |left| ==> left[k] == post[k - |core|];
      assert n == |core|;
      assert left[..n] == core;
    }
  }

  /** Index of the last field whose trimmed text is `name`, or -1 when there is none. */
  function LastColumn(cols: seq<string>, name: string): (r: int)
    ensures -1 <= r < |cols|
    ensures r >= 0 ==> Trim(cols[r]) == name
    ensures forall j :: r < j < |cols| ==> Trim(cols[j]) != name
  {
    if cols == [] then -1
    else if Trim(cols[|cols| - 1]) == name then |cols| - 1
    else LastColumn(cols[..|cols| - 1], name)
  }

  /** The header loop: every match overwrites the index found so far. */
  method FindColumns(cols: seq<string>) returns (idxReceive: int, idxPrice: int)
    ensures idxReceive == LastColumn(cols, "receive_ts")
    ensures idxPrice == LastColumn(cols, "price")
  {
    idxReceive, idxPrice := -1, -1;
    var i := 0;
    while i < |cols|
      invariant 0 <= i <= |cols|
      invariant idxReceive == LastColumn(cols[..i], "receive_ts")
      invariant idxPrice == LastColumn(cols[..i], "price")
    {
      var c := Trim(cols[i]);
      assert cols[..i + 1][..i] == cols[..i];
      if c == "receive_ts" {
        idxReceive := i;
      }
      if c == "price" {
        idxPrice := i;
      }
      i := i + 1;
    }
    assert cols[..i] == cols;
  }
}
