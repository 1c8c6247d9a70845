/**
 * `split_line`: tokenizing a line on a separator with the semantics of
 * repeated `std::getline(stream, token, sep)`. Each call succeeds while
 * characters remain, extracting up to (and consuming, but not storing) the
 * next separator; so a trailing separator yields no trailing empty token and
 * an empty line yields no tokens. The same function describes how a file is
 * cut into lines with separator '\n'.
 */
module LineSplitter {

  /** Index of the first `c` in `s`, or |s| when there is none. */
  function IndexOf(s: string, c: char): (i: nat)
    ensures i <= |s|
    ensures forall k :: 0 <= k < i ==> s[k] != c
    ensures i < |s| ==> s[i] == c
  {
    if s == [] || s[0] == c then 0 else 1 + IndexOf(s[1..], c)
  }

  /** The tokens successive getline calls extract from `line`. */
  function Split(line: string, sep: char): (tokens: seq<string>)
    ensures tokens == [] <==> line == []
    decreases |line|
  {
    if line == [] then []
    else
      var i := IndexOf(line, sep);
      if i == |line| then [line] else [line[..i]] + Split(line[i + 1..], sep)
  }

  /** Tokens glued back together with one separator between neighbours. */
  function Join(tokens: seq<string>, sep: char): (line: string)
  {
    if tokens == [] then []
    else if |tokens| == 1 then tokens[0]
    else tokens[0] + [sep] + Join(tokens[1..], sep)
  }

  /** `line` without its last character when that character is `sep`. */
  function DropTrailing(line: string, sep: char): string
  {
    if line != [] && line[|line| - 1] == sep then line[..|line| - 1] else line
  }

  /** The getline loop: each iteration extracts one token and consumes its separator. */
  method SplitLine(line: string, sep: char) returns (tokens: seq<string>)
    ensures tokens == Split(line, sep)
  {
    tokens := [];
    var pos := 0;
    while pos < |line|
      invariant 0 <= pos <= |line|
      invariant tokens + Split(line[pos..], sep) == Split(line, sep)
    {
      var end := pos;
      while end < |line| && line[end] != sep
        invariant pos <= end <= |line|
        invariant forall k :: pos <= k < end ==> line[k] != sep
      {
        end := end + 1;
      }
      SplitFrom(line, sep, pos, end);
      tokens := tokens + [line[pos..end]];
      pos := if end < |line| then end + 1 else end;
    }
    assert line[pos..] == [];
  }

  /** One getline call: the token starting at `pos` ends at the next separator `end`. */
  lemma SplitFrom(line: string, sep: char, pos: nat, end: nat)
    requires pos < |line| && pos <= end <= |line|
    requires forall k :: pos <= k < end ==> line[k] != sep
    requires end == |line| || line[end] == sep
    ensures end < |line| ==> Split(line[pos..], sep) == [line[pos..end]] + Split(line[end + 1..], sep)
    ensures end == |line| ==> Split(line[pos..], sep) == [line[pos..end]]
  {
    var rest := line[pos..];
    var i := IndexOf(rest, sep);
    assert forall k :: 0 <= k < end - pos ==> rest[k] != sep;
    assert i == end - pos;
    assert rest[..i] == line[pos..end];
    if end < |line| {
      assert rest[i + 1..] == line[end + 1..];
      assert Split(rest, sep) == [rest[..i]] + Split(rest[i + 1..], sep);
    } else {
      assert i == |rest| && rest == line[pos..end];
      assert Split(rest, sep) == [rest];
    }
  }

  /** No token contains the separator. */
  lemma {:induction false} SplitHasNoSeparator(line: string, sep: char)
    ensures forall t :: t in Split(line, sep) ==> sep !in t
    decreases |line|
  {
    if line != [] {
      var i := IndexOf(line, sep);
      if i < |line| {
        SplitHasNoSeparator(line[i + 1..], sep);
        assert sep !in line[..i];
      }
    }
  }

  /** Joining the tokens gives the line back, minus one trailing separator. */
  lemma {:induction false} JoinSplit(line: string, sep: char)
    ensures Join(Split(line, sep), sep) == DropTrailing(line, sep)
    decreases |line|
  {
    if line != [] {
      var i := IndexOf(line, sep);
      if i < |line| {
        var rest := line[i + 1..];
        assert line == line[..i] + [sep] + rest;
        JoinSplit(rest, sep);
        if rest != [] {
          var tail := Split(rest, sep);
          assert Split(line, sep) == [line[..i]] + tail;
          assert DropTrailing(line, sep) == line[..i] + [sep] + DropTrailing(rest, sep);
        }
      }
    }
  }

  lemma IndexOfAfterToken(t: string, sep: char, rest: string)
    requires sep !in t
    ensures IndexOf(t + [sep] + rest, sep) == |t|
  {
    var s := t + [sep] + rest;
    assert forall k :: 0 <= k < |t| ==> s[k] != sep by {
      forall k | 0 <= k < |t|
        ensures s[k] != sep
      {
        assert s[k] == t[k] && t[k] in t;
      }
    }
    assert s[|t|] == sep;
  }

  lemma {:induction false} JoinNonEmpty(tokens: seq<string>, sep: char)
    requires tokens != [] && tokens[|tokens| - 1] != []
    ensures Join(tokens, sep) != []
    decreases |tokens|
  {
  }

  /**
   * The converse: tokens free of the separator, whose last token is not
   * empty, are recovered exactly by splitting their join.
   */
  lemma {:induction false} SplitJoin(tokens: seq<string>, sep: char)
    requires forall t :: t in tokens ==> sep !in t
    requires tokens == [] || tokens[|tokens| - 1] != []
    ensures Split(Join(tokens, sep), sep) == tokens
    decreases |tokens|
  {
    if |tokens| == 1 {
      var t := tokens[0];
      assert sep !in t;
      assert forall k :: 0 <= k < |t| ==> t[k] != sep by {
        forall k | 0 <= k < |t|
          ensures t[k] != sep
        {
          assert t[k] in t;
        }
      }
    } else if |tokens| > 1 {
      var t, rest := tokens[0], tokens[1..];
      assert tokens[|tokens| - 1] == rest[|rest| - 1];
      JoinNonEmpty(rest, sep);
      var line := t + [sep] + Join(rest, sep);
      assert sep !in t;
      IndexOfAfterToken(t, sep, Join(rest, sep));
      assert line[..|t|] == t;
      assert line[|t| + 1..] == Join(rest, sep);
      SplitJoin(rest, sep);
    }
  }
}
