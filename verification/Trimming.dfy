/** The string normaliser (trim_string and strip_string in srcs/internal/srcs/utils.cpp). */
module Trimming {
  import opened Common

  predicate IsPunct(c: char) {
    c == ';' || c == '{' || c == '}'
  }

  /** The normalised form of `s`.  `open`: the last character kept is not a space; `after`: the last
      character read is one of `;`, `{`, `}`, so a space here is a line end. */
  function TrimFrom(s: string, open: bool, after: bool): string {
    if s == "" then ""
    else
      var c := if after && s[0] == ' ' then '\n' else s[0];
      if c == ' ' then (if open then " " else "") + TrimFrom(s[1..], false, false)
      else [c] + TrimFrom(s[1..], true, IsPunct(c))
  }

  function Trim(s: string): string {
    TrimFrom(s, false, false)
  }

  // ---------------------------------------------------------------------------------------------
  // What normalising achieves
  // ---------------------------------------------------------------------------------------------

  /** The characters that are not a space and not a line end. */
  function Marks(s: string): string {
    if s == "" then ""
    else (if s[0] == ' ' || s[0] == '\n' then "" else [s[0]]) + Marks(s[1..])
  }

  /** No leading space, no two spaces in a row, no space right after `;`, `{` or `}`. */
  predicate Clean(s: string) {
    && (s != "" ==> s[0] != ' ')
    && (forall i :: 0 < i < |s| && s[i] == ' ' ==> s[i - 1] != ' ' && !IsPunct(s[i - 1]))
  }

  lemma {:induction false} MarksAdd(a: string, b: string)
    ensures Marks(a + b) == Marks(a) + Marks(b)
  {
    if a == "" {
      assert a + b == b;
    } else {
      MarksAdd(a[1..], b);
      assert (a + b)[0] == a[0] && (a + b)[1..] == a[1..] + b;
      Regroup(if a[0] == ' ' || a[0] == '\n' then "" else [a[0]], Marks(a[1..]), Marks(b));
    }
  }

  lemma MarksSpaced(a: string)
    ensures Marks(a + " ") == Marks(a)
  {
    MarksAdd(a, " ");
    assert Marks(" ") == "" + Marks("");
  }

  lemma MarksAdd5(a: string, b: string, c: string, d: string, e: string)
    ensures Marks(a + b + c + d + e) == Marks(a) + Marks(b) + Marks(c) + Marks(d) + Marks(e)
  {
    MarksAdd(a, b);
    MarksAdd(a + b, c);
    MarksAdd(a + b + c, d);
    MarksAdd(a + b + c + d, e);
  }

  /** Every character other than space and line end is kept, in order. */
  lemma {:induction false} TrimKeepsMarks(s: string, open: bool, after: bool)
    ensures Marks(TrimFrom(s, open, after)) == Marks(s)
  {
    if s != "" {
      var c := if after && s[0] == ' ' then '\n' else s[0];
      if c == ' ' {
        TrimKeepsMarks(s[1..], false, false);
        MarksAdd(if open then " " else "", TrimFrom(s[1..], false, false));
      } else {
        TrimKeepsMarks(s[1..], true, IsPunct(c));
        MarksAdd([c], TrimFrom(s[1..], true, IsPunct(c)));
        assert Marks([c]) == (if c == '\n' then "" else [c]) + Marks("");
      }
    }
  }

  /** A text that is clean as the continuation of a text ending as `open` and `after` say. */
  predicate CleanAfter(s: string, open: bool, after: bool) {
    && (s != "" && s[0] == ' ' ==> open && !after)
    && (forall i :: 0 < i < |s| && s[i] == ' ' ==> s[i - 1] != ' ' && !IsPunct(s[i - 1]))
  }

  lemma CleanAfterCons(c: char, s: string, open: bool, after: bool)
    requires c == ' ' ==> open && !after
    requires CleanAfter(s, c != ' ', IsPunct(c))
    ensures CleanAfter([c] + s, open, after)
  {
    var t := [c] + s;
    forall i | 0 < i < |t| && t[i] == ' '
      ensures t[i - 1] != ' ' && !IsPunct(t[i - 1])
    {
      assert t[i] == s[i - 1];
      if i > 1 {
        assert t[i - 1] == s[i - 2];
      }
    }
  }

  lemma {:induction false} TrimIsCleanAfter(s: string, open: bool, after: bool)
    requires after ==> open
    ensures CleanAfter(TrimFrom(s, open, after), open, after)
  {
    if s != "" {
      var c := if after && s[0] == ' ' then '\n' else s[0];
      if c == ' ' {
        TrimIsCleanAfter(s[1..], false, false);
        var rest := TrimFrom(s[1..], false, false);
        if open {
          CleanAfterCons(' ', rest, open, after);
        } else {
          assert "" + rest == rest;
        }
      } else {
        TrimIsCleanAfter(s[1..], true, IsPunct(c));
        CleanAfterCons(c, TrimFrom(s[1..], true, IsPunct(c)), open, after);
      }
    }
  }

  lemma {:induction false} TrimOfClean(s: string, open: bool, after: bool)
    requires CleanAfter(s, open, after)
    ensures TrimFrom(s, open, after) == s
  {
    if s != "" {
      var c, rest := s[0], s[1..];
      forall i | 0 < i < |rest| && rest[i] == ' '
        ensures rest[i - 1] != ' ' && !IsPunct(rest[i - 1])
      {
        assert rest[i] == s[i + 1] && rest[i - 1] == s[i];
      }
      if rest != "" && rest[0] == ' ' {
        assert s[1] == ' ';
      }
      TrimOfClean(rest, c != ' ', IsPunct(c));
      assert s == [c] + rest;
    }
  }

  /** The result of normalising is clean, exactly the clean texts are left as they are, and so
      normalising twice changes nothing more. */
  lemma TrimExact(s: string)
    ensures Clean(Trim(s))
    ensures Trim(s) == s <==> Clean(s)
    ensures Trim(Trim(s)) == Trim(s)
  {
    TrimIsCleanAfter(s, false, false);
    TrimOfClean(Trim(s), false, false);
    if Clean(s) {
      TrimOfClean(s, false, false);
    }
  }

  // ---------------------------------------------------------------------------------------------
  // Position by position
  // ---------------------------------------------------------------------------------------------

  /** The character at `i`: a space right after `;`, `{` or `}` becomes a line end. */
  function Written(s: string, i: nat): char
    requires i < |s|
  {
    if s[i] == ' ' && i > 0 && s[i - 1] in ";{}" then '\n' else s[i]
  }

  /** A space stays unless it comes first or after another space. */
  predicate Stays(s: string, i: nat)
    requires i < |s|
  {
    Written(s, i) == ' ' ==> i > 0 && Written(s, i - 1) != ' '
  }

  /** The characters that stay among the first `n`. */
  function Staying(s: string, n: nat): string
    requires n <= |s|
  {
    if n == 0 then "" else Staying(s, n - 1) + (if Stays(s, n - 1) then [Written(s, n - 1)] else "")
  }

  /** What the normaliser knows at `i`: whether the last character was no space, and whether it was one of `;`, `{`
      and `}`. */
  predicate OpenAt(s: string, i: nat)
    requires i <= |s|
  {
    i > 0 && Written(s, i - 1) != ' '
  }

  predicate AfterAt(s: string, i: nat)
    requires i <= |s|
  {
    i > 0 && IsPunct(s[i - 1])
  }

  lemma {:induction false} TrimFromPosition(s: string, i: nat)
    requires i <= |s|
    ensures Staying(s, i) + TrimFrom(s[i..], OpenAt(s, i), AfterAt(s, i)) == Staying(s, |s|)
    decreases |s| - i
  {
    if i < |s| {
      var c, rest := Written(s, i), TrimFrom(s[i + 1..], OpenAt(s, i + 1), AfterAt(s, i + 1));
      var kept := if Stays(s, i) then [c] else "";
      assert s[i..][0] == s[i] && s[i..][1..] == s[i + 1..];
      assert c == if AfterAt(s, i) && s[i] == ' ' then '\n' else s[i];
      assert TrimFrom(s[i..], OpenAt(s, i), AfterAt(s, i)) == kept + rest;
      Regroup(Staying(s, i), kept, rest);
      TrimFromPosition(s, i + 1);
    }
  }

  /** Normalising keeps exactly the characters that stay, where a space right after `;`, `{` or `}` is a line end. */
  lemma TrimIsStaying(s: string)
    ensures Trim(s) == Staying(s, |s|)
  {
    hide TrimFrom, Written, IsPunct;
    TrimFromPosition(s, 0);
    assert s[0..] == s && Staying(s, 0) == "" && !OpenAt(s, 0) && !AfterAt(s, 0);
    NothingBefore(TrimFrom(s, false, false));
  }

  lemma NothingBefore(s: string)
    ensures "" + s == s
  {
  }

  // ---------------------------------------------------------------------------------------------
  // Runs
  // ---------------------------------------------------------------------------------------------

  predicate IsGap(c: char) {
    c == ' ' || c == '\n'
  }

  /** The maximal runs of characters that are no spaces and no line ends. */
  function Runs(s: string): (r: seq<string>)
    ensures s != "" && !IsGap(s[0]) ==> r != []
  {
    if s == "" then []
    else if IsGap(s[0]) then Runs(s[1..])
    else
      var r := Runs(s[1..]);
      if |s| > 1 && !IsGap(s[1]) then [[s[0]] + r[0]] + r[1..] else [[s[0]]] + r
  }

  /** A gap separates. */
  lemma {:induction false} RunsAdd(a: string, b: string)
    requires a == "" || b == "" || IsGap(a[|a| - 1]) || IsGap(b[0])
    ensures Runs(a + b) == Runs(a) + Runs(b)
  {
    if a == "" {
      assert a + b == b;
    } else if b == "" {
      assert a + b == a;
    } else {
      RunsAdd(a[1..], b);
      assert (a + b)[0] == a[0] && (a + b)[1..] == a[1..] + b;
      if |a| > 1 {
        assert (a + b)[1] == a[1];
      }
    }
  }

  /** A text without gaps is one run. */
  lemma {:induction false} RunsOfOne(s: string)
    requires s != "" && forall i :: 0 <= i < |s| ==> !IsGap(s[i])
    ensures Runs(s) == [s]
  {
    if |s| > 1 {
      RunsOfOne(s[1..]);
      assert [s[0]] + s[1..] == s;
    } else {
      assert [s[0]] == s;
    }
  }

  lemma RunsSpaced(a: string)
    ensures Runs(a + " ") == Runs(a)
  {
    RunsAdd(a, " ");
    assert " "[1..] == "";
  }

  /** What follows a kept character begins with a gap exactly if it did so before. */
  lemma TrimFromStarts(s: string, after: bool)
    ensures var r := TrimFrom(s, true, after);
      (r == "" <==> s == "") && (s != "" ==> (IsGap(r[0]) <==> IsGap(s[0])))
  {
  }

  /** Normalising neither joins nor splits runs. */
  lemma {:induction false} TrimKeepsRuns(s: string, open: bool, after: bool)
    ensures Runs(TrimFrom(s, open, after)) == Runs(s)
  {
    if s != "" {
      var c := if after && s[0] == ' ' then '\n' else s[0];
      var rest := TrimFrom(s[1..], c != ' ', IsPunct(c));
      TrimKeepsRuns(s[1..], c != ' ', IsPunct(c));
      if c == ' ' {
        assert "" + rest == rest && (" " + rest)[1..] == rest;
      } else {
        TrimFromStarts(s[1..], IsPunct(c));
        assert ([c] + rest)[1..] == rest;
        assert |s| > 1 ==> s[1] == s[1..][0] && ([c] + rest)[1] == rest[0];
      }
    }
  }

  // ---------------------------------------------------------------------------------------------
  // trim_string
  // ---------------------------------------------------------------------------------------------

  /** A pending line end may be written into the next character before it is read. */
  lemma TrimLookahead(s: string, after: bool)
    ensures TrimFrom(s, true, after)
      == TrimFrom(if after && s != "" && s[0] == ' ' then s[0 := '\n'] else s, true, false)
  {
    if after && s != "" && s[0] == ' ' {
      assert s[0 := '\n'][1..] == s[1..];
    }
  }

  /** The first statement of the loop body: a space after `;`, `{` or `}` becomes a line end before it
      is read. */
  method LookAhead(res: array<char>, i: nat)
    requires i < res.Length
    modifies res
    ensures res[..i + 1] == old(res[..i + 1])
    ensures !IsPunct(res[i]) ==> res[i + 1..] == old(res[i + 1..])
    ensures TrimFrom(res[i + 1..], true, false) == TrimFrom(old(res[i + 1..]), true, IsPunct(res[i]))
  {
    ghost var tail := res[i + 1..];
    if IsPunct(res[i]) && i != res.Length - 1 {
      if res[i + 1] == ' ' {
        res[i + 1] := '\n';
      }
    }
    assert res[i + 1..] == if IsPunct(res[i]) && tail != "" && tail[0] == ' ' then tail[0 := '\n'] else tail;
    TrimLookahead(tail, IsPunct(res[i]));
  }

  /** `res[idx++] = c`, behind or at the read index. */
  method Keep(res: array<char>, idx: nat, i: nat, c: char)
    requires idx <= i < res.Length
    modifies res
    ensures res[..idx + 1] == old(res[..idx]) + [c]
    ensures res[i + 1..] == old(res[i + 1..])
  {
    res[idx] := c;
  }

  /** The loop normalises in place; the write index never passes the read index.  The string is then cut to
      `count` characters. */
  method TrimString(res: array<char>) returns (count: nat)
    modifies res
    ensures count <= res.Length
    ensures res[..count] == Trim(old(res[..])) == Staying(old(res[..]), res.Length)
    ensures Runs(res[..count]) == Runs(old(res[..]))
  {
    var idx := 0;
    var openSpace := false;
    count := 0;
    assert res[0..] == res[..];
    for i := 0 to res.Length
      invariant count == idx <= i
      invariant res[..idx] + TrimFrom(res[i..], openSpace, false) == Trim(old(res[..]))
    {
      idx, openSpace := TrimNext(res, i, idx, openSpace, Trim(old(res[..])));
      count := idx;
    }
    assert res[res.Length..] == "";
    TrimIsStaying(old(res[..]));
    TrimKeepsRuns(old(res[..]), false, false);
  }

  /** The body of the loop. */
  method TrimNext(res: array<char>, i: nat, idx: nat, openSpace: bool, ghost goal: string)
    returns (idx': nat, openSpace': bool)
    requires idx <= i < res.Length && res[..idx] + TrimFrom(res[i..], openSpace, false) == goal
    modifies res
    ensures idx' <= i + 1 && res[..idx'] + TrimFrom(res[i + 1..], openSpace', false) == goal
  {
    idx', openSpace' := idx, openSpace;
    var c := res[i];
    assert res[i..] == [c] + res[i + 1..];
    ghost var kept, tail := res[..idx], res[i + 1..];
    LookAhead(res, i);
    assert res[i] == res[..i + 1][i] == c;
    assert res[..idx] == res[..i + 1][..idx] == kept;
    if c == ' ' {
      if openSpace {
        openSpace' := false;
        Keep(res, idx, i, c);
        idx' := idx + 1;
        Regroup(kept, [c], TrimFrom(tail, false, false));
      }
    } else {
      Regroup(kept, [c], TrimFrom(tail, true, IsPunct(c)));
      openSpace' := true;
      Keep(res, idx, i, c);
      idx' := idx + 1;
    }
  }

  // ---------------------------------------------------------------------------------------------
  // strip_string
  // ---------------------------------------------------------------------------------------------

  predicate IsBlank(c: char) {
    c == ' ' || c == '\n' || c == '\t'
  }

  function Strip(s: string): string {
    if s != "" && IsBlank(s[|s| - 1]) then Strip(s[..|s| - 1]) else s
  }

  lemma {:induction false} StripCuts(s: string, k: nat)
    requires k <= |s| && forall i :: k <= i < |s| ==> IsBlank(s[i])
    requires k > 0 ==> !IsBlank(s[k - 1])
    ensures Strip(s) == s[..k]
  {
    if k < |s| {
      StripCuts(s[..|s| - 1], k);
      assert s[..|s| - 1][..k] == s[..k];
    } else {
      assert s[..k] == s;
    }
  }

  /** The trailing blanks are cut off, and nothing else. */
  method StripString(res: string) returns (r: string)
    ensures r == Strip(res) && r <= res
    ensures r != "" ==> r[|r| - 1] !in " \n\t"
    ensures forall i :: |r| <= i < |res| ==> res[i] in " \n\t"
  {
    var idx := |res| - 1;
    while idx >= 0 && IsBlank(res[idx])
      invariant -1 <= idx < |res|
      invariant forall i :: idx < i < |res| ==> IsBlank(res[i])
    {
      idx := idx - 1;
    }
    r := res[..idx + 1];
    StripCuts(res, idx + 1);
  }
}
