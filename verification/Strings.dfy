// Searching and cutting strings the way std::string does.
module Strings {

  ghost predicate OccursAt(s: string, pat: string, i: int) {
    0 <= i <= |s| && pat <= s[i..]
  }

  /** The pattern occurs nowhere. */
  ghost predicate Free(s: string, pat: string) {
    forall i | 0 <= i <= |s| :: !OccursAt(s, pat, i)
  }

  /** The first occurrence, or -1 for npos. */
  function Find(s: string, pat: string): (r: int)
    ensures r == -1 <==> Free(s, pat)
    ensures r != -1 ==> OccursAt(s, pat, r) && forall i | 0 <= i < r :: !OccursAt(s, pat, i)
  {
    if pat <= s then
      assert s[0..] == s;
      assert OccursAt(s, pat, 0);
      0
    else if s == "" then
      -1
    else
      var r := Find(s[1..], pat);
      assert s[0..] == s;
      assert forall i | 0 < i <= |s| :: s[i..] == s[1..][i - 1..];
      assert forall i | 0 < i <= |s| :: OccursAt(s, pat, i) <==> OccursAt(s[1..], pat, i - 1);
      assert forall i | 0 <= i <= |s| - 1 :: OccursAt(s[1..], pat, i) <==> OccursAt(s, pat, i + 1);
      if r == -1 then -1 else r + 1
  }

  lemma OccursSlice(s: string, pat: string, i: int)
    ensures OccursAt(s, pat, i) <==> 0 <= i && i + |pat| <= |s| && s[i..i + |pat|] == pat
  {
    if 0 <= i && i + |pat| <= |s| {
      assert s[i..][..|pat|] == s[i..i + |pat|];
    }
  }

  lemma FoundAt(s: string, pat: string)
    requires Find(s, pat) != -1
    ensures var d := Find(s, pat); 0 <= d && d + |pat| <= |s| && s[d..d + |pat|] == pat
  {
    OccursSlice(s, pat, Find(s, pat));
  }

  /** What stands before the first occurrence of a pattern is free of it. */
  lemma FreeBefore(s: string, pat: string)
    requires pat != "" && Find(s, pat) != -1
    ensures Free(s[..Find(s, pat)], pat)
  {
    hide OccursAt;
    FoundAt(s, pat);
    var i := Find(s, pat);
    forall j | 0 <= j <= i
      ensures !OccursAt(s[..i], pat, j)
    {
      OccursSlice(s[..i], pat, j);
      OccursSlice(s, pat, j);
      if j + |pat| <= i {
        assert s[..i][j..j + |pat|] == s[j..j + |pat|];
      }
    }
  }

  lemma FindIs(s: string, pat: string, i: int)
    requires OccursAt(s, pat, i) && forall j | 0 <= j < i :: !OccursAt(s, pat, j)
    ensures Find(s, pat) == i
  {
  }

  lemma FreeSlice(s: string, pat: string, i: int, j: int)
    requires Free(s, pat) && 0 <= i <= j <= |s|
    ensures Free(s[i..j], pat)
  {
    forall k | 0 <= k <= j - i
      ensures !OccursAt(s[i..j], pat, k)
    {
      if OccursAt(s[i..j], pat, k) {
        assert s[i + k..] == s[i..j][k..] + s[j..];
        assert OccursAt(s, pat, i + k);
      }
    }
  }

  // ----- White space

  predicate White(c: char) {
    c == ' ' || c == '\n' || c == '\t' || c == '\U{0B}' || c == '\r' || c == '\U{0C}'
  }

  predicate AllWhite(s: string) {
    forall i | 0 <= i < |s| :: White(s[i])
  }

  predicate NoWhite(s: string) {
    forall i | 0 <= i < |s| :: !White(s[i])
  }

  function TrimLeft(s: string): string {
    if s != "" && White(s[0]) then TrimLeft(s[1..]) else s
  }

  function TrimRight(s: string): string {
    if s != "" && White(s[|s| - 1]) then TrimRight(s[..|s| - 1]) else s
  }

  function Trim(s: string): string {
    TrimRight(TrimLeft(s))
  }

  predicate Trimmed(s: string) {
    s == "" || (!White(s[0]) && !White(s[|s| - 1]))
  }

  lemma {:induction false} TrimRightSpec(s: string)
    ensures TrimRight(s) <= s && AllWhite(s[|TrimRight(s)|..])
    ensures TrimRight(s) == "" || !White(TrimRight(s)[|TrimRight(s)| - 1])
  {
    if s != "" && White(s[|s| - 1]) {
      TrimRightSpec(s[..|s| - 1]);
      var t := TrimRight(s);
      assert s[..|s| - 1][..|t|] == s[..|t|];
      assert s[|t|..] == s[..|s| - 1][|t|..] + [s[|s| - 1]];
    }
  }

  lemma {:induction false} TrimLeftSpec(s: string)
    ensures |TrimLeft(s)| <= |s| && s[|s| - |TrimLeft(s)|..] == TrimLeft(s) && AllWhite(s[..|s| - |TrimLeft(s)|])
    ensures TrimLeft(s) == "" || !White(TrimLeft(s)[0])
  {
    if s != "" && White(s[0]) {
      TrimLeftSpec(s[1..]);
      var k := |s| - |TrimLeft(s[1..])|;
      assert s[k..] == s[1..][k - 1..];
      assert s[..k] == [s[0]] + s[1..][..k - 1];
    }
  }

  /** Trimming takes white space off both ends, and all of it. */
  lemma TrimSpec(s: string) returns (l: string, r: string)
    ensures s == l + Trim(s) + r && AllWhite(l) && AllWhite(r) && Trimmed(Trim(s))
  {
    hide TrimLeft, TrimRight;
    TrimLeftSpec(s);
    var t := TrimLeft(s);
    TrimRightSpec(t);
    l, r := s[..|s| - |t|], t[|TrimRight(t)|..];
    assert s == l + t;
    assert t == TrimRight(t) + r;
    assert Trim(s) != "" ==> Trim(s)[0] == t[0];
  }

  /** The trimmed core is the only one. */
  lemma TrimIs(l: string, t: string, r: string)
    requires AllWhite(l) && AllWhite(r) && Trimmed(t)
    ensures Trim(l + t + r) == t
  {
    if t == "" {
      assert l + t + r == l + r;
      TrimAllWhite(l + r);
    } else {
      TrimLeftOf(l, t + r);
      assert l + t + r == l + (t + r);
      TrimRightOf(t, r);
    }
  }

  lemma {:induction false} TrimAllWhite(s: string)
    requires AllWhite(s)
    ensures Trim(s) == "" && TrimLeft(s) == ""
  {
    if s != "" {
      TrimAllWhite(s[1..]);
    }
  }

  lemma {:induction false} TrimLeftOf(l: string, t: string)
    requires AllWhite(l) && t != "" && !White(t[0])
    ensures TrimLeft(l + t) == t
  {
    if l == "" {
      assert l + t == t;
    } else {
      assert (l + t)[1..] == l[1..] + t;
      TrimLeftOf(l[1..], t);
    }
  }

  lemma {:induction false} TrimRightOf(t: string, r: string)
    requires AllWhite(r) && t != "" && !White(t[|t| - 1])
    ensures TrimRight(t + r) == t
  {
    if r == "" {
      assert t + r == t;
    } else {
      assert (t + r)[..|t + r| - 1] == t + r[..|r| - 1];
      TrimRightOf(t, r[..|r| - 1]);
    }
  }

  /** Blank means nothing is left after trimming. */
  lemma BlankIsAllWhite(s: string)
    ensures Trim(s) == "" <==> AllWhite(s)
  {
    var l, r := TrimSpec(s);
    if Trim(s) == "" {
      assert s == l + r;
    } else if AllWhite(s) {
      TrimAllWhite(s);
    }
  }

  // ----- Patterns and white space

  /** A pattern cannot straddle a character that is not in it. */
  lemma FreeJoin(a: string, c: char, b: string, pat: string)
    requires c !in pat && pat != "" && Free(a, pat) && Free(b, pat)
    ensures Free(a + [c] + b, pat)
  {
    var s := a + [c] + b;
    forall i | 0 <= i <= |s|
      ensures !OccursAt(s, pat, i)
    {
      OccursSlice(s, pat, i);
      if i + |pat| <= |a| {
        OccursSlice(a, pat, i);
        assert s[i..i + |pat|] == a[i..i + |pat|];
      } else if i > |a| && i + |pat| <= |s| {
        var j := i - |a| - 1;
        OccursSlice(b, pat, j);
        assert s[i..i + |pat|] == b[j..j + |pat|];
      } else if i + |pat| <= |s| {
        assert s[i..i + |pat|][|a| - i] == c != pat[|a| - i];
      }
    }
  }

  /** White space appended never completes such a pattern. */
  lemma FreeAppendWhite(a: string, w: string, pat: string)
    requires AllWhite(w) && pat != "" && !White(pat[|pat| - 1]) && Free(a, pat)
    ensures Free(a + w, pat)
  {
    var s := a + w;
    forall i | 0 <= i <= |s|
      ensures !OccursAt(s, pat, i)
    {
      OccursSlice(s, pat, i);
      if i + |pat| <= |a| {
        OccursSlice(a, pat, i);
        assert s[i..i + |pat|] == a[i..i + |pat|];
      } else if i + |pat| <= |s| {
        assert s[i..i + |pat|][|pat| - 1] == w[i + |pat| - 1 - |a|] != pat[|pat| - 1];
      }
    }
  }

  // ----- Lines

  predicate OneLine(s: string) {
    '\n' !in s
  }

  /** The pieces between newlines. */
  function Lines(s: string): (r: seq<string>)
    ensures |r| >= 1
  {
    if s == "" then [""]
    else if s[0] == '\n' then [""] + Lines(s[1..])
    else
      var r := Lines(s[1..]);
      [[s[0]] + r[0]] + r[1..]
  }

  lemma {:induction false} LinesOfOneLine(s: string)
    requires OneLine(s)
    ensures Lines(s) == [s]
  {
    if s != "" {
      assert s[0] in s;
      assert forall c | c in s[1..] :: c in s;
      LinesOfOneLine(s[1..]);
      assert [s[0]] + s[1..] == s;
    }
  }

  lemma {:induction false} LinesAppendLine(a: string, b: string)
    requires OneLine(b)
    ensures Lines(a + "\n" + b) == Lines(a) + [b]
  {
    var s := a + "\n" + b;
    if a == "" {
      assert s[1..] == b;
      LinesOfOneLine(b);
    } else {
      assert s[1..] == a[1..] + "\n" + b;
      LinesAppendLine(a[1..], b);
    }
  }

  /** The pieces with a string appended to the last one. */
  function LastExtended(r: seq<string>, b: string): seq<string>
    requires |r| >= 1
  {
    r[..|r| - 1] + [r[|r| - 1] + b]
  }

  lemma LinesStep(s: string)
    requires s != ""
    ensures s[0] == '\n' ==> Lines(s) == [""] + Lines(s[1..])
    ensures s[0] != '\n' ==> Lines(s) == FirstExtended(s[0], Lines(s[1..]))
  {
  }

  function FirstExtended(c: char, r: seq<string>): seq<string>
    requires |r| >= 1
  {
    [[c] + r[0]] + r[1..]
  }

  /** Extending the first piece and the last one do not get in each other's way. */
  lemma ExtendBoth(c: char, r: seq<string>, b: string)
    requires |r| >= 1
    ensures LastExtended([""] + r, b) == [""] + LastExtended(r, b)
    ensures LastExtended(FirstExtended(c, r), b) == FirstExtended(c, LastExtended(r, b))
  {
    if |r| == 1 {
      assert [c] + (r[0] + b) == [c] + r[0] + b;
    }
  }

  lemma {:induction false} LinesAppendPlain(a: string, b: string)
    requires OneLine(b)
    ensures Lines(a + b) == LastExtended(Lines(a), b)
  {
    hide Lines, LastExtended, FirstExtended;
    if a == "" {
      assert a + b == b;
      LinesOfOneLine(b);
      LastOfOne(b);
    } else {
      assert (a + b)[1..] == a[1..] + b;
      LinesAppendPlain(a[1..], b);
      LinesStep(a);
      LinesStep(a + b);
      ExtendBoth(a[0], Lines(a[1..]), b);
    }
  }

  lemma LastOfOne(b: string)
    ensures LastExtended(Lines(""), b) == [b]
  {
    assert "" + b == b;
  }

  lemma {:induction false} LinesAreOneLine(s: string)
    ensures forall i | 0 <= i < |Lines(s)| :: OneLine(Lines(s)[i])
  {
    if s == "" {
      assert OneLine("");
    } else {
      LinesAreOneLine(s[1..]);
      var r := Lines(s[1..]);
      forall i | 0 <= i < |Lines(s)|
        ensures OneLine(Lines(s)[i])
      {
        if s[0] == '\n' {
          assert i > 0 ==> Lines(s)[i] == r[i - 1];
        } else {
          assert OneLine(r[0]);
          assert i > 0 ==> Lines(s)[i] == r[i];
        }
      }
    }
  }

  /** Lines put together again. */
  function Joined(lines: seq<string>): string
    requires |lines| >= 1
  {
    if |lines| == 1 then lines[0] else lines[0] + "\n" + Joined(lines[1..])
  }

  lemma {:induction false} JoinedLines(s: string)
    ensures Joined(Lines(s)) == s
  {
    if s != "" {
      JoinedLines(s[1..]);
      var r := Lines(s[1..]);
      if s[0] == '\n' {
        assert Lines(s)[1..] == r;
      } else {
        assert Lines(s)[1..] == r[1..];
      }
    }
  }
}
