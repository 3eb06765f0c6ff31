// The round trip for plain markers, and for a comment marker that begins with a blank: which keys and
// values a file can carry, told from them alone. They are all that the reader can produce.
module ConfigRoundTrip {
  import opened Strings
  import opened ConfigFile
  import opened ConfigLines
  import opened ConfigExact

  ghost predicate KeyOk(f: Syntax, k: string) {
    Trimmed(k) && OneLine(k) && Free(k, f.delim) && Free(k, f.comm)
  }

  ghost predicate ContinuationsOk(f: Syntax, lines: seq<string>) {
    forall i | 1 <= i < |lines| :: ContinuationOk(f, lines[i])
  }

  ghost predicate ValueOk(f: Syntax, v: string) {
    Trimmed(v) && Free(v, f.comm) && ContinuationsOk(f, Lines(v))
  }

  /** Keys and values the file format can carry. */
  ghost predicate Normal(f: Syntax, m: map<string, string>) {
    && (m != map[] ==> Free(f.delim, f.comm))
    && forall k | k in m :: KeyOk(f, k) && ValueOk(f, m[k])
  }

  // ----- Normal entries and printed lines

  ghost predicate EntryOk(f: Syntax, p: Pair) {
    KeyOk(f, p.0) && ValueOk(f, p.1)
  }

  lemma HeadShape(f: Syntax, p: Pair)
    ensures Head(f, p)[..|p.0| + 1] == p.0 + " " && Head(f, p)[|p.0| + 1 + |f.delim|..] == " " + Lines(p.1)[0]
    ensures Head(f, p) == p.0 + " " + f.delim + (" " + Lines(p.1)[0])
    ensures Head(f, p) == p.0 + [' '] + (f.delim + [' '] + Lines(p.1)[0])
    ensures Head(f, p)[0..|p.0|] == p.0 && Head(f, p)[|p.0| + 1..|p.0| + 1 + |f.delim|] == f.delim
    ensures Head(f, p)[|p.0| + 2 + |f.delim|..|Head(f, p)|] == Lines(p.1)[0]
  {
  }

  /** With plain markers no comment begins where the parts of a head meet. */
  lemma HeadFree(f: Syntax, p: Pair)
    requires f.Plain() && Free(f.delim, f.comm) && EntryOk(f, p)
    ensures Free(Head(f, p), f.comm)
  {
    hide Head, Lines;
    HeadShape(f, p);
    var l := Lines(p.1)[0];
    LineIsSlice(p.1, f.comm, 0);
    FreeJoin(f.delim, ' ', l, f.comm);
    FreeJoin(p.0, ' ', f.delim + [' '] + l, f.comm);
  }

  lemma NoNewline(s: string)
    requires NoWhite(s)
    ensures OneLine(s)
  {
  }

  lemma {:induction false} FirstOfLines(v: string)
    ensures |Lines(v)[0]| <= |v| && v[0..|Lines(v)[0]|] == Lines(v)[0]
  {
    JoinedLines(v);
  }

  lemma DelimiterBehindKey(k: string, delim: string, rest: string)
    requires NoWhite(delim) && delim != "" && Free(k, delim)
    ensures Find(k + " " + delim + rest, delim) == |k| + 1
  {
    var s := k + " " + delim + rest;
    assert s[|k| + 1..] == delim + rest;
    assert OccursAt(s, delim, |k| + 1);
    forall j | 0 <= j < |k| + 1
      ensures !OccursAt(s, delim, j)
    {
      OccursSlice(s, delim, j);
      if j + |delim| <= |k| {
        OccursSlice(k, delim, j);
        assert s[j..j + |delim|] == k[j..j + |delim|];
      } else if j + |delim| <= |s| {
        assert s[j..j + |delim|][|k| - j] == ' ' != delim[|k| - j];
      }
    }
    FindIs(s, delim, |k| + 1);
  }

  lemma {:induction false} LineIsSlice(v: string, pat: string, i: int)
    requires Free(v, pat) && 0 <= i < |Lines(v)|
    ensures Free(Lines(v)[i], pat)
  {
    if i == 0 {
      FirstOfLines(v);
      FreeSlice(v, pat, 0, |Lines(v)[0]|);
    } else {
      FreeSlice(v, pat, 1, |v|);
      assert v[1..|v|] == v[1..];
      if v[0] == '\n' {
        LineIsSlice(v[1..], pat, i - 1);
      } else {
        LineIsSlice(v[1..], pat, i);
      }
    }
  }

  /** A string of which every line is free of a pattern of one line is free of it. */
  lemma {:induction false} FreeOfLines(lines: seq<string>, pat: string)
    requires |lines| >= 1 && pat != "" && OneLine(pat) && forall l | l in lines :: Free(l, pat)
    ensures Free(Joined(lines), pat)
  {
    hide Free;
    if |lines| > 1 {
      FreeOfLines(lines[1..], pat);
      FreeJoin(lines[0], '\n', Joined(lines[1..]), pat);
      assert lines[0] + ['\n'] + Joined(lines[1..]) == Joined(lines);
    }
  }

  lemma OkCarries(f: Syntax, p: Pair)
    requires f.Sturdy() && NoWhite(f.delim) && EntryOk(f, p) && Free(Head(f, p), f.comm)
    ensures EntryCarries(f, p)
  {
    hide Lines, Free, Find, Trimmed, Blank;
    DelimiterBehindKey(p.0, f.delim, " " + Lines(p.1)[0]);
    HeadShape(f, p);
    forall c | c in Conts(p)
      ensures ContinuationOk(f, c) && Free(c, f.comm)
    {
      var i :| 0 <= i < |Conts(p)| && Conts(p)[i] == c;
      assert Lines(p.1)[i + 1] == c;
      LineIsSlice(p.1, f.comm, i + 1);
    }
  }

  lemma CarriesOk(f: Syntax, p: Pair)
    requires f.Sturdy() && EntryCarries(f, p)
    ensures EntryOk(f, p) && Free(f.delim, f.comm)
  {
    hide Lines, Free, Trimmed, Blank, Head, Find;
    var h, k := Head(f, p), p.0;
    HeadShape(f, p);
    FreeSlice(h, f.comm, 0, |k|);
    FreeSlice(h, f.comm, |k| + 1, |k| + 1 + |f.delim|);
    FreeSlice(h, f.comm, |k| + 2 + |f.delim|, |h|);
    KeyFree(f, p);
    var lines := Lines(p.1);
    assert forall l | l in lines :: l == lines[0] || l in Conts(p);
    FreeOfLines(lines, f.comm);
    JoinedLines(p.1);
    forall i | 1 <= i < |lines|
      ensures ContinuationOk(f, lines[i])
    {
      assert lines[i] == Conts(p)[i - 1];
    }
  }

  lemma KeyFree(f: Syntax, p: Pair)
    requires f.delim != "" && Find(Head(f, p), f.delim) >= |p.0|
    ensures Free(p.0, f.delim)
  {
    hide Find, Head, OccursAt;
    HeadShape(f, p);
    var h, k := Head(f, p), p.0;
    forall j | 0 <= j <= |k|
      ensures !OccursAt(k, f.delim, j)
    {
      OccursSlice(k, f.delim, j);
      OccursSlice(h, f.delim, j);
      if j + |f.delim| <= |k| {
        assert h[0..|k|][j..j + |f.delim|] == h[j..j + |f.delim|];
      }
    }
  }

  /** A map carries exactly if it is normal and no comment begins on a key's printed line. */
  lemma NormalCarries(f: Syntax, m: map<string, string>)
    requires f.Sturdy() && NoWhite(f.delim)
    ensures Carries(f, m) <==> Normal(f, m) && forall k | k in m :: Free(Head(f, (k, m[k])), f.comm)
  {
    hide KeyOk, ValueOk, Head, Free, Syntax.Sturdy;
    if Carries(f, m) {
      forall k | k in m
        ensures EntryOk(f, (k, m[k])) && Free(f.delim, f.comm) && Free(Head(f, (k, m[k])), f.comm)
      {
        CarriesOk(f, (k, m[k]));
        CarriesFree(f, (k, m[k]));
      }
    }
    if Normal(f, m) && forall k | k in m :: Free(Head(f, (k, m[k])), f.comm) {
      forall k | k in m
        ensures EntryCarries(f, (k, m[k]))
      {
        OkCarries(f, (k, m[k]));
      }
    }
  }

  lemma CarriesFree(f: Syntax, p: Pair)
    requires EntryCarries(f, p)
    ensures Free(Head(f, p), f.comm)
  {
  }

  lemma SturdyMarks(f: Syntax)
    requires f.Sturdy()
    ensures f.delim != "" && OneLine(f.delim) && Marks(f.comm) > 0
  {
    hide Marks;
    var n := |f.comm| - 1;
    assert f.comm == f.comm[..n] + [f.comm[n]];
    MarksJoin(f.comm[..n], [f.comm[n]]);
    OneMark(f.comm[n]);
  }

  lemma OneMark(c: char)
    requires !White(c)
    ensures Marks([c]) == 1
  {
    assert [c][1..] == "";
  }

  /**
   * The round trip, exactly: for markers that are not empty and hold no white space, writing a map in
   * any order and reading it back gives the map if and only if the map is normal.
   */
  lemma RoundTrip(f: Syntax, m: map<string, string>, ps: seq<Pair>)
    requires f.Plain() && Enumerates(ps, m)
    ensures Read(f, Print(f, ps)) == m <==> Normal(f, m)
  {
    hide Read, Print, Carries, KeyOk, ValueOk, Free, Head;
    PlainIsSturdy(f);
    SturdyMarks(f);
    RoundTripExactly(f, m, ps);
    NormalCarries(f, m);
    if Normal(f, m) {
      forall k | k in m
        ensures Free(Head(f, (k, m[k])), f.comm)
      {
        HeadFree(f, (k, m[k]));
      }
    }
  }

  lemma PlainIsSturdy(f: Syntax)
    requires f.Plain()
    ensures f.Sturdy()
  {
  }

  // ----- A comment marker that begins with a blank

  /** The marker is a blank and then rest; the delimiter is plain. */
  predicate BlankMarker(f: Syntax, rest: string) {
    f.comm == " " + rest && rest != "" && NoWhite(rest) && f.delim != "" && NoWhite(f.delim)
  }

  lemma OccursChars(s: string, pat: string, i: int, k: int)
    requires 0 <= k < |pat|
    ensures OccursAt(s, pat, i) ==> 0 <= i && i + k < |s| && s[i + k] == pat[k]
  {
  }

  /** On such a line the marker stands only at one of the two blanks around the delimiter. */
  lemma MarkerPlaces(f: Syntax, rest: string, p: Pair, i: int)
    requires BlankMarker(f, rest) && EntryOk(f, p) && 0 <= i <= |Head(f, p)|
    ensures OccursAt(Head(f, p), f.comm, i) ==> i == |p.0| || i == |p.0| + 1 + |f.delim|
  {
    hide Lines, Trimmed, ContinuationsOk;
    var h, k, l := Head(f, p), p.0, Lines(p.1)[0];
    assert h == k + " " + f.delim + " " + l;
    OccursChars(h, f.comm, i, 0);
    if i < |k| {
      if i + |f.comm| <= |k| {
        OccursSlice(h, f.comm, i);
        OccursSlice(k, f.comm, i);
        assert h[i..i + |f.comm|] == k[i..i + |f.comm|];
      } else {
        OccursChars(h, f.comm, i, |k| - i);
        assert f.comm[|k| - i] == rest[|k| - i - 1] && h[|k|] == ' ';
      }
    } else if |k| < i < |k| + 1 + |f.delim| {
      assert h[i] == f.delim[i - |k| - 1];
    } else if i > |k| + 1 + |f.delim| {
      var j := i - |k| - 2 - |f.delim|;
      LineIsSlice(p.1, f.comm, 0);
      assert h[i..] == l[j..];
      assert OccursAt(h, f.comm, i) <==> OccursAt(l, f.comm, j);
    }
  }

  lemma MarkerAt(f: Syntax, rest: string, p: Pair)
    requires BlankMarker(f, rest)
    ensures OccursAt(Head(f, p), f.comm, |p.0|) <==> rest <= f.delim
    ensures OccursAt(Head(f, p), f.comm, |p.0| + 1 + |f.delim|) <==> rest <= Lines(p.1)[0]
  {
    hide Lines;
    var h, k, l := Head(f, p), p.0, Lines(p.1)[0];
    assert h[|k|..] == " " + (f.delim + " " + l);
    assert h[|k| + 1 + |f.delim|..] == " " + l;
    BehindBlank(rest, f.delim + " " + l);
    BehindBlank(rest, l);
    WithinDelimiter(rest, f.delim, l);
  }

  lemma BehindBlank(rest: string, s: string)
    ensures " " + rest <= " " + s <==> rest <= s
  {
    assert (" " + rest)[1..] == rest && (" " + s)[1..] == s;
    if rest <= s {
      assert s == rest + s[|rest|..];
      assert " " + s == " " + rest + s[|rest|..];
    }
    if " " + rest <= " " + s {
      assert s == (" " + s)[1..] == rest + s[|rest|..];
    }
  }

  lemma WithinDelimiter(rest: string, delim: string, l: string)
    requires NoWhite(rest)
    ensures rest <= delim + " " + l <==> rest <= delim
  {
    var s := delim + " " + l;
    if |rest| > |delim| {
      assert !White(rest[|delim|]) && s[|delim|] == ' ';
    } else {
      assert s[..|rest|] == delim[..|rest|];
    }
  }

  /**
   * With such a marker a map comes back if and only if it is normal and, unless it is empty, what follows the blank
   * begins neither the delimiter nor the first line of any value.
   */
  lemma BlankMarkerRoundTrip(f: Syntax, rest: string, m: map<string, string>, ps: seq<Pair>)
    requires BlankMarker(f, rest) && Enumerates(ps, m)
    ensures Read(f, Print(f, ps)) == m
       <==> Normal(f, m) && forall k | k in m :: !(rest <= f.delim) && !(rest <= Lines(m[k])[0])
  {
    hide Read, Print, Carries, KeyOk, ValueOk, Head, Lines, OccursAt;
    BlankIsSturdy(f, rest);
    SturdyMarks(f);
    RoundTripExactly(f, m, ps);
    NormalCarries(f, m);
    if Normal(f, m) {
      forall k | k in m
        ensures Free(Head(f, (k, m[k])), f.comm) <==> !(rest <= f.delim) && !(rest <= Lines(m[k])[0])
      {
        MarkedHead(f, rest, (k, m[k]));
      }
    }
  }

  lemma MarkedHead(f: Syntax, rest: string, p: Pair)
    requires BlankMarker(f, rest) && EntryOk(f, p)
    ensures Free(Head(f, p), f.comm) <==> !(rest <= f.delim) && !(rest <= Lines(p.1)[0])
  {
    hide EntryOk, Lines, OccursAt;
    MarkerAt(f, rest, p);
    assert |Head(f, p)| >= |p.0| + 1 + |f.delim|;
    if i :| 0 <= i <= |Head(f, p)| && OccursAt(Head(f, p), f.comm, i) {
      MarkerPlaces(f, rest, p, i);
    }
  }

  lemma BlankIsSturdy(f: Syntax, rest: string)
    requires BlankMarker(f, rest)
    ensures f.Sturdy()
  {
    assert f.comm[|f.comm| - 1] == rest[|rest| - 1];
  }

  // ----- What the reader can produce

  /** A value being put together: everything asked of a value except trimming. */
  ghost predicate Growing(f: Syntax, v: string) {
    Free(v, f.comm) && ContinuationsOk(f, Lines(v))
  }

  lemma GrowLine(f: Syntax, v: string, c: string)
    requires f.Sturdy() && Growing(f, v) && OneLine(c) && ContinuationOk(f, c) && Free(c, f.comm)
    ensures Growing(f, v + "\n" + c)
  {
    hide ContinuationOk, Lines;
    FreeJoin(v, '\n', c, f.comm);
    assert v + ['\n'] + c == v + "\n" + c;
    LinesAppendLine(v, c);
  }

  /** Blank remainders of comment lines are appended without a newline, and do no harm. */
  lemma GrowBlank(f: Syntax, v: string, w: string)
    requires f.Sturdy() && Growing(f, v) && OneLine(w) && Blank(w)
    ensures Growing(f, v + w)
  {
    hide Lines, Trim;
    BlankIsAllWhite(w);
    FreeAppendWhite(v, w, f.comm);
    LinesAppendPlain(v, w);
    var r, t := Lines(v), Lines(v + w);
    forall i | 1 <= i < |t|
      ensures ContinuationOk(f, t[i])
    {
      assert ContinuationOk(f, r[i]);
      if i == |r| - 1 {
        FreeAppendWhite(r[i], w, f.delim);
        BlankIsAllWhite(r[i]);
        BlankIsAllWhite(r[i] + w);
        NotWhiteStays(r[i], w);
      }
    }
  }

  lemma NotWhiteStays(a: string, b: string)
    ensures AllWhite(a + b) ==> AllWhite(a)
  {
    assert forall i | 0 <= i < |a| :: (a + b)[i] == a[i];
  }

  lemma ShrinkFirst(f: Syntax, v: string)
    requires Growing(f, v) && v != ""
    ensures Growing(f, v[1..])
  {
    hide ContinuationOk;
    FreeSlice(v, f.comm, 1, |v|);
    assert v[1..|v|] == v[1..];
    var r, t := Lines(v), Lines(v[1..]);
    forall i | 1 <= i < |t|
      ensures ContinuationOk(f, t[i])
    {
      assert t[i] == if v[0] == '\n' then r[i + 1] else r[i];
    }
  }

  lemma NewlineEndsBlank(f: Syntax, u: string)
    ensures !ContinuationsOk(f, Lines(u + ['\n']))
  {
    LinesAppendLine(u, "");
    assert u + "\n" + "" == u + ['\n'];
    assert !ContinuationOk(f, Lines(u + ['\n'])[|Lines(u)|]);
  }

  /** A growing value cannot end in a newline: its last line would be blank. */
  lemma ShrinkLast(f: Syntax, v: string)
    requires f.Sturdy() && Growing(f, v) && v != "" && White(v[|v| - 1])
    ensures Growing(f, v[..|v| - 1])
  {
    hide Lines;
    var u, c := v[..|v| - 1], v[|v| - 1];
    FreeSlice(v, f.comm, 0, |v| - 1);
    assert v[0..|v| - 1] == u;
    assert v == u + [c];
    if c == '\n' {
      NewlineEndsBlank(f, u);
      assert false;
    }
    LinesAppendPlain(u, [c]);
    var r, t := Lines(v), Lines(u);
    forall i | 1 <= i < |t|
      ensures ContinuationOk(f, t[i])
    {
      assert ContinuationOk(f, r[i]);
      if i == |t| - 1 {
        assert r[i] == t[i] + [c];
        FreeSlice(r[i], f.delim, 0, |t[i]|);
        assert r[i][0..|t[i]|] == t[i];
        LessIsNotBlank(t[i], c);
      }
    }
  }

  lemma LessIsNotBlank(a: string, c: char)
    requires White(c) && !Blank(a + [c])
    ensures !Blank(a)
  {
    hide Trim;
    BlankIsAllWhite(a);
    BlankIsAllWhite(a + [c]);
  }

  lemma {:induction false} TrimLeftGrowing(f: Syntax, v: string)
    requires Growing(f, v)
    ensures Growing(f, TrimLeft(v))
    decreases |v|
  {
    hide Growing;
    if v != "" && White(v[0]) {
      ShrinkFirst(f, v);
      TrimLeftGrowing(f, v[1..]);
    }
  }

  lemma {:induction false} TrimRightGrowing(f: Syntax, v: string)
    requires f.Sturdy() && Growing(f, v)
    ensures Growing(f, TrimRight(v))
    decreases |v|
  {
    hide Growing;
    if v != "" && White(v[|v| - 1]) {
      ShrinkLast(f, v);
      TrimRightGrowing(f, v[..|v| - 1]);
    }
  }

  lemma GrownIsValue(f: Syntax, v: string)
    requires f.Sturdy() && Growing(f, v)
    ensures ValueOk(f, Trim(v))
  {
    hide TrimLeft, TrimRight, Lines, ContinuationOk;
    TrimLeftGrowing(f, v);
    TrimRightGrowing(f, TrimLeft(v));
    var l, r := TrimSpec(v);
  }

  lemma StripIsFree(f: Syntax, line: string)
    requires f.Sturdy() && OneLine(line)
    ensures OneLine(StripComment(f, line)) && Free(StripComment(f, line), f.comm)
  {
    var i := Find(line, f.comm);
    if i != -1 {
      FreeBefore(line, f.comm);
    }
  }

  lemma {:induction false} ReadValueGrows(f: Syntax, st: Stream, nextline: string, line: string)
    requires f.Sturdy() && OneLine(nextline) && Growing(f, line)
    ensures OneLine(ReadValue(f, st, nextline, line).1) && Growing(f, ReadValue(f, st, nextline, line).2)
    decreases st.Measure()
  {
    hide Growing, Trim, StripComment, Find, Getline, OneLine;
    if !st.fail {
      var (st1, nl) := Getline(st, nextline);
      if !Blank(nl) {
        StripIsFree(f, nl);
        var nl1 := StripComment(f, nl);
        if Find(nl1, f.delim) == -1 {
          if Blank(nl1) {
            GrowBlank(f, line, nl1);
            ReadValueGrows(f, st1, nl1, line + nl1);
          } else {
            GrowLine(f, line, nl1);
            ReadValueGrows(f, st1, nl1, line + "\n" + nl1);
          }
        }
      }
    }
  }

  /** The parts of a line around a delimiter. */
  lemma LineParts(f: Syntax, line: string, d: int)
    requires Free(line, f.comm) && d == Find(line, f.delim) != -1
    ensures 0 <= d && d + |f.delim| <= |line|
    ensures Free(line[..d], f.comm) && Free(f.delim, f.comm) && Free(line[d + |f.delim|..], f.comm)
  {
    hide Find, Free, OccursAt;
    FoundAt(line, f.delim);
    FreeSlice(line, f.comm, d, d + |f.delim|);
    FreeSlice(line, f.comm, d + |f.delim|, |line|);
    FreeSlice(line, f.comm, 0, d);
    assert line[d + |f.delim|..|line|] == line[d + |f.delim|..] && line[0..d] == line[..d];
  }

  /** A line with a delimiter gives a key the format can carry, and the start of a value. */
  lemma KeyLine(f: Syntax, line: string, d: int)
    requires f.Sturdy() && OneLine(line) && Free(line, f.comm) && d == Find(line, f.delim) != -1
    ensures KeyOk(f, Trim(line[..d])) && Growing(f, line[d + |f.delim|..]) && Free(f.delim, f.comm)
  {
    hide Trim, Find, Free, OccursAt;
    LineParts(f, line, d);
    LinesOfOneLine(line[d + |f.delim|..]);
    FreeBefore(line, f.delim);
    TrimIsSlice(f, line[..d]);
  }

  lemma TrimIsSlice(f: Syntax, k: string)
    requires OneLine(k) && Free(k, f.delim) && Free(k, f.comm)
    ensures KeyOk(f, Trim(k))
  {
    hide Trim;
    var l, r := TrimSpec(k);
    var t := Trim(k);
    assert k[|l|..|l| + |t|] == t;
    FreeSlice(k, f.delim, |l|, |l| + |t|);
    FreeSlice(k, f.comm, |l|, |l| + |t|);
    assert forall c | c in t :: c in k;
  }

  /** Whatever the input, the reader keeps the map normal. */
  lemma {:induction false} ReadAllNormal(f: Syntax, st: Stream, nextline: string, m: map<string, string>)
    requires f.Sturdy() && OneLine(nextline) && Normal(f, m)
    ensures Normal(f, ReadAll(f, st, nextline, m))
    decreases st.Measure(), |nextline|
  {
    hide KeyOk, ValueOk, Growing, Trim, StripComment, Find, Getline, OneLine, ReadValue, Syntax.Sturdy;
    if !(st.fail && nextline == "") {
      NoNewline("");
      var (st0, line0) := if nextline != "" then (st, nextline) else Getline(st, "");
      StripIsFree(f, line0);
      var line := StripComment(f, line0);
      var d := Find(line, f.delim);
      if d == -1 {
        ReadAllNormal(f, st0, "", m);
      } else {
        KeyLine(f, line, d);
        var v0 := line[d + |f.delim|..];
        ReadValueGrows(f, st0, "", v0);
        var (st1, nl1, v) := ReadValue(f, st0, "", v0);
        GrownIsValue(f, v);
        ReadAllNormal(f, st1, nl1, m[Trim(line[..d]) := Trim(v)]);
      }
    }
  }

  /** Whatever file was read, writing the configuration out and reading it again changes nothing. */
  lemma RewritingIsHarmless(f: Syntax, text: string)
    requires f.Plain()
    ensures forall ps | Enumerates(ps, Read(f, text)) :: Read(f, Print(f, ps)) == Read(f, text)
  {
    hide ReadAll, Print;
    NoNewline("");
    ReadAllNormal(f, Open(text), "", map[]);
    forall ps | Enumerates(ps, Read(f, text))
      ensures Read(f, Print(f, ps)) == Read(f, text)
    {
      RoundTrip(f, Read(f, text), ps);
    }
  }

  /** Saving one configuration and loading it into an empty one with the same markers. */
  method WriteThenRead(c: Config, d: Config, order: seq<string>)
    requires Iterates(order, c.contents) && c != d && d.contents == map[] && d.Marks() == c.Marks() && c.Marks().Plain()
    modifies d`contents
    ensures d.contents == c.contents <==> Normal(c.Marks(), c.contents)
  {
    hide Read, ReadAll, Print, Normal, Pairs;
    PairsEnumerate(c.contents, order);
    var os := c.WriteTo(order);
    d.ReadFrom(Open(os));
    RoundTrip(c.Marks(), c.contents, Pairs(c.contents, order));
    assert Read(c.Marks(), os) == ReadAll(c.Marks(), Open(os), "", map[]) by { ReadIs(c.Marks(), os); }
  }

  lemma ReadIs(f: Syntax, text: string)
    ensures Read(f, text) == ReadAll(f, Open(text), "", map[])
  {
    hide ReadAll;
  }
}
