// Configurations with degenerate markers - an empty one, or a delimiter with a newline: exactly what
// survives being written and read. And a file that a marker beginning with a blank loses.
module ConfigMarkers {
  import opened Strings
  import opened ConfigFile
  import opened ConfigLines
  import opened ConfigExact
  import opened ConfigRoundTrip

  lemma StripAll(f: Syntax, line: string)
    requires f.comm == ""
    ensures StripComment(f, line) == ""
  {
    FindNothing(line);
  }

  // ----- An empty comment marker: every line is all comment

  lemma {:induction false} AllCommentNoKeys(f: Syntax, st: Stream, nextline: string, m: map<string, string>)
    requires f.comm == "" && f.delim != ""
    ensures ReadAll(f, st, nextline, m) == m
    decreases st.Measure(), |nextline|
  {
    hide Getline, StripComment, Find, ReadValue;
    if !(st.fail && nextline == "") {
      var (st0, line0) := if nextline != "" then (st, nextline) else Getline(st, "");
      StripAll(f, line0);
      NotInEmpty(f.delim);
      AllCommentNoKeys(f, st0, "", m);
    }
  }

  lemma AllCommentValue(f: Syntax, st: Stream)
    requires f.comm == "" && f.delim == ""
    ensures ReadValue(f, st, "", "").2 == ""
  {
    hide Getline, StripComment, Find, Trim;
    if !st.fail {
      var (st1, nl) := Getline(st, "");
      StripAll(f, nl);
      FindNothing("");
    }
  }

  lemma {:induction false} AllCommentEmptyKey(f: Syntax, st: Stream, nextline: string, m: map<string, string>)
    requires f.comm == "" && f.delim == ""
    ensures ReadAll(f, st, nextline, m) == if st.fail && nextline == "" then m else m["" := ""]
    decreases st.Measure(), |nextline|
  {
    hide Getline, StripComment, Find, ReadValue;
    if !(st.fail && nextline == "") {
      var (st0, line0) := if nextline != "" then (st, nextline) else Getline(st, "");
      StripAll(f, line0);
      FindNothing("");
      AllCommentValue(f, st0);
      var (st1, nl1, v) := ReadValue(f, st0, "", "");
      AllCommentEmptyKey(f, st1, nl1, m["" := ""]);
      assert m["" := ""]["" := ""] == m["" := ""];
    }
  }

  /** Every file reads the same, so one map comes back: the empty one, or an empty entry. */
  lemma EmptyCommentRoundTrip(f: Syntax, m: map<string, string>, ps: seq<(string, string)>)
    requires f.comm == "" && Enumerates(ps, m)
    ensures Read(f, Print(f, ps)) == m <==> m == if f.delim == "" then map["" := ""] else map[]
  {
    hide ReadAll, Print;
    if f.delim == "" {
      AllCommentEmptyKey(f, Open(Print(f, ps)), "", map[]);
    } else {
      AllCommentNoKeys(f, Open(Print(f, ps)), "", map[]);
    }
  }

  // ----- An empty delimiter: every line has the empty key

  ghost predicate OnlyEmptyKey(m: map<string, string>) {
    m.Keys <= {""} && ("" in m ==> OneLine(m[""]))
  }

  lemma SingleLineValue(f: Syntax, st: Stream, v: string)
    requires f.delim == ""
    ensures var r := ReadValue(f, st, "", v); r.2 == v && OneLine(r.1)
  {
    hide Getline, StripComment, Find, Trim;
    if !st.fail {
      var (st1, nl) := Getline(st, "");
      StripSpec(f, nl);
      FindNothing(StripComment(f, nl));
    }
  }

  lemma {:induction false} EmptyKeyOnly(f: Syntax, st: Stream, nextline: string, m: map<string, string>)
    requires f.delim == "" && OneLine(nextline) && OnlyEmptyKey(m)
    ensures OnlyEmptyKey(ReadAll(f, st, nextline, m))
    ensures !(st.fail && nextline == "") || "" in m ==> "" in ReadAll(f, st, nextline, m)
    decreases st.Measure(), |nextline|
  {
    hide Getline, StripComment, Find, ReadValue, Trim;
    if !(st.fail && nextline == "") {
      var (st0, line0) := if nextline != "" then (st, nextline) else Getline(st, "");
      var line := StripComment(f, line0);
      StripSpec(f, line0);
      FindNothing(line);
      assert line[..0] == "" && line[0..] == line;
      SingleLineValue(f, st0, line);
      TrimmedTrim(line);
      TrimEmpty();
      var (st1, nl1, v) := ReadValue(f, st0, "", line);
      EmptyKeyOnly(f, st1, nl1, m["" := Trim(line)]);
    }
  }

  lemma TrimEmpty()
    ensures Trim("") == ""
  {
  }

  lemma OneLineFile(f: Syntax, l: string)
    requires f.delim == "" && OneLine(l)
    ensures Read(f, l + "\n") == map["" := Trim(StripComment(f, l))]
  {
    hide Getline, StripComment, Find, Trim;
    assert l + "\n" + "" == l + "\n";
    GetlineOf(l, "", "");
    var line := StripComment(f, l);
    FindNothing(line);
    assert line[..0] == "" && line[0..] == line;
    TrimEmpty();
    AtEnd(f, "", line);
    assert ReadAll(f, Stream("", true, true), "", map["" := Trim(line)]) == map["" := Trim(line)];
  }

  /** What is left of a value printed behind two blanks is the value exactly if it is trimmed and no comment cuts it. */
  lemma PrintedValue(f: Syntax, v: string)
    ensures Trim(StripComment(f, "  " + v)) == v <==> Trimmed(v) && (v == "" || Free("  " + v, f.comm))
  {
    hide Trim, Find, Free;
    var l := "  " + v;
    var s := StripComment(f, l);
    StripSpec(f, l);
    TrimmedTrim(s);
    if v == "" {
      TwoBlanks(s);
    } else if Free(l, f.comm) {
      StripNothing(f, l);
      if Trimmed(v) {
        TrimIs("  ", v, "");
        assert "  " + v + "" == l;
      }
    } else {
      CutValue(f, v);
    }
  }

  lemma TwoBlanks(s: string)
    requires s <= "  "
    ensures Trim(s) == "" && Trimmed("")
  {
    hide Trim;
    BlankIsAllWhite(s);
  }

  lemma CutValue(f: Syntax, v: string)
    requires !Free("  " + v, f.comm) && v != ""
    ensures Trim(StripComment(f, "  " + v)) != v
  {
    hide Trim, Free;
    var l := "  " + v;
    CutShort(f, l);
    var s := StripComment(f, l);
    if |s| <= 2 {
      assert s <= "  ";
      TwoBlanks(s);
    } else {
      assert s[0] == ' ' && s[1] == ' ';
      BlanksGo(s);
    }
  }

  /** A comment takes something off the line, if only itself. */
  lemma CutShort(f: Syntax, l: string)
    requires !Free(l, f.comm) && l != ""
    ensures StripComment(f, l) <= l && |StripComment(f, l)| < |l|
  {
    hide Find, Free, OccursAt;
    StripSpec(f, l);
    if f.comm == "" {
      FindNothing(l);
    } else {
      FoundAt(l, f.comm);
    }
  }

  lemma BlanksGo(s: string)
    requires |s| > 2 && s[0] == ' ' && s[1] == ' '
    ensures |Trim(s)| <= |s| - 2
  {
    hide Trim;
    var l, r := TrimSpec(s);
    assert |Trim(s)| > 0 ==> Trim(s)[0] == s[|l|];
  }

  /** Only a single entry comes back, under the empty key: a trimmed value of one line that no comment cuts. */
  lemma EmptyDelimiterRoundTrip(f: Syntax, m: map<string, string>, ps: seq<(string, string)>)
    requires f.delim == "" && Enumerates(ps, m)
    ensures Read(f, Print(f, ps)) == m
       <==> m.Keys == {""} && OneLine(m[""]) && Trimmed(m[""]) && (m[""] == "" || Free("  " + m[""], f.comm))
  {
    hide ReadAll, Print, Trim, Trimmed, Free, StripComment;
    EmptyKeyOnly(f, Open(Print(f, ps)), "", map[]);
    if m.Keys == {""} && OneLine(m[""]) {
      OnlyOne(ps, m);
      PrintOne(f, ps);
      OneLineFile(f, "  " + m[""]);
      PrintedValue(f, m[""]);
      assert m == map["" := m[""]];
    }
  }

  lemma OnlyOne(ps: seq<(string, string)>, m: map<string, string>)
    requires Enumerates(ps, m) && m.Keys == {""}
    ensures |ps| == 1 && ps[0] == ("", m[""])
  {
    FirstKey(ps, m);
    hide Enumerates;
    if |ps| > 1 {
      FirstTwo(ps, m);
      assert false;
    }
  }

  lemma FirstKey(ps: seq<(string, string)>, m: map<string, string>)
    requires Enumerates(ps, m) && m.Keys == {""}
    ensures |ps| >= 1 && ps[0] == ("", m[""])
  {
    assert "" in m;
    assert ps[0].0 in m.Keys;
  }

  lemma FirstTwo(ps: seq<(string, string)>, m: map<string, string>)
    requires Enumerates(ps, m) && |ps| > 1
    ensures ps[0].0 != ps[1].0 && ps[0].0 in m.Keys && ps[1].0 in m.Keys
  {
  }

  lemma PrintOne(f: Syntax, ps: seq<(string, string)>)
    requires f.delim == "" && |ps| == 1 && ps[0].0 == ""
    ensures Print(f, ps) == "  " + ps[0].1 + "\n"
  {
    assert Print(f, ps[1..]) == "";
  }

  // ----- A newline in the delimiter: no line has a key

  lemma {:induction false} NoKeyNoEvents(f: Syntax, lines: seq<string>)
    requires forall l | l in lines :: !HasKey(f, l)
    ensures Events(f, lines, Outside) == []
  {
    hide HasKey;
    if lines != [] {
      assert lines[0] in lines && forall l | l in lines[1..] :: l in lines;
      NoKeyNoEvents(f, lines[1..]);
    }
  }

  lemma NotInLine(s: string, pat: string)
    requires OneLine(s) && !OneLine(pat)
    ensures Find(s, pat) == -1
  {
    var k :| 0 <= k < |pat| && pat[k] == '\n';
    forall i | 0 <= i <= |s|
      ensures !OccursAt(s, pat, i)
    {
      OccursChars(s, pat, i, k);
    }
  }

  /** Nothing is read, so only the empty map comes back. */
  lemma NewlineDelimiterRoundTrip(f: Syntax, m: map<string, string>, ps: seq<(string, string)>)
    requires !OneLine(f.delim)
    ensures Read(f, Print(f, ps)) == m <==> m == map[]
  {
    hide Read, Print, Find, StripComment;
    PrintEnds(f, ps);
    var lines := TextLines(Print(f, ps));
    ReaderByLines(f, lines);
    forall l | l in lines
      ensures !HasKey(f, l)
    {
      StripSpec(f, l);
      NotInLine(StripComment(f, l), f.delim);
    }
    NoKeyNoEvents(f, lines);
  }

  // ----- White space in a marker

  /** A marker that begins with a blank, and a key and a value that go with it badly. */
  predicate Clash(f: Syntax, k: string, rest: string) {
    && f.comm == " " + rest && f.delim == "="
    && rest != "" && NoWhite(rest) && '=' !in rest && k != "" && NoWhite(k) && '=' !in k
  }

  /** The value is read from a file, but not from what is written for it. */
  lemma WhiteMarkerLoses(f: Syntax, k: string, rest: string)
    requires Clash(f, k, rest)
    ensures Read(f, k + "=" + rest + "\n") == map[k := rest]
    ensures Read(f, Print(f, [(k, rest)])) == map[k := ""]
  {
    hide Read, Print;
    ReadTight(f, k, rest);
    PrintSingle(f, k, rest);
    ReadSpaced(f, k, rest);
  }

  lemma ReadTight(f: Syntax, k: string, rest: string)
    requires Clash(f, k, rest)
    ensures Read(f, k + "=" + rest + "\n") == map[k := rest]
  {
    hide Find, Trim, Read;
    var l := k + "=" + rest;
    NoBlankNoComment(l, f.comm);
    KeyBefore(k, rest);
    assert k == "" + k + "" && rest == "" + rest + "";
    TrimIs("", k, "");
    TrimIs("", rest, "");
    OneEntryFile(f, l, l, k, rest, k, rest);
  }

  lemma ReadSpaced(f: Syntax, k: string, rest: string)
    requires Clash(f, k, rest)
    ensures Read(f, k + " = " + rest + "\n") == map[k := ""]
  {
    hide Find, Trim, Read;
    CommentAt(f, k, rest);
    KeyBefore(k + " ", "");
    assert "" + k + " " == k + " " && k + " " + "=" + "" == k + " =";
    TrimIs("", k, " ");
    TrimEmpty();
    OneEntryFile(f, k + " = " + rest, k + " =", k + " ", "", k, "");
  }

  lemma PrintSingle(f: Syntax, k: string, v: string)
    requires f.delim == "="
    ensures Print(f, [(k, v)]) == k + " = " + v + "\n"
  {
    var ps := [(k, v)];
    assert Print(f, ps[1..]) == "";
    assert k + " " + "=" + " " + (v + "\n") == k + " = " + v + "\n";
  }

  lemma NoBlankNoComment(l: string, comm: string)
    requires NoWhite(l) && comm != "" && White(comm[0])
    ensures Find(l, comm) == -1 && OneLine(l)
  {
    forall i | 0 <= i <= |l|
      ensures !OccursAt(l, comm, i)
    {
      OccursChars(l, comm, i, 0);
    }
  }

  lemma KeyBefore(k: string, rest: string)
    requires '=' !in k
    ensures Find(k + "=" + rest, "=") == |k|
  {
    var s := k + "=" + rest;
    assert s[|k|..] == "=" + rest;
    forall j | 0 <= j < |k|
      ensures !OccursAt(s, "=", j)
    {
      OccursChars(s, "=", j, 0);
      assert s[j] == k[j];
    }
    FindIs(s, "=", |k|);
  }

  /** The printed line's comment begins right behind its delimiter. */
  lemma CommentAt(f: Syntax, k: string, rest: string)
    requires Clash(f, k, rest)
    ensures StripComment(f, k + " = " + rest) == k + " =" && OneLine(k + " = " + rest)
  {
    hide Find, OccursAt, Free;
    var h := k + " = " + rest;
    ClashIsOk(f, k, rest);
    ClashHead(f, k, rest);
    MarkerAt(f, rest, (k, rest));
    NotWithin(rest);
    forall j | 0 <= j < |k| + 2
      ensures !OccursAt(h, f.comm, j)
    {
      MarkerPlaces(f, rest, (k, rest), j);
    }
    FindIs(h, f.comm, |k| + 2);
    assert h[..|k| + 2] == k + " =";
  }

  lemma ClashHead(f: Syntax, k: string, rest: string)
    requires Clash(f, k, rest)
    ensures Head(f, (k, rest)) == k + " = " + rest && OneLine(k + " = " + rest) && Lines(rest)[0] == rest
  {
    NoNewline(k);
    NoNewline(rest);
    LinesOfOneLine(rest);
    assert k + " " + "=" + " " + rest == k + " = " + rest;
    assert OneLine(" = ");
  }

  lemma NotWithin(rest: string)
    requires rest != "" && '=' !in rest
    ensures !(rest <= "=")
  {
    assert rest[0] in rest;
  }

  lemma ClashIsOk(f: Syntax, k: string, rest: string)
    requires Clash(f, k, rest)
    ensures BlankMarker(f, rest) && EntryOk(f, (k, rest))
  {
    hide Find, OccursAt;
    NoNewline(k);
    NoNewline(rest);
    LinesOfOneLine(rest);
    NoBlankNoComment(k, f.comm);
    NoBlankNoComment(rest, f.comm);
    NoEquals(k);
  }

  lemma NoEquals(k: string)
    requires '=' !in k
    ensures Free(k, "=")
  {
    forall i | 0 <= i <= |k|
      ensures !OccursAt(k, "=", i)
    {
      OccursChars(k, "=", i, 0);
    }
  }

  /** A file of one key line: l as written, stripped as read, cut at the delimiter. */
  lemma OneEntryFile(f: Syntax, l: string, stripped: string, left: string, right: string, k: string, v: string)
    requires OneLine(l) && l != "" && StripComment(f, l) == stripped == left + f.delim + right
    requires Find(stripped, f.delim) == |left| && Trim(left) == k && Trim(right) == v
    ensures Read(f, l + "\n") == map[k := v]
  {
    hide Getline, StripComment, Find, Trim;
    assert l + "\n" + "" == l + "\n";
    GetlineOf(l, "", "");
    assert stripped[..|left|] == left && stripped[|left| + |f.delim|..] == right;
    assert Trim("") == "" by { TrimEmpty(); }
    AtEnd(f, "", right);
    assert ReadAll(f, Stream("", true, true), "", map[k := v]) == map[k := v];
  }
}
