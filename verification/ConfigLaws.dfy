// What the reader does with files told character by character: white space, comments, values over
// several lines, repeated keys.
module ConfigLaws {
  import opened Strings
  import opened ConfigFile
  import opened ConfigLines
  import opened ConfigRoundTrip
  import opened ConfigMarkers

  /** Some of the six characters that are trimmed: blank, newline, tab, vertical tab, return, form feed. */
  predicate Blanks(s: string) {
    forall c | c in s :: c in " \n\t\U{0B}\r\U{0C}"
  }

  /** A text with no blank at either end. */
  predicate Tight(s: string) {
    s == "" || (s[0] !in " \n\t\U{0B}\r\U{0C}" && s[|s| - 1] !in " \n\t\U{0B}\r\U{0C}")
  }

  lemma WhiteIsSix(c: char)
    ensures White(c) <==> c in " \n\t\U{0B}\r\U{0C}"
  {
    var six := " \n\t\U{0B}\r\U{0C}";
    assert six[0] == ' ' && six[1] == '\n' && six[2] == '\t' && six[3] == '\U{0B}' && six[4] == '\r' && six[5] == '\U{0C}';
  }

  lemma BlanksAreWhite(s: string)
    ensures Blanks(s) <==> AllWhite(s)
  {
    forall c
      ensures White(c) <==> c in " \n\t\U{0B}\r\U{0C}"
    {
      WhiteIsSix(c);
    }
    hide White;
    assert AllWhite(s) ==> forall c | c in s :: White(c);
  }

  lemma TightIsTrimmed(s: string)
    ensures Tight(s) <==> Trimmed(s)
  {
    hide White;
    if s != "" {
      WhiteIsSix(s[0]);
      WhiteIsSix(s[|s| - 1]);
    }
  }

  /** Trimming takes exactly the six characters off, at both ends. */
  lemma TrimTakesSix(l: string, t: string, r: string)
    requires Blanks(l) && Blanks(r) && Tight(t)
    ensures Trim(l + t + r) == t
  {
    hide Trim, Tight, Trimmed, Blanks, AllWhite;
    BlanksAreWhite(l);
    BlanksAreWhite(r);
    TightIsTrimmed(t);
    TrimIs(l, t, r);
  }

  // ----- Lines of one entry

  lemma CharFound(a: string, c: char, rest: string)
    requires c !in a
    ensures Find(a + [c] + rest, [c]) == |a|
  {
    var s := a + [c] + rest;
    assert s[|a|..] == [c] + rest;
    forall j | 0 <= j < |a|
      ensures !OccursAt(s, [c], j)
    {
      OccursChars(s, [c], j, 0);
      assert s[j] == a[j];
    }
    FindIs(s, [c], |a|);
  }

  lemma CharAbsent(s: string, c: char)
    requires c !in s
    ensures Free(s, [c])
  {
    forall j | 0 <= j <= |s|
      ensures !OccursAt(s, [c], j)
    {
      OccursChars(s, [c], j, 0);
    }
  }

  /** A comment, whatever is in it, is cut off from its marker on. */
  lemma StripHash(f: Syntax, line: string, comment: string)
    requires f.comm == "#" && '#' !in line
    ensures StripComment(f, line) == line && StripComment(f, line + "#" + comment) == line
  {
    hide Find;
    CharAbsent(line, '#');
    CharFound(line, '#', comment);
    assert line + ['#'] + comment == line + "#" + comment;
    assert (line + "#" + comment)[..|line|] == line;
  }

  /** A key and a value on one line, with any blanks around each. */
  ghost predicate EntryLine(line: string, b1: string, k: string, b2: string, b3: string, v: string, b4: string) {
    && line == b1 + k + b2 + "=" + (b3 + v + b4) && '\n' !in line && '#' !in line
    && Blanks(b1) && Blanks(b2) && Blanks(b3) && Blanks(b4) && Tight(k) && Tight(v) && '=' !in k
  }

  lemma BlanksAreNot(b: string)
    requires Blanks(b)
    ensures '=' !in b && '#' !in b
  {
    var six := " \n\t\U{0B}\r\U{0C}";
    assert '=' !in six && '#' !in six;
  }

  lemma KeyOfEntry(line: string, b1: string, k: string, b2: string, b3: string, v: string, b4: string)
    requires EntryLine(line, b1, k, b2, b3, v, b4)
    ensures var left := b1 + k + b2;
      && '=' !in left && Find(line, "=") == |left| && Trim(left) == k && Trim(b3 + v + b4) == v
      && line[..|left|] == left && line[|left| + 1..] == b3 + v + b4
  {
    hide Trim, Find, Blanks, Tight;
    BlanksAreNot(b1);
    BlanksAreNot(b2);
    var left := b1 + k + b2;
    CharFound(left, '=', b3 + v + b4);
    assert left + ['='] + (b3 + v + b4) == line;
    TrimTakesSix(b1, k, b2);
    TrimTakesSix(b3, v, b4);
  }

  /**
   * With the markers a configuration starts with, a line gives its key and value without the blanks around
   * them and without the comment behind them.
   */
  lemma OneEntryRead(
      line: string, b1: string, k: string, b2: string, b3: string, v: string, b4: string, comment: string)
    requires EntryLine(line, b1, k, b2, b3, v, b4) && '\n' !in comment
    ensures Read(DEFAULT, line + "\n") == map[k := v]
    ensures Read(DEFAULT, line + "#" + comment + "\n") == map[k := v]
  {
    hide Trim, Find, Read, StripComment, Blanks, Tight;
    KeyOfEntry(line, b1, k, b2, b3, v, b4);
    StripHash(DEFAULT, line, comment);
    var left, right := b1 + k + b2, b3 + v + b4;
    OneEntryFile(DEFAULT, line, line, left, right, k, v);
    OneEntryFile(DEFAULT, line + "#" + comment, line, left, right, k, v);
  }

  // ----- Values over several lines

  lemma StripHashes(w: string, t: string, l: string)
    requires '#' !in w && '#' !in l
    ensures StripComment(DEFAULT, w + "#" + t) == w && StripComment(DEFAULT, l) == l
  {
    StripHash(DEFAULT, w, t);
    StripHash(DEFAULT, l, "");
  }

  lemma NoKeyWithout(line: string)
    requires '=' !in line && '#' !in line
    ensures !HasKey(DEFAULT, line) && forall t :: !HasKey(DEFAULT, line + "#" + t)
  {
    CharAbsent(line, '=');
    forall t
      ensures !HasKey(DEFAULT, line + "#" + t)
    {
      StripHash(DEFAULT, line, t);
    }
    StripHash(DEFAULT, line, "");
  }

  lemma NotBlankWithMark(w: string, t: string)
    ensures !Blank(w + "#" + t)
  {
    hide Trim;
    BlankIsAllWhite(w + "#" + t);
    assert (w + "#" + t)[|w|] == '#';
  }

  /** The events of a key's line, a comment line below it, and a line that the value goes on with. */
  lemma ThreeLines(k: string, v: string, w: string, t: string, l: string)
    requires Tight(k) && '=' !in k && '#' !in k && '#' !in v && Blanks(w) && '=' !in l && '#' !in l && !Blank(l)
    ensures Events(DEFAULT, [k + "=" + v, w + "#" + t, l], Outside) == [(k, Trim(v + w + "\n" + l))]
  {
    hide Trim, Find, StripComment, Blanks, Tight, Blank;
    BlanksAreNot(w);
    EmptyBlanks();
    var first, second := k + "=" + v, w + "#" + t;
    CharFound(k, '=', v);
    assert k + ['='] + v == first && first[..|k|] == k && first[|k| + 1..] == v;
    StripHash(DEFAULT, first, "");
    StripHashes(w, t, l);
    NoKeyWithout(w);
    NoKeyWithout(l);
    NotBlankWithMark(w, t);
    TrimTakesSix("", k, "");
    assert "" + k + "" == k;
    BlankW(w);
    assert HasKey(DEFAULT, first) && KeyOf(DEFAULT, first) == k && FirstValue(DEFAULT, first) == v;
    assert Joins(DEFAULT, v, second) == v + w;
    assert Joins(DEFAULT, v + w, l) == v + w + "\n" + l;
    var lines := [first, second, l];
    assert lines[1..] == [second, l] && [second, l][1..] == [l] && |[l][1..]| == 0;
    assert Events(DEFAULT, [l], Inside(k, v + w)) == Events(DEFAULT, [l][1..], Inside(k, v + w + "\n" + l));
    assert Events(DEFAULT, [second, l], Inside(k, v)) == Events(DEFAULT, [l], Inside(k, v + w));
  }

  lemma EmptyBlanks()
    ensures Blanks("")
  {
  }

  lemma BlankW(w: string)
    requires Blanks(w)
    ensures Blank(w)
  {
    hide Trim, White;
    BlanksAreWhite(w);
    BlankIsAllWhite(w);
  }

  /**
   * A value goes on over the next line, behind a newline; of a comment line in between only the blanks in
   * front of the marker are taken in, without a newline.
   */
  lemma ValueGoesOn(k: string, v: string, w: string, t: string, l: string)
    requires Tight(k) && '=' !in k && '#' !in k && '\n' !in k
    requires v != "" && v[0] !in " \n\t\U{0B}\r\U{0C}" && '#' !in v && '\n' !in v
    requires Blanks(w) && '\n' !in w && '\n' !in t
    requires l != "" && l[|l| - 1] !in " \n\t\U{0B}\r\U{0C}" && '=' !in l && '#' !in l && '\n' !in l
    ensures Read(DEFAULT, k + "=" + v + "\n" + (w + "#" + t + "\n" + (l + "\n"))) == map[k := v + w + "\n" + l]
  {
    hide Trim, Read, Blanks, Tight;
    var lines := [k + "=" + v, w + "#" + t, l];
    LastNotBlank(l);
    ThreeLines(k, v, w, t, l);
    assert AllOneLine(lines);
    ThreeEnded(k + "=" + v, w + "#" + t, l);
    ReaderByLines(DEFAULT, lines);
    WholeIsTight(v, w, l);
    var whole := v + w + "\n" + l;
    EmptyBlanks();
    TrimTakesSix("", whole, "");
    assert "" + whole + "" == whole;
    PutFirst(map[], k, whole, []);
    assert [(k, whole)] + [] == [(k, whole)];
  }

  lemma LastNotBlank(l: string)
    requires l != "" && l[|l| - 1] !in " \n\t\U{0B}\r\U{0C}"
    ensures !Blank(l)
  {
    hide Trim, White;
    WhiteIsSix(l[|l| - 1]);
    BlankIsAllWhite(l);
  }

  lemma WholeIsTight(v: string, w: string, l: string)
    requires v != "" && v[0] !in " \n\t\U{0B}\r\U{0C}" && l != "" && l[|l| - 1] !in " \n\t\U{0B}\r\U{0C}"
    ensures Tight(v + w + "\n" + l)
  {
    var s := v + w + "\n" + l;
    assert s[0] == v[0] && s[|s| - 1] == l[|l| - 1];
  }

  lemma ThreeEnded(a: string, b: string, c: string)
    ensures Ended([a, b, c]) == a + "\n" + (b + "\n" + (c + "\n"))
  {
    assert [a, b, c][1..] == [b, c] && [b, c][1..] == [c] && |[c][1..]| == 0;
    assert Ended([c]) == c + "\n";
  }

  // ----- Entries already there, and repeated keys

  /** The line a round of the reader works on, and the stream behind it. */
  function LineAt(st: Stream, nextline: string): (Stream, string) {
    if nextline != "" then (st, nextline) else Getline(st, "")
  }

  /** One round of the outer loop. */
  lemma OneRound(f: Syntax, st: Stream, nextline: string, m: map<string, string>)
    requires !(st.fail && nextline == "")
    ensures var (st0, line) := LineAt(st, nextline);
      if HasKey(f, line) then
        var r := ReadValue(f, st0, "", FirstValue(f, line));
        r.0.Measure() < st.Measure() || (r.0.Measure() == st.Measure() && r.1 == "" && nextline != "")
      else st0.Measure() < st.Measure() || (st0 == st && nextline != "")
    ensures var (st0, line) := LineAt(st, nextline);
      ReadAll(f, st, nextline, m) ==
        if HasKey(f, line) then Finish(f, KeyOf(f, line), m, ReadValue(f, st0, "", FirstValue(f, line)))
        else ReadAll(f, st0, "", m)
  {
    hide Getline, StripComment, Find, Trim;
    var (st0, line) := LineAt(st, nextline);
    if HasKey(f, line) {
      FoundAt(StripComment(f, line), f.delim);
      var first := FirstValue(f, line);
      hide ReadAll;
      var r := ReadValue(f, st0, "", first);
    }
  }

  /** Reading adds to the entries already there, and what is read stands over them. */
  lemma {:induction false} ReadAdds(f: Syntax, st: Stream, nextline: string, m: map<string, string>)
    ensures ReadAll(f, st, nextline, m) == m + ReadAll(f, st, nextline, map[])
    decreases st.Measure(), |nextline|
  {
    if st.fail && nextline == "" {
      assert m + map[] == m;
    } else {
      hide ReadAll, LineAt, HasKey, KeyOf, FirstValue, ReadValue, Trim;
      OneRound(f, st, nextline, m);
      OneRound(f, st, nextline, map[]);
      var (st0, line) := LineAt(st, nextline);
      if HasKey(f, line) {
        var k, r := KeyOf(f, line), ReadValue(f, st0, "", FirstValue(f, line));
        ReadAdds(f, r.0, r.1, m[k := Trim(r.2)]);
        ReadAdds(f, r.0, r.1, map[k := Trim(r.2)]);
        OneMore(m, k, Trim(r.2), ReadAll(f, r.0, r.1, map[]));
      } else {
        ReadAdds(f, st0, "", m);
      }
    }
  }

  lemma {:induction false} EventsJoin(f: Syntax, a: seq<string>, b: seq<string>, pr: Progress)
    requires b != [] && HasKey(f, b[0])
    ensures Events(f, a + b, pr) == Events(f, a, pr) + Events(f, b, Outside)
    decreases |a|
  {
    hide HasKey, KeyOf, FirstValue, Joins, Blank;
    if a == [] {
      assert a + b == b;
      assert [] + Events(f, b[1..], Next(f, pr, b[0])) == Events(f, b, Outside);
    } else {
      assert (a + b)[0] == a[0] && (a + b)[1..] == a[1..] + b;
      EventsJoin(f, a[1..], b, Next(f, pr, a[0]));
    }
  }

  lemma {:induction false} PutJoin(m: map<string, string>, a: seq<(string, string)>, b: seq<(string, string)>)
    ensures Put(m, a + b) == Put(Put(m, a), b)
    decreases |a|
  {
    if a == [] {
      assert a + b == b;
    } else {
      assert (a + b)[0] == a[0] && (a + b)[1..] == a[1..] + b;
      PutJoin(m[a[0].0 := a[0].1], a[1..], b);
    }
  }

  lemma {:induction false} PutOver(m: map<string, string>, b: seq<(string, string)>)
    ensures Put(m, b) == m + Put(map[], b)
    decreases |b|
  {
    if b == [] {
      assert m + map[] == m;
    } else {
      var k, v := b[0].0, b[0].1;
      PutOver(m[k := v], b[1..]);
      PutOver(map[k := v], b[1..]);
      OneMore(m, k, v, Put(map[], b[1..]));
    }
  }

  lemma OneMore(m: map<string, string>, k: string, v: string, rest: map<string, string>)
    ensures m[k := v] + rest == m + (map[k := v] + rest)
  {
  }

  /** Two files one behind the other, the second beginning with a key, read as both, the second over the first. */
  lemma LaterEntriesWin(f: Syntax, a: seq<string>, b: seq<string>)
    requires f.delim != "" && AllOneLine(a) && AllOneLine(b) && b != [] && HasKey(f, b[0])
    ensures Read(f, Ended(a + b)) == Read(f, Ended(a)) + Read(f, Ended(b))
  {
    hide Read, Events, HasKey;
    ReaderByLines(f, a);
    ReaderByLines(f, b);
    ReaderByLines(f, a + b);
    EventsJoin(f, a, b, Outside);
    PutJoin(map[], Events(f, a, Outside), Events(f, b, Outside));
    PutOver(Put(map[], Events(f, a, Outside)), Events(f, b, Outside));
  }

  /** operator>> on a configuration that has entries already: they stay, but for the keys read. */
  lemma ReadFromAdds(f: Syntax, text: string, m: map<string, string>)
    ensures ReadAll(f, Open(text), "", m) == m + Read(f, text)
  {
    hide ReadAll;
    ReadAdds(f, Open(text), "", m);
  }
}
