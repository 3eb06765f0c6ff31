// The reader, read line by line: for a file whose lines all end in a newline it stores, in order, one
// entry for every line with a key, whatever the markers, as long as the delimiter is not empty.
module ConfigLines {
  import opened Strings
  import opened ConfigFile

  predicate Blank(s: string) {
    Trim(s) == ""
  }

  function Ended(lines: seq<string>): string {
    if lines == [] then "" else lines[0] + "\n" + Ended(lines[1..])
  }

  ghost predicate AllOneLine(lines: seq<string>) {
    forall i | 0 <= i < |lines| :: OneLine(lines[i])
  }

  predicate HasKey(f: Syntax, line: string) {
    Find(StripComment(f, line), f.delim) != -1
  }

  function KeyOf(f: Syntax, l: string): string
    requires HasKey(f, l)
  {
    FoundAt(StripComment(f, l), f.delim);
    Trim(StripComment(f, l)[..Find(StripComment(f, l), f.delim)])
  }

  /** What stands behind the delimiter on a key's line. */
  function FirstValue(f: Syntax, l: string): string
    requires HasKey(f, l)
  {
    FoundAt(StripComment(f, l), f.delim);
    StripComment(f, l)[Find(StripComment(f, l), f.delim) + |f.delim|..]
  }

  // ----- The reader by lines

  /** Between entries, or in the value of one. */
  datatype Progress = Outside | Inside(key: string, value: string)

  predicate Continues(f: Syntax, pr: Progress, l: string) {
    pr.Inside? && !HasKey(f, l) && !Blank(l)
  }

  /** A value with a line joined to it; the blank rest of a comment line is joined without a newline. */
  function Joins(f: Syntax, value: string, l: string): string {
    (if Blank(StripComment(f, l)) then value else value + "\n") + StripComment(f, l)
  }

  function Next(f: Syntax, pr: Progress, l: string): Progress {
    if HasKey(f, l) then Inside(KeyOf(f, l), FirstValue(f, l))
    else if Continues(f, pr, l) then Inside(pr.key, Joins(f, pr.value, l))
    else Outside
  }

  function Flush(pr: Progress): seq<(string, string)> {
    match pr
    case Outside => []
    case Inside(k, v) => [(k, Trim(v))]
  }

  /** The entries stored, in order: a line with a key, a blank line or the end closes the one before. */
  function Events(f: Syntax, lines: seq<string>, pr: Progress): seq<(string, string)>
    decreases |lines|
  {
    if lines == [] then Flush(pr)
    else (if Continues(f, pr, lines[0]) then [] else Flush(pr)) + Events(f, lines[1..], Next(f, pr, lines[0]))
  }

  /** Entries stored one after the other, later ones over earlier ones. */
  function Put(m: map<string, string>, ps: seq<(string, string)>): map<string, string>
    decreases |ps|
  {
    if ps == [] then m else Put(m[ps[0].0 := ps[0].1], ps[1..])
  }

  // ----- Getline and the comment marker

  lemma {:induction false} FirstLineOf(l: string, rest: string)
    requires OneLine(l)
    ensures FirstLine(l + "\n" + rest) == l
  {
    if l != "" {
      assert (l + "\n" + rest)[1..] == l[1..] + "\n" + rest;
      assert l[0] in l;
      assert forall c | c in l[1..] :: c in l;
      FirstLineOf(l[1..], rest);
    }
  }

  lemma GetlineOf(l: string, rest: string, pending: string)
    requires OneLine(l)
    ensures Getline(Open(l + "\n" + rest), pending) == (Open(rest), l)
  {
    FirstLineOf(l, rest);
    assert (l + "\n" + rest)[|l| + 1..] == rest;
  }

  lemma {:induction false} LineToTheEnd(c: string)
    requires OneLine(c)
    ensures FirstLine(c) == c
  {
    if c != "" {
      assert c[0] in c;
      assert forall x | x in c[1..] :: x in c;
      LineToTheEnd(c[1..]);
    }
  }

  lemma StripNothing(f: Syntax, l: string)
    requires Free(l, f.comm)
    ensures StripComment(f, l) == l
  {
  }

  lemma FindNothing(s: string)
    ensures Find(s, "") == 0
  {
    assert s[0..] == s;
  }

  /** Stripping is cutting a line short, and done once for all. */
  lemma StripSpec(f: Syntax, l: string)
    ensures StripComment(f, l) <= l
    ensures StripComment(f, StripComment(f, l)) == StripComment(f, l)
    ensures OneLine(l) ==> OneLine(StripComment(f, l))
    ensures f.comm != "" ==> Free(StripComment(f, l), f.comm)
  {
    if f.comm == "" {
      FindNothing(l);
      FindNothing("");
    } else {
      if Find(l, f.comm) != -1 {
        FreeBefore(l, f.comm);
      }
      StripNothing(f, StripComment(f, l));
    }
  }

  lemma EmptyHasNoKey(f: Syntax)
    requires f.delim != ""
    ensures !HasKey(f, "") && Blank("")
  {
    StripSpec(f, "");
    assert StripComment(f, "") == "";
    NotInEmpty(f.delim);
  }

  lemma NotInEmpty(pat: string)
    requires pat != ""
    ensures Find("", pat) == -1
  {
  }

  lemma KeyIsNotEmpty(f: Syntax, l: string)
    requires f.delim != "" && HasKey(f, l)
    ensures l != ""
  {
    EmptyHasNoKey(f);
  }

  /** A key line is the same with its comment stripped. */
  lemma StrippedKey(f: Syntax, l: string)
    requires HasKey(f, l)
    ensures var l1 := StripComment(f, l);
      HasKey(f, l1) && KeyOf(f, l1) == KeyOf(f, l) && FirstValue(f, l1) == FirstValue(f, l)
  {
    hide Find, StripComment, Trim;
    StripSpec(f, l);
  }

  // ----- The loops of the reader, one line at a time

  /** Storing what a value was read to, and reading on. */
  function Finish(f: Syntax, k: string, m: map<string, string>, r: (Stream, string, string)): map<string, string> {
    ReadAll(f, r.0, r.1, m[k := Trim(r.2)])
  }

  /** What the inner loop does once it has read the line l and the stream is st. */
  function ValueStep(f: Syntax, st: Stream, l: string, v: string): (Stream, string, string) {
    if Blank(l) then (st, l, v)
    else if HasKey(f, l) then (st, StripComment(f, l), v)
    else ReadValue(f, st, StripComment(f, l), Joins(f, v, l))
  }

  lemma ValueLine(f: Syntax, l: string, rest: string, pending: string, v: string)
    requires OneLine(l)
    ensures ReadValue(f, Open(l + "\n" + rest), pending, v) == ValueStep(f, Open(rest), l, v)
  {
    hide Getline, StripComment, Find, Trim;
    GetlineOf(l, rest, pending);
  }

  lemma LineRead(f: Syntax, l: string, rest: string, m: map<string, string>)
    requires f.delim != "" && OneLine(l)
    ensures ReadAll(f, Open(l + "\n" + rest), "", m) == ReadAll(f, Open(rest), l, m)
  {
    hide Getline, StripComment, Find, ReadValue, Trim;
    GetlineOf(l, rest, "");
    EmptyHasNoKey(f);
  }

  lemma NoKeyLine(f: Syntax, st: Stream, l: string, m: map<string, string>)
    requires !HasKey(f, l)
    ensures ReadAll(f, st, l, m) == ReadAll(f, st, "", m)
  {
    hide Getline, StripComment, Find, ReadValue;
  }

  lemma KeyLineRead(f: Syntax, st: Stream, l: string, m: map<string, string>)
    requires HasKey(f, l) && l != ""
    ensures ReadAll(f, st, l, m) == Finish(f, KeyOf(f, l), m, ReadValue(f, st, "", FirstValue(f, l)))
  {
    hide Getline, ReadValue, Trim, Find, StripComment;
    FoundAt(StripComment(f, l), f.delim);
  }

  // ----- At the end of the input

  const ENDED: Stream := Stream("", true, false)
  const FAILED: Stream := Stream("", true, true)

  lemma AtEnd(f: Syntax, pending: string, line: string)
    ensures ReadValue(f, Open(""), pending, line) == (FAILED, "", line)
  {
  }

  lemma EndOfAll(f: Syntax, st: Stream, m: map<string, string>)
    requires f.delim != "" && (st == Open("") || st == ENDED || st == FAILED)
    ensures ReadAll(f, st, "", m) == m
  {
    hide StripComment, Find, ReadValue;
    EmptyHasNoKey(f);
    if !st.fail {
      assert Getline(st, "") == (FAILED, "");
      assert ReadAll(f, st, "", m) == ReadAll(f, FAILED, "", m);
    }
  }

  // ----- The reader stores the entries

  lemma PutFirst(m: map<string, string>, k: string, v: string, es: seq<(string, string)>)
    ensures Put(m, [(k, v)] + es) == Put(m[k := v], es)
  {
    assert ([(k, v)] + es)[1..] == es;
  }

  lemma {:induction false} OutsideByLines(f: Syntax, lines: seq<string>, m: map<string, string>)
    requires f.delim != "" && AllOneLine(lines)
    ensures ReadAll(f, Open(Ended(lines)), "", m) == Put(m, Events(f, lines, Outside))
    decreases |lines|, 1
  {
    hide ReadAll, ReadValue, HasKey, Trim;
    if lines == [] {
      EndOfAll(f, Open(""), m);
    } else {
      var l, rest := lines[0], lines[1..];
      LineRead(f, l, Ended(rest), m);
      assert [] + Events(f, rest, Next(f, Outside, l)) == Events(f, rest, Next(f, Outside, l));
      if HasKey(f, l) {
        KeyByLines(f, rest, l, m);
      } else {
        NoKeyLine(f, Open(Ended(rest)), l, m);
        OutsideByLines(f, rest, m);
      }
    }
  }

  lemma {:induction false} KeyByLines(f: Syntax, lines: seq<string>, l: string, m: map<string, string>)
    requires f.delim != "" && AllOneLine(lines) && HasKey(f, l)
    ensures ReadAll(f, Open(Ended(lines)), l, m) == Put(m, Events(f, lines, Inside(KeyOf(f, l), FirstValue(f, l))))
    decreases |lines|, 3
  {
    hide ReadAll, ReadValue, HasKey, Trim, Finish;
    KeyIsNotEmpty(f, l);
    KeyLineRead(f, Open(Ended(lines)), l, m);
    InsideByLines(f, lines, "", KeyOf(f, l), FirstValue(f, l), m);
  }

  lemma {:induction false} InsideByLines(
      f: Syntax, lines: seq<string>, pending: string, k: string, v: string, m: map<string, string>)
    requires f.delim != "" && AllOneLine(lines)
    ensures Finish(f, k, m, ReadValue(f, Open(Ended(lines)), pending, v)) == Put(m, Events(f, lines, Inside(k, v)))
    decreases |lines|, 2
  {
    hide ReadAll, ReadValue, HasKey, Trim, Find, StripComment, KeyOf, FirstValue, Joins;
    var m' := m[k := Trim(v)];
    if lines == [] {
      AtEnd(f, pending, v);
      EndOfAll(f, FAILED, m');
      assert Put(m, [(k, Trim(v))]) == m';
    } else {
      var l, rest := lines[0], lines[1..];
      ValueLine(f, l, Ended(rest), pending, v);
      if Continues(f, Inside(k, v), l) {
        InsideByLines(f, rest, StripComment(f, l), k, Joins(f, v, l), m);
        assert [] + Events(f, rest, Inside(k, Joins(f, v, l))) == Events(f, rest, Inside(k, Joins(f, v, l)));
      } else {
        PutFirst(m, k, Trim(v), Events(f, rest, Next(f, Inside(k, v), l)));
        if HasKey(f, l) {
          StrippedKey(f, l);
          KeyByLines(f, rest, if Blank(l) then l else StripComment(f, l), m');
        } else {
          NoKeyLine(f, Open(Ended(rest)), l, m');
          OutsideByLines(f, rest, m');
        }
      }
    }
  }

  /** The reader, whose loops look a line ahead, stores exactly the entries found line by line, in order. */
  lemma ReaderByLines(f: Syntax, lines: seq<string>)
    requires f.delim != "" && AllOneLine(lines)
    ensures Read(f, Ended(lines)) == Put(map[], Events(f, lines, Outside))
  {
    OutsideByLines(f, lines, map[]);
  }

  lemma {:induction false} PutSpec(m: map<string, string>, ps: seq<(string, string)>, all: map<string, string>)
    requires forall i | 0 <= i < |ps| :: ps[i].0 in all && all[ps[i].0] == ps[i].1
    requires forall k | k in m :: k in all && all[k] == m[k]
    ensures forall k | k in Put(m, ps) :: k in all && all[k] == Put(m, ps)[k]
    ensures forall k :: k in Put(m, ps) <==> k in m || exists i :: 0 <= i < |ps| && ps[i].0 == k
    decreases |ps|
  {
    if ps != [] {
      var m' := m[ps[0].0 := ps[0].1];
      PutSpec(m', ps[1..], all);
      assert forall i | 0 <= i < |ps[1..]| :: ps[1..][i] == ps[i + 1];
      forall k
        ensures k in Put(m, ps) <==> k in m || exists i :: 0 <= i < |ps| && ps[i].0 == k
      {
        if i :| 0 <= i < |ps| && ps[i].0 == k && i > 0 {
          assert ps[1..][i - 1].0 == k;
        }
      }
    }
  }

  /** Every entry of the map was stored. */
  lemma {:induction false} PutStores(m: map<string, string>, es: seq<(string, string)>, k: string)
    requires k in Put(m, es)
    ensures (k, Put(m, es)[k]) in es || (k in m && Put(m, es)[k] == m[k])
    decreases |es|
  {
    if es != [] {
      PutStores(m[es[0].0 := es[0].1], es[1..], k);
      assert es == [es[0]] + es[1..];
    }
  }

  /** Keys and values stored are trimmed, and keys are of one line. */
  lemma {:induction false} EventsTrimmed(f: Syntax, lines: seq<string>, pr: Progress)
    requires AllOneLine(lines) && (pr.Inside? ==> Trimmed(pr.key) && OneLine(pr.key))
    ensures forall e | e in Events(f, lines, pr) :: Trimmed(e.0) && OneLine(e.0) && Trimmed(e.1)
    decreases |lines|
  {
    hide Trim, HasKey, KeyOf, FirstValue, Joins, Trimmed;
    if pr.Inside? {
      TrimmedTrim(pr.value);
    }
    if lines != [] {
      var l := lines[0];
      if HasKey(f, l) {
        KeyIsTrimmed(f, l);
      }
      EventsTrimmed(f, lines[1..], Next(f, pr, l));
    }
  }

  lemma TrimmedTrim(s: string)
    ensures Trimmed(Trim(s)) && (OneLine(s) ==> OneLine(Trim(s)))
  {
    hide Trim;
    var l, r := TrimSpec(s);
    assert forall c | c in Trim(s) :: c in s;
  }

  lemma KeyIsTrimmed(f: Syntax, l: string)
    requires HasKey(f, l) && OneLine(l)
    ensures Trimmed(KeyOf(f, l)) && OneLine(KeyOf(f, l))
  {
    hide Trim, Find, StripComment;
    StripSpec(f, l);
    FoundAt(StripComment(f, l), f.delim);
    TrimmedTrim(StripComment(f, l)[..Find(StripComment(f, l), f.delim)]);
  }

  // ----- Texts as lines

  lemma {:induction false} LinesOfFirst(l: string, rest: string)
    requires OneLine(l)
    ensures Lines(l + "\n" + rest) == [l] + Lines(rest)
  {
    var s := l + "\n" + rest;
    if l == "" {
      assert s[1..] == rest;
    } else {
      assert s[1..] == l[1..] + "\n" + rest;
      assert l[0] in l;
      assert forall c | c in l[1..] :: c in l;
      LinesOfFirst(l[1..], rest);
      assert [l[0]] + l[1..] == l;
    }
  }

  lemma FirstPart(text: string) returns (l: string, rest: string)
    ensures OneLine(l) && (text == l || (text == l + "\n" + rest && |rest| < |text|))
    ensures text == l ==> Lines(text) == [l]
    ensures text != l ==> Lines(text) == [l] + Lines(rest) && text + "\n" == l + "\n" + (rest + "\n")
  {
    FirstLineSpec(text);
    l := FirstLine(text);
    if |l| == |text| {
      LinesOfOneLine(text);
      rest := "";
    } else {
      rest := text[|l| + 1..];
      assert text == l + "\n" + rest;
      LinesOfFirst(l, rest);
    }
  }

  /** A text whose last line ends in a newline is its lines, ended. */
  lemma {:induction false} TextLines(text: string) returns (lines: seq<string>)
    requires text == "" || text[|text| - 1] == '\n'
    ensures AllOneLine(lines) && text == Ended(lines)
    decreases |text|
  {
    if text == "" {
      lines := [];
    } else {
      var l, rest := FirstPart(text);
      assert text != l by { assert '\n' in text; }
      assert rest != "" ==> rest[|rest| - 1] == '\n';
      var more := TextLines(rest);
      lines := [l] + more;
      assert lines[1..] == more;
    }
  }
}
