// The configuration file: the reader, which looks one line ahead to join multi-line values, and the
// writer. Reading back what was written gives the same map exactly when the map is one the reader
// can produce at all.
module ConfigFile {
  import opened Strings

  /** The separator between key and value, and the start of a comment. */
  datatype Syntax = Syntax(delim: string, comm: string)
  {
    /** The markers are not empty and hold no white space, as the defaults "=" and "#" do not. */
    predicate Plain() {
      delim != "" && NoWhite(delim) && comm != "" && NoWhite(comm)
    }

    /** Less is enough for the reader alone: no newline in them and no white space at their ends. */
    predicate Sturdy() {
      && delim != "" && OneLine(delim) && !White(delim[|delim| - 1])
      && comm != "" && OneLine(comm) && !White(comm[|comm| - 1])
    }
  }

  const DEFAULT: Syntax := Syntax("=", "#")

  // ----- The input stream

  datatype Stream = Stream(rest: string, eof: bool, fail: bool)
  {
    predicate Good() {
      !eof && !fail
    }

    /** Falls with every line read, down to 0 in the failed state. */
    function Measure(): nat {
      if fail then 0 else if eof then 1 else 2 + |rest|
    }
  }

  function Open(text: string): Stream {
    Stream(text, false, false)
  }

  /** The text up to the first newline. */
  function FirstLine(s: string): string {
    if s == "" || s[0] == '\n' then "" else [s[0]] + FirstLine(s[1..])
  }

  /**
   * std::getline: on a stream that is not good it fails and leaves the string alone; at the end of
   * the input it takes what is left, and fails if that is nothing.
   */
  function Getline(st: Stream, old_line: string): (r: (Stream, string))
    ensures !st.fail ==> r.0.Measure() < st.Measure()
    ensures st.fail ==> r.0.fail
    ensures OneLine(old_line) ==> OneLine(r.1)
  {
    FirstLineSpec(st.rest);
    if !st.Good() then (st.(fail := true), old_line)
    else
      var line := FirstLine(st.rest);
      if |line| < |st.rest| then (Open(st.rest[|line| + 1..]), line)
      else (Stream("", true, st.rest == ""), line)
  }

  lemma {:induction false} FirstLineSpec(s: string)
    ensures FirstLine(s) <= s && OneLine(FirstLine(s))
    ensures |FirstLine(s)| < |s| ==> s[|FirstLine(s)|] == '\n'
  {
    if s != "" && s[0] != '\n' {
      FirstLineSpec(s[1..]);
    }
  }

  // ----- The reader

  function StripComment(f: Syntax, line: string): string {
    var i := Find(line, f.comm);
    if i == -1 then line else line[..i]
  }

  /** The lines after a key's line, up to a blank line, a line with a key or the end: (stream, pending line, value). */
  function ReadValue(f: Syntax, st: Stream, nextline: string, line: string): (r: (Stream, string, string))
    ensures r.0.Measure() <= st.Measure()
    ensures !st.fail ==> r.0.Measure() < st.Measure()
    ensures st.fail ==> r == (st, nextline, line)
    decreases st.Measure()
  {
    if st.fail then (st, nextline, line)
    else
      var (st1, nl) := Getline(st, nextline);
      if Trim(nl) == "" then (st1, nl, line)
      else
        var nl1 := StripComment(f, nl);
        if Find(nl1, f.delim) != -1 then (st1, nl1, line)
        else ReadValue(f, st1, nl1, (if Trim(nl1) != "" then line + "\n" else line) + nl1)
  }

  /** The whole input, starting with a pending line if there is one. */
  function ReadAll(f: Syntax, st: Stream, nextline: string, m: map<string, string>): map<string, string>
    decreases st.Measure(), |nextline|
  {
    if st.fail && nextline == "" then m
    else
      var (st0, line0) := if nextline != "" then (st, nextline) else Getline(st, "");
      var line := StripComment(f, line0);
      var d := Find(line, f.delim);
      if d == -1 then ReadAll(f, st0, "", m)
      else
        var (st1, nl1, v) := ReadValue(f, st0, "", line[d + |f.delim|..]);
        ReadAll(f, st1, nl1, m[Trim(line[..d]) := Trim(v)])
  }

  function Read(f: Syntax, text: string): map<string, string> {
    ReadAll(f, Open(text), "", map[])
  }

  // ----- The writer

  /** The entries in the order the map yields them. */
  function Print(f: Syntax, ps: seq<(string, string)>): string {
    if ps == [] then "" else PrintEntry(f, ps[0]) + Print(f, ps[1..])
  }

  function PrintEntry(f: Syntax, p: (string, string)): string {
    p.0 + " " + f.delim + " " + (p.1 + "\n")
  }

  function Pairs(m: map<string, string>, order: seq<string>): seq<(string, string)>
    requires forall k | k in order :: k in m
  {
    if order == [] then [] else [(order[0], m[order[0]])] + Pairs(m, order[1..])
  }

  /** ps lists the entries of m, each key once. */
  ghost predicate Enumerates(ps: seq<(string, string)>, m: map<string, string>) {
    && (forall i | 0 <= i < |ps| :: ps[i].0 in m && m[ps[i].0] == ps[i].1)
    && (forall k | k in m :: exists i :: 0 <= i < |ps| && ps[i].0 == k)
    && (forall i, j | 0 <= i < j < |ps| :: ps[i].0 != ps[j].0)
  }

  /** An iteration order of m: every key of it once. */
  ghost predicate Iterates(order: seq<string>, m: map<string, string>) {
    && (forall i | 0 <= i < |order| :: order[i] in m) && (forall k | k in m :: k in order)
    && (forall i, j | 0 <= i < j < |order| :: order[i] != order[j])
  }

  lemma {:induction false} PairsAt(m: map<string, string>, order: seq<string>)
    requires forall k | k in order :: k in m
    ensures |Pairs(m, order)| == |order|
    ensures forall i | 0 <= i < |order| :: Pairs(m, order)[i] == (order[i], m[order[i]])
    decreases |order|
  {
    if order != [] {
      PairsAt(m, order[1..]);
    }
  }

  /** What the writer goes through are the entries of the map. */
  lemma PairsEnumerate(m: map<string, string>, order: seq<string>)
    requires Iterates(order, m)
    ensures forall k | k in order :: k in m
    ensures Enumerates(Pairs(m, order), m)
  {
    hide Pairs;
    PairsAt(m, order);
    forall k | k in m
      ensures exists i :: 0 <= i < |Pairs(m, order)| && Pairs(m, order)[i].0 == k
    {
      var i :| 0 <= i < |order| && order[i] == k;
      assert Pairs(m, order)[i].0 == k;
    }
  }

  // ----- The object

  class Config {
    var delimiter: string
    var comment: string
    var contents: map<string, string>

    function Marks(): Syntax
      reads this
    {
      Syntax(delimiter, comment)
    }

    constructor ()
      ensures delimiter == "=" && comment == "#" && Marks() == DEFAULT && contents == map[]
    {
      delimiter, comment, contents := "=", "#", map[];
    }

    /** The inner loop of operator>>: joins the lines a value goes on over. */
    static method JoinLines(f: Syntax, input: Stream, pending: string, first: string)
      returns (st: Stream, nextline: string, line: string)
      ensures (st, nextline, line) == ReadValue(f, input, pending, first)
    {
      hide Getline, StripComment, Trim, Find;
      st, nextline, line := input, pending, first;
      var terminate := false;
      while !terminate && !st.fail
        invariant ReadValue(f, input, pending, first) == if terminate then (st, nextline, line) else ReadValue(f, st, nextline, line)
        decreases !terminate, st.Measure()
      {
        var next := Getline(st, nextline);
        st, nextline := next.0, next.1;
        terminate := true;
        if Trim(nextline) != "" {
          nextline := StripComment(f, nextline);
          if Find(nextline, f.delim) == -1 {
            if Trim(nextline) != "" {
              line := line + "\n";
            }
            line := line + nextline;
            terminate := false;
          }
        }
      }
    }

    /** operator>>: entries are added to those already there. */
    method ReadFrom(input: Stream)
      modifies `contents
      ensures contents == ReadAll(Marks(), input, "", old(contents))
    {
      hide Getline, StripComment, Trim, Find, ReadValue;
      var f := Marks();
      var st := input;
      var nextline := "";
      while !st.fail || |nextline| > 0
        invariant ReadAll(f, st, nextline, contents) == ReadAll(f, input, "", old(contents))
        decreases st.Measure(), |nextline|
      {
        var line;
        if |nextline| > 0 {
          line := nextline;
          nextline := "";
        } else {
          var next := Getline(st, "");
          st, line := next.0, next.1;
        }
        line := StripComment(f, line);
        var delimPos := Find(line, f.delim);
        if delimPos != -1 {
          var key := line[..delimPos];
          line := line[delimPos + |f.delim|..];
          st, nextline, line := JoinLines(f, st, nextline, line);
          contents := contents[Trim(key) := Trim(line)];
        }
      }
    }

    /** operator<<, for the iteration order of the map. */
    method WriteTo(order: seq<string>) returns (os: string)
      requires forall k | k in order :: k in contents
      ensures os == Print(Marks(), Pairs(contents, order))
    {
      os := "";
      for i := 0 to |order|
        invariant os + Print(Marks(), Pairs(contents, order[i..])) == Print(Marks(), Pairs(contents, order))
      {
        hide Print;
        ghost var before := os;
        PrintFirst(Marks(), contents, order, i);
        os := os + (order[i] + " " + delimiter + " ");
        os := os + (contents[order[i]] + "\n");
        assert os == before + PrintEntry(Marks(), (order[i], contents[order[i]]));
        Associate(before, PrintEntry(Marks(), (order[i], contents[order[i]])), Print(Marks(), Pairs(contents, order[i + 1..])));
      }
      assert Print(Marks(), Pairs(contents, order[|order|..])) == "";
    }
  }

  lemma Associate(a: string, b: string, c: string)
    ensures a + b + c == a + (b + c)
  {
  }

  lemma PrintFirst(f: Syntax, m: map<string, string>, order: seq<string>, i: int)
    requires 0 <= i < |order| && forall k | k in order :: k in m
    ensures Print(f, Pairs(m, order[i..])) == PrintEntry(f, (order[i], m[order[i]])) + Print(f, Pairs(m, order[i + 1..]))
  {
    assert order[i..][1..] == order[i + 1..];
  }
}
