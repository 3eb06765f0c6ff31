// Which maps survive being written and read back, for nearly all markers: exactly those of which every
// printed line reads as it was meant.
module ConfigExact {
  import opened Strings
  import opened ConfigFile
  import opened ConfigLines

  type Pair = (string, string)

  // ----- The printed file, line by line

  /** The line that carries the key. */
  function Head(f: Syntax, p: Pair): string {
    p.0 + " " + f.delim + " " + Lines(p.1)[0]
  }

  /** The lines the value goes on over. */
  function Conts(p: Pair): seq<string> {
    Lines(p.1)[1..]
  }

  function AllLines(f: Syntax, ps: seq<Pair>): seq<string> {
    if ps == [] then [] else [Head(f, ps[0])] + Conts(ps[0]) + AllLines(f, ps[1..])
  }

  lemma {:induction false} JoinedEnded(lines: seq<string>)
    requires |lines| >= 1
    ensures Joined(lines) + "\n" == lines[0] + "\n" + Ended(lines[1..])
  {
    if |lines| > 1 {
      JoinedEnded(lines[1..]);
      assert Joined(lines) + "\n" == lines[0] + "\n" + (Joined(lines[1..]) + "\n");
    }
  }

  lemma EntryIsHead(f: Syntax, p: Pair)
    ensures PrintEntry(f, p) == Head(f, p) + "\n" + Ended(Conts(p))
  {
    JoinedLines(p.1);
    JoinedEnded(Lines(p.1));
    var key := p.0 + " " + f.delim + " ";
    assert key + (p.1 + "\n") == key + (Lines(p.1)[0] + "\n" + Ended(Conts(p)));
    assert key + (Lines(p.1)[0] + "\n" + Ended(Conts(p))) == key + Lines(p.1)[0] + "\n" + Ended(Conts(p));
  }

  lemma {:induction false} EndedJoin(a: seq<string>, b: seq<string>)
    ensures Ended(a + b) == Ended(a) + Ended(b)
    decreases |a|
  {
    if a == [] {
      assert a + b == b;
    } else {
      assert (a + b)[0] == a[0] && (a + b)[1..] == a[1..] + b;
      EndedJoin(a[1..], b);
      assert a[0] + "\n" + (Ended(a[1..]) + Ended(b)) == a[0] + "\n" + Ended(a[1..]) + Ended(b);
    }
  }

  lemma {:induction false} PrintIsLines(f: Syntax, ps: seq<Pair>)
    ensures Print(f, ps) == Ended(AllLines(f, ps))
    decreases |ps|
  {
    hide Head, Conts, PrintEntry;
    if ps != [] {
      var h, cs, more := Head(f, ps[0]), Conts(ps[0]), AllLines(f, ps[1..]);
      EntryIsHead(f, ps[0]);
      PrintIsLines(f, ps[1..]);
      EndedJoin([h] + cs, more);
      assert ([h] + cs)[1..] == cs;
    }
  }

  lemma {:induction false} AllLinesAreOneLine(f: Syntax, ps: seq<Pair>)
    requires OneLine(f.delim) && forall i | 0 <= i < |ps| :: OneLine(ps[i].0)
    ensures AllOneLine(AllLines(f, ps))
    decreases |ps|
  {
    hide Lines;
    if ps != [] {
      LinesAreOneLine(ps[0].1);
      AllLinesAreOneLine(f, ps[1..]);
      assert OneLine(" ") && OneLine(Head(f, ps[0]));
      assert forall i | 0 <= i < |Conts(ps[0])| :: Conts(ps[0])[i] == Lines(ps[0].1)[i + 1];
    }
  }

  // ----- What an entry has to be like

  /** A line a value may go on with. */
  ghost predicate ContinuationOk(f: Syntax, c: string) {
    !Blank(c) && Free(c, f.delim)
  }

  /**
   * The entry reads as it was meant: trimmed, with a key of one line, no comment in any line it is
   * printed on, no delimiter in front of the one printed nor in another line, and no blank line.
   */
  ghost predicate EntryCarries(f: Syntax, p: Pair) {
    && Trimmed(p.0) && OneLine(p.0) && Trimmed(p.1)
    && Free(Head(f, p), f.comm) && Find(Head(f, p), f.delim) >= |p.0|
    && forall c | c in Conts(p) :: ContinuationOk(f, c) && Free(c, f.comm)
  }

  ghost predicate Carries(f: Syntax, m: map<string, string>) {
    forall k | k in m :: EntryCarries(f, (k, m[k]))
  }

  /** The lines of the entry are taken whole, and are one entry to the reader. */
  ghost predicate Stands(f: Syntax, p: Pair) {
    && HasKey(f, Head(f, p)) && StripComment(f, Head(f, p)) == Head(f, p)
    && forall c | c in Conts(p) :: !HasKey(f, c) && !Blank(c) && StripComment(f, c) == c
  }

  function Extended(line: string, cs: seq<string>): string
    decreases |cs|
  {
    if cs == [] then line else Extended(line + "\n" + cs[0], cs[1..])
  }

  lemma {:induction false} ContinuationEvents(f: Syntax, cs: seq<string>, more: seq<string>, k: string, v: string)
    requires forall c | c in cs :: !HasKey(f, c) && !Blank(c) && StripComment(f, c) == c
    ensures Events(f, cs + more, Inside(k, v)) == Events(f, more, Inside(k, Extended(v, cs)))
    decreases |cs|
  {
    hide HasKey, StripComment, Trim;
    if cs == [] {
      assert cs + more == more;
    } else {
      var c := cs[0];
      assert (cs + more)[0] == c && (cs + more)[1..] == cs[1..] + more;
      assert Joins(f, v, c) == v + "\n" + c;
      ContinuationEvents(f, cs[1..], more, k, v + "\n" + c);
    }
  }

  /** What the reader makes of an entry that stands. */
  function ReadEntry(f: Syntax, p: Pair): Pair
    requires HasKey(f, Head(f, p))
  {
    (KeyOf(f, Head(f, p)), Trim(Extended(FirstValue(f, Head(f, p)), Conts(p))))
  }

  ghost predicate AllStand(f: Syntax, ps: seq<Pair>) {
    forall i | 0 <= i < |ps| :: Stands(f, ps[i])
  }

  ghost function ReadEntries(f: Syntax, ps: seq<Pair>): (r: seq<Pair>)
    requires AllStand(f, ps)
    ensures |r| == |ps|
    decreases |ps|
  {
    if ps == [] then [] else [ReadEntry(f, ps[0])] + ReadEntries(f, ps[1..])
  }

  lemma {:induction false} ReadEntryAt(f: Syntax, ps: seq<Pair>, i: nat)
    requires AllStand(f, ps) && i < |ps|
    ensures HasKey(f, Head(f, ps[i])) && ReadEntries(f, ps)[i] == ReadEntry(f, ps[i])
    decreases |ps|
  {
    hide ReadEntry;
    assert Stands(f, ps[i]);
    if i > 0 {
      ReadEntryAt(f, ps[1..], i - 1);
    }
  }

  lemma {:induction false} AllEvents(f: Syntax, ps: seq<Pair>, pr: Progress)
    requires AllStand(f, ps)
    ensures Events(f, AllLines(f, ps), pr) == Flush(pr) + ReadEntries(f, ps)
    decreases |ps|
  {
    hide HasKey, StripComment, Trim, Head, Conts, KeyOf, FirstValue, Extended, Blank;
    if ps != [] {
      var p, rest := ps[0], AllLines(f, ps[1..]);
      var h := Head(f, p);
      assert Stands(f, p);
      var lines := AllLines(f, ps);
      assert lines[0] == h && lines[1..] == Conts(p) + rest;
      ContinuationEvents(f, Conts(p), rest, KeyOf(f, h), FirstValue(f, h));
      AllEvents(f, ps[1..], Inside(KeyOf(f, h), Extended(FirstValue(f, h), Conts(p))));
    } else {
      assert Flush(pr) + [] == Flush(pr);
    }
  }

  // ----- What carries comes back

  lemma {:induction false} ExtendedJoined(line: string, cs: seq<string>)
    ensures Extended(line, cs) == Joined([line] + cs)
    decreases |cs|
  {
    if cs != [] {
      ExtendedJoined(line + "\n" + cs[0], cs[1..]);
      var rest := cs[1..];
      assert ([line] + cs)[1..] == cs;
      assert ([line + "\n" + cs[0]] + rest)[1..] == rest;
      if rest != [] {
        assert line + "\n" + cs[0] + "\n" + Joined(rest) == line + "\n" + (cs[0] + "\n" + Joined(rest));
      }
    }
  }

  lemma {:induction false} JoinedPrefix(a: string, lines: seq<string>)
    requires |lines| >= 1
    ensures Joined([a + lines[0]] + lines[1..]) == a + Joined(lines)
  {
    assert ([a + lines[0]] + lines[1..])[1..] == lines[1..];
    if |lines| > 1 {
      assert a + lines[0] + "\n" + Joined(lines[1..]) == a + (lines[0] + "\n" + Joined(lines[1..]));
    }
  }

  /** The printed delimiter is found at its place, or one before it if it is all blanks, or earlier. */
  lemma DelimiterFound(f: Syntax, p: Pair)
    requires f.delim != ""
    ensures var d := Find(Head(f, p), f.delim);
      0 <= d <= |p.0| + 1 && (d == |p.0| ==> forall i | 0 <= i < |f.delim| :: f.delim[i] == ' ')
  {
    hide Lines, Free;
    var h, k, rest := Head(f, p), p.0, " " + Lines(p.1)[0];
    assert h == k + " " + f.delim + rest;
    FoundOrEarlier(k, f.delim, rest);
  }

  lemma FoundOrEarlier(k: string, delim: string, rest: string)
    requires delim != ""
    ensures var d := Find(k + " " + delim + rest, delim);
      0 <= d <= |k| + 1 && (d == |k| ==> forall i | 0 <= i < |delim| :: delim[i] == ' ')
  {
    hide Find, OccursAt;
    PrintedPlace(k, delim, rest);
    NotLater(k + " " + delim + rest, delim, |k| + 1);
  }

  lemma PrintedPlace(k: string, delim: string, rest: string)
    ensures OccursAt(k + " " + delim + rest, delim, |k| + 1)
    ensures OccursAt(k + " " + delim + rest, delim, |k|) ==> forall i | 0 <= i < |delim| :: delim[i] == ' '
  {
    var h := k + " " + delim + rest;
    assert h[|k| + 1..] == delim + rest;
    assert h[|k|..] == " " + delim + rest;
    if OccursAt(h, delim, |k|) {
      AllBlanks(delim, rest);
    }
  }

  lemma NotLater(s: string, pat: string, i: int)
    requires OccursAt(s, pat, i)
    ensures 0 <= Find(s, pat) <= i && OccursAt(s, pat, Find(s, pat))
  {
    assert !Free(s, pat);
  }

  lemma AllBlanks(delim: string, rest: string)
    requires delim <= " " + delim + rest
    ensures forall i | 0 <= i < |delim| :: delim[i] == ' '
  {
    var s := " " + delim + rest;
    assert forall j | 0 <= j < |delim| :: delim[j] == s[j] && s[j + 1] == delim[j];
    BlankUpTo(delim, s, |delim|);
  }

  lemma {:induction false} BlankUpTo(delim: string, s: string, n: nat)
    requires n <= |delim| < |s| && s[0] == ' '
    requires forall j | 0 <= j < |delim| :: delim[j] == s[j] && s[j + 1] == delim[j]
    ensures forall j | 0 <= j < n :: delim[j] == ' '
  {
    if n > 0 {
      BlankUpTo(delim, s, n - 1);
      if n > 1 {
        assert delim[n - 1] == s[n - 1] && s[n - 2 + 1] == delim[n - 2];
      }
    }
  }

  /** How a head is cut, when its first delimiter stands behind the key. */
  lemma HeadCut(f: Syntax, p: Pair) returns (w: string)
    requires f.delim != "" && Find(Head(f, p), f.delim) >= |p.0| && Trimmed(p.0)
    ensures var d := Find(Head(f, p), f.delim);
      && d + |f.delim| <= |Head(f, p)| && Trim(Head(f, p)[..d]) == p.0
      && AllWhite(w) && Head(f, p)[d + |f.delim|..] == w + Lines(p.1)[0]
  {
    hide Lines, Trim, Find;
    DelimiterFound(f, p);
    HeadSlices(p.0, f.delim, Lines(p.1)[0]);
    if Find(Head(f, p), f.delim) == |p.0| {
      TrimIs("", p.0, "");
      w := f.delim[|f.delim| - 1..] + " ";
    } else {
      TrimIs("", p.0, " ");
      w := " ";
    }
  }

  lemma HeadSlices(k: string, delim: string, l: string)
    requires delim != ""
    ensures var h := k + " " + delim + " " + l;
      && h[..|k|] == "" + k + "" && h[..|k| + 1] == "" + k + " "
      && h[|k| + |delim|..] == delim[|delim| - 1..] + " " + l && h[|k| + 1 + |delim|..] == " " + l
  {
  }

  lemma CarriedEntry(f: Syntax, p: Pair)
    requires f.delim != "" && EntryCarries(f, p)
    ensures Stands(f, p) && ReadEntry(f, p) == p
  {
    hide Lines, Trim, Find, Head, Extended;
    var h := Head(f, p);
    StripNothing(f, h);
    var w := HeadCut(f, p);
    forall c | c in Conts(p)
      ensures !HasKey(f, c) && !Blank(c) && StripComment(f, c) == c
    {
      StripNothing(f, c);
    }
    var l := Lines(p.1);
    ExtendedJoined(w + l[0], Conts(p));
    JoinedPrefix(w, l);
    JoinedLines(p.1);
    TrimIs(w, p.1, "");
    assert w + p.1 + "" == w + p.1;
  }

  lemma CarriedEntries(f: Syntax, ps: seq<Pair>)
    requires f.delim != "" && forall i | 0 <= i < |ps| :: EntryCarries(f, ps[i])
    ensures AllStand(f, ps) && ReadEntries(f, ps) == ps
  {
    hide EntryCarries, Stands, ReadEntry, ReadEntries;
    forall i | 0 <= i < |ps|
      ensures Stands(f, ps[i])
    {
      CarriedEntry(f, ps[i]);
    }
    forall i | 0 <= i < |ps|
      ensures ReadEntries(f, ps)[i] == ps[i]
    {
      CarriedEntry(f, ps[i]);
      ReadEntryAt(f, ps, i);
    }
  }

  /** What is printed and read back, for entries that stand. */
  lemma StandingRead(f: Syntax, ps: seq<Pair>)
    requires f.delim != "" && OneLine(f.delim) && (forall i | 0 <= i < |ps| :: OneLine(ps[i].0)) && AllStand(f, ps)
    ensures Read(f, Print(f, ps)) == Put(map[], ReadEntries(f, ps))
  {
    hide Read, Print, Stands, ReadEntries;
    PrintIsLines(f, ps);
    AllLinesAreOneLine(f, ps);
    ReaderByLines(f, AllLines(f, ps));
    AllEvents(f, ps, Outside);
    assert Flush(Outside) + ReadEntries(f, ps) == ReadEntries(f, ps);
  }

  /** Whatever the markers, a map of which every entry carries comes back, in whatever order it was written. */
  lemma CarriedComesBack(f: Syntax, m: map<string, string>, ps: seq<Pair>)
    requires f.delim != "" && OneLine(f.delim) && Enumerates(ps, m) && Carries(f, m)
    ensures Read(f, Print(f, ps)) == m
  {
    hide Read, Print, EntryCarries, Stands, ReadEntries;
    forall i | 0 <= i < |ps|
      ensures EntryCarries(f, ps[i]) && OneLine(ps[i].0)
    {
      assert EntryCarries(f, (ps[i].0, m[ps[i].0]));
      CarriedKey(f, ps[i]);
    }
    CarriedEntries(f, ps);
    StandingRead(f, ps);
    PutSpec(map[], ps, m);
  }

  lemma CarriedKey(f: Syntax, p: Pair)
    requires EntryCarries(f, p)
    ensures OneLine(p.0)
  {
  }

  // ----- Nothing else comes back: the reader makes no characters

  /** The characters that trimming and joining cannot make: all that is not white, and newlines. */
  function Marks(s: string): nat {
    if s == "" then 0 else (if White(s[0]) && s[0] != '\n' then 0 else 1) + Marks(s[1..])
  }

  lemma {:induction false} MarksJoin(a: string, b: string)
    ensures Marks(a + b) == Marks(a) + Marks(b)
    decreases |a|
  {
    if a == "" {
      assert a + b == b;
    } else {
      assert (a + b)[0] == a[0] && (a + b)[1..] == a[1..] + b;
      MarksJoin(a[1..], b);
    }
  }

  lemma MarksJoin3(a: string, b: string, c: string)
    ensures Marks(a + b + c) == Marks(a) + Marks(b) + Marks(c)
  {
    MarksJoin(a + b, c);
    MarksJoin(a, b);
  }

  lemma {:induction false} MarksOfBlank(s: string)
    requires AllWhite(s) && OneLine(s)
    ensures Marks(s) == 0
  {
    if s != "" {
      assert s[0] in s;
      assert forall c | c in s[1..] :: c in s;
      MarksOfBlank(s[1..]);
    }
  }

  lemma MarksOfTrim(s: string)
    ensures Marks(Trim(s)) <= Marks(s)
  {
    hide Trim;
    var l, r := TrimSpec(s);
    MarksJoin3(l, Trim(s), r);
  }

  lemma SmallMarks()
    ensures Marks("\n") == 1 && Marks(" ") == 0 && Marks("") == 0
  {
    assert Marks("\n"[1..]) == 0;
    assert Marks(" "[1..]) == 0;
  }

  /** What an entry costs: its marks, and those of the delimiter and the newline it is printed with. */
  function Weight(f: Syntax, e: Pair): nat {
    Marks(e.0) + Marks(f.delim) + Marks(e.1) + 1
  }

  function Open1(f: Syntax, pr: Progress): nat {
    match pr
    case Outside => 0
    case Inside(k, v) => Weight(f, (k, v))
  }

  function Sum(es: seq<Pair>, w: Pair -> nat): nat {
    if es == [] then 0 else w(es[0]) + Sum(es[1..], w)
  }

  lemma {:induction false} SumJoin(a: seq<Pair>, b: seq<Pair>, w: Pair -> nat)
    ensures Sum(a + b, w) == Sum(a, w) + Sum(b, w)
    decreases |a|
  {
    if a == [] {
      assert a + b == b;
    } else {
      assert (a + b)[0] == a[0] && (a + b)[1..] == a[1..] + b;
      SumJoin(a[1..], b, w);
    }
  }

  /** Every line opens an entry or goes on one with something, and has no marks in a comment. */
  ghost predicate Tight(f: Syntax, lines: seq<string>, pr: Progress)
    decreases |lines|
  {
    lines == [] ||
    (var l := lines[0];
     && (HasKey(f, l) || (Continues(f, pr, l) && !Blank(StripComment(f, l))))
     && Marks(StripComment(f, l)) == Marks(l)
     && Tight(f, lines[1..], Next(f, pr, l)))
  }

  lemma StripMarks(f: Syntax, l: string)
    ensures Marks(StripComment(f, l)) <= Marks(l)
  {
    StripSpec(f, l);
    var s := StripComment(f, l);
    assert l == s + l[|s|..];
    MarksJoin(s, l[|s|..]);
  }

  lemma KeyMarks(f: Syntax, l: string)
    requires HasKey(f, l)
    ensures Weight(f, (KeyOf(f, l), FirstValue(f, l))) <= Marks(StripComment(f, l)) + 1
  {
    hide Trim, Find, StripComment;
    var s := StripComment(f, l);
    FoundAt(s, f.delim);
    var d := Find(s, f.delim);
    assert s == s[..d] + f.delim + s[d + |f.delim|..];
    MarksJoin3(s[..d], f.delim, s[d + |f.delim|..]);
    MarksOfTrim(s[..d]);
  }

  lemma JoinsMarks(f: Syntax, v: string, l: string)
    requires OneLine(l)
    ensures Marks(Joins(f, v, l)) == Marks(v) + if Blank(StripComment(f, l)) then 0 else Marks(StripComment(f, l)) + 1
  {
    hide Trim, StripComment;
    var s := StripComment(f, l);
    StripSpec(f, l);
    SmallMarks();
    if Blank(s) {
      BlankIsAllWhite(s);
      MarksOfBlank(s);
      MarksJoin(v, s);
    } else {
      MarksJoin3(v, "\n", s);
    }
  }

  /** A line adds no more to what is open than its marks and its newline, and only a tight one adds as much. */
  lemma StepWeight(f: Syntax, pr: Progress, l: string)
    requires OneLine(l)
    ensures Open1(f, Next(f, pr, l)) <= (if Continues(f, pr, l) then Open1(f, pr) else 0) + Marks(l) + 1
    ensures Open1(f, Next(f, pr, l)) == (if Continues(f, pr, l) then Open1(f, pr) else 0) + Marks(l) + 1 ==>
      && (HasKey(f, l) || (Continues(f, pr, l) && !Blank(StripComment(f, l))))
      && Marks(StripComment(f, l)) == Marks(l)
  {
    hide Trim, StripComment, Find, Marks, Joins, KeyOf, FirstValue, HasKey;
    StripMarks(f, l);
    if HasKey(f, l) {
      KeyMarks(f, l);
    } else if Continues(f, pr, l) {
      JoinsMarks(f, pr.value, l);
    }
  }

  /** The entries stored weigh no more than the file, and only as much if every line is tight. */
  lemma {:induction false} EventsWeight(f: Syntax, lines: seq<string>, pr: Progress, w: Pair -> nat)
    requires AllOneLine(lines) && forall e :: w(e) == Weight(f, e)
    ensures Sum(Events(f, lines, pr), w) <= Open1(f, pr) + Marks(Ended(lines))
    ensures Sum(Events(f, lines, pr), w) == Open1(f, pr) + Marks(Ended(lines)) ==> Tight(f, lines, pr)
    decreases |lines|
  {
    hide Marks, Trim, StripComment, Continues, HasKey, Next, Weight, Flush, Open1, Blank;
    FlushSum(f, pr, w);
    if lines == [] {
      SmallMarks();
    } else {
      var l, rest := lines[0], lines[1..];
      SmallMarks();
      MarksJoin3(l, "\n", Ended(rest));
      StepWeight(f, pr, l);
      EventsWeight(f, rest, Next(f, pr, l), w);
      var closed := if Continues(f, pr, l) then [] else Flush(pr);
      SumJoin(closed, Events(f, rest, Next(f, pr, l)), w);
    }
  }

  lemma FlushSum(f: Syntax, pr: Progress, w: Pair -> nat)
    requires forall e :: w(e) == Weight(f, e)
    ensures Sum(Flush(pr), w) <= Open1(f, pr) && Sum([], w) == 0
  {
    hide Marks, Trim;
    if pr.Inside? {
      MarksOfTrim(pr.value);
      var e := (pr.key, Trim(pr.value));
      assert [e][1..] == [];
      assert Sum([e], w) == w(e) + Sum([], w);
    }
  }

  lemma {:induction false} PrintWeight(f: Syntax, ps: seq<Pair>, w: Pair -> nat)
    requires forall e :: w(e) == Weight(f, e)
    ensures Marks(Print(f, ps)) == Sum(ps, w)
    decreases |ps|
  {
    hide Marks;
    SmallMarks();
    if ps != [] {
      var p := ps[0];
      MarksJoin(PrintEntry(f, p), Print(f, ps[1..]));
      MarksJoin3(p.0, " ", f.delim);
      MarksJoin(p.1, "\n");
      MarksJoin3(p.0 + " " + f.delim, " ", p.1 + "\n");
      PrintWeight(f, ps[1..], w);
    }
  }

  // ----- Lists of entries compared by weight

  lemma {:induction false} RemoveAt(es: seq<Pair>, j: nat, w: Pair -> nat)
    requires j < |es|
    ensures Sum(es, w) == w(es[j]) + Sum(es[..j] + es[j + 1..], w)
  {
    assert es == es[..j] + ([es[j]] + es[j + 1..]);
    SumJoin(es[..j], [es[j]] + es[j + 1..], w);
    assert ([es[j]] + es[j + 1..])[1..] == es[j + 1..];
    SumJoin(es[..j], es[j + 1..], w);
  }

  ghost predicate Distinct(ps: seq<Pair>) {
    forall i, j | 0 <= i < j < |ps| :: ps[i] != ps[j]
  }

  /** Different entries found in a list weigh no more than it; if as much, they are all of it. */
  lemma {:induction false} FoundInList(ps: seq<Pair>, es: seq<Pair>, w: Pair -> nat)
    requires Distinct(ps) && (forall e | e in ps :: e in es) && forall e :: w(e) >= 1
    ensures Sum(ps, w) <= Sum(es, w)
    ensures Sum(ps, w) == Sum(es, w) ==> |ps| == |es|
    decreases |ps|
  {
    if ps == [] {
      if es != [] {
        assert Sum(es, w) >= w(es[0]);
      }
    } else {
      assert ps[0] in ps && ps[0] in es;
      var j :| 0 <= j < |es| && es[j] == ps[0];
      var others := es[..j] + es[j + 1..];
      RemoveAt(es, j, w);
      OthersFound(ps, es, j);
      FoundInList(ps[1..], others, w);
    }
  }

  lemma OthersFound(ps: seq<Pair>, es: seq<Pair>, j: nat)
    requires Distinct(ps) && ps != [] && (forall e | e in ps :: e in es) && j < |es| && es[j] == ps[0]
    ensures Distinct(ps[1..]) && forall e | e in ps[1..] :: e in es[..j] + es[j + 1..]
  {
    assert es == es[..j] + [es[j]] + es[j + 1..];
    forall e | e in ps[1..]
      ensures e in es[..j] + es[j + 1..]
    {
      var i :| 0 <= i < |ps| - 1 && ps[1..][i] == e;
      assert ps[i + 1] == e && e in ps && e != ps[0];
      assert e in es[..j] + [es[j]] + es[j + 1..];
    }
  }

  /** As many different entries as the list has are a rearrangement of it: they weigh the same by any measure. */
  lemma {:induction false} SameSum(ps: seq<Pair>, es: seq<Pair>, w: Pair -> nat)
    requires Distinct(ps) && (forall e | e in ps :: e in es) && |ps| == |es|
    ensures Sum(ps, w) == Sum(es, w)
    decreases |ps|
  {
    if ps != [] {
      assert ps[0] in ps && ps[0] in es;
      var j :| 0 <= j < |es| && es[j] == ps[0];
      RemoveAt(es, j, w);
      OthersFound(ps, es, j);
      SameSum(ps[1..], es[..j] + es[j + 1..], w);
    }
  }

  lemma {:induction false} EachTheSame(a: seq<Pair>, b: seq<Pair>, w: Pair -> nat)
    requires |a| == |b| && (forall i | 0 <= i < |a| :: w(a[i]) <= w(b[i]))
    ensures Sum(a, w) <= Sum(b, w)
    ensures Sum(a, w) == Sum(b, w) ==> forall i | 0 <= i < |a| :: w(a[i]) == w(b[i])
    decreases |a|
  {
    if a != [] {
      var c, d := a[1..], b[1..];
      assert forall i | 0 <= i < |c| :: c[i] == a[i + 1] && d[i] == b[i + 1];
      EachTheSame(c, d, w);
      if Sum(a, w) == Sum(b, w) {
        forall i | 0 <= i < |a|
          ensures w(a[i]) == w(b[i])
        {
          if i > 0 {
            assert a[i] == c[i - 1] && b[i] == d[i - 1];
          }
        }
      }
    }
  }

  // ----- Counting the lines with keys

  function Keys(f: Syntax, lines: seq<string>): nat {
    if lines == [] then 0 else (if HasKey(f, lines[0]) then 1 else 0) + Keys(f, lines[1..])
  }

  lemma {:induction false} KeysJoin(f: Syntax, a: seq<string>, b: seq<string>)
    ensures Keys(f, a + b) == Keys(f, a) + Keys(f, b)
    decreases |a|
  {
    hide HasKey;
    if a == [] {
      assert a + b == b;
    } else {
      assert (a + b)[0] == a[0] && (a + b)[1..] == a[1..] + b;
      KeysJoin(f, a[1..], b);
    }
  }

  lemma {:induction false} NoKeys(f: Syntax, lines: seq<string>)
    ensures Keys(f, lines) == 0 <==> forall l | l in lines :: !HasKey(f, l)
  {
    hide HasKey;
    if lines != [] {
      NoKeys(f, lines[1..]);
      assert lines == [lines[0]] + lines[1..];
    }
  }

  /** As many entries are stored as lines have keys. */
  lemma {:induction false} EventsCount(f: Syntax, lines: seq<string>, pr: Progress)
    ensures |Events(f, lines, pr)| == Keys(f, lines) + if pr.Inside? then 1 else 0
    decreases |lines|
  {
    hide HasKey, KeyOf, FirstValue, Joins, Blank;
    if lines != [] {
      EventsCount(f, lines[1..], Next(f, pr, lines[0]));
    }
  }

  /** If every head has a key and there are no more keys than heads, no other line has one. */
  lemma {:induction false} OnlyHeadsHaveKeys(f: Syntax, ps: seq<Pair>)
    requires forall i | 0 <= i < |ps| :: HasKey(f, Head(f, ps[i]))
    ensures Keys(f, AllLines(f, ps)) >= |ps|
    ensures Keys(f, AllLines(f, ps)) == |ps| ==> forall i, c | 0 <= i < |ps| && c in Conts(ps[i]) :: !HasKey(f, c)
    decreases |ps|
  {
    hide HasKey, Head, Conts;
    if ps != [] {
      var tail := ps[1..];
      assert forall i | 0 <= i < |tail| :: tail[i] == ps[i + 1];
      OnlyHeadsHaveKeys(f, tail);
      var h, cs := Head(f, ps[0]), Conts(ps[0]);
      assert HasKey(f, h);
      KeysJoin(f, [h] + cs, AllLines(f, tail));
      KeysJoin(f, [h], cs);
      assert [h][1..] == [];
      NoKeys(f, cs);
      if Keys(f, AllLines(f, ps)) == |ps| {
        forall i, c | 0 <= i < |ps| && c in Conts(ps[i])
          ensures !HasKey(f, c)
        {
          if i > 0 {
            assert ps[i] == tail[i - 1];
          }
        }
      }
    }
  }

  // ----- From the weights to the entries

  lemma StripLossless(f: Syntax, l: string)
    requires Marks(f.comm) > 0 && Marks(StripComment(f, l)) == Marks(l)
    ensures Free(l, f.comm)
  {
    hide Marks, Find, Free, OccursAt;
    var i := Find(l, f.comm);
    if i != -1 {
      FoundAt(l, f.comm);
      assert l == l[..i] + f.comm + l[i + |f.comm|..];
      MarksJoin3(l[..i], f.comm, l[i + |f.comm|..]);
    }
  }

  /** In a tight file no line has a comment, and every line without a key has something on it. */
  lemma {:induction false} TightLines(f: Syntax, lines: seq<string>, pr: Progress)
    requires Marks(f.comm) > 0 && Tight(f, lines, pr)
    ensures forall l | l in lines :: LineTaken(f, l)
    decreases |lines|
  {
    hide Marks, HasKey, StripComment, Blank, Free, Next;
    if lines != [] {
      StripLossless(f, lines[0]);
      StripNothing(f, lines[0]);
      TightLines(f, lines[1..], Next(f, pr, lines[0]));
      assert lines == [lines[0]] + lines[1..];
    }
  }

  lemma {:induction false} LinesOfEntries(f: Syntax, ps: seq<Pair>, i: nat)
    requires i < |ps|
    ensures Head(f, ps[i]) in AllLines(f, ps) && forall c | c in Conts(ps[i]) :: c in AllLines(f, ps)
    decreases |ps|
  {
    hide Head, Conts;
    if i > 0 {
      LinesOfEntries(f, ps[1..], i - 1);
    }
  }

  /** The key read is no longer than the one printed, and as long only if no delimiter is in front of the printed one. */
  lemma KeyLength(f: Syntax, p: Pair)
    requires f.delim != "" && HasKey(f, Head(f, p)) && StripComment(f, Head(f, p)) == Head(f, p) && Trimmed(p.0)
    ensures |KeyOf(f, Head(f, p))| <= |p.0|
    ensures |KeyOf(f, Head(f, p))| == |p.0| ==> Find(Head(f, p), f.delim) >= |p.0|
  {
    hide Trim, Find, StripComment;
    DelimiterFound(f, p);
    var d := Find(Head(f, p), f.delim);
    if d >= |p.0| {
      var w := HeadCut(f, p);
    } else {
      TrimIsShorter(Head(f, p)[..d]);
    }
  }

  lemma TrimIsShorter(s: string)
    ensures |Trim(s)| <= |s|
  {
    hide Trim;
    var l, r := TrimSpec(s);
  }

  /** The text printed ends in a newline, if it is not empty. */
  lemma {:induction false} PrintEnds(f: Syntax, ps: seq<Pair>)
    ensures Print(f, ps) == "" || Print(f, ps)[|Print(f, ps)| - 1] == '\n'
    decreases |ps|
  {
    if ps != [] {
      PrintEnds(f, ps[1..]);
    }
  }

  /** What a file is read to has trimmed keys of one line and trimmed values. */
  lemma PrintedTrimmed(f: Syntax, m: map<string, string>, ps: seq<Pair>)
    requires f.delim != "" && Enumerates(ps, m) && Read(f, Print(f, ps)) == m
    ensures forall i | 0 <= i < |ps| :: Trimmed(ps[i].0) && OneLine(ps[i].0) && Trimmed(ps[i].1)
  {
    hide Read, Print, Trimmed, Events;
    PrintEnds(f, ps);
    var lines := TextLines(Print(f, ps));
    ReaderByLines(f, lines);
    EventsTrimmed(f, lines, Outside);
    forall i | 0 <= i < |ps|
      ensures Trimmed(ps[i].0) && OneLine(ps[i].0) && Trimmed(ps[i].1)
    {
      PutStores(map[], Events(f, lines, Outside), ps[i].0);
    }
  }

  /** If the map comes back, the printed lines are tight and have as many keys as there are entries. */
  lemma ComesBackTight(f: Syntax, m: map<string, string>, ps: seq<Pair>) returns (es: seq<Pair>)
    requires f.delim != "" && OneLine(f.delim) && Enumerates(ps, m) && Read(f, Print(f, ps)) == m
    requires forall i | 0 <= i < |ps| :: OneLine(ps[i].0)
    ensures Tight(f, AllLines(f, ps), Outside) && Keys(f, AllLines(f, ps)) == |ps|
    ensures es == Events(f, AllLines(f, ps), Outside) && |es| == |ps| && Distinct(ps) && forall e | e in ps :: e in es
  {
    hide Read, Print, Marks, Tight, Keys, Weight, Events;
    var lines := AllLines(f, ps);
    PrintIsLines(f, ps);
    AllLinesAreOneLine(f, ps);
    ReaderByLines(f, lines);
    es := Events(f, lines, Outside);
    forall e | e in ps
      ensures e in es
    {
      var i :| 0 <= i < |ps| && ps[i] == e;
      PutStores(map[], es, ps[i].0);
    }
    var w: Pair -> nat := (e: Pair) => Weight(f, e);
    WeightIsPositive(f);
    PrintWeight(f, ps, w);
    EventsWeight(f, lines, Outside, w);
    FoundInList(ps, es, w);
    EventsCount(f, lines, Outside);
  }

  lemma WeightIsPositive(f: Syntax)
    ensures forall e :: Weight(f, e) >= 1
  {
  }

  /** Then every entry stands. */
  lemma TightStand(f: Syntax, ps: seq<Pair>)
    requires f.delim != "" && Marks(f.comm) > 0
    requires Tight(f, AllLines(f, ps), Outside) && Keys(f, AllLines(f, ps)) == |ps|
    ensures AllStand(f, ps) && forall i | 0 <= i < |ps| :: AllTaken(f, ps[i])
  {
    hide Marks, Tight, Keys, HasKey, Head, Conts, LineTaken;
    TightLines(f, AllLines(f, ps), Outside);
    forall i | 0 <= i < |ps|
      ensures HasKey(f, Head(f, ps[i])) && LineTaken(f, Head(f, ps[i])) && forall c | c in Conts(ps[i]) :: LineTaken(f, c)
    {
      LinesOfEntries(f, ps, i);
      TakenLine(f, Head(f, ps[i]));
      HeadHasKey(f, ps[i]);
    }
    OnlyHeadsHaveKeys(f, ps);
    forall i | 0 <= i < |ps|
      ensures Stands(f, ps[i]) && AllTaken(f, ps[i])
    {
      TakenStands(f, ps[i]);
    }
  }

  ghost predicate AllTaken(f: Syntax, p: Pair) {
    LineTaken(f, Head(f, p)) && forall c | c in Conts(p) :: LineTaken(f, c) && !HasKey(f, c)
  }

  lemma TakenLine(f: Syntax, l: string)
    requires LineTaken(f, l)
    ensures StripComment(f, l) == l
  {
  }

  lemma TakenStands(f: Syntax, p: Pair)
    requires HasKey(f, Head(f, p)) && AllTaken(f, p)
    ensures Stands(f, p)
  {
    hide HasKey, Head, Conts, Blank, StripComment;
  }

  /** And no key is cut short, since the keys read are a rearrangement of the keys printed. */
  lemma KeysWhole(f: Syntax, ps: seq<Pair>, es: seq<Pair>)
    requires f.delim != "" && AllStand(f, ps) && es == ReadEntries(f, ps)
    requires Distinct(ps) && (forall e | e in ps :: e in es) && forall i | 0 <= i < |ps| :: Trimmed(ps[i].0)
    ensures forall i | 0 <= i < |ps| :: Find(Head(f, ps[i]), f.delim) >= |ps[i].0|
  {
    hide Trimmed, HasKey, Find, Head, StripComment, ReadEntry, ReadEntries, Conts;
    var len: Pair -> nat := (e: Pair) => |e.0|;
    SameSum(ps, es, len);
    forall i | 0 <= i < |ps|
      ensures len(es[i]) <= len(ps[i]) && (len(es[i]) == len(ps[i]) ==> Find(Head(f, ps[i]), f.delim) >= |ps[i].0|)
    {
      assert Stands(f, ps[i]);
      ReadEntryAt(f, ps, i);
      ReadKeyLength(f, ps[i]);
    }
    EachTheSame(es, ps, len);
  }

  lemma StandAndCarry(f: Syntax, m: map<string, string>, ps: seq<Pair>)
    requires f.delim != "" && OneLine(f.delim) && Marks(f.comm) > 0 && Enumerates(ps, m) && Read(f, Print(f, ps)) == m
    requires forall i | 0 <= i < |ps| :: Trimmed(ps[i].0) && OneLine(ps[i].0) && Trimmed(ps[i].1)
    ensures forall i | 0 <= i < |ps| :: EntryCarries(f, ps[i])
  {
    hide Read, Print, Marks, Tight, Keys, Trimmed, Find, Head, Conts, Events, ReadEntries, Stands, AllTaken;
    var es := ComesBackTight(f, m, ps);
    TightStand(f, ps);
    AllEvents(f, ps, Outside);
    assert Flush(Outside) + ReadEntries(f, ps) == ReadEntries(f, ps);
    KeysWhole(f, ps, es);
    forall i | 0 <= i < |ps|
      ensures EntryCarries(f, ps[i])
    {
      ContsCarry(f, ps[i]);
    }
  }

  /** The line is free of comments, and blank only if it has a key. */
  ghost predicate LineTaken(f: Syntax, l: string) {
    Free(l, f.comm) && StripComment(f, l) == l && (HasKey(f, l) || !Blank(l))
  }

  lemma HeadHasKey(f: Syntax, p: Pair)
    requires f.delim != "" && StripComment(f, Head(f, p)) == Head(f, p)
    ensures HasKey(f, Head(f, p))
  {
    hide Find, Head, StripComment;
    DelimiterFound(f, p);
  }

  lemma ReadKeyLength(f: Syntax, p: Pair)
    requires f.delim != "" && HasKey(f, Head(f, p)) && StripComment(f, Head(f, p)) == Head(f, p) && Trimmed(p.0)
    ensures |ReadEntry(f, p).0| <= |p.0|
    ensures |ReadEntry(f, p).0| == |p.0| ==> Find(Head(f, p), f.delim) >= |p.0|
  {
    KeyLength(f, p);
  }

  lemma ContsCarry(f: Syntax, p: Pair)
    requires AllTaken(f, p) && Trimmed(p.0) && OneLine(p.0) && Trimmed(p.1) && Find(Head(f, p), f.delim) >= |p.0|
    ensures EntryCarries(f, p)
  {
    hide Conts, Head, Blank, Trimmed;
  }

  /**
   * The round trip, exactly. The delimiter is a string of one line, not empty; the comment marker has
   * something besides white space in it, or a newline, so that no comment begins in it. Then writing a map
   * in any order and reading it back gives the map if and only if every entry carries.
   */
  lemma RoundTripExactly(f: Syntax, m: map<string, string>, ps: seq<Pair>)
    requires f.delim != "" && OneLine(f.delim) && Marks(f.comm) > 0 && Enumerates(ps, m)
    ensures Read(f, Print(f, ps)) == m <==> Carries(f, m)
  {
    hide Read, Print, Marks, EntryCarries;
    if Carries(f, m) {
      CarriedComesBack(f, m, ps);
    }
    if Read(f, Print(f, ps)) == m {
      PrintedTrimmed(f, m, ps);
      StandAndCarry(f, m, ps);
      forall k | k in m
        ensures EntryCarries(f, (k, m[k]))
      {
        var i :| 0 <= i < |ps| && ps[i].0 == k;
        assert ps[i] == (k, m[k]);
      }
    }
  }
}
