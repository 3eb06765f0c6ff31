// Configuration files whose last line has no newline: exactly when that changes what is read.
module ConfigLastLine {
  import opened Strings
  import opened ConfigFile
  import opened ConfigLines

  /** Whether a value may go on behind a line, given whether one could in front of it. */
  predicate GoesOn(f: Syntax, inside: bool, line: string) {
    HasKey(f, line) || (inside && !Blank(line))
  }

  /** The last line continues a value: no key in it, something besides a comment, and a value to continue. */
  predicate TakenTwice(f: Syntax, lines: seq<string>, inside: bool)
    requires lines != []
    decreases |lines|
  {
    if |lines| == 1 then inside && !HasKey(f, lines[0]) && !Blank(StripComment(f, lines[0]))
    else TakenTwice(f, lines[1..], GoesOn(f, inside, lines[0]))
  }

  // ----- At the end

  lemma EndOfValue(f: Syntax, pending: string, v: string)
    ensures ReadValue(f, Open(""), pending, v) == (FAILED, "", v)
    ensures Blank(pending) ==> ReadValue(f, ENDED, pending, v) == (FAILED, pending, v)
    ensures ReadValue(f, ENDED, pending, v) == ValueStep(f, FAILED, pending, v)
  {
    AtEnd(f, pending, v);
  }

  lemma UnendedLine(f: Syntax, c: string, pending: string, v: string)
    requires OneLine(c)
    ensures ReadValue(f, Open(c), pending, v) == ValueStep(f, if c == "" then FAILED else ENDED, c, v)
  {
    hide Trim, StripComment, Find;
    LineToTheEnd(c);
  }

  /** Once a key line is pending at the end, how the end was reached does not matter. */
  lemma LastKey(f: Syntax, st: Stream, l: string, m: map<string, string>)
    requires f.delim != "" && HasKey(f, l) && (st == ENDED || st == Open(""))
    ensures ReadAll(f, st, l, m) == ReadAll(f, Open(""), l, m)
  {
    hide ReadAll, ReadValue, HasKey;
    KeyIsNotEmpty(f, l);
    KeyLineRead(f, st, l, m);
    KeyLineRead(f, Open(""), l, m);
    EmptyHasNoKey(f);
    EndOfValue(f, "", FirstValue(f, l));
  }

  lemma NotBlankWithin(x: string, c: string)
    requires !Blank(c)
    ensures !Blank(x + "\n" + c)
  {
    hide Trim;
    BlankIsAllWhite(c);
    BlankIsAllWhite(x + "\n" + c);
    var i :| 0 <= i < |c| && !White(c[i]);
    assert (x + "\n" + c)[|x| + 1 + i] == c[i];
  }

  lemma TrimDiffers(x: string, c: string)
    requires !Blank(c)
    ensures Trim(x + "\n" + c + "\n" + c) != Trim(x + "\n" + c)
  {
    hide Trim;
    var y := x + "\n" + c;
    var z := y + "\n" + c;
    var l, r := TrimSpec(y);
    var lc, rc := TrimSpec(c);
    NotBlankWithin(x, c);
    var t, tc := Trim(y), Trim(c);
    var mid := t + r + "\n" + lc + tc;
    assert mid[0] == t[0] && mid[|mid| - 1] == tc[|tc| - 1];
    assert z == l + mid + rc;
    TrimIs(l, mid, rc);
  }

  lemma BlankStrips(f: Syntax, c: string)
    requires Blank(c)
    ensures Blank(StripComment(f, c))
  {
    hide Trim;
    StripSpec(f, c);
    BlankIsAllWhite(c);
    BlankIsAllWhite(StripComment(f, c));
  }

  /** The last line of a value under way, without and with its newline. */
  lemma LastValueLine(f: Syntax, c: string, pending: string, v: string, k: string, m: map<string, string>)
    requires f.delim != "" && OneLine(c)
    ensures Finish(f, k, m, ReadValue(f, Open(c), pending, v)) == Finish(f, k, m, ReadValue(f, Open(c + "\n"), pending, v))
       <==> !(!HasKey(f, c) && !Blank(StripComment(f, c)))
  {
    hide ReadAll, ReadValue, Trim, Find, StripComment;
    assert c + "\n" + "" == c + "\n";
    UnendedLine(f, c, pending, v);
    ValueLine(f, c, "", pending, v);
    var st := if c == "" then FAILED else ENDED;
    var m' := m[k := Trim(v)];
    EmptyHasNoKey(f);
    if Blank(c) {
      BlankStrips(f, c);
      if HasKey(f, c) {
        LastKey(f, ENDED, c, m');
      } else {
        EndOfAll(f, st, m');
        EndOfAll(f, Open(""), m');
        NoKeyLine(f, st, c, m');
        NoKeyLine(f, Open(""), c, m');
      }
    } else if HasKey(f, c) {
      StrippedKey(f, c);
      LastKey(f, ENDED, StripComment(f, c), m');
    } else {
      LastContinuation(f, c, v, k, m);
    }
  }

  /** The line behind its own last appearance: the pending line that the failed read leaves. */
  lemma LastContinuation(f: Syntax, c: string, v: string, k: string, m: map<string, string>)
    requires f.delim != "" && !HasKey(f, c)
    ensures var c1, v1 := StripComment(f, c), Joins(f, v, c);
      Finish(f, k, m, ReadValue(f, ENDED, c1, v1)) == Finish(f, k, m, ReadValue(f, Open(""), c1, v1)) <==> Blank(c1)
  {
    hide ReadAll, ReadValue, Trim, Find, StripComment;
    StripSpec(f, c);
    var c1, v1 := StripComment(f, c), Joins(f, v, c);
    EndOfValue(f, c1, v1);
    var m1 := m[k := Trim(v1)];
    EndOfAll(f, FAILED, m1);
    NoKeyLine(f, FAILED, c1, m1);
    if !Blank(c1) {
      var v2 := v1 + "\n" + c1;
      var m2 := m[k := Trim(v2)];
      FailedValue(f, c1, v2);
      EndOfAll(f, FAILED, m2);
      NoKeyLine(f, FAILED, c1, m2);
      TrimDiffers(v, c1);
      assert m1[k] != m2[k];
    }
  }

  lemma FailedValue(f: Syntax, pending: string, v: string)
    ensures ReadValue(f, FAILED, pending, v) == (FAILED, pending, v)
  {
  }

  /** A line that goes on a value and ends the input is joined in twice; with its newline it is joined in once. */
  lemma LastLineWithoutNewline(f: Syntax, c: string, pending: string, v: string)
    requires OneLine(c) && !HasKey(f, c) && !Blank(StripComment(f, c))
    ensures ReadValue(f, Open(c), pending, v).2 == v + "\n" + StripComment(f, c) + "\n" + StripComment(f, c)
    ensures ReadValue(f, Open(c + "\n"), pending, v).2 == v + "\n" + StripComment(f, c)
  {
    hide ReadValue, Trim, Find, StripComment;
    assert c + "\n" + "" == c + "\n";
    StripSpec(f, c);
    var c1 := StripComment(f, c);
    if Blank(c) {
      BlankStrips(f, c);
    }
    EmptyIsBlank();
    UnendedLine(f, c, pending, v);
    ValueLine(f, c, "", pending, v);
    EndOfValue(f, c1, v + "\n" + c1);
    FailedValue(f, c1, v + "\n" + c1 + "\n" + c1);
  }

  lemma EmptyIsBlank()
    ensures Blank("")
  {
  }

  // ----- Whole files

  ghost predicate Unchanged(f: Syntax, text: string, pending: string, m: map<string, string>) {
    ReadAll(f, Open(text), pending, m) == ReadAll(f, Open(text + "\n"), pending, m)
  }

  lemma {:induction false} OutsideValue(f: Syntax, text: string, m: map<string, string>)
    requires f.delim != ""
    ensures Unchanged(f, text, "", m) <==> !TakenTwice(f, Lines(text), false)
    decreases |text|, 1
  {
    hide ReadAll, ReadValue, HasKey, Lines, Trim;
    var l, rest := FirstPart(text);
    if text == l {
      LastLineOutside(f, l, m);
    } else {
      LineRead(f, l, rest, m);
      LineRead(f, l, rest + "\n", m);
      assert ([l] + Lines(rest))[1..] == Lines(rest);
      if HasKey(f, l) {
        BehindKey(f, rest, l, m);
      } else {
        NoKeyLine(f, Open(rest), l, m);
        NoKeyLine(f, Open(rest + "\n"), l, m);
        OutsideValue(f, rest, m);
      }
    }
  }

  lemma UnendedLineRead(f: Syntax, l: string, m: map<string, string>)
    requires OneLine(l) && l != ""
    ensures ReadAll(f, Open(l), "", m) == ReadAll(f, ENDED, l, m)
  {
    hide ReadValue, Trim, Find, StripComment;
    LineToTheEnd(l);
    assert Getline(Open(l), "") == (ENDED, l);
  }

  lemma LastLineOutside(f: Syntax, l: string, m: map<string, string>)
    requires f.delim != "" && OneLine(l)
    ensures Unchanged(f, l, "", m)
  {
    hide ReadAll, ReadValue, HasKey, Trim;
    LineRead(f, l, "", m);
    assert l + "\n" + "" == l + "\n";
    EndOfAll(f, Open(""), m);
    if l == "" {
      EmptyHasNoKey(f);
      NoKeyLine(f, Open(""), l, m);
    } else {
      UnendedLineRead(f, l, m);
      if HasKey(f, l) {
        LastKey(f, ENDED, l, m);
      } else {
        EndOfAll(f, ENDED, m);
        NoKeyLine(f, ENDED, l, m);
        NoKeyLine(f, Open(""), l, m);
      }
    }
  }

  /** A key line pending in front of the rest of the text. */
  lemma {:induction false} BehindKey(f: Syntax, text: string, l: string, m: map<string, string>)
    requires f.delim != "" && HasKey(f, l)
    ensures Unchanged(f, text, l, m) <==> !TakenTwice(f, Lines(text), true)
    decreases |text|, 3
  {
    hide ReadAll, ReadValue, HasKey, Lines, Trim, Finish;
    KeyIsNotEmpty(f, l);
    KeyLineRead(f, Open(text), l, m);
    KeyLineRead(f, Open(text + "\n"), l, m);
    InsideValue(f, text, "", FirstValue(f, l), KeyOf(f, l), m);
  }

  lemma {:induction false} InsideValue(
      f: Syntax, text: string, pending: string, v: string, k: string, m: map<string, string>)
    requires f.delim != ""
    ensures Finish(f, k, m, ReadValue(f, Open(text), pending, v)) == Finish(f, k, m, ReadValue(f, Open(text + "\n"), pending, v))
       <==> !TakenTwice(f, Lines(text), true)
    decreases |text|, 2
  {
    hide ReadAll, ReadValue, Lines, Trim, HasKey, StripComment;
    var l, rest := FirstPart(text);
    if text == l {
      LastValueLine(f, l, pending, v, k, m);
    } else {
      ValueLine(f, l, rest, pending, v);
      ValueLine(f, l, rest + "\n", pending, v);
      assert ([l] + Lines(rest))[1..] == Lines(rest);
      var m' := m[k := Trim(v)];
      if HasKey(f, l) {
        StrippedKey(f, l);
        BehindKey(f, rest, if Blank(l) then l else StripComment(f, l), m');
      } else if Blank(l) {
        NoKeyLine(f, Open(rest), l, m');
        NoKeyLine(f, Open(rest + "\n"), l, m');
        OutsideValue(f, rest, m');
      } else {
        InsideValue(f, rest, StripComment(f, l), Joins(f, v, l), k, m);
      }
    }
  }

  /**
   * For every file: a newline at its end changes what is read if and only if the last line is one
   * without a key, with more than a comment in it, and goes on a value - some line before has a key,
   * with no blank line since.
   */
  lemma FinalNewlineMatters(f: Syntax, text: string)
    requires f.delim != ""
    ensures Read(f, text + "\n") != Read(f, text) <==> TakenTwice(f, Lines(text), false)
  {
    hide ReadAll, Lines, TakenTwice;
    OutsideValue(f, text, map[]);
  }
}
