/**
 entab and detab with tab stops at every multiple of a width: one transducer that holds blanks
 back until it knows where the next visible character is, and writes them as spaces or as tabs.
 */
module Tabs {
  const BACKSPACE := '\U{8}'

  datatype Flags = Flags(expand: bool, initial: bool)

  // ----- Tab stops

  function NextTab(x: nat, w: nat): (t: nat)
    requires w > 0
    ensures x < t <= x + w
  {
    x + (w - x % w)
  }

  lemma {:induction false} TimesLess(w: int, p: int, q: int)
    requires w > 0 && p < q
    ensures w * p + w <= w * q
  {
    var d := q - p - 1;
    assert w * d >= 0;
    assert w * q == w * (p + 1 + d) == w * p + w + w * d;
  }

  lemma {:induction false} QuotientIs(y: int, w: int, q: int, p: int, r: int)
    requires w > 0 && w * q <= y < w * q + w && y == w * p + r && 0 <= r < w
    ensures p == q
  {
    if p < q {
      TimesLess(w, p, q);
    } else if p > q {
      TimesLess(w, q, p);
    }
  }

  /** There is no tab stop between a column and its next tab stop. */
  lemma {:induction false} NextTabSame(x: nat, y: nat, w: nat)
    requires w > 0 && x <= y < NextTab(x, w)
    ensures NextTab(y, w) == NextTab(x, w)
  {
    var q := x / w;
    assert x == w * q + x % w;
    assert y == w * (y / w) + y % w;
    QuotientIs(y, w, q, y / w, y % w);
  }

  /** The next tab stop is the first column behind this one that is a multiple of the width. */
  lemma {:induction false} NextTabIs(x: nat, w: nat)
    requires w > 0
    ensures NextTab(x, w) > x && NextTab(x, w) % w == 0
    ensures forall y :: x < y < NextTab(x, w) ==> y % w != 0
  {
    var q := x / w;
    assert x == w * q + x % w;
    assert NextTab(x, w) == w * (q + 1) by { assert w * (q + 1) == w * q + w; }
    MultipleOf(w, q + 1);
    forall y | x < y < NextTab(x, w) ensures y % w != 0 {
      assert y == w * (y / w) + y % w;
      QuotientIs(y, w, q, y / w, y % w);
    }
  }

  lemma {:induction false} MultipleOf(w: int, q: int)
    requires w > 0
    ensures (w * q) % w == 0
  {
    var p, r := (w * q) / w, (w * q) % w;
    assert w * q == w * p + r;
    QuotientIs(w * q, w, q, p, r);
  }

  // ----- What a text shows

  /** A visible character, or a newline or backspace, and the width of the blanks in front of it. */
  datatype Mark = Mark(blanks: nat, c: char)

  predicate IsBlank(c: char) {
    c == ' ' || c == '\t'
  }

  /** The column after a mark at column `m`. */
  function ColumnAfter(m: nat, c: char): nat {
    if c == BACKSPACE then (if m > 0 then m - 1 else 0) else if c == '\n' then 0 else m + 1
  }

  /** The marks of a text that starts at column `l` with blanks of width `n` pending. */
  function Marks(x: string, l: nat, n: nat, w: nat): seq<Mark>
    requires w > 0
  {
    if x == [] then []
    else if x[0] == ' ' then Marks(x[1..], l, n + 1, w)
    else if x[0] == '\t' then Marks(x[1..], l, NextTab(l + n, w) - l, w)
    else [Mark(n, x[0])] + Marks(x[1..], ColumnAfter(l + n, x[0]), 0, w)
  }

  // ----- What the program writes

  function Spaces(n: nat): (s: string)
    ensures |s| == n && forall i :: 0 <= i < n ==> s[i] == ' '
  {
    if n == 0 then [] else [' '] + Spaces(n - 1)
  }

  /** Blanks of width `n` from column `l`: as many tabs as fit, then spaces. */
  function Tabbed(l: nat, n: nat, w: nat): string
    requires w > 0
    decreases n
  {
    if n == 0 then []
    else if NextTab(l, w) <= l + n then ['\t'] + Tabbed(NextTab(l, w), l + n - NextTab(l, w), w)
    else Spaces(n)
  }

  function Blanks(l: nat, n: nat, w: nat, plain: bool): string
    requires w > 0
  {
    if plain || n == 1 then Spaces(n) else Tabbed(l, n, w)
  }

  function InitialsAfter(initials: bool, c: char): bool {
    if c == '\n' then true else if c == BACKSPACE then initials else false
  }

  /** The marks written from column `l`. */
  function Written(marks: seq<Mark>, l: nat, initials: bool, w: nat, f: Flags): string
    requires w > 0
  {
    if marks == [] then []
    else
      var m := marks[0];
      Blanks(l, m.blanks, w, f.expand || (f.initial && !initials)) + [m.c]
      + Written(marks[1..], ColumnAfter(l + m.blanks, m.c), InitialsAfter(initials, m.c), w, f)
  }

  lemma {:induction false} WrittenBlank(y: string, l: nat, n: nat, w: nat)
    requires w > 0 && |y| > 0 && IsBlank(y[0])
    ensures Marks(y, l, n, w) == Marks(y[1..], l, if y[0] == ' ' then n + 1 else NextTab(l + n, w) - l, w)
  {
  }

  lemma {:induction false} WrittenMark(y: string, l: nat, n: nat, initials: bool, w: nat, f: Flags)
    requires w > 0 && |y| > 0 && !IsBlank(y[0])
    ensures var m := ColumnAfter(l + n, y[0]);
      Written(Marks(y, l, n, w), l, initials, w, f)
      == Blanks(l, n, w, f.expand || (f.initial && !initials)) + [y[0]]
      + Written(Marks(y[1..], m, 0, w), m, InitialsAfter(initials, y[0]), w, f)
    ensures Blanks(l, 0, w, f.expand || (f.initial && !initials)) == []
  {
    var marks, rest := Marks(y, l, n, w), Marks(y[1..], ColumnAfter(l + n, y[0]), 0, w);
    assert marks[0] == Mark(n, y[0]) && marks[1..] == rest;
  }

  function Converted(x: string, w: nat, f: Flags): string
    requires w > 0
  {
    Written(Marks(x, 0, 0, w), 0, true, w, f)
  }

  // ----- The program

  /** Writes the pending blanks. */
  method Flush(linelength: nat, numSpaces: nat, w: nat, plain: bool) returns (out: string)
    requires w > 0
    ensures out == Blanks(linelength, numSpaces, w, plain)
  {
    if plain || numSpaces == 1 {
      return Spaces(numSpaces);
    }
    out := [];
    var l, n := linelength, numSpaces;
    while n != 0
      invariant out + Tabbed(l, n, w) == Tabbed(linelength, numSpaces, w)
      decreases n
    {
      var next := NextTab(l, w);
      if next > 0 && next <= l + n {
        out := out + ['\t'];
        n := n - (next - l);
        l := next;
      } else {
        out := out + Spaces(n);
        l := l + n;
        n := 0;
      }
    }
  }

  method Tab(x: string, w: nat, f: Flags) returns (out: string)
    requires w > 0
    ensures out == Converted(x, w, f)
  {
    hide Blanks, Spaces, NextTab, Written, Marks, Converted;
    var linelength: nat, numSpaces: nat, inInitials := 0, 0, true;
    out := [];
    var i := 0;
    Start(x, w, f);
    while i < |x|
      invariant 0 <= i <= |x|
      invariant out + Written(Marks(x[i..], linelength, numSpaces, w), linelength, inInitials, w, f)
        == Converted(x, w, f)
    {
      var c := x[i];
      assert x[i..][0] == c && x[i..][1..] == x[i + 1..];
      if IsBlank(c) {
        WrittenBlank(x[i..], linelength, numSpaces, w);
      } else {
        WrittenMark(x[i..], linelength, numSpaces, inInitials, w, f);
        ghost var m := ColumnAfter(linelength + numSpaces, c);
        Regroup(out, Blanks(linelength, numSpaces, w, f.expand || (f.initial && !inInitials)), [c],
                Written(Marks(x[i + 1..], m, 0, w), m, InitialsAfter(inInitials, c), w, f));
      }
      if c != ' ' && c != '\t' && numSpaces > 0 {
        var blanks := Flush(linelength, numSpaces, w, f.expand || (f.initial && !inInitials));
        out := out + blanks;
        linelength := linelength + numSpaces;
        numSpaces := 0;
      }
      i := i + 1;
      if c == ' ' {
        numSpaces := numSpaces + 1;
      } else if c == BACKSPACE {
        out := out + [c];
        if linelength > 0 {
          linelength := linelength - 1;
        }
      } else if c == '\n' {
        out := out + [c];
        inInitials := true;
        linelength := 0;
      } else if c == '\t' {
        numSpaces := NextTab(linelength + numSpaces, w) - linelength;
      } else {
        out := out + [c];
        inInitials := false;
        linelength := linelength + 1;
      }
    }
    assert x[i..] == [];
    NothingLeft(linelength, numSpaces, inInitials, w, f);
    assert out + [] == out;
  }

  lemma {:induction false} Regroup(out: string, blanks: string, c: string, rest: string)
    ensures out + (blanks + c + rest) == out + blanks + c + rest
    ensures blanks == [] ==> out + blanks == out
  {
  }

  lemma {:induction false} Start(x: string, w: nat, f: Flags)
    requires w > 0
    ensures Converted(x, w, f) == Written(Marks(x[0..], 0, 0, w), 0, true, w, f)
  {
    assert x[0..] == x;
  }

  /** Blanks at the very end are not written. */
  lemma {:induction false} NothingLeft(l: nat, n: nat, initials: bool, w: nat, f: Flags)
    requires w > 0
    ensures Written(Marks([], l, n, w), l, initials, w, f) == []
  {
  }

  // ----- Nothing that shows is changed

  lemma {:induction false} SpacesRead(n: nat, y: string, l: nat, m: nat, w: nat)
    requires w > 0
    ensures Marks(Spaces(n) + y, l, m, w) == Marks(y, l, m + n, w)
  {
    if n > 0 {
      assert (Spaces(n) + y)[1..] == Spaces(n - 1) + y;
      SpacesRead(n - 1, y, l, m + 1, w);
    } else {
      assert Spaces(n) + y == y;
    }
  }

  lemma {:induction false} TabbedRead(n: nat, y: string, l: nat, m: nat, w: nat)
    requires w > 0
    ensures Marks(Tabbed(l + m, n, w) + y, l, m, w) == Marks(y, l, m + n, w)
    decreases n
  {
    var t := NextTab(l + m, w);
    if n == 0 {
      assert Tabbed(l + m, n, w) + y == y;
    } else if t <= l + m + n {
      var rest := Tabbed(t, l + m + n - t, w);
      assert Tabbed(l + m, n, w) == ['\t'] + rest;
      assert (['\t'] + rest + y)[1..] == rest + y;
      assert Marks(Tabbed(l + m, n, w) + y, l, m, w) == Marks(rest + y, l, t - l, w);
      TabbedRead(l + m + n - t, y, l, t - l, w);
    } else {
      SpacesRead(n, y, l, m, w);
    }
  }

  lemma {:induction false} BlanksRead(n: nat, y: string, l: nat, w: nat, plain: bool)
    requires w > 0
    ensures Marks(Blanks(l, n, w, plain) + y, l, 0, w) == Marks(y, l, n, w)
  {
    SpacesRead(n, y, l, 0, w);
    TabbedRead(n, y, l, 0, w);
  }

  ghost predicate Visible(marks: seq<Mark>) {
    forall i :: 0 <= i < |marks| ==> !IsBlank(marks[i].c)
  }

  lemma {:induction false} MarksVisible(x: string, l: nat, n: nat, w: nat)
    requires w > 0
    ensures Visible(Marks(x, l, n, w))
  {
    if x != [] {
      if x[0] == ' ' {
        MarksVisible(x[1..], l, n + 1, w);
      } else if x[0] == '\t' {
        MarksVisible(x[1..], l, NextTab(l + n, w) - l, w);
      } else {
        MarksVisible(x[1..], ColumnAfter(l + n, x[0]), 0, w);
      }
    }
  }

  /** Reading back what was written gives the same marks at the same columns. */
  lemma {:induction false} WrittenRead(marks: seq<Mark>, l: nat, initials: bool, w: nat, f: Flags)
    requires w > 0 && Visible(marks)
    ensures Marks(Written(marks, l, initials, w, f), l, 0, w) == marks
  {
    hide Blanks, NextTab;
    if marks != [] {
      var m := marks[0];
      var next := ColumnAfter(l + m.blanks, m.c);
      var plain := f.expand || (f.initial && !initials);
      var rest := Written(marks[1..], next, InitialsAfter(initials, m.c), w, f);
      WrittenRead(marks[1..], next, InitialsAfter(initials, m.c), w, f);
      var y := [m.c] + rest;
      assert Written(marks, l, initials, w, f) == Blanks(l, m.blanks, w, plain) + y;
      BlanksRead(m.blanks, y, l, w, plain);
      assert y[1..] == rest && marks == [m] + marks[1..];
    }
  }

  /** Converting with any flags what was converted with any other flags is converting the original:
   detab after entab is detab, entab after detab is entab, and each is idempotent. */
  lemma {:induction false} ConvertedTwice(x: string, w: nat, f: Flags, g: Flags)
    requires w > 0
    ensures Converted(Converted(x, w, g), w, f) == Converted(x, w, f)
  {
    MarksVisible(x, 0, 0, w);
    WrittenRead(Marks(x, 0, 0, w), 0, true, w, g);
  }

  /** detab leaves no tab. */
  lemma {:induction false} ExpandedHasNoTab(marks: seq<Mark>, l: nat, initials: bool, w: nat, f: Flags)
    requires w > 0 && Visible(marks) && f.expand
    ensures '\t' !in Written(marks, l, initials, w, f)
  {
    if marks != [] {
      var m := marks[0];
      ExpandedHasNoTab(marks[1..], ColumnAfter(l + m.blanks, m.c), InitialsAfter(initials, m.c), w, f);
    }
  }

  // ----- entab writes the shortest text

  lemma {:induction false} OneMoreSpace(l: nat, n: nat, w: nat)
    requires w > 0
    ensures |Tabbed(l, n + 1, w)| <= |Tabbed(l, n, w)| + 1
    decreases n
  {
    var t := NextTab(l, w);
    if n > 0 && t <= l + n {
      OneMoreSpace(t, l + n - t, w);
    } else if t == l + n + 1 {
      assert Tabbed(l, n + 1, w) == ['\t'] + Tabbed(t, 0, w);
    }
  }

  lemma {:induction false} OneMoreTab(l: nat, n: nat, w: nat)
    requires w > 0
    ensures |Tabbed(l, NextTab(l + n, w) - l, w)| <= |Tabbed(l, n, w)| + 1
    decreases n
  {
    var t := NextTab(l, w);
    if n > 0 && t <= l + n {
      OneMoreTab(t, l + n - t, w);
    } else {
      NextTabSame(l, l + n, w);
      assert Tabbed(l, t - l, w) == ['\t'] + Tabbed(t, 0, w);
    }
  }

  lemma {:induction false} NoShorter(y: string, l: nat, n: nat, initials: bool, w: nat, f: Flags)
    requires w > 0 && !f.expand && !f.initial
    ensures |Written(Marks(y, l, n, w), l, initials, w, f)| <= |Tabbed(l, n, w)| + |y|
  {
    if y != [] {
      if y[0] == ' ' {
        OneMoreSpace(l, n, w);
        NoShorter(y[1..], l, n + 1, initials, w, f);
      } else if y[0] == '\t' {
        OneMoreTab(l, n, w);
        NoShorter(y[1..], l, NextTab(l + n, w) - l, initials, w, f);
      } else {
        var m := ColumnAfter(l + n, y[0]);
        NoShorter(y[1..], m, 0, InitialsAfter(initials, y[0]), w, f);
        WrittenMark(y, l, n, initials, w, f);
        assert n == 1 ==> |Tabbed(l, n, w)| == 1;
      }
    }
  }

  /** Of all texts that show the same, entab (without its flag for initial blanks only) writes one
   of the shortest. */
  lemma {:induction false} EntabShortest(x: string, y: string, w: nat, f: Flags)
    requires w > 0 && !f.expand && !f.initial && Marks(x, 0, 0, w) == Marks(y, 0, 0, w)
    ensures |Converted(x, w, f)| <= |y|
    ensures Marks(Converted(x, w, f), 0, 0, w) == Marks(x, 0, 0, w)
  {
    NoShorter(y, 0, 0, true, w, f);
    MarksVisible(x, 0, 0, w);
    WrittenRead(Marks(x, 0, 0, w), 0, true, w, f);
  }

  // ----- On the screen

  /** Each character that is not a blank, with the column at which it arrives. */
  function Placed(x: string, col: nat, w: nat): seq<(nat, char)>
    requires w > 0
  {
    if x == [] then []
    else if x[0] == ' ' then Placed(x[1..], col + 1, w)
    else if x[0] == '\t' then Placed(x[1..], col + (w - col % w), w)
    else [(col, x[0])] + Placed(x[1..], Moved(x[0], col), w)
  }

  /** The column of the cursor behind a character that is not a blank. */
  function Moved(c: char, col: nat): nat {
    if c == '\n' then 0 else if c != '\U{8}' then col + 1 else if col == 0 then 0 else col - 1
  }

  /** The columns of marks. */
  function Columns(marks: seq<Mark>, l: nat): seq<(nat, char)> {
    if marks == [] then []
    else
      var m := marks[0];
      [(l + m.blanks, m.c)] + Columns(marks[1..], ColumnAfter(l + m.blanks, m.c))
  }

  lemma {:induction false} MarkFirst(x: string, l: nat, n: nat, w: nat)
    requires w > 0 && x != [] && !IsBlank(x[0])
    ensures var m := ColumnAfter(l + n, x[0]);
      && Columns(Marks(x, l, n, w), l) == [(l + n, x[0])] + Columns(Marks(x[1..], m, 0, w), m)
      && m == Moved(x[0], l + n)
  {
    hide NextTab;
    var rest := Marks(x[1..], ColumnAfter(l + n, x[0]), 0, w);
    assert Marks(x, l, n, w) == [Mark(n, x[0])] + rest && ([Mark(n, x[0])] + rest)[1..] == rest;
  }

  lemma {:induction false} PlacedAtMarks(x: string, l: nat, n: nat, w: nat)
    requires w > 0
    ensures Placed(x, l + n, w) == Columns(Marks(x, l, n, w), l)
  {
    if x != [] {
      if x[0] == ' ' {
        PlacedAtMarks(x[1..], l, n + 1, w);
      } else if x[0] == '\t' {
        hide ColumnAfter, Moved;
        PlacedAtMarks(x[1..], l, NextTab(l + n, w) - l, w);
      } else {
        hide NextTab;
        var l' := ColumnAfter(l + n, x[0]);
        PlacedAtMarks(x[1..], l', 0, w);
        MarkFirst(x, l, n, w);
      }
    }
  }

  /** Whatever the flags, every character stays in its column. */
  lemma {:induction false} ColumnsKept(x: string, w: nat, f: Flags)
    requires w > 0
    ensures Placed(Converted(x, w, f), 0, w) == Placed(x, 0, w)
  {
    hide Placed, Marks, Written, Columns;
    PlacedAtMarks(x, 0, 0, w);
    PlacedAtMarks(Converted(x, w, f), 0, 0, w);
    MarksVisible(x, 0, 0, w);
    WrittenRead(Marks(x, 0, 0, w), 0, true, w, f);
  }

  // ----- Initial blanks only

  const ENTAB := Flags(false, false)
  const DETAB := Flags(true, false)
  const INITIAL := Flags(false, true)

  /** Behind the first visible character of a line, blanks are written as spaces. */
  lemma {:induction false} ExpandedBehind(marks: seq<Mark>, l: nat, w: nat)
    requires w > 0 && forall i :: 0 <= i < |marks| ==> marks[i].c != '\n'
    ensures Written(marks, l, false, w, INITIAL) == Written(marks, l, false, w, DETAB)
  {
    if marks != [] {
      var m := marks[0];
      ExpandedBehind(marks[1..], ColumnAfter(l + m.blanks, m.c), w);
    }
  }

  /** Up to it they are written as entab writes them, and a newline begins a new line. */
  lemma {:induction false} EntabbedBefore(m: Mark, rest: seq<Mark>, l: nat, w: nat)
    requires w > 0
    ensures var l' := ColumnAfter(l + m.blanks, m.c);
      Written([m] + rest, l, true, w, INITIAL)
      == Written([m], l, true, w, ENTAB) + Written(rest, l', m.c == '\n' || m.c == BACKSPACE, w, INITIAL)
  {
    var l' := ColumnAfter(l + m.blanks, m.c);
    assert ([m] + rest)[1..] == rest && [m][1..] == [];
    assert Written([m], l, true, w, ENTAB) == Blanks(l, m.blanks, w, false) + [m.c] + [];
    assert Blanks(l, m.blanks, w, false) + [m.c] + [] == Blanks(l, m.blanks, w, false) + [m.c];
  }

  lemma {:induction false} NextLine(m: Mark, rest: seq<Mark>, l: nat, w: nat)
    requires w > 0 && m.c == '\n'
    ensures Written([m] + rest, l, false, w, INITIAL) == Spaces(m.blanks) + "\n" + Written(rest, 0, true, w, INITIAL)
  {
    assert ([m] + rest)[1..] == rest;
  }
}
