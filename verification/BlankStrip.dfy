/**
 Removing trailing blanks and blank lines with a bounded circular queue of held-back blanks:
 a pass whose queue overflows on trailing blanks reports failure, and is run again on its output.
 */
module BlankStrip {
  const MAXQUEUE := 1001

  predicate IsBlank(c: char) {
    c == ' ' || c == '\t'
  }

  ghost predicate AllBlank(q: string) {
    forall i :: 0 <= i < |q| ==> IsBlank(q[i])
  }

  // ----- The ideal

  /** A line without its trailing blanks. */
  function Trimmed(line: string): (r: string)
    ensures |r| <= |line|
  {
    if line == [] then [] else if IsBlank(line[|line| - 1]) then Trimmed(line[..|line| - 1]) else line
  }

  /** The length of the first line. */
  function LineEnd(x: string): (k: nat)
    ensures k <= |x| && '\n' !in x[..k] && (k < |x| ==> x[k] == '\n')
  {
    if x == [] || x[0] == '\n' then 0 else 1 + LineEnd(x[1..])
  }

  /** Every line is trimmed, and a line with nothing left is dropped with its newline. */
  function Strip(x: string): string {
    if x == [] then []
    else
      var k := LineEnd(x);
      var line := Trimmed(x[..k]);
      if k == |x| then line
      else (if line == [] then [] else line + ['\n']) + Strip(x[k + 1..])
  }

  /** The same, character by character: `held` are the blanks since the last visible character of the
   line, and `visible` says whether the line has one. */
  function StripFrom(x: string, held: string, visible: bool): string {
    if x == [] then []
    else if x[0] == '\n' then (if visible then ['\n'] else []) + StripFrom(x[1..], [], false)
    else if IsBlank(x[0]) then StripFrom(x[1..], held + [x[0]], visible)
    else held + [x[0]] + StripFrom(x[1..], [], true)
  }

  lemma {:induction false} TrimmedBlanks(line: string, q: string)
    requires AllBlank(q)
    ensures Trimmed(line + q) == Trimmed(line)
  {
    if q == [] {
      assert line + q == line;
    } else {
      var n := |q| - 1;
      assert (line + q)[..|line + q| - 1] == line + q[..n];
      TrimmedBlanks(line, q[..n]);
    }
  }

  /** A trimmed first line of length `k`, and what the lines after it leave. */
  function WithRest(line: string, x: string, k: nat): string
    requires k <= |x|
  {
    line + if k == |x| then [] else (if line == [] then [] else ['\n']) + StripFrom(x[k + 1..], [], false)
  }

  lemma {:induction false} LineSteps(x: string, k: nat, seen: string, held: string)
    requires 0 < k <= |x| && '\n' !in x[..k]
    ensures x[0] != '\n' && '\n' !in x[1..][..k - 1] && (k < |x| ==> x[1..][k - 1] == x[k] && x[1..][k..] == x[k + 1..])
    ensures seen + (held + [x[0]]) + x[1..][..k - 1] == seen + held + x[..k]
    ensures seen + held + [x[0]] + [] + x[1..][..k - 1] == seen + held + x[..k]
  {
    assert x[0] == x[..k][0];
    assert x[1..][..k - 1] == x[1..k] && x[..k] == [x[0]] + x[1..k];
  }

  /** Within one line, the characters written so far are the trimmed line so far. */
  lemma {:induction false} LineStripped(x: string, k: nat, seen: string, held: string)
    requires k <= |x| && '\n' !in x[..k] && (k < |x| ==> x[k] == '\n') && AllBlank(held) && Trimmed(seen) == seen
    ensures seen + StripFrom(x, held, seen != []) == WithRest(Trimmed(seen + held + x[..k]), x, k)
  {
    hide AllBlank;
    if k == 0 {
      assert seen + held + x[..k] == seen + held;
      TrimmedBlanks(seen, held);
    } else {
      LineSteps(x, k, seen, held);
      if IsBlank(x[0]) {
        BlankMore(held, x[0]);
        LineStripped(x[1..], k - 1, seen, held + [x[0]]);
      } else {
        var more := seen + held + [x[0]];
        BlankMore("", ' ');
        LineStripped(x[1..], k - 1, more, []);
        assert seen + (held + [x[0]] + StripFrom(x[1..], [], true)) == more + StripFrom(x[1..], [], true);
      }
    }
  }

  lemma {:induction false} BlankMore(held: string, c: char)
    requires IsBlank(c)
    ensures AllBlank([]) && (AllBlank(held) ==> AllBlank(held + [c]))
  {
  }

  lemma {:induction false} FirstLine(x: string, k: nat)
    requires k == LineEnd(x)
    ensures StripFrom(x, [], false) == WithRest(Trimmed(x[..k]), x, k)
  {
    hide StripFrom, WithRest, Trimmed;
    assert Trimmed([]) == [];
    LineStripped(x, k, [], []);
    assert [] + [] + x[..k] == x[..k] && [] + StripFrom(x, [], false) == StripFrom(x, [], false);
  }

  /** Reading character by character gives the ideal. */
  lemma {:induction false} StripIs(x: string)
    ensures Strip(x) == StripFrom(x, [], false)
    decreases |x|
  {
    hide StripFrom, Trimmed, LineEnd;
    var k := LineEnd(x);
    FirstLine(x, k);
    if k < |x| {
      StripIs(x[k + 1..]);
    }
  }

  /** What is trimmed off is the longest tail of spaces and tabs. */
  lemma {:induction false} TrimmedIs(line: string)
    ensures Trimmed(line) <= line && forall i :: |Trimmed(line)| <= i < |line| ==> line[i] in " \t"
    ensures Trimmed(line) != [] ==> Trimmed(line)[|Trimmed(line)| - 1] !in " \t"
  {
    if line != [] && IsBlank(line[|line| - 1]) { TrimmedIs(line[..|line| - 1]); }
  }

  /** A line by itself is trimmed; a line with its newline is dropped if there are only spaces and tabs in it, and
   otherwise kept, trimmed. */
  lemma {:induction false} StripLine(line: string, rest: string)
    requires '\n' !in line
    ensures Strip(line) == Trimmed(line)
    ensures Strip(line + "\n" + rest)
      == if forall i :: 0 <= i < |line| ==> line[i] in " \t" then Strip(rest) else Trimmed(line) + "\n" + Strip(rest)
  {
    var x := line + "\n" + rest;
    TrimmedIs(line);
    LineEndAt(line, |line|);
    LineEndAt(x, |line|);
    assert x[|line|] == '\n' && x[..|line|] == line && x[|line| + 1..] == rest && line[..|line|] == line;
    assert line == [] ==> Trimmed(line) == [];
    if forall i :: 0 <= i < |line| ==> line[i] in " \t" {
      TrimmedBlanks([], line);
      assert [] + line == line && [] + Strip(rest) == Strip(rest);
    }
  }

  lemma {:induction false} LineEndAt(x: string, k: nat)
    requires k <= |x| && '\n' !in x[..k] && (k < |x| ==> x[k] == '\n')
    ensures LineEnd(x) == k
  {
    if k > 0 {
      assert x[0] == x[..k][0];
      assert x[1..][..k - 1] == x[..k][1..];
      LineEndAt(x[1..], k - 1);
    }
  }

  // ----- One pass with a queue that holds at most `cap` blanks

  /** What is written for the rest of a text, and whether trailing blanks were written on the way.
   `q` is the queue, `spaced` says that the last character written is a blank, and `nonspace` that
   something was written on this line. */
  datatype Outcome = Outcome(out: string, failed: bool)

  function Put(s: string, r: Outcome): Outcome {
    Outcome(s + r.out, r.failed)
  }

  function PassFrom(x: string, q: string, spaced: bool, nonspace: bool, cap: nat): Outcome
    requires |q| <= cap && cap > 0
  {
    if x == [] then Outcome([], spaced)
    else if x[0] == '\n' then
      var r := PassFrom(x[1..], [], spaced && !nonspace, false, cap);
      Outcome((if nonspace then ['\n'] else []) + r.out, spaced || r.failed)
    else if IsBlank(x[0]) then
      if |q| == cap then Put(q[..1], PassFrom(x[1..], q[1..] + [x[0]], true, true, cap))
      else PassFrom(x[1..], q + [x[0]], spaced, nonspace, cap)
    else Put(q + [x[0]], PassFrom(x[1..], [], false, true, cap))
  }

  function Passed(x: string): Outcome {
    PassFrom(x, [], false, false, MAXQUEUE - 1)
  }

  lemma {:induction false} HeldRead(q: string, y: string, held: string, visible: bool)
    requires AllBlank(q)
    ensures StripFrom(q + y, held, visible) == StripFrom(y, held + q, visible)
  {
    if q == [] {
      assert q + y == y && held + q == held;
    } else {
      assert (q + y)[1..] == q[1..] + y && held + [q[0]] + q[1..] == held + q;
      HeldRead(q[1..], y, held + [q[0]], visible);
    }
  }

  /** The state of a pass on a line: `early` are the blanks it wrote since the last visible character. */
  ghost predicate InLine(early: string, q: string, visible: bool, cap: nat) {
    |q| <= cap && cap > 0 && AllBlank(early) && AllBlank(q) && (early != [] ==> |q| == cap)
  }

  lemma {:induction false} AtNewline(x: string, early: string, q: string, visible: bool, cap: nat)
    requires InLine(early, q, visible, cap) && x != [] && x[0] == '\n'
    ensures var r := PassFrom(x[1..], [], false, false, cap);
      PassFrom(x, q, early != [], visible || early != [], cap)
      == Outcome((if visible || early != [] then ['\n'] else []) + r.out, early != [] || r.failed)
    ensures StripFrom(x, early + q, visible) == (if visible then ['\n'] else []) + StripFrom(x[1..], [], false)
    ensures InLine([], [], false, cap)
  {
  }

  lemma {:induction false} AtBlank(x: string, early: string, q: string, visible: bool, cap: nat)
    requires InLine(early, q, visible, cap) && x != [] && IsBlank(x[0])
    ensures var s := early != [];
      PassFrom(x, q, s, visible || s, cap) ==
      if |q| == cap then Put(q[..1], PassFrom(x[1..], q[1..] + [x[0]], true, true, cap))
      else PassFrom(x[1..], q + [x[0]], s, visible || s, cap)
    ensures StripFrom(x, early + q, visible) == StripFrom(x[1..], early + (q + [x[0]]), visible)
    ensures |q| == cap ==> InLine(early + q[..1], q[1..] + [x[0]], visible, cap)
    ensures |q| < cap ==> InLine(early, q + [x[0]], visible, cap)
    ensures |q| == cap ==>
              early + q[..1] + (q[1..] + [x[0]]) == early + (q + [x[0]]) && AllBlank(q[..1]) && early + q[..1] != []
  {
    assert early + q + [x[0]] == early + (q + [x[0]]);
  }

  lemma {:induction false} AtVisible(x: string, early: string, q: string, visible: bool, cap: nat)
    requires InLine(early, q, visible, cap) && x != [] && !IsBlank(x[0]) && x[0] != '\n'
    ensures var s := early != [];
      PassFrom(x, q, s, visible || s, cap) == Put(q + [x[0]], PassFrom(x[1..], [], false, true, cap))
    ensures StripFrom(x, early + q, visible) == early + q + [x[0]] + StripFrom(x[1..], [], true)
    ensures InLine([], [], true, cap)
  {
  }

  /** A pass keeps the ideal of its text. */
  lemma {:induction false} PassKeeps(x: string, early: string, q: string, visible: bool, cap: nat)
    requires InLine(early, q, visible, cap)
    ensures StripFrom(PassFrom(x, q, early != [], visible || early != [], cap).out, early, visible)
      == StripFrom(x, early + q, visible)
  {
    hide PassFrom, AllBlank;
    if x == [] {
      assert PassFrom(x, q, early != [], visible || early != [], cap).out == [] by {
        Ended(q, early != [], visible || early != [], cap);
      }
    } else {
      var c := x[0];
      if c == '\n' {
        AtNewline(x, early, q, visible, cap);
        PassKeeps(x[1..], [], [], false, cap);
        var r := PassFrom(x[1..], [], false, false, cap).out;
        assert [] + [] == "" && (['\n'] + r)[1..] == r && [] + r == r;
      } else if IsBlank(c) {
        AtBlank(x, early, q, visible, cap);
        if |q| == cap {
          PassKeeps(x[1..], early + q[..1], q[1..] + [c], visible, cap);
          HeldRead(q[..1], PassFrom(x[1..], q[1..] + [c], true, true, cap).out, early, visible);
        } else {
          PassKeeps(x[1..], early, q + [c], visible, cap);
        }
      } else {
        AtVisible(x, early, q, visible, cap);
        PassKeeps(x[1..], [], [], true, cap);
        var r := PassFrom(x[1..], [], false, true, cap).out;
        HeldRead(q, [c] + r, early, visible);
        assert q + [c] + r == q + ([c] + r) && ([c] + r)[1..] == r && [] + [] == "";
      }
    }
  }

  lemma {:induction false} Ended(q: string, spaced: bool, nonspace: bool, cap: nat)
    requires |q| <= cap && cap > 0
    ensures PassFrom([], q, spaced, nonspace, cap) == Outcome([], spaced)
  {
  }

  lemma {:induction false} NothingStripped(held: string, visible: bool)
    ensures StripFrom([], held, visible) == []
  {
  }

  /** A pass that does not fail writes the ideal. */
  lemma {:induction false} PassWrites(x: string, early: string, q: string, visible: bool, cap: nat)
    requires InLine(early, q, visible, cap)
    requires !PassFrom(x, q, early != [], visible || early != [], cap).failed
    ensures early + PassFrom(x, q, early != [], visible || early != [], cap).out == StripFrom(x, early + q, visible)
    decreases x, 1
  {
    hide PassFrom, AllBlank, StripFrom;
    if x == [] {
      Ended(q, early != [], visible || early != [], cap);
      NothingStripped(early + q, visible);
    } else if x[0] == '\n' {
      AtNewline(x, early, q, visible, cap);
      PassWrites(x[1..], [], [], false, cap);
      assert [] + [] == "";
    } else if IsBlank(x[0]) {
      BlankWrites(x, early, q, visible, cap);
    } else {
      AtVisible(x, early, q, visible, cap);
      PassWrites(x[1..], [], [], true, cap);
      var r := PassFrom(x[1..], [], false, true, cap).out;
      assert early + (q + [x[0]] + r) == early + q + [x[0]] + r && [] + r == r && [] + [] == "";
    }
  }

  lemma {:induction false} BlankWrites(x: string, early: string, q: string, visible: bool, cap: nat)
    requires InLine(early, q, visible, cap) && x != [] && IsBlank(x[0])
    requires !PassFrom(x, q, early != [], visible || early != [], cap).failed
    ensures early + PassFrom(x, q, early != [], visible || early != [], cap).out == StripFrom(x, early + q, visible)
    decreases x, 0
  {
    hide PassFrom, AllBlank, StripFrom;
    var c := x[0];
    AtBlank(x, early, q, visible, cap);
    if |q| == cap {
      PassWrites(x[1..], early + q[..1], q[1..] + [c], visible, cap);
      var r := PassFrom(x[1..], q[1..] + [c], true, true, cap).out;
      assert early + (q[..1] + r) == early + q[..1] + r;
    } else {
      PassWrites(x[1..], early, q + [c], visible, cap);
    }
  }

  /** A pass that fails drops a whole queue of blanks. */
  lemma {:induction false} PassShortens(x: string, q: string, spaced: bool, nonspace: bool, cap: nat)
    requires |q| <= cap && cap > 0 && (spaced ==> |q| == cap && nonspace)
    ensures var r := PassFrom(x, q, spaced, nonspace, cap);
      |r.out| + (if r.failed then cap else 0) <= |x| + |q|
  {
    if x != [] {
      if x[0] == '\n' {
        PassShortens(x[1..], [], false, false, cap);
      } else if IsBlank(x[0]) {
        if |q| == cap {
          PassShortens(x[1..], q[1..] + [x[0]], true, true, cap);
        } else {
          PassShortens(x[1..], q + [x[0]], spaced, nonspace, cap);
        }
      } else {
        PassShortens(x[1..], [], false, true, cap);
      }
    }
  }

  /** Some line ends in more than `cap` blanks; `run` blanks end the part of the line before `x`. */
  predicate LongTail(x: string, run: nat, cap: nat) {
    if x == [] then run > cap
    else if x[0] == '\n' then run > cap || LongTail(x[1..], 0, cap)
    else LongTail(x[1..], if IsBlank(x[0]) then run + 1 else 0, cap)
  }

  /** A pass fails exactly when some line ends in more blanks than the queue holds. */
  lemma {:induction false} PassFails(x: string, q: string, spaced: bool, nonspace: bool, run: nat, cap: nat)
    requires cap > 0 && |q| == (if run <= cap then run else cap) && (spaced <==> run > cap) && (spaced ==> nonspace)
    ensures PassFrom(x, q, spaced, nonspace, cap).failed <==> LongTail(x, run, cap)
  {
    if x != [] {
      if x[0] == '\n' {
        PassFails(x[1..], [], false, false, 0, cap);
      } else if IsBlank(x[0]) {
        if |q| == cap {
          PassFails(x[1..], q[1..] + [x[0]], true, true, run + 1, cap);
        } else {
          PassFails(x[1..], q + [x[0]], spaced, nonspace, run + 1, cap);
        }
      } else {
        PassFails(x[1..], [], false, true, 0, cap);
      }
    }
  }

  /** What one pass does to a text, whether it succeeds or not. */
  lemma {:induction false} PassedRight(x: string)
    ensures var r := Passed(x);
      && Strip(r.out) == Strip(x)
      && (!r.failed ==> r.out == Strip(x))
      && (r.failed ==> |r.out| + 1000 <= |x|)
      && (r.failed <==> LongTail(x, 0, 1000))
  {
    hide PassFrom, StripFrom, Strip;
    var r := PassFrom(x, [], false, false, MAXQUEUE - 1);
    StripIs(x);
    StripIs(r.out);
    assert InLine([], [], false, MAXQUEUE - 1);
    PassKeeps(x, [], [], false, MAXQUEUE - 1);
    PassShortens(x, [], false, false, MAXQUEUE - 1);
    PassFails(x, [], false, false, 0, MAXQUEUE - 1);
    assert [] + [] == "" && [] + r.out == r.out;
    if !r.failed {
      PassWrites(x, [], [], false, MAXQUEUE - 1);
    }
  }

  // ----- The program

  function Advance(pointer: nat): nat {
    if pointer < MAXQUEUE - 1 then pointer + 1 else 0
  }

  /** The slot `i` places after `tail` around the ring. */
  function Slot(tail: nat, i: nat): nat {
    if tail + i < MAXQUEUE then tail + i else tail + i - MAXQUEUE
  }

  /** The ring holds `q` from `tail` up to `head`. */
  ghost predicate Queued(blank: array<char>, head: nat, tail: nat, q: string)
    reads blank
  {
    && blank.Length == MAXQUEUE && tail < MAXQUEUE && |q| < MAXQUEUE && head == Slot(tail, |q|)
    && forall i :: 0 <= i < |q| ==> blank[Slot(tail, i)] == q[i]
  }

  lemma {:induction false} QueueEnds(blank: array<char>, head: nat, tail: nat, q: string)
    requires Queued(blank, head, tail, q)
    ensures head < MAXQUEUE && tail < MAXQUEUE == blank.Length && |q| < MAXQUEUE
    ensures head == tail <==> q == []
    ensures Advance(head) == tail <==> |q| == MAXQUEUE - 1
    ensures q != [] ==> blank[tail] == q[0] && Queued(blank, head, Advance(tail), q[1..])
  {
    if q != [] {
      assert Slot(tail, 0) == tail;
      forall i | 0 <= i < |q[1..]| ensures blank[Slot(Advance(tail), i)] == q[1..][i] {
        assert Slot(Advance(tail), i) == Slot(tail, i + 1);
      }
    }
  }

  method Enqueue(blank: array<char>, head: nat, tail: nat, c: char, ghost q: string) returns (newHead: nat)
    requires Queued(blank, head, tail, q) && |q| < MAXQUEUE - 1
    modifies blank
    ensures Queued(blank, newHead, tail, q + [c])
  {
    blank[head] := c;
    newHead := Advance(head);
    forall i | 0 <= i < |q| ensures Slot(tail, i) != head {
    }
  }

  method WriteQueue(blank: array<char>, head: nat, tail: nat, ghost q: string) returns (out: string, newTail: nat)
    requires Queued(blank, head, tail, q)
    ensures out == q && newTail == head && Queued(blank, head, newTail, [])
  {
    hide Queued;
    ghost var k := 0;
    newTail := tail;
    out := [];
    Whole(q);
    QueueEnds(blank, head, newTail, q);
    while head != newTail
      invariant 0 <= k <= |q| && out == q[..k] && Queued(blank, head, newTail, q[k..])
      decreases |q| - k
    {
      QueueEnds(blank, head, newTail, q[k..]);
      Split(q, k);
      out := out + [blank[newTail]];
      newTail := Advance(newTail);
      k := k + 1;
    }
    QueueEnds(blank, head, newTail, q[k..]);
    Whole(q);
  }

  lemma {:induction false} Whole(q: string)
    ensures q[..0] == [] && q[0..] == q && q[..|q|] == q && q[|q|..] == []
  {
  }

  lemma {:induction false} Split(q: string, k: nat)
    requires k < |q|
    ensures q[k..][0] == q[k] && q[k..][1..] == q[k + 1..] && q[..k] + [q[k]] == q[..k + 1]
  {
  }

  /** What was written so far, followed by what the rest of the text gives. */
  function Followed(out: string, failed: bool, r: Outcome): Outcome {
    Outcome(out + r.out, failed || r.failed)
  }

  lemma {:induction false} FollowedStep(out: string, failed: bool, x: string, i: nat, q: string, spaced: bool,
                                        nonspace: bool, cap: nat)
    requires i < |x| && |q| <= cap && cap > 0
    ensures var r := Followed(out, failed, PassFrom(x[i..], q, spaced, nonspace, cap));
      && (x[i] == '\n' ==>
        r == Followed(out + if nonspace then ['\n'] else [], failed || spaced,
                      PassFrom(x[i + 1..], [], spaced && !nonspace, false, cap)))
      && (IsBlank(x[i]) && |q| == cap ==>
        r == Followed(out + [q[0]], failed, PassFrom(x[i + 1..], q[1..] + [x[i]], true, true, cap)))
      && (IsBlank(x[i]) && |q| < cap ==>
        r == Followed(out, failed, PassFrom(x[i + 1..], q + [x[i]], spaced, nonspace, cap)))
      && (!IsBlank(x[i]) && x[i] != '\n' ==>
        r == Followed(out + q + [x[i]], failed, PassFrom(x[i + 1..], [], false, true, cap)))
  {
    var y := x[i..];
    assert y[0] == x[i] && y[1..] == x[i + 1..];
    if x[i] == '\n' {
      var r := PassFrom(y[1..], [], spaced && !nonspace, false, cap);
      assert out + ((if nonspace then ['\n'] else []) + r.out) == out + (if nonspace then ['\n'] else []) + r.out;
    } else if IsBlank(x[i]) {
      if |q| == cap {
        var r := PassFrom(y[1..], q[1..] + [x[i]], true, true, cap);
        assert out + (q[..1] + r.out) == out + [q[0]] + r.out;
      }
    } else {
      var r := PassFrom(y[1..], [], false, true, cap);
      assert out + (q + [x[i]] + r.out) == out + q + [x[i]] + r.out;
    }
  }

  lemma {:induction false} FollowedEnds(out: string, failed: bool, x: string, q: string, spaced: bool, nonspace: bool,
                                        cap: nat)
    requires |q| <= cap && cap > 0
    ensures Followed(out, failed, PassFrom(x[|x|..], q, spaced, nonspace, cap)) == Outcome(out, failed || spaced)
    ensures Followed([], false, PassFrom(x[0..], [], false, false, cap)) == PassFrom(x, [], false, false, cap)
  {
    assert x[0..] == x && x[|x|..] == [];
  }

  method Pass(x: string) returns (out: string, failure: bool)
    ensures Outcome(out, failure) == Passed(x)
  {
    hide PassFrom, Queued, Advance, Followed;
    var blank := new char[MAXQUEUE](i => ' ');
    var head: nat, tail: nat := 0, 0;
    var spaceJustPrinted, nonspace := false, false;
    out, failure := [], false;
    ghost var q: string := [];
    EmptyQueue(blank);
    FollowedEnds([], false, x, [], false, false, MAXQUEUE - 1);
    for i := 0 to |x|
      invariant Queued(blank, head, tail, q) && |q| <= MAXQUEUE - 1
      invariant Followed(out, failure, PassFrom(x[i..], q, spaceJustPrinted, nonspace, MAXQUEUE - 1)) == Passed(x)
    {
      var c := x[i];
      QueueEnds(blank, head, tail, q);
      FollowedStep(out, failure, x, i, q, spaceJustPrinted, nonspace, MAXQUEUE - 1);
      if c == '\n' {
        head, tail := 0, 0;
        EmptyQueue(blank);
        q := [];
        if spaceJustPrinted {
          failure := true;
        }
        out := out + if nonspace then ['\n'] else [];
        if nonspace {
          spaceJustPrinted := false;
          nonspace := false;
        }
      } else if c == ' ' || c == '\t' {
        if Advance(head) == tail {
          out := out + [blank[tail]];
          spaceJustPrinted := true;
          tail := Advance(tail);
          nonspace := true;
          q := q[1..];
        }
        head := Enqueue(blank, head, tail, c, q);
        q := q + [c];
      } else {
        var held;
        held, tail := WriteQueue(blank, head, tail, q);
        out := out + held + [c];
        q := [];
        spaceJustPrinted := false;
        nonspace := true;
      }
    }
    FollowedEnds(out, failure, x, q, spaceJustPrinted, nonspace, MAXQUEUE - 1);
    if spaceJustPrinted {
      failure := true;
    }
  }

  lemma {:induction false} EmptyQueue(blank: array<char>)
    requires blank.Length == MAXQUEUE
    ensures Queued(blank, 0, 0, [])
  {
  }

  /** Running passes until one succeeds: this ends, with exactly the ideal of the text. */
  method StripAll(x: string) returns (out: string)
    ensures out == Strip(x)
  {
    var failure := true;
    out := x;
    while failure
      invariant Strip(out) == Strip(x) && (!failure ==> out == Strip(x))
      decreases failure, |out|
    {
      hide Strip, Passed;
      PassedRight(out);
      out, failure := Pass(out);
    }
  }
}
