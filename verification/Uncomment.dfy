/**
 The comment remover as it is written: one pass with a stack of characters to be read again,
 in which trigraphs, backslash-newline pairs and comments are handled one character at a time.
 */
module Uncomment {
  import opened UncommentSpec

  const EOF := -1

  datatype L0State = L0Normal | L0Q1 | L0Q2
  datatype L1State = L1Normal | L1Back

  /** The stack stores characters in a signed type, in which the byte 255 reads as EOF. */
  function ToChar(c: int): int {
    if c >= 128 then c - 256 else c
  }

  /** The byte that writing a character gives. */
  function ToByte(c: int): int {
    if c < 0 then c + 256 else c
  }

  /** The tokens to be read from a stack, its top at the end, and then from `rest`. */
  ghost function Popped(stack: seq<Token>, rest: seq<Token>): seq<Token> {
    if stack == [] then rest
    else
      var n := |stack| - 1;
      if stack[n].c == 255 then [] else [stack[n]] + Popped(stack[..n], rest)
  }

  ghost function Pending(l0: L0State): seq<Byte> {
    match l0
    case L0Normal => []
    case L0Q1 => [QUESTION]
    case L0Q2 => [QUESTION, QUESTION]
  }

  class State {
    const input: seq<Byte>
    var pos: nat
    var l0: L0State
    const pushback: array<int>
    const pushorig: array<int>
    var npushback: nat
    ghost var stack: seq<Token>

    ghost predicate Valid()
      reads this, pushback, pushorig
      ensures Valid() ==> pos <= |input| && |stack| <= 3 && l0 != L0Q1
    {
      && pushback.Length == pushorig.Length == 4 && pushback != pushorig
      && pos <= |input| && l0 != L0Q1
      && |stack| == npushback <= 3
      && (forall i :: 0 <= i < |stack| ==> pushback[i] == ToChar(stack[i].c) && pushorig[i] == stack[i].orig)
      && (forall i :: 0 < i < |stack| ==> stack[i].c != 255 && (stack[0].c == 255 ==> stack[i].c == QUESTION))
    }

    /** The tokens that are still to be read. */
    ghost function Ahead(trigraphs: bool): seq<Token>
      requires pos <= |input|
      reads this
    {
      Popped(stack, Decoded(Pending(l0) + input[pos..], trigraphs, false))
    }

    /** What bounds the number of characters still to be handled. */
    ghost function Work(): (w: int)
      reads this
      ensures w == 4 * (|input| - pos) + 2 * |stack| + (if l0 == L0Q2 then 3 else 0)
    {
      4 * (|input| - pos) + 2 * |stack| + (if l0 == L0Q2 then 3 else 0)
    }

    constructor (x: seq<Byte>)
      ensures Valid() && input == x && pos == 0 && stack == [] && l0 == L0Normal
      ensures fresh(pushback) && fresh(pushorig)
    {
      input, pos, l0, npushback, stack := x, 0, L0Normal, 0, [];
      pushback := new int[4];
      pushorig := new int[4];
    }

    method PushBack(c: int, origc: Byte)
      requires Valid() && |stack| < 3 && -128 <= c < 256
      requires |stack| > 0 ==> ToByte(c) != 255 && (stack[0].c == 255 ==> c == QUESTION)
      modifies this`npushback, this`stack, pushback, pushorig
      ensures Valid() && stack == old(stack) + [Token(ToByte(c), origc)]
    {
      pushback[npushback] := ToChar(c);
      pushorig[npushback] := origc;
      npushback := npushback + 1;
      stack := stack + [Token(ToByte(c), origc)];
    }

    method GetC() returns (c: int)
      requires Valid()
      modifies this`pos
      ensures Valid()
      ensures old(pos) == |input| ==> c == EOF && pos == old(pos)
      ensures old(pos) < |input| ==> c == input[old(pos)] && pos == old(pos) + 1
    {
      if pos == |input| {
        return EOF;
      }
      c := input[pos];
      pos := pos + 1;
    }

    method SetL0(l: L0State)
      requires Valid() && l != L0Q1
      modifies this`l0
      ensures Valid() && l0 == l
    {
      l0 := l;
    }

    /** Leaves a character that follows a question mark to be looked at again. */
    method LeaveOne(c: Byte)
      requires Valid() && stack == []
      modifies this`npushback, this`stack, this`l0, pushback, pushorig
      ensures Valid() && |stack| == 1 && l0 == L0Normal
      ensures Ahead(true) == Again(c, Decoded(Pending(L0Normal) + input[pos..], true, false))
    {
      PushBack(c, 0);
      l0 := L0Normal;
      AheadOne();
    }

    /** Leaves a question mark and the character that follows it to be looked at again. */
    method LeaveTwo(c: Byte)
      requires Valid() && stack == []
      modifies this`npushback, this`stack, this`l0, pushback, pushorig
      ensures Valid() && |stack| == 2 && stack[1].c == QUESTION && l0 == L0Normal
      ensures Ahead(true) == [Token(QUESTION, 0)] + Again(c, Decoded(Pending(L0Normal) + input[pos..], true, false))
    {
      PushBack(c, 0);
      PushBack(QUESTION, 0);
      l0 := L0Normal;
      AheadTwo();
    }

    /** A character that ends a look at question marks: it completes a trigraph, or the first of what
     was looked at is returned and the rest is left for later. */
    method Decide(state: L0State, x: Byte, ghost ahead: seq<Token>) returns (c: int, origc: Byte)
      requires Valid() && stack == [] && (x == QUESTION ==> state == L0Q2)
      requires (state == L0Normal ==> l0 == L0Normal)
      requires ahead == Decoded(Pending(state) + [x] + input[pos..], true, false)
      modifies this`npushback, this`stack, this`l0, pushback, pushorig
      ensures Valid() && 0 <= c < 256 && ahead == [Token(c, origc)] + Ahead(true)
      ensures |stack| <= (if state == L0Normal then 0 else if state == L0Q1 then 1 else 2)
      ensures (stack != [] ==> c == QUESTION) && (|stack| > 1 ==> stack[1].c == QUESTION)
      ensures l0 == L0Q2 ==> stack == [] && state == L0Q2
    {
      hide Decoded, Popped, Pending, IsTrigraph, Again, Ahead, Mapped, Valid;
      c, origc := x, 0;
      if state == L0Normal {
        ReadNormal(x, input[pos..]);
        AheadEmpty(true);
      } else if state == L0Q1 {
        ReadOne(x, input[pos..]);
        LeaveOne(x);
        c := QUESTION;
      } else {
        ReadTwo(x, input[pos..]);
        if IsTrigraph(x) {
          origc := x;
          SetL0(L0Normal);
          c := Mapped(x);
          AheadEmpty(true);
        } else if x == QUESTION {
          SetL0(L0Q2);
          AheadEmpty(true);
        } else {
          LeaveTwo(x);
          c := QUESTION;
        }
      }
    }

    /** The next character with trigraphs decoded; up to two characters may be left on the stack. */
    method GetL0() returns (c: int, origc: Byte)
      requires Valid() && stack == []
      modifies this, pushback, pushorig
      ensures Valid() && EOF <= c < 256
      ensures c == EOF ==> old(Ahead(true)) == [] && stack == [] && Ahead(true) == [] && Work() <= old(Work())
      ensures c != EOF ==> old(Ahead(true)) == [Token(c, origc)] + Ahead(true) && Work() + 3 <= old(Work())
      ensures |stack| <= 2 && (stack != [] ==> c == QUESTION) && (|stack| > 1 ==> stack[1].c == QUESTION)
    {
      hide Decoded, Popped, Pending, Again, Read, Ahead, Valid, Work;
      var state := l0;
      origc := 0;
      AheadEmpty(true);
      ghost var ahead := Ahead(true);
      ReadSizes();
      NextRead(input, pos, state);
      c := GetC();
      while c != EOF
        invariant Valid() && stack == [] && l0 == old(l0) && EOF <= c < 256
        invariant c == EOF ==> pos == |input| && ahead == Decoded(Pending(state), true, false)
        invariant c != EOF ==> ahead == Decoded(Pending(state) + [c] + input[pos..], true, false)
        invariant state == L0Normal ==> l0 == L0Normal
        invariant pos >= old(pos) + Read(l0, state) + if c == EOF then 0 else 1
        decreases |input| - pos, c
      {
        if state == L0Q2 || c != QUESTION {
          c, origc := Decide(state, c, ahead);
          return;
        }
        ReadMark(state);
        state := if state == L0Normal then L0Q1 else L0Q2;
        NextRead(input, pos, state);
        c := GetC();
      }
      PendingLost(state);
      PendingLost(l0);
      NextRead(input, pos, l0);
      AheadEmpty(true);
    }

    /** There is a byte 255 on the stack, at its bottom. */
    ghost predicate Stopping()
      reads this
    {
      |stack| > 0 && stack[0].c == 255
    }

    method Pop() returns (c: int, origc: Byte)
      requires Valid() && stack != []
      modifies this`npushback, this`stack
      ensures Valid() && |stack| == |old(stack)| - 1 && stack == old(stack)[..|stack|]
      ensures -128 <= c < 128 && Token(ToByte(c), origc) == old(stack)[|stack|]
    {
      npushback := npushback - 1;
      stack := stack[..npushback];
      c := pushback[npushback];
      origc := pushorig[npushback];
    }

    /** The next character: from the stack, or from the input with or without trigraphs. */
    method NextChar(trigraphs: bool) returns (c: int, origc: Byte)
      requires Valid() && (!trigraphs ==> l0 == L0Normal)
      modifies this, pushback, pushorig
      ensures Valid() && |stack| <= 2 && -128 <= c < 256 && (!trigraphs ==> l0 == L0Normal)
      ensures c == EOF ==> old(Ahead(trigraphs)) == [] && Work() <= old(Work())
      ensures c == EOF && !old(Stopping()) ==> stack == [] && Ahead(trigraphs) == []
      ensures c != EOF ==>
                old(Ahead(trigraphs)) == [Token(ToByte(c), origc)] + Ahead(trigraphs) && Work() + 2 <= old(Work())
      ensures c != EOF && |stack| > 0 ==> ToByte(c) != 255 && (Stopping() ==> c == QUESTION)
    {
      hide Decoded, Popped, Pending, Work;
      if npushback > 0 {
        ghost var was, rest := stack, Decoded(Pending(l0) + input[pos..], trigraphs, false);
        c, origc := Pop();
        PoppedStep(was, rest);
      } else if trigraphs {
        c, origc := GetL0();
      } else {
        ghost var p := pos;
        AheadEmpty(trigraphs);
        c := GetC();
        origc := 0;
        PlainNext(input, p);
        AheadEmpty(trigraphs);
      }
    }

    method Return(c: int, origc: Byte, trigraphs: bool)
      requires Valid() && |stack| < 3 && -128 <= c < 256
      requires |stack| > 0 ==> ToByte(c) != 255 && (Stopping() ==> c == QUESTION)
      modifies this`npushback, this`stack, pushback, pushorig
      ensures Valid() && Work() == old(Work()) + 2
      ensures Ahead(trigraphs) == if ToByte(c) == 255 then [] else [Token(ToByte(c), origc)] + old(Ahead(trigraphs))
    {
      hide Decoded, Pending, Popped;
      ghost var was, rest := stack, Decoded(Pending(l0) + input[pos..], trigraphs, false);
      PushBack(c, origc);
      PoppedStep(stack, rest);
      assert stack[..|was|] == was;
    }

    lemma AheadOne()
      requires pos <= |input| && |stack| == 1 && stack[0].orig == 0
      ensures Ahead(true) == Again(stack[0].c, Decoded(Pending(l0) + input[pos..], true, false))
    {
      PoppedOne(stack[0], Decoded(Pending(l0) + input[pos..], true, false));
      assert stack == [stack[0]];
    }

    lemma AheadTwo()
      requires pos <= |input| && |stack| == 2 && stack[0].orig == 0 && stack[1].c != 255
      ensures Ahead(true) == [stack[1]] + Again(stack[0].c, Decoded(Pending(l0) + input[pos..], true, false))
    {
      PoppedTwo(stack[0], stack[1], Decoded(Pending(l0) + input[pos..], true, false));
      assert stack == [stack[0], stack[1]];
    }

    lemma AheadEmpty(trigraphs: bool)
      requires pos <= |input| && stack == []
      ensures Ahead(trigraphs) == Decoded(Pending(l0) + input[pos..], trigraphs, false)
    {
    }
  }

  lemma {:induction false} PoppedStep(stack: seq<Token>, rest: seq<Token>)
    requires stack != []
    ensures var n := |stack| - 1;
      Popped(stack, rest) == if stack[n].c == 255 then [] else [stack[n]] + Popped(stack[..n], rest)
  {
  }

  lemma {:induction false} PlainNext(input: seq<Byte>, pos: nat)
    requires pos <= |input|
    ensures var x := Decoded(Pending(L0Normal) + input[pos..], false, false);
      if pos == |input| then x == []
      else x == [Token(input[pos], 0)] + Decoded(Pending(L0Normal) + input[pos + 1..], false, false)
  {
    assert [] + input[pos..] == input[pos..];
    if pos < |input| {
      assert input[pos..][1..] == input[pos + 1..] && [] + input[pos + 1..] == input[pos + 1..];
    }
  }

  /** How many characters were read in going from one state to another. */
  ghost function Read(from: L0State, to: L0State): int {
    |Pending(to)| - |Pending(from)|
  }

  lemma {:induction false} ReadSizes()
    ensures Read(L0Normal, L0Normal) == Read(L0Q2, L0Q2) == 0 && Read(L0Normal, L0Q1) == 1 && Read(L0Normal, L0Q2) == 2
    ensures Read(L0Q2, L0Q1) == -1
  {
  }

  lemma {:induction false} PoppedOne(a: Token, rest: seq<Token>)
    requires a.orig == 0
    ensures Popped([a], rest) == Again(a.c, rest)
  {
    assert [a][..0] == [];
  }

  lemma {:induction false} PoppedTwo(a: Token, b: Token, rest: seq<Token>)
    requires b.c != 255 && a.orig == 0
    ensures Popped([a, b], rest) == [b] + Again(a.c, rest)
  {
    PoppedOne(a, rest);
    assert [a, b][..1] == [a];
  }

  lemma {:induction false} ReadMark(state: L0State)
    requires state != L0Q2
    ensures Pending(state) + [QUESTION] == Pending(if state == L0Normal then L0Q1 else L0Q2)
  {
  }

  lemma {:induction false} NextRead(input: seq<Byte>, pos: nat, state: L0State)
    requires pos <= |input|
    ensures pos == |input| ==> Pending(state) + input[pos..] == Pending(state)
    ensures pos < |input| ==> Pending(state) + input[pos..] == Pending(state) + [input[pos]] + input[pos + 1..]
  {
    if pos < |input| {
      assert input[pos..] == [input[pos]] + input[pos + 1..];
    }
  }

  lemma {:induction false} PendingLost(state: L0State)
    ensures Decoded(Pending(state), true, false) == []
  {
  }

  lemma {:induction false} DecodePlain(c: Byte, rest: seq<Byte>, marked: bool)
    requires c != QUESTION
    ensures Decoded([c] + rest, true, marked)
      == if marked && c == 255 then [] else [Token(c, 0)] + Decoded(rest, true, false)
  {
    assert ([c] + rest)[1..] == rest;
  }

  lemma {:induction false} DecodeMark(rest: seq<Byte>, marked: bool)
    requires |rest| > 0 && !(rest[0] == QUESTION && (|rest| == 1 || IsTrigraph(rest[1])))
    ensures Decoded([QUESTION] + rest, true, marked) == [Token(QUESTION, 0)] + Decoded(rest, true, true)
  {
    assert ([QUESTION] + rest)[1..] == rest;
  }

  lemma {:induction false} DecodeTrigraph(c: Byte, rest: seq<Byte>)
    requires IsTrigraph(c)
    ensures Decoded([QUESTION, QUESTION, c] + rest, true, false) == [Token(Mapped(c), c)] + Decoded(rest, true, false)
  {
    assert ([QUESTION, QUESTION, c] + rest)[3..] == rest;
  }

  lemma {:induction false} DecodeMarked(rest: seq<Byte>)
    ensures Decoded([QUESTION, QUESTION] + rest, true, true) == Decoded([QUESTION, QUESTION] + rest, true, false)
  {
  }

  /** What decoding gives for no question mark, one or two, and one more character. */
  lemma {:induction false} ReadNormal(c: Byte, rest: seq<Byte>)
    requires c != QUESTION
    ensures
      Decoded(Pending(L0Normal) + [c] + rest, true, false)
      == [Token(c, 0)] + Decoded(Pending(L0Normal) + rest, true, false)
  {
    hide Decoded;
    assert [] + rest == rest && [] + [c] + rest == [c] + rest;
    DecodePlain(c, rest, false);
  }

  ghost function Again(c: Byte, after: seq<Token>): seq<Token> {
    if c == 255 then [] else [Token(c, 0)] + after
  }

  lemma {:induction false} ReadOne(c: Byte, rest: seq<Byte>)
    requires c != QUESTION
    ensures
      Decoded(Pending(L0Q1) + [c] + rest, true, false)
      == [Token(QUESTION, 0)] + Again(c, Decoded(Pending(L0Normal) + rest, true, false))
  {
    hide Decoded;
    assert [] + rest == rest && [QUESTION] + [c] + rest == [QUESTION] + ([c] + rest);
    DecodeMark([c] + rest, false);
    DecodePlain(c, rest, true);
  }

  lemma {:induction false} ReadTwo(c: Byte, rest: seq<Byte>)
    ensures var x := Decoded(Pending(L0Q2) + [c] + rest, true, false);
      var after := Decoded(Pending(L0Normal) + rest, true, false);
      if IsTrigraph(c) then x == [Token(Mapped(c), c)] + after
      else if c == QUESTION then x == [Token(QUESTION, 0)] + Decoded(Pending(L0Q2) + rest, true, false)
      else x == [Token(QUESTION, 0)] + ([Token(QUESTION, 0)] + Again(c, after))
  {
    hide Decoded;
    assert [] + rest == rest;
    if IsTrigraph(c) {
      assert [QUESTION, QUESTION] + [c] + rest == [QUESTION, QUESTION, c] + rest;
      DecodeTrigraph(c, rest);
    } else {
      assert [QUESTION, QUESTION] + [c] + rest == [QUESTION] + ([QUESTION] + ([c] + rest));
      DecodeMark([QUESTION] + ([c] + rest), false);
      if c == QUESTION {
        assert [QUESTION] + ([c] + rest) == [QUESTION, QUESTION] + rest;
        DecodeMarked(rest);
      } else {
        DecodeMark([c] + rest, true);
        DecodePlain(c, rest, true);
      }
    }
  }

  // ----- Backslash-newline

  lemma {:induction false} SplicedPlain(t: Token, rest: seq<Token>)
    requires t.c != BACKSLASH
    ensures Spliced([t] + rest) == [Char(t)] + Spliced(rest)
  {
    assert ([t] + rest)[1..] == rest;
  }

  lemma {:induction false} SplicedBack(t: Token, u: Token, rest: seq<Token>)
    requires t.c == BACKSLASH
    ensures Spliced([t] + ([u] + rest)) ==
      if u.c == NEWLINE then [Owed] + Spliced(rest)
      else [Char(t)] + Spliced(if u.c == 255 then [] else [u] + rest)
  {
    var s := [t] + ([u] + rest);
    assert s[1..] == [u] + rest && s[2..] == rest;
  }

  lemma {:induction false} SplicedEnd(t: Token)
    ensures Spliced([t] + []) == [Char(t)] + Spliced([]) && Spliced([]) == []
  {
    assert [t] + [] == [t] && [t][1..] == [];
  }

  /** A backslash that was read, until the character after it is known, and the tokens that follow. */
  ghost function Behind(l1: L1State, backc: Byte, ahead: seq<Token>): seq<Item> {
    Spliced(if l1 == L1Back then [Token(BACKSLASH, backc)] + ahead else ahead)
  }

  /** What reading one character comes to: nothing yet, a newline taken out, or a character (or EOF) to handle. */
  datatype Round = Wait | Line | Handle(c: int, origc: Byte)

  ghost predicate RoundOf(before: seq<Item>, r: Round, after: seq<Item>) {
    match r
    case Wait => before == after
    case Line => before == [Owed] + after
    case Handle(c, origc) =>
      if c == EOF then before == [] else -128 <= c < 256 && before == [Char(Token(ToByte(c), origc))] + after
  }

  function IsBack(l1: L1State): int {
    if l1 == L1Back then 1 else 0
  }

  method ReadItem(st: State, trigraphs: bool, l1: L1State, backc: Byte) returns (r: Round, l1': L1State, backc': Byte)
    requires st.Valid() && (!trigraphs ==> st.l0 == L0Normal) && (l1 == L1Back ==> !st.Stopping())
    modifies st, st.pushback, st.pushorig
    ensures st.Valid() && (!trigraphs ==> st.l0 == L0Normal) && (l1' == L1Back ==> !st.Stopping())
    ensures RoundOf(Behind(l1, backc, old(st.Ahead(trigraphs))), r, Behind(l1', backc', st.Ahead(trigraphs)))
    ensures r != Handle(EOF, 0) ==> st.Work() + IsBack(l1') < old(st.Work()) + IsBack(l1)
    ensures r.Handle? && r.c == EOF ==> r == Handle(EOF, 0) && st.Work() + IsBack(l1') <= old(st.Work()) + IsBack(l1)
  {
    hide Spliced, st.Ahead, st.Work, st.Valid;
    l1', backc' := l1, backc;
    var c, origc := st.NextChar(trigraphs);
    ghost var t, ahead := Token(BACKSLASH, backc), st.Ahead(trigraphs);
    if l1 == L1Normal {
      if c == BACKSLASH {
        l1', backc' := L1Back, origc;
        r := Wait;
      } else if c == EOF {
        SplicedEnd(t);
        r := Handle(EOF, 0);
      } else {
        SplicedPlain(Token(ToByte(c), origc), ahead);
        r := Handle(c, origc);
      }
    } else {
      l1' := L1Normal;
      if c == EOF {
        SplicedEnd(t);
        r := Handle(BACKSLASH, backc);
      } else {
        SplicedBack(t, Token(ToByte(c), origc), ahead);
        if c == NEWLINE {
          r := Line;
        } else {
          st.Return(c, origc, trigraphs);
          r := Handle(BACKSLASH, backc);
        }
      }
    }
  }

  // ----- Comments

  method SyncLines(pendnls: nat) returns (out: seq<Byte>)
    ensures out == Sync(pendnls)
  {
    out := [];
    for i := 0 to pendnls
      invariant out == Sync(i)
    {
      out := out + [NEWLINE];
    }
  }

  function Output(ch: int, tri: Byte): seq<Byte>
    requires -128 <= ch < 256
  {
    if tri != 0 then [QUESTION, QUESTION, tri] else [ToByte(ch)]
  }

  /** One character, or EOF, in the innermost automaton. */
  method HandleChar(f: Flags, mode: Mode, pendnls: nat, c: int, origc: Byte)
    returns (l2: Mode, pend: nat, out: seq<Byte>)
    requires -128 <= c < 256
    ensures c != EOF ==> Stepped(l2, pend, out) == Step(f, mode, pendnls, Token(ToByte(c), origc))
    ensures c == EOF ==> out + Sync(pend) == AtEnd(mode, pendnls)
  {
    hide Sync;
    l2, pend, out := mode, pendnls, [];
    var copy := if c != EOF then Output(c, origc) else [];
    var sync := SyncLines(pendnls);
    NoneOwed(pendnls);
    match mode {
      case Normal =>
        if c == SLASH {
          l2 := AfterSlash;
        } else {
          if c == SINGLE_QUOTE {
            l2 := InChar;
          } else if c == DOUBLE_QUOTE {
            l2 := InString;
          }
          out, pend := sync + copy, 0;
        }
      case InChar =>
        if c == BACKSLASH {
          l2 := InCharBack;
        } else if c == SINGLE_QUOTE {
          l2 := Normal;
        }
        out := copy;
      case InCharBack =>
        l2, out := InChar, copy;
      case InString =>
        if c == BACKSLASH {
          l2 := InStringBack;
        } else if c == DOUBLE_QUOTE {
          l2 := Normal;
        }
        out := copy;
      case InStringBack =>
        l2, out := InString, copy;
      case AfterSlash =>
        if c == STAR {
          l2 := InComment;
        } else if f.c99 && c == SLASH {
          l2 := InLine;
        } else {
          out, pend := sync + [SLASH], 0;
          if c != SLASH {
            if c != EOF {
              out := out + copy;
            }
            l2 := Normal;
          }
        }
      case InComment =>
        if c == STAR {
          l2 := AfterStar;
        } else if c == NEWLINE {
          pend := pend + 1;
        }
      case AfterStar =>
        if c == SLASH {
          l2 := Normal;
          if f.whitespace && pendnls == 0 {
            out := [SPACE];
          }
          out, pend := out + sync, 0;
        } else if c != STAR && c != EOF {
          if c == NEWLINE {
            pend := pend + 1;
          }
          l2 := InComment;
        }
      case InLine =>
        if c == NEWLINE {
          l2 := Normal;
          out := SyncLines(pendnls + 1);
          pend := 0;
        }
    }
  }

  lemma {:induction false} NoneOwed(owed: nat)
    ensures Sync(0) == [] && Sync(owed) + [] == Sync(owed) && [] + Sync(owed) == Sync(owed)
  {
  }

  lemma {:induction false} AutomatonStep(f: Flags, item: Item, rest: seq<Item>, mode: Mode, owed: nat)
    ensures item == Owed ==> Automaton(f, [item] + rest, mode, owed) == Automaton(f, rest, mode, owed + 1)
    ensures item.Char? ==>
      var s := Step(f, mode, owed, item.token);
      Automaton(f, [item] + rest, mode, owed) == s.out + Automaton(f, rest, s.mode, s.owed)
    ensures Automaton(f, [], mode, owed) == AtEnd(mode, owed)
  {
    assert ([item] + rest)[1..] == rest;
  }

  /** One turn of the loop: a character is read, and handled unless it has to wait. */
  method Turn(st: State, f: Flags, l1: L1State, backc: Byte, l2: Mode, pendnls: nat)
    returns (c: int, l1': L1State, backc': Byte, l2': Mode, pendnls': nat, out: seq<Byte>)
    requires st.Valid() && (!f.trigraphs ==> st.l0 == L0Normal) && (l1 == L1Back ==> !st.Stopping())
    modifies st, st.pushback, st.pushorig
    ensures st.Valid() && (!f.trigraphs ==> st.l0 == L0Normal) && (l1' == L1Back ==> !st.Stopping())
    ensures var rest := old(Automaton(f, Behind(l1, backc, st.Ahead(f.trigraphs)), l2, pendnls));
      if c == EOF then rest == out + Sync(pendnls')
      else rest == out + Automaton(f, Behind(l1', backc', st.Ahead(f.trigraphs)), l2', pendnls')
    ensures c != EOF ==> st.Work() + IsBack(l1') < old(st.Work()) + IsBack(l1)
  {
    hide Spliced, Automaton, Step, AtEnd, Sync, Behind, st.Valid, st.Work, st.Ahead, st.Stopping;
    var r;
    r, l1', backc' := ReadItem(st, f.trigraphs, l1, backc);
    ghost var after := Behind(l1', backc', st.Ahead(f.trigraphs));
    AutomatonStep(f, if r.Handle? && r.c != EOF then Char(Token(ToByte(r.c), r.origc)) else Owed, after, l2, pendnls);
    c, l2', pendnls', out := 0, l2, pendnls, [];
    match r {
      case Wait =>
        assert out + Automaton(f, after, l2, pendnls) == Automaton(f, after, l2, pendnls);
      case Line =>
        pendnls' := pendnls + 1;
        assert out + Automaton(f, after, l2, pendnls + 1) == Automaton(f, after, l2, pendnls + 1);
      case Handle(ch, origc) =>
        c := ch;
        l2', pendnls', out := HandleChar(f, l2, pendnls, c, origc);
    }
  }

  /** For every text and every setting of the flags the loop ends, and writes what the three passes
   would: in particular it keeps the lines. */
  method Process(x: seq<Byte>, f: Flags) returns (out: seq<Byte>)
    ensures out == Uncommented(x, f)
    ensures Newlines(out) == Newlines(x[..Reach(x, 0, f.trigraphs)])
  {
    hide Spliced, Decoded, Automaton, Newlines, Sync, Reach, Uncommented, Behind;
    var st := new State(x);
    var l1, l2, c, pendnls: nat, backc: Byte := L1Normal, Normal, 0, 0, 0;
    out := [];
    AtStart(st, f);
    while c != EOF
      invariant st.Valid() && fresh(st) && fresh(st.pushback) && fresh(st.pushorig)
      invariant (!f.trigraphs ==> st.l0 == L0Normal) && (l1 == L1Back ==> !st.Stopping())
      invariant c != EOF ==>
                  out + Automaton(f, Behind(l1, backc, st.Ahead(f.trigraphs)), l2, pendnls) == Uncommented(x, f)
      invariant c == EOF ==> out + Sync(pendnls) == Uncommented(x, f)
      decreases if c == EOF then 0 else 1, st.Work() + IsBack(l1)
    {
      var more;
      c, l1, backc, l2, pendnls, more := Turn(st, f, l1, backc, l2, pendnls);
      out := out + more;
    }
    var sync := SyncLines(pendnls);
    out := out + sync;
    LinesKept(x, f);
  }

  lemma {:induction false} AtStart(st: State, f: Flags)
    requires st.pos == 0 && st.stack == [] && st.l0 == L0Normal
    ensures Automaton(f, Behind(L1Normal, 0, st.Ahead(f.trigraphs)), Normal, 0) == Uncommented(st.input, f)
  {
    assert st.input[0..] == st.input && [] + st.input == st.input;
  }
}
