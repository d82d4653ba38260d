/**
 Removing the comments of a C program, as a composition of three passes over the whole text:
 trigraphs are decoded, backslash-newline pairs are taken out, and then an automaton drops the
 comments. Newlines that are taken out are owed, and written at the next opportunity.
 */
module UncommentSpec {
  type Byte = b: int | 0 <= b < 256

  const NEWLINE: Byte := 10
  const SPACE: Byte := 32
  const DOUBLE_QUOTE: Byte := 34
  const SINGLE_QUOTE: Byte := 39
  const STAR: Byte := 42
  const SLASH: Byte := 47
  const QUESTION: Byte := 63
  const BACKSLASH: Byte := 92

  /** The codes of the characters that matter. */
  lemma {:induction false} Codes()
    ensures NEWLINE == '\n' as int && SPACE == ' ' as int && DOUBLE_QUOTE == '"' as int && SINGLE_QUOTE == '\'' as int
    ensures STAR == '*' as int && SLASH == '/' as int && QUESTION == '?' as int && BACKSLASH == '\\' as int
  {
  }

  datatype Flags = Flags(trigraphs: bool, whitespace: bool, c99: bool)

  // ----- Counting newlines

  function Newlines(s: seq<Byte>): nat {
    if s == [] then 0 else Newlines(s[..|s| - 1]) + IsNewline(s[|s| - 1])
  }

  function IsNewline(b: int): nat {
    if b == NEWLINE then 1 else 0
  }

  lemma {:induction false} NewlinesPlus(s: seq<Byte>, t: seq<Byte>)
    ensures Newlines(s + t) == Newlines(s) + Newlines(t)
  {
    if t == [] {
      assert s + t == s;
    } else {
      assert (s + t)[..|s + t| - 1] == s + t[..|t| - 1];
      NewlinesPlus(s, t[..|t| - 1]);
    }
  }

  // ----- First pass: trigraphs

  /** A character as the compiler sees it; `orig` is the third character of its trigraph, or 0. */
  datatype Token = Token(c: Byte, orig: Byte)

  predicate IsTrigraph(b: int) {
    b == 61 || b == 40 || b == 47 || b == 41 || b == 39 || b == 60 || b == 33 || b == 62
  }

  function Mapped(b: Byte): (m: Byte)
    requires IsTrigraph(b)
    ensures m != NEWLINE && m != QUESTION && m != SLASH && m != STAR && m != 255 && (m == BACKSLASH <==> b == SLASH)
  {
    match b
    case 61 => 35
    case 40 => 91
    case 47 => 92
    case 41 => 93
    case 39 => 94
    case 60 => 123
    case 33 => 124
    case _ => 125
  }

  /** The trigraphs of C, but for the one that stands for a tilde. */
  lemma {:induction false} TrigraphTable(i: nat)
    requires i < 8
    ensures IsTrigraph("=(/)'<!>"[i] as int) && Mapped("=(/)'<!>"[i] as int) as char == "#[\\]^{|}"[i]
  {
  }

  lemma {:induction false} TrigraphsOnly(b: Byte)
    ensures IsTrigraph(b) <==> b as char in "=(/)'<!>"
  {
  }

  /** The tokens of a text. Up to two question marks at the very end are lost. A byte 255 that follows a
   question mark passes for the end of the text; `marked` says that a question mark comes just before. */
  function Decoded(x: seq<Byte>, trigraphs: bool, marked: bool): seq<Token> {
    if x == [] then []
    else if !trigraphs then [Token(x[0], 0)] + Decoded(x[1..], trigraphs, false)
    else if x[0] != QUESTION then
      if marked && x[0] == 255 then [] else [Token(x[0], 0)] + Decoded(x[1..], trigraphs, false)
    else if |x| >= 3 && x[1] == QUESTION && IsTrigraph(x[2]) then
      [Token(Mapped(x[2]), x[2])] + Decoded(x[3..], trigraphs, false)
    else if |x| == 1 || (|x| == 2 && x[1] == QUESTION) then []
    else [Token(QUESTION, 0)] + Decoded(x[1..], trigraphs, true)
  }

  // ----- Second pass: backslash-newline

  /** A character for the automaton, or a newline that was taken out. */
  datatype Item = Char(token: Token) | Owed

  /** A byte 255 that follows a backslash passes for the end of the text. */
  function Spliced(t: seq<Token>): seq<Item> {
    if t == [] then []
    else if t[0].c != BACKSLASH || |t| == 1 then [Char(t[0])] + Spliced(t[1..])
    else if t[1].c == NEWLINE then [Owed] + Spliced(t[2..])
    else if t[1].c == 255 then [Char(t[0])]
    else [Char(t[0])] + Spliced(t[1..])
  }

  // ----- Third pass: comments

  datatype Mode = Normal | InChar | InCharBack | InString | InStringBack | AfterSlash | InComment | AfterStar | InLine

  /** The automaton's mode, the newlines it owes, and what it writes. */
  datatype Stepped = Stepped(mode: Mode, owed: nat, out: seq<Byte>)

  function Sync(owed: nat): (s: seq<Byte>)
    ensures |s| == owed && forall i :: 0 <= i < owed ==> s[i] == NEWLINE
  {
    if owed == 0 then [] else Sync(owed - 1) + [NEWLINE]
  }

  function Spelled(t: Token): seq<Byte> {
    if t.orig != 0 then [QUESTION, QUESTION, t.orig] else [t.c]
  }

  function Quoted(t: Token, quote: Byte, here: Mode, back: Mode, owed: nat): Stepped {
    Stepped(if t.c == BACKSLASH then back else if t.c == quote then Normal else here, owed, Spelled(t))
  }

  function Step(f: Flags, mode: Mode, owed: nat, t: Token): Stepped {
    match mode
    case Normal =>
      if t.c == SLASH then Stepped(AfterSlash, owed, [])
      else
        Stepped(if t.c == SINGLE_QUOTE then InChar else if t.c == DOUBLE_QUOTE then InString else Normal,
                0, Sync(owed) + Spelled(t))
    case InChar => Quoted(t, SINGLE_QUOTE, InChar, InCharBack, owed)
    case InCharBack => Stepped(InChar, owed, Spelled(t))
    case InString => Quoted(t, DOUBLE_QUOTE, InString, InStringBack, owed)
    case InStringBack => Stepped(InString, owed, Spelled(t))
    case AfterSlash =>
      if t.c == STAR then Stepped(InComment, owed, [])
      else if f.c99 && t.c == SLASH then Stepped(InLine, owed, [])
      else if t.c == SLASH then Stepped(AfterSlash, 0, Sync(owed) + [SLASH])
      else Stepped(Normal, 0, Sync(owed) + [SLASH] + Spelled(t))
    case InComment =>
      Stepped(if t.c == STAR then AfterStar else InComment, owed + IsNewline(t.c), [])
    case AfterStar =>
      if t.c == SLASH then Stepped(Normal, 0, (if f.whitespace && owed == 0 then [SPACE] else []) + Sync(owed))
      else Stepped(if t.c == STAR then AfterStar else InComment, owed + IsNewline(t.c), [])
    case InLine =>
      if t.c == NEWLINE then Stepped(Normal, 0, Sync(owed + 1)) else Stepped(InLine, owed, [])
  }

  /** What is written when the text ends. */
  function AtEnd(mode: Mode, owed: nat): seq<Byte> {
    Sync(owed) + if mode == AfterSlash then [SLASH] else []
  }

  function Automaton(f: Flags, items: seq<Item>, mode: Mode, owed: nat): seq<Byte> {
    if items == [] then AtEnd(mode, owed)
    else if items[0] == Owed then Automaton(f, items[1..], mode, owed + 1)
    else
      var s := Step(f, mode, owed, items[0].token);
      s.out + Automaton(f, items[1..], s.mode, s.owed)
  }

  function Uncommented(x: seq<Byte>, f: Flags): seq<Byte> {
    Automaton(f, Spliced(Decoded(x, f.trigraphs, false)), Normal, 0)
  }

  // ----- Lines are kept

  /** A trigraph never spells a newline. */
  ghost predicate Sound(t: Token) {
    t.orig != 0 ==> t.c != NEWLINE && t.orig != NEWLINE
  }

  lemma {:induction false} SyncCount(owed: nat)
    ensures Newlines(Sync(owed)) == owed
  {
    if owed > 0 { SyncCount(owed - 1); }
  }

  lemma {:induction false} SpelledCount(t: Token)
    requires Sound(t)
    ensures Newlines(Spelled(t)) == IsNewline(t.c)
    ensures Newlines([SLASH]) == Newlines([SPACE]) == Newlines([]) == 0
  {
    if t.orig != 0 {
      var s: seq<Byte> := [QUESTION, QUESTION, t.orig];
      NewlinesPlus([QUESTION, QUESTION], [t.orig]);
      NewlinesPlus([QUESTION], [QUESTION]);
      assert s == [QUESTION, QUESTION] + [t.orig] && [QUESTION, QUESTION] == [QUESTION] + [QUESTION];
    }
  }

  /** No step of the automaton gains or loses a newline. */
  lemma {:induction false} StepCount(f: Flags, mode: Mode, owed: nat, t: Token)
    requires Sound(t)
    ensures var s := Step(f, mode, owed, t); Newlines(s.out) + s.owed == owed + IsNewline(t.c)
  {
    hide Newlines, Spelled;
    SpelledCount(t);
    SyncCount(owed);
    SyncCount(owed + 1);
    match mode {
      case Normal =>
        NewlinesPlus(Sync(owed), Spelled(t));
      case AfterSlash =>
        NewlinesPlus(Sync(owed), [SLASH]);
        NewlinesPlus(Sync(owed) + [SLASH], Spelled(t));
      case AfterStar =>
        NewlinesPlus([SPACE], Sync(owed));
        NewlinesPlus([], Sync(owed));
      case _ =>
    }
  }

  function ItemNewlines(items: seq<Item>): nat {
    if items == [] then 0
    else (if items[0] == Owed then 1 else IsNewline(items[0].token.c)) + ItemNewlines(items[1..])
  }

  lemma {:induction false} AutomatonCount(f: Flags, items: seq<Item>, mode: Mode, owed: nat)
    requires forall i :: 0 <= i < |items| && items[i].Char? ==> Sound(items[i].token)
    ensures Newlines(Automaton(f, items, mode, owed)) == owed + ItemNewlines(items)
  {
    hide Newlines, Step, Sound;
    if items == [] {
      SyncCount(owed);
      TokenSound(0);
      SpelledCount(Token(0, 0));
      NewlinesPlus(Sync(owed), [SLASH]);
      NewlinesPlus(Sync(owed), []);
    } else if items[0] == Owed {
      AutomatonCount(f, items[1..], mode, owed + 1);
    } else {
      var s := Step(f, mode, owed, items[0].token);
      StepCount(f, mode, owed, items[0].token);
      NewlinesPlus(s.out, Automaton(f, items[1..], s.mode, s.owed));
      AutomatonCount(f, items[1..], s.mode, s.owed);
    }
  }

  lemma {:induction false} TokenSound(c: Byte)
    ensures Sound(Token(c, 0))
  {
  }

  // ----- How much of a text is read

  /** The text before `i` ends in a backslash, spelled as itself or as a trigraph. */
  ghost predicate EndsInBackslash(x: seq<Byte>, i: nat, trigraphs: bool)
    requires i <= |x|
  {
    || (i >= 1 && x[i - 1] == BACKSLASH)
    || (trigraphs && i >= 3 && x[i - 3] == QUESTION && x[i - 2] == QUESTION && x[i - 1] == SLASH)
  }

  /** A byte 255 that has to be looked at a second time passes for the end of the text. */
  ghost predicate StopsAt(x: seq<Byte>, i: nat, trigraphs: bool)
    requires i < |x|
  {
    x[i] == 255 && (EndsInBackslash(x, i, trigraphs) || (trigraphs && i >= 1 && x[i - 1] == QUESTION))
  }

  /** How far the text is read. */
  ghost function Reach(x: seq<Byte>, i: nat, trigraphs: bool): (n: nat)
    requires i <= |x|
    ensures i <= n <= |x|
    ensures n == |x| <==> forall j :: i <= j < |x| ==> !StopsAt(x, j, trigraphs)
    decreases |x| - i
  {
    if i == |x| then i else if StopsAt(x, i, trigraphs) then i else Reach(x, i + 1, trigraphs)
  }

  /** The newlines among the tokens that are not behind a stop; `back` says a backslash comes just before. */
  function TokenNewlines(t: seq<Token>, back: bool): nat {
    if t == [] || (back && t[0].c == 255) then 0
    else IsNewline(t[0].c) + TokenNewlines(t[1..], t[0].c == BACKSLASH)
  }

  lemma {:induction false} SplicedCount(t: seq<Token>)
    ensures ItemNewlines(Spliced(t)) == TokenNewlines(t, false)
    decreases |t|
  {
    if t != [] {
      if t[0].c != BACKSLASH || |t| == 1 {
        SplicedCount(t[1..]);
      } else if t[1].c == NEWLINE {
        SplicedCount(t[2..]);
        assert t[1..][1..] == t[2..];
      } else if t[1].c != 255 {
        SplicedCount(t[1..]);
      }
    }
  }

  lemma {:induction false} SplicedSound(t: seq<Token>)
    requires forall i :: 0 <= i < |t| ==> Sound(t[i])
    ensures forall i :: 0 <= i < |Spliced(t)| && Spliced(t)[i].Char? ==> Sound(Spliced(t)[i].token)
    decreases |t|
  {
    if t != [] {
      SplicedSound(t[1..]);
      if |t| > 1 { SplicedSound(t[2..]); }
    }
  }

  lemma {:induction false} DecodedSound(x: seq<Byte>, trigraphs: bool, marked: bool)
    ensures forall i :: 0 <= i < |Decoded(x, trigraphs, marked)| ==> Sound(Decoded(x, trigraphs, marked)[i])
    decreases |x|
  {
    if x != [] {
      DecodedSound(x[1..], trigraphs, false);
      DecodedSound(x[1..], trigraphs, true);
      if |x| >= 3 { DecodedSound(x[3..], trigraphs, false); }
    }
  }

  /** Position `i` is not inside a trigraph. */
  ghost predicate Between(x: seq<Byte>, i: nat, trigraphs: bool)
    requires i <= |x|
  {
    trigraphs ==>
      && !(i >= 1 && i + 1 < |x| && x[i - 1] == QUESTION && x[i] == QUESTION && IsTrigraph(x[i + 1]))
      && !(i >= 2 && i < |x| && x[i - 2] == QUESTION && x[i - 1] == QUESTION && IsTrigraph(x[i]))
  }

  ghost predicate Marked(x: seq<Byte>, i: nat)
    requires i <= |x|
  {
    i >= 1 && x[i - 1] == QUESTION
  }

  lemma {:induction false} CountOne(x: seq<Byte>, i: nat, n: nat)
    requires i < n <= |x|
    ensures Newlines(x[i..n]) == IsNewline(x[i]) + Newlines(x[i + 1..n])
  {
    NewlinesPlus([x[i]], x[i + 1..n]);
    assert x[i..n] == [x[i]] + x[i + 1..n] && [x[i]][..0] == [];
  }

  /** One byte is read as a token of its own. */
  lemma {:induction false} PlainRead(x: seq<Byte>, i: nat, trigraphs: bool, t: seq<Token>)
    requires i < |x| && !StopsAt(x, i, trigraphs) && Between(x, i, trigraphs)
    requires TokenNewlines(t, EndsInBackslash(x, i + 1, trigraphs)) == Newlines(x[i + 1..Reach(x, i + 1, trigraphs)])
    ensures TokenNewlines([Token(x[i], 0)] + t, EndsInBackslash(x, i, trigraphs))
      == Newlines(x[i..Reach(x, i, trigraphs)])
  {
    hide Newlines;
    CountOne(x, i, Reach(x, i, trigraphs));
    var u := [Token(x[i], 0)] + t;
    assert u[1..] == t && EndsInBackslash(x, i + 1, trigraphs) == (x[i] == BACKSLASH);
  }

  lemma {:induction false} TrigraphRead(x: seq<Byte>, i: nat, t: seq<Token>)
    requires i + 2 < |x| && x[i] == QUESTION && x[i + 1] == QUESTION && IsTrigraph(x[i + 2])
    requires TokenNewlines(t, EndsInBackslash(x, i + 3, true)) == Newlines(x[i + 3..Reach(x, i + 3, true)])
    ensures TokenNewlines([Token(Mapped(x[i + 2]), x[i + 2])] + t, EndsInBackslash(x, i, true))
      == Newlines(x[i..Reach(x, i, true)])
  {
    hide Newlines;
    var n := Reach(x, i, true);
    assert Reach(x, i + 1, true) == n && Reach(x, i + 2, true) == n && Reach(x, i + 3, true) == n;
    CountOne(x, i, n);
    CountOne(x, i + 1, n);
    CountOne(x, i + 2, n);
    var u := [Token(Mapped(x[i + 2]), x[i + 2])] + t;
    assert u[1..] == t;
  }

  lemma {:induction false} NothingRead(x: seq<Byte>, i: nat)
    requires i <= |x|
    ensures Newlines(x[i..i]) == 0 && forall back :: TokenNewlines([], back) == 0
  {
  }

  /** Nothing more is read at a byte that passes for the end. */
  lemma {:induction false} StopRead(x: seq<Byte>, i: nat, trigraphs: bool)
    requires i < |x| && StopsAt(x, i, trigraphs)
    ensures TokenNewlines(Decoded(x[i..], trigraphs, Marked(x, i)), EndsInBackslash(x, i, trigraphs)) == 0
    ensures Reach(x, i, trigraphs) == i
  {
    hide Newlines;
    var y := x[i..];
    assert y[0] == x[i];
    if y != [] && !(trigraphs && Marked(x, i)) {
      assert Decoded(y, trigraphs, Marked(x, i))[0] == Token(y[0], 0);
    }
  }

  lemma {:induction false} DecodedCount(x: seq<Byte>, i: nat, trigraphs: bool)
    requires i <= |x| && Between(x, i, trigraphs)
    ensures TokenNewlines(Decoded(x[i..], trigraphs, Marked(x, i)), EndsInBackslash(x, i, trigraphs))
      == Newlines(x[i..Reach(x, i, trigraphs)])
    decreases |x| - i
  {
    hide Newlines, TokenNewlines, Mapped;
    var y := x[i..];
    NothingRead(x, i);
    if i == |x| {
      assert Decoded(y, trigraphs, Marked(x, i)) == [];
    } else {
      assert y[0] == x[i] && y[1..] == x[i + 1..];
      if StopsAt(x, i, trigraphs) {
        StopRead(x, i, trigraphs);
      } else if !trigraphs || x[i] != QUESTION {
        DecodedCount(x, i + 1, trigraphs);
        PlainRead(x, i, trigraphs, Decoded(x[i + 1..], trigraphs, false));
      } else if |y| >= 3 && y[1] == QUESTION && IsTrigraph(y[2]) {
        assert y[3..] == x[i + 3..] && y[2] == x[i + 2] && y[1] == x[i + 1];
        DecodedCount(x, i + 3, trigraphs);
        TrigraphRead(x, i, Decoded(x[i + 3..], trigraphs, false));
      } else if |y| == 1 || (|y| == 2 && y[1] == QUESTION) {
        LostAtEnd(x, i);
      } else {
        DecodedCount(x, i + 1, trigraphs);
        PlainRead(x, i, trigraphs, Decoded(x[i + 1..], trigraphs, true));
      }
    }
  }

  lemma {:induction false} LostAtEnd(x: seq<Byte>, i: nat)
    requires i < |x| <= i + 2 && x[i] == QUESTION && x[|x| - 1] == QUESTION
    ensures Newlines(x[i..Reach(x, i, true)]) == 0
  {
    var n := Reach(x, i, true);
    if i < n {
      CountOne(x, i, n);
      if i + 1 < n { CountOne(x, i + 1, n); }
    }
  }

  lemma {:induction false} NoNewlines(s: seq<Byte>)
    ensures Newlines(s) == 0 <==> NEWLINE !in s
  {
    if s != [] {
      NoNewlines(s[..|s| - 1]);
      assert s == s[..|s| - 1] + [s[|s| - 1]];
    }
  }

  /** For every text and every setting of the flags, as many newlines are written as there are in the
   part that is read, and that is the whole text unless a byte 255 has to be looked at twice. The line
   count is kept exactly when there is no newline in the part that is not read. */
  lemma {:induction false} LinesKept(x: seq<Byte>, f: Flags)
    ensures Newlines(Uncommented(x, f)) == Newlines(x[..Reach(x, 0, f.trigraphs)])
    ensures (forall i :: 0 <= i < |x| ==> !StopsAt(x, i, f.trigraphs)) ==> Newlines(Uncommented(x, f)) == Newlines(x)
    ensures Newlines(Uncommented(x, f)) == Newlines(x) <==> NEWLINE !in x[Reach(x, 0, f.trigraphs)..]
  {
    hide Newlines, Automaton, Spliced, Decoded, ItemNewlines, TokenNewlines, Sound;
    var t := Decoded(x, f.trigraphs, false);
    DecodedSound(x, f.trigraphs, false);
    SplicedSound(t);
    AutomatonCount(f, Spliced(t), Normal, 0);
    SplicedCount(t);
    assert x[0..] == x && x[..|x|] == x && x[0..Reach(x, 0, f.trigraphs)] == x[..Reach(x, 0, f.trigraphs)];
    DecodedCount(x, 0, f.trigraphs);
    var n := Reach(x, 0, f.trigraphs);
    NewlinesPlus(x[..n], x[n..]);
    NoNewlines(x[n..]);
    assert x[..n] + x[n..] == x;
  }

  /** A backslash, a byte 255 and a newline: the newline is lost, whatever the flags. */
  lemma {:induction false} LineLost(f: Flags)
    ensures Newlines([BACKSLASH, 255, NEWLINE]) == 1 && Newlines(Uncommented([BACKSLASH, 255, NEWLINE], f)) == 0
  {
    var x: seq<Byte> := [BACKSLASH, 255, NEWLINE];
    LinesKept(x, f);
    assert EndsInBackslash(x, 1, f.trigraphs) && StopsAt(x, 1, f.trigraphs) && !StopsAt(x, 0, f.trigraphs);
    NoNewlines(x[..1]);
    assert x[..2] == [BACKSLASH, 255];
    NoNewlines(x[..2]);
  }

  // ----- The laws of the third pass

  /** The characters of some items, without the newlines that were taken out. */
  function TokensOf(items: seq<Item>): seq<Token> {
    if items == [] then []
    else if items[0] == Owed then TokensOf(items[1..]) else [items[0].token] + TokensOf(items[1..])
  }

  function OwedIn(items: seq<Item>): nat {
    if items == [] then 0 else (if items[0] == Owed then 1 else 0) + OwedIn(items[1..])
  }

  function SpelledAll(t: seq<Token>): seq<Byte> {
    if t == [] then [] else Spelled(t[0]) + SpelledAll(t[1..])
  }

  function NewlinesIn(t: seq<Token>): nat {
    if t == [] then 0 else IsNewline(t[0].c) + NewlinesIn(t[1..])
  }

  /** The automaton after some items. */
  function Ran(f: Flags, items: seq<Item>, mode: Mode, owed: nat): Stepped {
    if items == [] then Stepped(mode, owed, [])
    else if items[0] == Owed then Ran(f, items[1..], mode, owed + 1)
    else
      var s := Step(f, mode, owed, items[0].token);
      var r := Ran(f, items[1..], s.mode, s.owed);
      Stepped(r.mode, r.owed, s.out + r.out)
  }

  lemma {:induction false} OwedFirst(f: Flags, p: seq<Item>, mode: Mode, owed: nat)
    requires p != [] && p[0] == Owed
    ensures TokensOf(p) == TokensOf(p[1..]) && OwedIn(p) == 1 + OwedIn(p[1..])
    ensures Ran(f, p, mode, owed) == Ran(f, p[1..], mode, owed + 1)
  {
  }

  lemma {:induction false} CharFirst(f: Flags, p: seq<Item>, mode: Mode, owed: nat)
    requires p != [] && p[0].Char?
    ensures var t, u := TokensOf(p), TokensOf(p[1..]);
      && |t| == |u| + 1 && t[0] == p[0].token && t[1..] == u && OwedIn(p) == OwedIn(p[1..])
      && NewlinesIn(t) == IsNewline(t[0].c) + NewlinesIn(u)
      && t[|t| - 1] == if u == [] then t[0] else u[|u| - 1]
    ensures var s := Step(f, mode, owed, p[0].token);
      var r := Ran(f, p[1..], s.mode, s.owed);
      Ran(f, p, mode, owed) == Stepped(r.mode, r.owed, s.out + r.out)
  {
    hide Step, IsNewline;
  }

  lemma {:induction false} RunsOn(f: Flags, a: seq<Item>, b: seq<Item>, mode: Mode, owed: nat)
    ensures var r := Ran(f, a, mode, owed); Automaton(f, a + b, mode, owed) == r.out + Automaton(f, b, r.mode, r.owed)
  {
    hide Step;
    if a == [] {
      assert a + b == b;
    } else {
      assert (a + b)[0] == a[0] && (a + b)[1..] == a[1..] + b;
      if a[0] == Owed {
        RunsOn(f, a[1..], b, mode, owed + 1);
      } else {
        var s := Step(f, mode, owed, a[0].token);
        RunsOn(f, a[1..], b, s.mode, s.owed);
      }
    }
  }

  lemma {:induction false} NextChar(f: Flags, t: Token, rest: seq<Item>, mode: Mode, owed: nat)
    ensures var s := Step(f, mode, owed, t);
      Automaton(f, [Char(t)] + rest, mode, owed) == s.out + Automaton(f, rest, s.mode, s.owed)
  {
    assert ([Char(t)] + rest)[1..] == rest;
  }

  /** A newline that was taken out is owed, and changes nothing else. */
  lemma {:induction false} SpliceOwed(f: Flags, rest: seq<Item>, mode: Mode, owed: nat)
    ensures Automaton(f, [Owed] + rest, mode, owed) == Automaton(f, rest, mode, owed + 1)
  {
    assert ([Owed] + rest)[1..] == rest;
  }

  /** A character that starts nothing is written, behind the newlines that are owed. */
  lemma {:induction false} OtherKept(f: Flags, t: Token, rest: seq<Item>, owed: nat)
    requires t.c != SLASH && t.c != SINGLE_QUOTE && t.c != DOUBLE_QUOTE
    ensures Automaton(f, [Char(t)] + rest, Normal, owed) == Sync(owed) + Spelled(t) + Automaton(f, rest, Normal, 0)
  {
    hide Automaton, Sync, Spelled;
    NextChar(f, t, rest, Normal, owed);
  }

  /** Items that are all newlines taken out. */
  lemma {:induction false} GapRan(f: Flags, gap: seq<Item>, mode: Mode, owed: nat)
    requires TokensOf(gap) == []
    ensures Ran(f, gap, mode, owed) == Stepped(mode, owed + |gap|, [])
  {
    hide Step;
    if gap != [] { GapRan(f, gap[1..], mode, owed + 1); }
  }

  lemma {:induction false} SlashGap(f: Flags, slash: Token, gap: seq<Item>, rest: seq<Item>, owed: nat)
    requires slash.c == SLASH && TokensOf(gap) == []
    ensures Automaton(f, [Char(slash)] + (gap + rest), Normal, owed) == Automaton(f, rest, AfterSlash, owed + |gap|)
  {
    hide Automaton, Ran;
    NextChar(f, slash, gap + rest, Normal, owed);
    RunsOn(f, gap, rest, AfterSlash, owed);
    GapRan(f, gap, AfterSlash, owed);
    var end := Automaton(f, rest, AfterSlash, owed + |gap|);
    assert [] + ([] + end) == end;
  }

  /** A slash that starts no comment is written with the character behind it, and the program goes on behind both;
   so a quote right behind a slash opens no literal. */
  lemma {:induction false} SlashKept(f: Flags, slash: Token, gap: seq<Item>, t: Token, rest: seq<Item>, owed: nat)
    requires slash.c == SLASH && TokensOf(gap) == [] && t.c != STAR && t.c != SLASH
    ensures Automaton(f, [Char(slash)] + (gap + ([Char(t)] + rest)), Normal, owed)
      == Sync(owed + |gap|) + [SLASH] + Spelled(t) + Automaton(f, rest, Normal, 0)
  {
    hide Automaton, Sync, Spelled;
    SlashGap(f, slash, gap, [Char(t)] + rest, owed);
    NextChar(f, t, rest, AfterSlash, owed + |gap|);
  }

  /** Without the flag for C99, a slash before a slash is written, and the second may start a comment. */
  lemma {:induction false} SlashBeforeSlash(f: Flags, slash: Token, gap: seq<Item>, t: Token, rest: seq<Item>,
                                            owed: nat)
    requires !f.c99 && slash.c == SLASH && TokensOf(gap) == [] && t.c == SLASH
    ensures Automaton(f, [Char(slash)] + (gap + ([Char(t)] + rest)), Normal, owed)
      == Sync(owed + |gap|) + [SLASH] + Automaton(f, [Char(t)] + rest, Normal, 0)
  {
    hide Automaton, Sync;
    SlashGap(f, slash, gap, [Char(t)] + rest, owed);
    NextChar(f, t, rest, AfterSlash, owed + |gap|);
    NextChar(f, t, rest, Normal, 0);
    assert [] + Automaton(f, rest, AfterSlash, 0) == Automaton(f, rest, AfterSlash, 0);
  }

  /** Inside a comment: no slash comes right after a star; `star` says that one comes just before. */
  predicate CommentText(t: seq<Token>, star: bool) {
    t == [] || (!(star && t[0].c == SLASH) && CommentText(t[1..], t[0].c == STAR))
  }

  function CommentMode(star: bool): Mode {
    if star then AfterStar else InComment
  }

  lemma {:induction false} CommentStep(f: Flags, star: bool, t: Token, owed: nat)
    requires !(star && t.c == SLASH)
    ensures Step(f, CommentMode(star), owed, t) == Stepped(CommentMode(t.c == STAR), owed + IsNewline(t.c), [])
  {
  }

  /** Nothing of a comment is written, and its newlines are owed. */
  lemma {:induction false} CommentRan(f: Flags, p: seq<Item>, star: bool, owed: nat)
    requires CommentText(TokensOf(p), star)
    ensures var t := TokensOf(p);
      Ran(f, p, CommentMode(star), owed)
      == Stepped(CommentMode(if t == [] then star else t[|t| - 1].c == STAR), owed + OwedIn(p) + NewlinesIn(t), [])
    decreases |p|
  {
    hide Step, CommentMode, Ran, TokensOf, OwedIn, NewlinesIn, IsNewline;
    if p == [] {
      NoItems(f, CommentMode(star), owed);
    } else if p[0] == Owed {
      OwedFirst(f, p, CommentMode(star), owed);
      CommentRan(f, p[1..], star, owed + 1);
    } else {
      var t := p[0].token;
      CharFirst(f, p, CommentMode(star), owed);
      CommentStep(f, star, t, owed);
      CommentRan(f, p[1..], t.c == STAR, owed + IsNewline(t.c));
    }
  }

  lemma {:induction false} NoItems(f: Flags, mode: Mode, owed: nat)
    ensures TokensOf([]) == [] && OwedIn([]) == 0 && NewlinesIn([]) == 0
    ensures Ran(f, [], mode, owed) == Stepped(mode, owed, [])
  {
  }

  /** From the slash into the comment. */
  lemma {:induction false} CommentOpens(f: Flags, p: seq<Item>, owed: nat)
    requires var t := TokensOf(p); t != [] && t[0].c == STAR && CommentText(t[1..], false)
    ensures var t := TokensOf(p);
      Ran(f, p, AfterSlash, owed)
      == Stepped(CommentMode(|t| > 1 && t[|t| - 1].c == STAR), owed + OwedIn(p) + NewlinesIn(t), [])
    decreases |p|
  {
    hide Ran, TokensOf, OwedIn, NewlinesIn, CommentText;
    NoItems(f, AfterSlash, owed);
    if p[0] == Owed {
      OwedFirst(f, p, AfterSlash, owed);
      CommentOpens(f, p[1..], owed + 1);
    } else {
      CharFirst(f, p, AfterSlash, owed);
      CommentRan(f, p[1..], false, owed);
    }
  }

  /** A comment becomes a blank, or its newlines if it has some or some are owed, and then the program goes on.
   Between its first slash and its last stands `p`, from star to star. */
  lemma {:induction false} CommentReplaced(f: Flags, open: Token, p: seq<Item>, close: Token, rest: seq<Item>,
                                           owed: nat)
    requires open.c == SLASH && close.c == SLASH
    requires var t := TokensOf(p);
      |t| >= 2 && t[0].c == STAR && t[|t| - 1].c == STAR && CommentText(t[1..], false)
    ensures var n := owed + OwedIn(p) + NewlinesIn(TokensOf(p));
      Automaton(f, [Char(open)] + (p + ([Char(close)] + rest)), Normal, owed)
      == (if f.whitespace && n == 0 then [SPACE] else []) + Sync(n) + Automaton(f, rest, Normal, 0)
  {
    hide Automaton, Sync, Ran, TokensOf, NewlinesIn, OwedIn, CommentText;
    var n := owed + OwedIn(p) + NewlinesIn(TokensOf(p));
    NextChar(f, open, p + ([Char(close)] + rest), Normal, owed);
    RunsOn(f, p, [Char(close)] + rest, AfterSlash, owed);
    CommentOpens(f, p, owed);
    NextChar(f, close, rest, AfterStar, n);
    var end := (if f.whitespace && n == 0 then [SPACE] else []) + Sync(n) + Automaton(f, rest, Normal, 0);
    assert [] + ([] + end) == end;
  }

  lemma {:induction false} LineRan(f: Flags, p: seq<Item>, owed: nat)
    requires forall i :: 0 <= i < |TokensOf(p)| ==> TokensOf(p)[i].c != NEWLINE
    ensures Ran(f, p, InLine, owed) == Stepped(InLine, owed + OwedIn(p), [])
    decreases |p|
  {
    if p != [] {
      if p[0] == Owed {
        assert TokensOf(p) == TokensOf(p[1..]);
        LineRan(f, p[1..], owed + 1);
      } else {
        assert TokensOf(p)[0] == p[0].token && TokensOf(p)[1..] == TokensOf(p[1..]);
        LineRan(f, p[1..], owed);
      }
    }
  }

  lemma {:induction false} LineOpens(f: Flags, p: seq<Item>, owed: nat)
    requires f.c99 && |TokensOf(p)| > 0 && TokensOf(p)[0].c == SLASH
    requires forall i :: 0 <= i < |TokensOf(p)| ==> TokensOf(p)[i].c != NEWLINE
    ensures Ran(f, p, AfterSlash, owed) == Stepped(InLine, owed + OwedIn(p), [])
    decreases |p|
  {
    if p[0] == Owed {
      LineOpens(f, p[1..], owed + 1);
    } else {
      var t := TokensOf(p);
      assert TokensOf(p[1..]) == t[1..] && forall i :: 0 <= i < |t| - 1 ==> t[1..][i] == t[i + 1];
      LineRan(f, p[1..], owed);
    }
  }

  /** With the flag for C99, a comment to the end of the line becomes the newline, and those that it took out. */
  lemma {:induction false} LineCommentReplaced(f: Flags, open: Token, p: seq<Item>, newline: Token, rest: seq<Item>,
                                               owed: nat)
    requires f.c99 && open.c == SLASH && newline.c == NEWLINE && |TokensOf(p)| > 0 && TokensOf(p)[0].c == SLASH
    requires forall i :: 0 <= i < |TokensOf(p)| ==> TokensOf(p)[i].c != NEWLINE
    ensures Automaton(f, [Char(open)] + (p + ([Char(newline)] + rest)), Normal, owed)
      == Sync(owed + OwedIn(p) + 1) + Automaton(f, rest, Normal, 0)
  {
    hide Automaton, Sync, Ran, TokensOf, OwedIn;
    NextChar(f, open, p + ([Char(newline)] + rest), Normal, owed);
    RunsOn(f, p, [Char(newline)] + rest, AfterSlash, owed);
    LineOpens(f, p, owed);
    NextChar(f, newline, rest, InLine, owed + OwedIn(p));
    var end := Sync(owed + OwedIn(p) + 1) + Automaton(f, rest, Normal, 0);
    assert [] + ([] + end) == end;
  }

  /** The text of a literal has no quote that is not escaped; `back` says that a backslash comes just before. */
  predicate LiteralText(t: seq<Token>, quote: Byte, back: bool) {
    t == [] || (if back then LiteralText(t[1..], quote, false)
                else t[0].c != quote && LiteralText(t[1..], quote, t[0].c == BACKSLASH))
  }

  /** The text ends in a backslash that escapes what follows. */
  predicate Escaping(t: seq<Token>, back: bool) {
    if t == [] then back else Escaping(t[1..], !back && t[0].c == BACKSLASH)
  }

  function LiteralMode(quote: Byte, back: bool): Mode {
    if quote == SINGLE_QUOTE then (if back then InCharBack else InChar)
    else if back then InStringBack else InString
  }

  lemma {:induction false} LiteralStep(f: Flags, quote: Byte, back: bool, t: Token, owed: nat)
    requires quote == SINGLE_QUOTE || quote == DOUBLE_QUOTE
    ensures Step(f, LiteralMode(quote, back), owed, t)
      == Stepped(if !back && t.c == quote then Normal else LiteralMode(quote, !back && t.c == BACKSLASH), owed,
                 Spelled(t))
  {
  }

  lemma {:induction false} LiteralRan(f: Flags, quote: Byte, p: seq<Item>, back: bool, owed: nat)
    requires (quote == SINGLE_QUOTE || quote == DOUBLE_QUOTE) && LiteralText(TokensOf(p), quote, back)
    ensures Ran(f, p, LiteralMode(quote, back), owed)
      == Stepped(LiteralMode(quote, Escaping(TokensOf(p), back)), owed + OwedIn(p), SpelledAll(TokensOf(p)))
    decreases |p|
  {
    hide Spelled, Step, LiteralMode;
    if p != [] {
      if p[0] == Owed {
        LiteralRan(f, quote, p[1..], back, owed + 1);
      } else {
        var t := TokensOf(p);
        assert t[0] == p[0].token && t[1..] == TokensOf(p[1..]);
        LiteralStep(f, quote, back, t[0], owed);
        LiteralRan(f, quote, p[1..], !back && t[0].c == BACKSLASH, owed);
      }
    }
  }

  /** A string or character literal is written as it is, whatever it holds; newlines taken out of it are owed. */
  lemma {:induction false} LiteralKept(f: Flags, open: Token, p: seq<Item>, close: Token, rest: seq<Item>, owed: nat)
    requires open.c == close.c && (open.c == SINGLE_QUOTE || open.c == DOUBLE_QUOTE)
    requires LiteralText(TokensOf(p), open.c, false) && !Escaping(TokensOf(p), false)
    ensures Automaton(f, [Char(open)] + (p + ([Char(close)] + rest)), Normal, owed)
      == Sync(owed) + Spelled(open) + SpelledAll(TokensOf(p)) + Spelled(close) + Automaton(f, rest, Normal, OwedIn(p))
  {
    hide Automaton, Sync, Spelled, Ran, TokensOf, OwedIn, LiteralText, Escaping, SpelledAll;
    NextChar(f, open, p + ([Char(close)] + rest), Normal, owed);
    assert Step(f, Normal, owed, open).mode == LiteralMode(open.c, false);
    RunsOn(f, p, [Char(close)] + rest, LiteralMode(open.c, false), 0);
    LiteralRan(f, open.c, p, false, 0);
    NextChar(f, close, rest, LiteralMode(open.c, false), OwedIn(p));
    LiteralStep(f, open.c, false, close, OwedIn(p));
  }

  /** The end of the text, after some items behind a first character. */
  lemma {:induction false} EndsAfter(f: Flags, open: Token, p: seq<Item>, owed: nat)
    ensures var s := Step(f, Normal, owed, open);
      var r := Ran(f, p, s.mode, s.owed);
      Automaton(f, [Char(open)] + p, Normal, owed)
      == s.out + (r.out + if r.mode == AfterSlash then Sync(r.owed) + [SLASH] else Sync(r.owed))
  {
    hide Automaton, Sync, Ran, Step;
    var s := Step(f, Normal, owed, open);
    NextChar(f, open, p, Normal, owed);
    RunsOn(f, p, [], s.mode, s.owed);
    assert p + [] == p;
    AtTheEnd(f, Ran(f, p, s.mode, s.owed));
  }

  lemma {:induction false} SlashAtEnd(f: Flags, open: Token, p: seq<Item>, owed: nat)
    requires open.c == SLASH
    ensures var t, n := TokensOf(p), owed + OwedIn(p);
      && (t == [] ==> Automaton(f, [Char(open)] + p, Normal, owed) == Sync(n) + [SLASH])
      && (t != [] && t[0].c == STAR && CommentText(t[1..], false) ==>
            Automaton(f, [Char(open)] + p, Normal, owed) == Sync(n + NewlinesIn(t)))
      && (f.c99 && t != [] && t[0].c == SLASH && (forall i :: 0 <= i < |t| ==> t[i].c != NEWLINE) ==>
            Automaton(f, [Char(open)] + p, Normal, owed) == Sync(n))
  {
    hide Automaton, Sync, Spelled, Ran, TokensOf, OwedIn, CommentText, NewlinesIn;
    var t := TokensOf(p);
    EndsAfter(f, open, p, owed);
    if t == [] {
      GapRan(f, p, AfterSlash, owed);
      OnlyOwed(p);
      assert [] + ([] + (Sync(owed + |p|) + [SLASH])) == Sync(owed + |p|) + [SLASH];
    } else if t[0].c == STAR && CommentText(t[1..], false) {
      CommentOpens(f, p, owed);
      var end := Sync(owed + OwedIn(p) + NewlinesIn(t));
      assert [] + ([] + end) == end;
    } else if f.c99 && t[0].c == SLASH && forall i :: 0 <= i < |t| ==> t[i].c != NEWLINE {
      LineOpens(f, p, owed);
      assert [] + ([] + Sync(owed + OwedIn(p))) == Sync(owed + OwedIn(p));
    }
  }

  lemma {:induction false} LiteralAtEnd(f: Flags, open: Token, p: seq<Item>, owed: nat)
    requires (open.c == SINGLE_QUOTE || open.c == DOUBLE_QUOTE) && LiteralText(TokensOf(p), open.c, false)
    ensures Automaton(f, [Char(open)] + p, Normal, owed)
      == Sync(owed) + Spelled(open) + SpelledAll(TokensOf(p)) + Sync(OwedIn(p))
  {
    hide Automaton, Sync, Spelled, Ran, TokensOf, OwedIn, LiteralText, SpelledAll, Escaping;
    EndsAfter(f, open, p, owed);
    assert Step(f, Normal, owed, open).mode == LiteralMode(open.c, false);
    LiteralRan(f, open.c, p, false, 0);
  }

  /** What is left open at the end: a slash is written, a comment is dropped with its newlines kept, and a literal
   is written as far as it goes. */
  lemma {:induction false} OpenAtEnd(f: Flags, open: Token, p: seq<Item>, owed: nat)
    ensures var t, n := TokensOf(p), owed + OwedIn(p);
      && Automaton(f, [], Normal, owed) == Sync(owed)
      && (open.c == SLASH && t == [] ==> Automaton(f, [Char(open)] + p, Normal, owed) == Sync(n) + [SLASH])
      && (open.c == SLASH && t != [] && t[0].c == STAR && CommentText(t[1..], false) ==>
            Automaton(f, [Char(open)] + p, Normal, owed) == Sync(n + NewlinesIn(t)))
      && (f.c99 && open.c == SLASH && t != [] && t[0].c == SLASH
          && (forall i :: 0 <= i < |t| ==> t[i].c != NEWLINE) ==>
            Automaton(f, [Char(open)] + p, Normal, owed) == Sync(n))
      && ((open.c == SINGLE_QUOTE || open.c == DOUBLE_QUOTE) && LiteralText(t, open.c, false) ==>
            Automaton(f, [Char(open)] + p, Normal, owed)
            == Sync(owed) + Spelled(open) + SpelledAll(t) + Sync(OwedIn(p)))
  {
    hide Automaton, Sync, Spelled, Step, Ran, TokensOf, OwedIn, LiteralText, SpelledAll, CommentText, NewlinesIn;
    EndsEmpty(f, owed);
    if open.c == SLASH {
      SlashAtEnd(f, open, p, owed);
    } else if (open.c == SINGLE_QUOTE || open.c == DOUBLE_QUOTE) && LiteralText(TokensOf(p), open.c, false) {
      LiteralAtEnd(f, open, p, owed);
    }
  }

  lemma {:induction false} AtTheEnd(f: Flags, r: Stepped)
    ensures Automaton(f, [], r.mode, r.owed) == if r.mode == AfterSlash then Sync(r.owed) + [SLASH] else Sync(r.owed)
  {
    assert Sync(r.owed) + [] == Sync(r.owed);
  }

  lemma {:induction false} EndsEmpty(f: Flags, owed: nat)
    ensures Automaton(f, [], Normal, owed) == Sync(owed)
  {
    assert Sync(owed) + [] == Sync(owed);
  }

  lemma {:induction false} OnlyOwed(p: seq<Item>)
    requires TokensOf(p) == []
    ensures OwedIn(p) == |p|
  {
    if p != [] { OnlyOwed(p[1..]); }
  }

  /** The bytes as characters that stand for themselves. */
  function Selves(x: seq<Byte>): seq<Token> {
    if x == [] then [] else [Token(x[0], 0)] + Selves(x[1..])
  }

  function Chars(t: seq<Token>): seq<Item> {
    if t == [] then [] else [Char(t[0])] + Chars(t[1..])
  }

  /** Without question marks and backslashes the first two passes change nothing. */
  lemma {:induction false} SelvesRead(x: seq<Byte>, trigraphs: bool)
    requires QUESTION !in x && BACKSLASH !in x
    ensures Decoded(x, trigraphs, false) == Selves(x) && Spliced(Selves(x)) == Chars(Selves(x))
    ensures TokensOf(Chars(Selves(x))) == Selves(x) && OwedIn(Chars(Selves(x))) == 0 && SpelledAll(Selves(x)) == x
  {
    if x != [] {
      SelvesRead(x[1..], trigraphs);
      assert x == [x[0]] + x[1..];
      assert Selves(x)[1..] == Selves(x[1..]) && Chars(Selves(x))[1..] == Chars(Selves(x[1..]));
    }
  }

  lemma {:induction false} SelvesText(x: seq<Byte>, quote: Byte)
    requires quote !in x && BACKSLASH !in x
    ensures LiteralText(Selves(x), quote, false)
  {
    if x != [] {
      SelvesText(x[1..], quote);
      assert Selves(x)[1..] == Selves(x[1..]);
    }
  }

  lemma {:induction false} SelvesFirst(c: Byte, y: seq<Byte>)
    ensures Chars(Selves([c] + y)) == [Char(Token(c, 0))] + Chars(Selves(y))
  {
    assert ([c] + y)[1..] == y;
  }

  /** A division by the character constant of a double quote, and then anything without one, comments included: the
   quote behind the slash does not open the constant, so the double quote opens a string, and all is kept. */
  lemma {:induction false} CommentMissed(f: Flags, y: seq<Byte>)
    requires QUESTION !in y && BACKSLASH !in y && DOUBLE_QUOTE !in y
    ensures Uncommented([SLASH] + ([SINGLE_QUOTE] + ([DOUBLE_QUOTE] + y)), f)
      == [SLASH] + ([SINGLE_QUOTE] + ([DOUBLE_QUOTE] + y))
  {
    hide Automaton, Decoded, Spliced, Chars, Selves, LiteralText, TokensOf, OwedIn, SpelledAll;
    var x := [SLASH] + ([SINGLE_QUOTE] + ([DOUBLE_QUOTE] + y));
    var rest := Chars(Selves(y));
    SelvesRead(x, f.trigraphs);
    SelvesFirst(SLASH, [SINGLE_QUOTE] + ([DOUBLE_QUOTE] + y));
    SelvesFirst(SINGLE_QUOTE, [DOUBLE_QUOTE] + y);
    SelvesFirst(DOUBLE_QUOTE, y);
    var quote := [Char(Token(DOUBLE_QUOTE, 0))] + rest;
    NoTokens();
    SlashKept(f, Token(SLASH, 0), [], Token(SINGLE_QUOTE, 0), quote, 0);
    assert [] + ([Char(Token(SINGLE_QUOTE, 0))] + quote) == [Char(Token(SINGLE_QUOTE, 0))] + quote;
    SelvesRead(y, f.trigraphs);
    SelvesText(y, DOUBLE_QUOTE);
    OpenAtEnd(f, Token(DOUBLE_QUOTE, 0), rest, 0);
    assert Sync(0) == [] && [] + [DOUBLE_QUOTE] + y + [] == [DOUBLE_QUOTE] + y;
  }

  lemma {:induction false} NoTokens()
    ensures TokensOf([]) == []
  {
  }

  // ----- The first two passes undo the spelling

  /** Some items with their newlines put back behind backslashes. */
  function Broken(items: seq<Item>): seq<Token> {
    if items == [] then []
    else (if items[0] == Owed then [Token(BACKSLASH, 0), Token(NEWLINE, 0)] else [items[0].token]) + Broken(items[1..])
  }

  /** No backslash is followed by what would be taken for its newline or for the end. */
  ghost predicate Breakable(items: seq<Item>) {
    forall i :: 0 < i < |items| && items[i - 1].Char? && items[i - 1].token.c == BACKSLASH && items[i].Char? ==>
      items[i].token.c != NEWLINE && items[i].token.c != 255
  }

  /** Taking out backslash-newline pairs undoes putting them in. */
  lemma {:induction false} SplicedBroken(items: seq<Item>)
    requires Breakable(items)
    ensures Spliced(Broken(items)) == items
  {
    if items != [] {
      var rest, t := items[1..], Broken(items);
      forall i | 0 < i < |rest| && rest[i - 1].Char? && rest[i - 1].token.c == BACKSLASH && rest[i].Char?
        ensures rest[i].token.c != NEWLINE && rest[i].token.c != 255
      {
        assert items[i].Char? && items[i].token.c == BACKSLASH;
      }
      SplicedBroken(rest);
      if items[0] == Owed {
        assert t[2..] == Broken(rest);
      } else {
        assert t[1..] == Broken(rest);
        if |t| > 1 && rest[0].Char? { assert t[1] == rest[0].token; }
      }
      assert items == [items[0]] + rest;
    }
  }

  /** Characters whose spelling is read as they are: trigraphs are those of the table, and no question mark that stands
   for itself begins one, is lost at the end, or comes before a byte 255. */
  ghost predicate Readable(t: seq<Token>, marked: bool) {
    t == [] || (
      var x := SpelledAll(t);
      && (if t[0].orig != 0 then IsTrigraph(t[0].orig) && t[0].c == Mapped(t[0].orig)
          else if t[0].c == QUESTION then |x| > 1 && !(|x| == 2 && x[1] == QUESTION)
                                          && !(|x| >= 3 && x[1] == QUESTION && IsTrigraph(x[2]))
          else !(marked && t[0].c == 255))
      && Readable(t[1..], t[0] == Token(QUESTION, 0)))
  }

  /** Decoding undoes the spelling of trigraphs. */
  lemma {:induction false} DecodedSpelled(t: seq<Token>, marked: bool)
    requires Readable(t, marked)
    ensures Decoded(SpelledAll(t), true, marked) == t
  {
    if t != [] {
      var x, rest := SpelledAll(t), SpelledAll(t[1..]);
      DecodedSpelled(t[1..], t[0] == Token(QUESTION, 0));
      if t[0].orig != 0 {
        assert x[3..] == rest && x[0] == QUESTION && x[1] == QUESTION && x[2] == t[0].orig;
      } else {
        assert x[1..] == rest && x[0] == t[0].c;
      }
      assert t == [t[0]] + t[1..];
    }
  }

  /** Without the flag for trigraphs every byte stands for itself. */
  lemma {:induction false} DecodedSelves(x: seq<Byte>, marked: bool)
    ensures Decoded(x, false, marked) == Selves(x)
  {
    if x != [] { DecodedSelves(x[1..], false); }
  }

  /** So what is written for a text, spelled in any such way, is what the third pass makes of its items. */
  lemma {:induction false} Meaning(f: Flags, items: seq<Item>)
    requires f.trigraphs && Breakable(items) && Readable(Broken(items), false)
    ensures Uncommented(SpelledAll(Broken(items)), f) == Automaton(f, items, Normal, 0)
  {
    hide Automaton, Decoded, Spliced, Readable, Breakable;
    DecodedSpelled(Broken(items), false);
    SplicedBroken(items);
  }

  // ----- A text without comments is kept

  /** Nothing starts a comment, no newline is behind a backslash, no byte is 255, and no question mark is lost. */
  ghost predicate Plain(x: seq<Byte>, f: Flags) {
    && (forall i :: 0 <= i < |x| ==> x[i] != 255)
    && (forall i :: 0 < i < |x| && x[i - 1] == SLASH ==> x[i] != STAR && (f.c99 ==> x[i] != SLASH))
    && (forall i :: 0 < i < |x| && EndsInBackslash(x, i, f.trigraphs) ==> x[i] != NEWLINE)
    && (f.trigraphs && x != [] ==> x[|x| - 1] != QUESTION)
  }

  ghost predicate PlainToken(t: Token) {
    t.c != 255 && (t.c == SLASH ==> t.orig == 0)
  }

  /** The second token can follow the first. */
  ghost predicate PlainPair(t: Token, u: Token, f: Flags) {
    && (t.c == BACKSLASH ==> u.c != NEWLINE)
    && (t.c == SLASH ==> u.c != STAR && (f.c99 ==> u.c != SLASH))
  }

  ghost predicate PlainTokens(t: seq<Token>, f: Flags) {
    && (forall i :: 0 <= i < |t| ==> PlainToken(t[i]))
    && (forall i :: 0 < i < |t| ==> PlainPair(t[i - 1], t[i], f))
  }

  lemma {:induction false} PlainMore(x: seq<Byte>, f: Flags, u: Token, t: seq<Token>, n: nat)
    requires 0 < n <= |x| && PlainTokens(t, f) && PlainToken(u) && (t != [] ==> PlainPair(u, t[0], f))
    requires Spelled(u) == x[..n] && SpelledAll(t) == x[n..]
    ensures PlainTokens([u] + t, f) && SpelledAll([u] + t) == x
  {
    hide PlainToken, PlainPair;
    var s := [u] + t;
    assert s[1..] == t && x == x[..n] + x[n..];
    forall i | 0 < i < |s| ensures PlainPair(s[i - 1], s[i], f) {
      if i > 1 { assert PlainPair(t[i - 2], t[i - 1], f); }
    }
  }

  lemma {:induction false} PlainRest(x: seq<Byte>, f: Flags, n: nat)
    requires Plain(x, f) && n <= |x|
    ensures Plain(x[n..], f)
  {
    var y := x[n..];
    forall i | 0 < i < |y| && EndsInBackslash(y, i, f.trigraphs) ensures y[i] != NEWLINE {
      assert EndsInBackslash(x, n + i, f.trigraphs);
    }
    forall i | 0 < i < |y| && y[i - 1] == SLASH ensures y[i] != STAR && (f.c99 ==> y[i] != SLASH) {
      assert x[n + i - 1] == SLASH;
    }
  }

  /** A character that matters to the next one stands for itself. */
  ghost predicate StandsAt(t: seq<Token>, x: seq<Byte>) {
    t != [] ==> x != [] && (t[0].c == NEWLINE || t[0].c == STAR || t[0].c == SLASH ==> x[0] == t[0].c)
  }

  lemma {:induction false} PlainFollows(x: seq<Byte>, f: Flags, u: Token, n: nat, t: seq<Token>)
    requires Plain(x, f) && 0 < n <= |x| && StandsAt(t, x[n..])
    requires u.c == SLASH ==> x[n - 1] == SLASH
    requires u.c == BACKSLASH ==> EndsInBackslash(x, n, f.trigraphs)
    ensures t != [] ==> PlainPair(u, t[0], f)
  {
  }

  lemma {:induction false} DecodedPlain(x: seq<Byte>, f: Flags, marked: bool)
    requires Plain(x, f)
    ensures var t := Decoded(x, f.trigraphs, marked); PlainTokens(t, f) && SpelledAll(t) == x && StandsAt(t, x)
    decreases |x|
  {
    hide SpelledAll, Plain, PlainTokens, PlainPair;
    if x == [] {
      NonePlain(f);
    } else {
      PlainHead(x, f);
      PlainRest(x, f, 1);
      if f.trigraphs && |x| >= 3 && x[0] == QUESTION && x[1] == QUESTION && IsTrigraph(x[2]) {
        PlainRest(x, f, 3);
        DecodedPlain(x[3..], f, false);
        assert x[..3] == [QUESTION, QUESTION, x[2]];
        var u, t := Token(Mapped(x[2]), x[2]), Decoded(x[3..], f.trigraphs, false);
        PlainFollows(x, f, u, 3, t);
        PlainMore(x, f, u, t, 3);
      } else {
        var marked' := f.trigraphs && x[0] == QUESTION;
        DecodedPlain(x[1..], f, marked');
        assert x[..1] == [x[0]];
        var u, t := Token(x[0], 0), Decoded(x[1..], f.trigraphs, marked');
        PlainFollows(x, f, u, 1, t);
        PlainMore(x, f, u, t, 1);
      }
    }
  }

  lemma {:induction false} NonePlain(f: Flags)
    ensures PlainTokens([], f) && SpelledAll([]) == []
  {
  }

  lemma {:induction false} PlainHead(x: seq<Byte>, f: Flags)
    requires Plain(x, f) && x != []
    ensures x[0] != 255 && (f.trigraphs ==> x[|x| - 1] != QUESTION)
  {
  }

  lemma {:induction false} PlainSpliced(t: seq<Token>, f: Flags)
    requires PlainTokens(t, f)
    ensures Spliced(t) == Chars(t)
  {
    if t != [] {
      PlainTail(t, f);
      PlainSpliced(t[1..], f);
    }
  }

  /** What has been read and not written yet. */
  function Held(mode: Mode): seq<Byte> {
    if mode == AfterSlash then [SLASH] else []
  }

  lemma {:induction false} CopyStep(f: Flags, mode: Mode, t: Token)
    requires mode != InComment && mode != AfterStar && mode != InLine
    requires t.c == SLASH ==> t.orig == 0
    requires mode == AfterSlash ==> t.c != STAR && (f.c99 ==> t.c != SLASH)
    ensures var s := Step(f, mode, 0, t);
      && s.owed == 0 && s.out + Held(s.mode) == Held(mode) + Spelled(t)
      && s.mode != InComment && s.mode != AfterStar && s.mode != InLine && (s.mode == AfterSlash ==> t.c == SLASH)
  {
    assert Sync(0) == [];
  }

  lemma {:induction false} PlainTail(t: seq<Token>, f: Flags)
    requires PlainTokens(t, f) && t != []
    ensures PlainToken(t[0]) && PlainTokens(t[1..], f) && (|t| > 1 ==> PlainPair(t[0], t[1..][0], f))
  {
    hide PlainToken, PlainPair;
    forall i | 0 < i < |t[1..]| ensures PlainPair(t[1..][i - 1], t[1..][i], f) {
      assert PlainPair(t[i], t[i + 1], f);
    }
    assert |t| > 1 ==> PlainPair(t[0], t[1], f);
  }

  lemma {:induction false} AutomatonCopies(f: Flags, t: seq<Token>, mode: Mode)
    requires PlainTokens(t, f) && mode != InComment && mode != AfterStar && mode != InLine
    requires mode == AfterSlash && t != [] ==> t[0].c != STAR && (f.c99 ==> t[0].c != SLASH)
    ensures Automaton(f, Chars(t), mode, 0) == Held(mode) + SpelledAll(t)
  {
    hide Step, Automaton, PlainTokens, Spelled, Held;
    if t == [] {
      CopiedNone(f, mode);
    } else {
      var s := Step(f, mode, 0, t[0]);
      PlainTail(t, f);
      CopyStep(f, mode, t[0]);
      AutomatonCopies(f, t[1..], s.mode);
      NextChar(f, t[0], Chars(t[1..]), mode, 0);
      assert s.out + (Held(s.mode) + SpelledAll(t[1..])) == (s.out + Held(s.mode)) + SpelledAll(t[1..]);
      assert Held(mode) + (Spelled(t[0]) + SpelledAll(t[1..])) == (Held(mode) + Spelled(t[0])) + SpelledAll(t[1..]);
    }
  }

  lemma {:induction false} CopiedNone(f: Flags, mode: Mode)
    ensures Automaton(f, [], mode, 0) == Held(mode) + []
  {
    assert Sync(0) == [];
  }

  /** A text in which nothing starts a comment and no newline is escaped comes out as it is, with its divisions, its
   literals and its trigraphs as they were spelled. */
  lemma {:induction false} PlainKept(x: seq<Byte>, f: Flags)
    requires Plain(x, f)
    ensures Uncommented(x, f) == x
  {
    hide Automaton, Plain, PlainTokens, Spliced, Decoded;
    var t := Decoded(x, f.trigraphs, false);
    DecodedPlain(x, f, false);
    PlainSpliced(t, f);
    AutomatonCopies(f, t, Normal);
    assert [] + x == x;
  }
}
