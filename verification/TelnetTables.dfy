/**
 Compiling a list of transitions into a dense table indexed by state and character, and the two
 lists of the TELNET client.
 */
module TelnetTables {
  type Byte = b: int | 0 <= b < 256

  const NCHRS := 256
  const TCANY := NCHRS + 1
  const FSINVALID: Byte := 255
  const TINVALID: Byte := 255

  datatype Action =
    | NoOp | TtPutC | TcDm | RecOpt | SubOpt | SubEnd
    | DoEcho | DoNoGa | DoTxBinary | DoNotSup
    | WillTermType | WillTxBinary | WillNotSup
    | SubTermType | TnAbort

  datatype Trans = Trans(state: Byte, ch: int, next: Byte, action: Action)

  /** A list of `n` transitions over `nstates` states, and the entry that ends it. */
  ghost predicate WellFormed(ttab: seq<Trans>, n: nat, nstates: nat) {
    && n < |ttab| && nstates <= FSINVALID && ttab[n].state == FSINVALID
    && forall i :: 0 <= i < n ==> ttab[i].state < nstates && (0 <= ttab[i].ch < NCHRS || ttab[i].ch == TCANY)
  }

  predicate Explicit(ttab: seq<Trans>, i: nat, s: int, c: int)
    requires i < |ttab|
  {
    ttab[i].state == s && ttab[i].ch == c
  }

  predicate Wildcard(ttab: seq<Trans>, i: nat, s: int)
    requires i < |ttab|
  {
    ttab[i].state == s && ttab[i].ch == TCANY
  }

  /** Among the first `n` transitions, `i` is the last one for exactly this state and character; or
   there is none, and `i` is the first one for this state and any character; or there is neither. */
  ghost predicate Governs(ttab: seq<Trans>, n: nat, s: int, c: int, i: nat, none: nat)
    requires n <= |ttab|
  {
    || (i < n && Explicit(ttab, i, s, c) && forall j :: i < j < n ==> !Explicit(ttab, j, s, c))
    || ((forall j :: 0 <= j < n ==> !Explicit(ttab, j, s, c))
        && i < n && Wildcard(ttab, i, s) && forall j :: 0 <= j < i ==> !Wildcard(ttab, j, s))
    || ((forall j :: 0 <= j < n ==> !Explicit(ttab, j, s, c) && !Wildcard(ttab, j, s)) && i == none)
  }

  lemma {:induction false} GovernsOne(ttab: seq<Trans>, n: nat, s: int, c: int, i: nat, j: nat, none: nat)
    requires n <= |ttab| && Governs(ttab, n, s, c, i, none) && Governs(ttab, n, s, c, j, none)
    ensures i == j
  {
  }

  /** The entry of a table after the first `n` transitions. */
  ghost predicate EntryOk(ttab: seq<Trans>, n: nat, s: int, c: int, entry: int)
    requires n <= |ttab|
  {
    entry >= 0 && Governs(ttab, n, s, c, entry, TINVALID)
  }

  lemma {:induction false} EntryStep(ttab: seq<Trans>, n: nat, s: int, c: int, entry: int)
    requires n < |ttab| && n < TINVALID && 0 <= c < NCHRS && EntryOk(ttab, n, s, c, entry)
    ensures ttab[n].state != s || (ttab[n].ch != TCANY && ttab[n].ch != c) ==> EntryOk(ttab, n + 1, s, c, entry)
    ensures ttab[n].state == s && ttab[n].ch == c ==> EntryOk(ttab, n + 1, s, c, n)
    ensures ttab[n].state == s && ttab[n].ch == TCANY ==>
              EntryOk(ttab, n + 1, s, c, if entry == TINVALID then n else entry)
  {
  }

  lemma {:induction false} EntryEnd(ttab: seq<Trans>, n: nat, s: int, c: int, entry: int)
    requires n <= |ttab| && n <= TINVALID && EntryOk(ttab, n, s, c, entry)
    ensures Governs(ttab, n, s, c, if entry == TINVALID then n else entry, n)
  {
  }

  method FsmInit(fsm: array2<int>, ttab: seq<Trans>, nstates: nat, ghost n: nat)
    requires WellFormed(ttab, n, nstates) && n <= TINVALID
    requires fsm.Length0 == nstates && fsm.Length1 == NCHRS
    modifies fsm
    ensures forall s, c :: 0 <= s < nstates && 0 <= c < NCHRS ==> fsm[s, c] >= 0 && Governs(ttab, n, s, c, fsm[s, c], n)
  {
    Clear(fsm, nstates);
    assert forall s, c :: 0 <= s < nstates && 0 <= c < NCHRS ==> EntryOk(ttab, 0, s, c, fsm[s, c]);
    var ti := 0;
    while ttab[ti].state != FSINVALID
      invariant 0 <= ti <= n
      invariant forall s, c :: 0 <= s < nstates && 0 <= c < NCHRS ==> EntryOk(ttab, ti, s, c, fsm[s, c])
      decreases n - ti
    {
      Enter(fsm, ttab, nstates, ti);
      ti := ti + 1;
    }
    Fill(fsm, ttab, nstates, ti);
  }

  method Clear(fsm: array2<int>, nstates: nat)
    requires fsm.Length0 == nstates && fsm.Length1 == NCHRS
    modifies fsm
    ensures forall s, c :: 0 <= s < nstates && 0 <= c < NCHRS ==> fsm[s, c] == TINVALID
  {
    for cn := 0 to NCHRS
      invariant forall s, c :: 0 <= s < nstates && 0 <= c < cn ==> fsm[s, c] == TINVALID
    {
      for ti := 0 to nstates
        invariant forall s, c :: 0 <= s < nstates && 0 <= c < cn ==> fsm[s, c] == TINVALID
        invariant forall s :: 0 <= s < ti ==> fsm[s, cn] == TINVALID
      {
        fsm[ti, cn] := TINVALID;
      }
    }
  }

  /** One transition: it goes to its character, or to every character of its state that has none yet. */
  method Enter(fsm: array2<int>, ttab: seq<Trans>, nstates: nat, ti: nat)
    requires ti < |ttab| && ti < TINVALID && fsm.Length0 == nstates && fsm.Length1 == NCHRS
    requires ttab[ti].state < nstates && (0 <= ttab[ti].ch < NCHRS || ttab[ti].ch == TCANY)
    requires forall s, c :: 0 <= s < nstates && 0 <= c < NCHRS ==> EntryOk(ttab, ti, s, c, fsm[s, c])
    modifies fsm
    ensures forall s, c :: 0 <= s < nstates && 0 <= c < NCHRS ==> EntryOk(ttab, ti + 1, s, c, fsm[s, c])
  {
    hide EntryOk;
    var sn := ttab[ti].state;
    if ttab[ti].ch == TCANY {
      for cn := 0 to NCHRS
        invariant forall s, c :: 0 <= s < nstates && 0 <= c < NCHRS && (s != sn || c >= cn) ==>
                    fsm[s, c] == old(fsm[s, c])
        invariant forall c :: 0 <= c < cn ==> fsm[sn, c] == if old(fsm[sn, c]) == TINVALID then ti else old(fsm[sn, c])
      {
        if fsm[sn, cn] == TINVALID {
          fsm[sn, cn] := ti;
        }
      }
    } else {
      fsm[sn, ttab[ti].ch] := ti;
    }
    forall s, c | 0 <= s < nstates && 0 <= c < NCHRS ensures EntryOk(ttab, ti + 1, s, c, fsm[s, c]) {
      EntryStep(ttab, ti, s, c, old(fsm[s, c]));
    }
  }

  /** What is left gets the entry that ends the list. */
  method Fill(fsm: array2<int>, ttab: seq<Trans>, nstates: nat, ti: nat)
    requires ti <= |ttab| && ti <= TINVALID && fsm.Length0 == nstates && fsm.Length1 == NCHRS
    requires forall s, c :: 0 <= s < nstates && 0 <= c < NCHRS ==> EntryOk(ttab, ti, s, c, fsm[s, c])
    modifies fsm
    ensures forall s, c :: 0 <= s < nstates && 0 <= c < NCHRS ==>
              fsm[s, c] >= 0 && Governs(ttab, ti, s, c, fsm[s, c], ti)
  {
    hide Governs;
    for cn := 0 to NCHRS
      invariant forall s, c :: 0 <= s < nstates && cn <= c < NCHRS ==> fsm[s, c] == old(fsm[s, c])
      invariant forall s, c :: 0 <= s < nstates && 0 <= c < cn ==>
                  fsm[s, c] == if old(fsm[s, c]) == TINVALID then ti else old(fsm[s, c])
    {
      for sn := 0 to nstates
        invariant forall s, c :: 0 <= s < nstates && cn < c < NCHRS ==> fsm[s, c] == old(fsm[s, c])
        invariant forall s, c :: 0 <= s < nstates && 0 <= c < cn ==>
                    fsm[s, c] == if old(fsm[s, c]) == TINVALID then ti else old(fsm[s, c])
        invariant forall s :: sn <= s < nstates ==> fsm[s, cn] == old(fsm[s, cn])
        invariant forall s :: 0 <= s < sn ==> fsm[s, cn] == if old(fsm[s, cn]) == TINVALID then ti else old(fsm[s, cn])
      {
        if fsm[sn, cn] == TINVALID {
          fsm[sn, cn] := ti;
        }
      }
    }
    forall s, c | 0 <= s < nstates && 0 <= c < NCHRS ensures fsm[s, c] >= 0 && Governs(ttab, ti, s, c, fsm[s, c], ti) {
      EntryEnd(ttab, ti, s, c, old(fsm[s, c]));
    }
  }

  // ----- Commands, options and states

  const TCSE: Byte := 240
  const TCNOP: Byte := 241
  const TCDM: Byte := 242
  const TCSB: Byte := 250
  const TCWILL: Byte := 251
  const TCWONT: Byte := 252
  const TCDO: Byte := 253
  const TCDONT: Byte := 254
  const TCIAC: Byte := 255

  const TOTXBINARY: Byte := 0
  const TOECHO: Byte := 1
  const TONOGA: Byte := 3
  const TOTERMTYPE: Byte := 24
  const TT_IS: Byte := 0
  const TT_SEND: Byte := 1

  const TSDATA: Byte := 0
  const TSIAC: Byte := 1
  const TSWOPT: Byte := 2
  const TSDOPT: Byte := 3
  const TSSUBNEG: Byte := 4
  const TSSUBIAC: Byte := 5
  const NTSTATES := 6

  const SS_START: Byte := 0
  const SS_TERMTYPE: Byte := 1
  const SS_END: Byte := 2
  const NSSTATES := 3

  // ----- The socket-input list

  const NTTS := 22

  function TtRow(i: nat): Trans {
    match i
    case 0 => Trans(TSDATA, TCIAC, TSIAC, NoOp)
    case 1 => Trans(TSDATA, TCANY, TSDATA, TtPutC)
    case 2 => Trans(TSIAC, TCIAC, TSDATA, TtPutC)
    case 3 => Trans(TSIAC, TCSB, TSSUBNEG, NoOp)
    case 4 => Trans(TSIAC, TCNOP, TSDATA, NoOp)
    case 5 => Trans(TSIAC, TCDM, TSDATA, TcDm)
    case 6 => Trans(TSIAC, TCWILL, TSWOPT, RecOpt)
    case 7 => Trans(TSIAC, TCWONT, TSWOPT, RecOpt)
    case 8 => Trans(TSIAC, TCDO, TSDOPT, RecOpt)
    case 9 => Trans(TSIAC, TCDONT, TSDOPT, RecOpt)
    case 10 => Trans(TSIAC, TCANY, TSDATA, NoOp)
    case 11 => Trans(TSSUBNEG, TCIAC, TSSUBIAC, NoOp)
    case 12 => Trans(TSSUBNEG, TCANY, TSSUBNEG, SubOpt)
    case 13 => Trans(TSSUBIAC, TCSE, TSDATA, SubEnd)
    case 14 => Trans(TSSUBIAC, TCANY, TSSUBNEG, SubOpt)
    case 15 => Trans(TSWOPT, TOECHO, TSDATA, DoEcho)
    case 16 => Trans(TSWOPT, TONOGA, TSDATA, DoNoGa)
    case 17 => Trans(TSWOPT, TOTXBINARY, TSDATA, DoTxBinary)
    case 18 => Trans(TSWOPT, TCANY, TSDATA, DoNotSup)
    case 19 => Trans(TSDOPT, TOTERMTYPE, TSDATA, WillTermType)
    case 20 => Trans(TSDOPT, TOTXBINARY, TSDATA, WillTxBinary)
    case 21 => Trans(TSDOPT, TCANY, TSDATA, WillNotSup)
    case _ => Trans(FSINVALID, TCANY, FSINVALID, TnAbort)
  }

  function TtSTab(): (t: seq<Trans>)
    ensures |t| == NTTS + 1 && forall i :: 0 <= i < |t| ==> t[i] == TtRow(i)
  {
    seq(NTTS + 1, i requires 0 <= i => TtRow(i))
  }

  /** What the protocol asks for: the state a byte leads to, and what is done with the byte. */
  function Rule(s: int, c: Byte): (Byte, Action) {
    if s == TSDATA then (if c == TCIAC then (TSIAC, NoOp) else (TSDATA, TtPutC))
    else if s == TSIAC then
      if c == TCIAC then (TSDATA, TtPutC)
      else if c == TCSB then (TSSUBNEG, NoOp)
      else if c == TCDM then (TSDATA, TcDm)
      else if c == TCWILL || c == TCWONT then (TSWOPT, RecOpt)
      else if c == TCDO || c == TCDONT then (TSDOPT, RecOpt)
      else (TSDATA, NoOp)
    else if s == TSSUBNEG then (if c == TCIAC then (TSSUBIAC, NoOp) else (TSSUBNEG, SubOpt))
    else if s == TSSUBIAC then (if c == TCSE then (TSDATA, SubEnd) else (TSSUBNEG, SubOpt))
    else if s == TSWOPT then
      (TSDATA, if c == TOECHO then DoEcho else if c == TONOGA then DoNoGa
       else if c == TOTXBINARY then DoTxBinary else DoNotSup)
    else
      (TSDATA, if c == TOTERMTYPE then WillTermType else if c == TOTXBINARY then WillTxBinary else WillNotSup)
  }

  /** A transition of the list that applies, one for any character of the state if need be. */
  function Applies(s: int, c: Byte): (i: nat)
    requires 0 <= s < NTSTATES
    ensures i < NTTS
  {
    if s == TSDATA then (if c == TCIAC then 0 else 1)
    else if s == TSIAC then
      if c == TCIAC then 2 else if c == TCSB then 3 else if c == TCNOP then 4 else if c == TCDM then 5
      else if c == TCWILL then 6 else if c == TCWONT then 7 else if c == TCDO then 8 else if c == TCDONT then 9 else 10
    else if s == TSSUBNEG then (if c == TCIAC then 11 else 12)
    else if s == TSSUBIAC then (if c == TCSE then 13 else 14)
    else if s == TSWOPT then
      if c == TOECHO then 15 else if c == TONOGA then 16 else if c == TOTXBINARY then 17 else 18
    else (if c == TOTERMTYPE then 19 else if c == TOTXBINARY then 20 else 21)
  }

  lemma {:induction false} TtWellFormed()
    ensures WellFormed(TtSTab(), NTTS, NTSTATES)
  {
    forall i | 0 <= i < NTTS ensures TtRow(i).state < NTSTATES && (0 <= TtRow(i).ch < NCHRS || TtRow(i).ch == TCANY) {
    }
  }

  /** Whatever entry of the list governs a byte is the rule for it, and never the one that aborts. */
  lemma {:induction false} TtGoverned(s: int, c: Byte, i: nat)
    requires 0 <= s < NTSTATES && Governs(TtSTab(), NTTS, s, c, i, NTTS)
    ensures i < NTTS && (TtRow(i).next, TtRow(i).action) == Rule(s, c)
  {
    var t, w := TtSTab(), Applies(s, c);
    assert t[w] == TtRow(w) && t[i] == TtRow(i);
    assert Explicit(t, w, s, c) || Wildcard(t, w, s);
  }

  // ----- The subnegotiation list

  const NSUBS := 5

  function SubRow(i: nat): Trans {
    match i
    case 0 => Trans(SS_START, TOTERMTYPE, SS_TERMTYPE, NoOp)
    case 1 => Trans(SS_START, TCANY, SS_END, NoOp)
    case 2 => Trans(SS_TERMTYPE, TT_SEND, SS_END, SubTermType)
    case 3 => Trans(SS_TERMTYPE, TCANY, SS_END, NoOp)
    case 4 => Trans(SS_END, TCANY, SS_END, NoOp)
    case _ => Trans(FSINVALID, TCANY, FSINVALID, TnAbort)
  }

  function SubSTab(): (t: seq<Trans>)
    ensures |t| == NSUBS + 1 && forall i :: 0 <= i < |t| ==> t[i] == SubRow(i)
  {
    seq(NSUBS + 1, i requires 0 <= i => SubRow(i))
  }

  /** A terminal-type request is the option, the command to send, and nothing is looked at after that. */
  function SubRule(s: int, c: Byte): (Byte, Action) {
    if s == SS_START && c == TOTERMTYPE then (SS_TERMTYPE, NoOp)
    else if s == SS_TERMTYPE && c == TT_SEND then (SS_END, SubTermType)
    else (SS_END, NoOp)
  }

  lemma {:induction false} SubWellFormed()
    ensures WellFormed(SubSTab(), NSUBS, NSSTATES)
  {
    forall i | 0 <= i < NSUBS
      ensures SubRow(i).state < NSSTATES && (0 <= SubRow(i).ch < NCHRS || SubRow(i).ch == TCANY)
    {
    }
  }

  lemma {:induction false} SubGoverned(s: int, c: Byte, i: nat)
    requires 0 <= s < NSSTATES && Governs(SubSTab(), NSUBS, s, c, i, NSUBS)
    ensures i < NSUBS && (SubRow(i).next, SubRow(i).action) == SubRule(s, c)
  {
    var t := SubSTab();
    var w := if s == SS_START then (if c == TOTERMTYPE then 0 else 1)
      else if s == SS_TERMTYPE then (if c == TT_SEND then 2 else 3) else 4;
    assert t[w] == SubRow(w) && t[i] == SubRow(i);
    assert Explicit(t, w, s, c) || Wildcard(t, w, s);
  }
}
