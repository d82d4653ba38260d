/**
 The TELNET client's handling of bytes from the socket: a table-driven machine with a nested
 machine for option subnegotiation, and the escaping of bytes on their way to the socket.
 */
module Telnet {
  import opened TelnetTables

  // ----- The meaning of a byte

  /** The terminal's name: a string, or the null pointer that stands for none. */
  datatype Name = Unknown | Known(text: seq<Byte>)

  /** A message to the server. */
  datatype Message = Option(command: Byte, option: Byte) | TerminalType(name: Name)

  /** What the terminal is given: a character, or one of its capabilities. */
  datatype Shown = Char(c: Byte) | Capability(name: string)

  const VPBEL: Byte := 7
  const VPBS: Byte := 8
  const VPHT: Byte := 9
  const VPLF: Byte := 10
  const VPVT: Byte := 11
  const VPFF: Byte := 12
  const VPCR: Byte := 13

  /** What does not change: the terminal's name in the environment, the capabilities listed for it, and whether its
   modes can be set. */
  datatype Setting = Setting(terminal: Name, capabilities: set<string>, ttyOk: bool)

  datatype Session = Session(
    state: Byte, sub: Byte, command: Byte,
    receiveBinary: bool, sendBinary: bool, echo: bool, noGoAhead: bool, termType: bool, name: Name,
    synching: nat, lastChar: Byte,
    sent: seq<Message>, shown: seq<Shown>)

  /** An option is switched, and the switch confirmed, unless it is already as asked for. */
  predicate Already(on: bool, command: Byte, yes: Byte, no: Byte) {
    if on then command == yes else command == no
  }

  function Send(s: Session, m: Message): Session {
    s.(sent := s.sent + [m])
  }

  /** Neither machine has moved. */
  predicate SameMachine(s: Session, t: Session) {
    t.state == s.state && t.sub == s.sub
  }

  function Echo(s: Session, env: Setting, c: Byte): (t: Session)
    ensures SameMachine(s, t) && t.command == s.command && t.termType == s.termType && t.name == s.name
  {
    if Already(s.echo, s.command, TCWILL, TCWONT) then s
    else
      var u := if env.ttyOk then s.(echo := !s.echo) else s;
      Send(u, Option(if u.echo then TCDO else TCDONT, c))
  }

  function NoGoAhead(s: Session, c: Byte): (t: Session)
    ensures SameMachine(s, t) && t.command == s.command && t.termType == s.termType && t.name == s.name
  {
    if Already(s.noGoAhead, s.command, TCWILL, TCWONT) then s
    else Send(s.(noGoAhead := !s.noGoAhead), Option(if s.noGoAhead then TCDONT else TCDO, c))
  }

  function ReceiveBinary(s: Session, c: Byte): (t: Session)
    ensures SameMachine(s, t) && t.command == s.command && t.termType == s.termType && t.name == s.name
  {
    if Already(s.receiveBinary, s.command, TCWILL, TCWONT) then s
    else Send(s.(receiveBinary := !s.receiveBinary), Option(if s.receiveBinary then TCDONT else TCDO, c))
  }

  function SendBinary(s: Session, c: Byte): (t: Session)
    ensures SameMachine(s, t) && t.command == s.command && t.termType == s.termType && t.name == s.name
  {
    if Already(s.sendBinary, s.command, TCDO, TCDONT) then s
    else Send(s.(sendBinary := !s.sendBinary), Option(if s.sendBinary then TCWONT else TCWILL, c))
  }

  /** The name that is known once the environment has been asked. */
  function LookedUp(s: Session, env: Setting): Name {
    if s.name.Known? then s.name else env.terminal
  }

  /** Agreeing to tell the terminal type also sets up a binary path both ways. Without a name it is refused. */
  function TermType(s: Session, env: Setting, c: Byte): (t: Session)
    ensures SameMachine(s, t)
  {
    if Already(s.termType, s.command, TCDO, TCDONT) then s
    else if s.termType then Send(s.(termType := false), Option(TCWONT, c))
    else if LookedUp(s, env).Unknown? then Send(s, Option(TCWONT, c))
    else
      var u := Send(s.(termType := true, name := LookedUp(s, env)), Option(TCWILL, c));
      SendBinary(ReceiveBinary(u.(command := TCWILL), TOTXBINARY).(command := TCDO), TOTXBINARY)
  }

  /** The capability that a control character stands for. */
  function CapabilityOf(c: Byte): string {
    if c == VPBEL then "bl" else if c == VPBS then "bc" else if c == VPHT then "ta"
    else if c == VPVT then "do" else if c == VPFF then "cl" else ""
  }

  /** A terminal without a name has no capabilities. */
  predicate Has(env: Setting, name: string) {
    env.terminal.Known? && name in env.capabilities
  }

  function UseCapability(env: Setting, name: string): seq<Shown> {
    if Has(env, name) then [Capability(name)] else []
  }

  /** What a character shows when it is not part of a line end. */
  function Shows(env: Setting, c: Byte): seq<Shown> {
    if 32 <= c < TCIAC then [Char(c)]
    else if CapabilityOf(c) == "" then []
    else if Has(env, CapabilityOf(c)) then [Capability(CapabilityOf(c))]
    else [Char(c)]
  }

  /** A character for the terminal: carriage return and line feed, in either order, are one line end. */
  function Put(s: Session, env: Setting, c: Byte): (t: Session)
    ensures SameMachine(s, t) && t.command == s.command && t.termType == s.termType && t.name == s.name
  {
    if s.receiveBinary then s.(shown := s.shown + [Char(c)])
    else if s.synching > 0 then s
    else if (s.lastChar == VPCR && c == VPLF) || (s.lastChar == VPLF && c == VPCR) then
      s.(shown := s.shown + [Char(VPLF)], lastChar := 0)
    else
      var held := if s.lastChar == VPCR then UseCapability(env, "cr")
                  else if s.lastChar == VPLF then UseCapability(env, "do") else [];
      s.(shown := s.shown + held + Shows(env, c), lastChar := c)
  }

  function SubStep(s: Session, c: Byte): Session {
    var (next, action) := SubRule(s.sub, c);
    (if action == SubTermType then Send(s, TerminalType(s.name)) else s).(sub := next)
  }

  function Act(s: Session, env: Setting, action: Action, c: Byte): Session {
    match action
    case TtPutC => Put(s, env, c)
    case TcDm => if s.synching > 0 then s.(synching := s.synching - 1) else s
    case RecOpt => s.(command := c)
    case SubOpt => SubStep(s, c)
    case SubEnd => s.(sub := SS_START)
    case DoEcho => Echo(s, env, c)
    case DoNoGa => NoGoAhead(s, c)
    case DoTxBinary => ReceiveBinary(s, c)
    case DoNotSup => Send(s, Option(TCDONT, c))
    case WillTermType => TermType(s, env, c)
    case WillTxBinary => SendBinary(s, c)
    case WillNotSup => Send(s, Option(TCWONT, c))
    case _ => s
  }

  function Step(s: Session, env: Setting, c: Byte): Session {
    var (next, action) := Rule(s.state, c);
    Act(s, env, action, c).(state := next)
  }

  function Received(s: Session, env: Setting, bytes: seq<Byte>): Session {
    if bytes == [] then s
    else Step(Received(s, env, bytes[..|bytes| - 1]), env, bytes[|bytes| - 1])
  }

  // ----- Every stream

  /** The nested machine is at its start whenever there is no subnegotiation, and the terminal type is agreed on only
   when its name is known. */
  ghost predicate Sound(s: Session) {
    && s.state < NTSTATES && s.sub < NSSTATES && (s.state != TSSUBNEG && s.state != TSSUBIAC ==> s.sub == SS_START)
    && (s.termType ==> s.name.Known?)
  }

  lemma {:induction false} ActKeepsMachine(s: Session, env: Setting, action: Action, c: Byte)
    requires action != SubOpt && action != SubEnd
    ensures Act(s, env, action, c).sub == s.sub
    ensures Act(s, env, action, c).state == s.state
  {
    hide Put, Echo, NoGoAhead, ReceiveBinary, SendBinary, TermType;
  }

  /** Only the terminal-type option changes the name or the agreement on it. */
  lemma {:induction false} ActKeepsName(s: Session, env: Setting, action: Action, c: Byte)
    requires action != WillTermType
    ensures var t := Act(s, env, action, c);
      t.name == s.name && t.termType == s.termType && t.command == if action == RecOpt then c else s.command
  {
    hide Put, Echo, NoGoAhead, ReceiveBinary, SendBinary, TermType;
  }

  lemma {:induction false} TermTypeNamed(s: Session, env: Setting, c: Byte)
    requires s.termType ==> s.name.Known?
    ensures var t := Act(s, env, WillTermType, c); t.termType ==> t.name.Known?
  {
    hide ReceiveBinary, SendBinary;
  }

  lemma {:induction false} StepSound(s: Session, env: Setting, c: Byte)
    requires Sound(s)
    ensures Sound(Step(s, env, c))
  {
    hide Act;
    var (next, action) := Rule(s.state, c);
    if action == WillTermType {
      TermTypeNamed(s, env, c);
    } else {
      ActKeepsName(s, env, action, c);
    }
    if action == SubOpt || action == SubEnd {
      SubActs(s, env, c);
    } else {
      ActKeepsMachine(s, env, action, c);
    }
  }

  lemma {:induction false} SubActs(s: Session, env: Setting, c: Byte)
    ensures Act(s, env, SubOpt, c) == SubStep(s, c)
    ensures Act(s, env, SubEnd, c) == s.(sub := SS_START)
  {
  }

  lemma {:induction false} ReceivedSound(s: Session, env: Setting, bytes: seq<Byte>)
    requires Sound(s)
    ensures Sound(Received(s, env, bytes))
  {
    hide Step, Sound;
    if bytes != [] {
      var n := |bytes| - 1;
      ReceivedSound(s, env, bytes[..n]);
      StepSound(Received(s, env, bytes[..n]), env, bytes[n]);
    }
  }

  // ----- Options

  /** A server that announces binary transmission, or its end, is answered once; saying it again changes
   nothing and is not answered, so that the two ends cannot answer each other forever. */
  lemma {:induction false} AnsweredOnce(s: Session, env: Setting, yes: bool)
    requires s.state == TSDATA
    ensures var bytes: seq<Byte> := [TCIAC, if yes then TCWILL else TCWONT, TOTXBINARY];
      var t := Received(s, env, bytes);
      && t.receiveBinary == yes && t.state == TSDATA && Received(t, env, bytes) == t
      && t.sent == s.sent + if s.receiveBinary == yes then [] else [Option(if yes then TCDO else TCDONT, TOTXBINARY)]
  {
    hide Received;
    WillAnswered(s, env, yes, TOTXBINARY);
    WillAnswered(Received(s, env, [TCIAC, if yes then TCWILL else TCWONT, TOTXBINARY]), env, yes, TOTXBINARY);
  }

  /** The same for each option that is switched: it ends up as asked for, confirmed by one message exactly if it was
   not so before, and asking again changes nothing. */
  lemma {:induction false} SwitchSettles(s: Session, env: Setting, action: Action, c: Byte, yes: bool)
    requires action == DoNoGa || action == DoTxBinary || action == WillTxBinary || (action == DoEcho && env.ttyOk)
    requires s.command ==
             if action == WillTxBinary then (if yes then TCDO else TCDONT) else if yes then TCWILL else TCWONT
    ensures var t := Act(s, env, action, c);
      && Act(t, env, action, c) == t
      && Switched(t, action) == yes && (Switched(s, action) == yes ==> t == s)
      && t.sent == s.sent + if Switched(s, action) == yes then [] else [Option(Confirmed(action, yes), c)]
  {
  }

  /** The command that confirms a switch. */
  function Confirmed(action: Action, yes: bool): Byte {
    if action == WillTxBinary then (if yes then TCWILL else TCWONT) else if yes then TCDO else TCDONT
  }

  /** The echo option settles exactly if the terminal's modes can be set or nothing has to change; otherwise
   every announcement is answered again with the state that cannot be changed. */
  lemma {:induction false} EchoSettles(s: Session, env: Setting, c: Byte, yes: bool)
    requires s.command == if yes then TCWILL else TCWONT
    ensures var t := Echo(s, env, c);
      && (Echo(t, env, c) == t <==> env.ttyOk || s.echo == yes)
      && (env.ttyOk || s.echo == yes ==> t.echo == yes)
      && t.sent == s.sent + (if s.echo == yes then [] else [Option(if yes == env.ttyOk then TCDO else TCDONT, c)])
      && (!env.ttyOk && s.echo != yes ==> t == Send(s, Option(if yes then TCDONT else TCDO, c)))
  {
    assert |Echo(Echo(s, env, c), env, c).sent| >= |Echo(s, env, c).sent| >= |s.sent|;
  }

  function EchoTimes(s: Session, env: Setting, c: Byte, n: nat): Session {
    if n == 0 then s else Echo(EchoTimes(s, env, c, n - 1), env, c)
  }

  lemma {:induction false} EchoRefusedAgain(s: Session, env: Setting, c: Byte, yes: bool, n: nat)
    requires s.command == (if yes then TCWILL else TCWONT) && !env.ttyOk && s.echo != yes
    ensures var m := Option(if yes then TCDONT else TCDO, c);
      EchoTimes(s, env, c, n) == s.(sent := s.sent + seq(n, i => m))
  {
    var m := Option(if yes then TCDONT else TCDO, c);
    if n == 0 {
      assert s.sent + seq(0, i => m) == s.sent;
    } else {
      EchoRefusedAgain(s, env, c, yes, n - 1);
      assert s.sent + seq(n - 1, i => m) + [m] == s.sent + seq(n, i => m);
    }
  }

  /** What is sent when the terminal type is agreed to: the agreement, and a message for each direction that was
   not binary yet. */
  function Agreement(s: Session, c: Byte): seq<Message> {
    [Option(TCWILL, c)]
    + (if s.receiveBinary then [] else [Option(TCDO, TOTXBINARY)])
    + (if s.sendBinary then [] else [Option(TCWILL, TOTXBINARY)])
  }

  /** A request to tell the terminal type is agreed to exactly if it was before or a name is known. Then both
   directions end up binary, with one message for each switch that changed and nothing else changed, and asking
   again changes nothing. Otherwise it is refused and nothing changes, and asking again is answered again. */
  lemma {:induction false} TermTypeAgreed(s: Session, env: Setting, c: Byte)
    requires s.command == TCDO
    ensures var t, ok := TermType(s, env, c), s.termType || LookedUp(s, env).Known?;
      && (t.termType <==> ok) && (TermType(t, env, c) == t <==> ok)
      && t == if s.termType then s else if !ok then Send(s, Option(TCWONT, c)) else
        s.(termType := true, name := LookedUp(s, env), receiveBinary := true, sendBinary := true,
           sent := s.sent + Agreement(s, c))
  {
    assert |Send(s, Option(TCWONT, c)).sent| > |s.sent|;
  }

  function TermTypeTimes(s: Session, env: Setting, c: Byte, n: nat): Session {
    if n == 0 then s else TermType(TermTypeTimes(s, env, c, n - 1), env, c)
  }

  lemma {:induction false} TermTypeRefusedAgain(s: Session, env: Setting, c: Byte, n: nat)
    requires s.command == TCDO && !s.termType && LookedUp(s, env).Unknown?
    ensures TermTypeTimes(s, env, c, n) == s.(sent := s.sent + seq(n, i => Option(TCWONT, c)))
  {
    var m := Option(TCWONT, c);
    if n == 0 {
      assert s.sent + seq(0, i => m) == s.sent;
    } else {
      TermTypeRefusedAgain(s, env, c, n - 1);
      assert s.sent + seq(n - 1, i => m) + [m] == s.sent + seq(n, i => m);
    }
  }

  /** Taking the request back ends the option, with one message if it was agreed, and leaves the binary paths. */
  lemma {:induction false} TermTypeEnded(s: Session, env: Setting, c: Byte)
    requires s.command == TCDONT
    ensures var t := TermType(s, env, c);
      && TermType(t, env, c) == t
      && t == if s.termType then s.(termType := false, sent := s.sent + [Option(TCWONT, c)]) else s
  {
  }

  /** The switch that an action is about. */
  function Switched(s: Session, action: Action): bool {
    match action
    case DoNoGa => s.noGoAhead
    case DoTxBinary => s.receiveBinary
    case WillTxBinary => s.sendBinary
    case _ => s.echo
  }

  /** Carriage return and line feed, in either order, are one line end on the terminal. */
  lemma {:induction false} OneLineEnd(s: Session, env: Setting, crFirst: bool)
    requires !s.receiveBinary && s.synching == 0 && s.lastChar != VPCR && s.lastChar != VPLF
    ensures var (first, second) := if crFirst then (VPCR, VPLF) else (VPLF, VPCR);
      Put(Put(s, env, first), env, second) == s.(shown := s.shown + [Char(VPLF)], lastChar := 0)
  {
  }

  // ----- Commands and options, byte by byte

  /** A command without an option that is neither the mark of a synch nor a subnegotiation changes nothing. */
  lemma {:induction false} CommandIgnored(s: Session, env: Setting, c: Byte)
    requires s.state == TSDATA && c != 242 && c < 250
    ensures Received(s, env, [255, c]) == s
  {
    assert [255, c][..1] == [255] && [255][..0] == [];
    var one := Step(s, env, 255);
    assert Received(s, env, [255]) == one == s.(state := TSIAC);
    assert Step(one, env, c) == s;
  }

  /** An option command and its option: the action it leads to. */
  lemma {:induction false} OptionRead(s: Session, env: Setting, command: Byte, c: Byte)
    requires s.state == TSDATA && 251 <= command <= 254
    ensures var to := if command <= 252 then TSWOPT else TSDOPT;
      Received(s, env, [255, command, c])
      == Act(s.(state := to, command := command), env, Rule(to, c).1, c).(state := TSDATA)
  {
    hide Act;
    var bytes: seq<Byte> := [255, command, c];
    assert bytes[..2] == [255, command] && [255, command][..1] == [255] && [255][..0] == [];
    var one := Step(s, env, 255);
    assert one == s.(state := TSIAC) && Received(s, env, [255]) == one by { NoOps(s, env, 255, command); }
    var two := Step(one, env, command);
    assert two == s.(state := if command <= 252 then TSWOPT else TSDOPT, command := command)
      && Received(s, env, [255, command]) == two by { NoOps(one, env, 255, command); }
  }

  lemma {:induction false} NoOps(s: Session, env: Setting, c: Byte, command: Byte)
    ensures Act(s, env, NoOp, c) == s && Act(s, env, RecOpt, command) == s.(command := command)
  {
  }

  /** What the server's WILL (`yes`) or WONT comes to. Echo, suppressing go-ahead and binary transmission are switched
   as announced and confirmed by DO or DONT if they were not so before; where the terminal's modes cannot be set,
   the state that stays is told. Every other option is refused. */
  lemma {:induction false} WillAnswered(s: Session, env: Setting, yes: bool, c: Byte)
    requires s.state == TSDATA
    ensures var command, answer: Byte := if yes then 251 else 252, if yes then 253 else 254;
      var t, u := Received(s, env, [255, command, c]), s.(command := command);
      && (c == 1 ==> t == if s.echo == yes then u
                          else if env.ttyOk then u.(echo := yes, sent := s.sent + [Option(answer, 1)])
                          else u.(sent := s.sent + [Option(if yes then 254 else 253, 1)]))
      && (c == 3 ==> t == if s.noGoAhead == yes then u
                          else u.(noGoAhead := yes, sent := s.sent + [Option(answer, 3)]))
      && (c == 0 ==> t == if s.receiveBinary == yes then u
                          else u.(receiveBinary := yes, sent := s.sent + [Option(answer, 0)]))
      && (c != 0 && c != 1 && c != 3 ==> t == u.(sent := s.sent + [Option(254, c)]))
  {
    hide Received;
    OptionRead(s, env, if yes then 251 else 252, c);
  }

  /** What the server's DO (`yes`) or DONT comes to. Binary transmission is switched as asked for and confirmed by WILL
   or WONT if it was not so before. Every other option but the terminal type is refused. */
  lemma {:induction false} DoAnswered(s: Session, env: Setting, yes: bool, c: Byte)
    requires s.state == TSDATA
    ensures var command, answer: Byte := if yes then 253 else 254, if yes then 251 else 252;
      var t, u := Received(s, env, [255, command, c]), s.(command := command);
      && (c == 0 ==> t == if s.sendBinary == yes then u
                          else u.(sendBinary := yes, sent := s.sent + [Option(answer, 0)]))
      && (c == 24 && !yes ==> t == if s.termType then u.(termType := false, sent := s.sent + [Option(252, 24)]) else u)
      && (c == 24 && yes ==> t == if s.termType then u
                                  else if LookedUp(s, env).Unknown? then u.(sent := s.sent + [Option(252, 24)])
                                  else u.(termType := true, name := LookedUp(s, env), receiveBinary := true,
                                          sendBinary := true, sent := s.sent + Agreement(s, 24)))
      && (c != 0 && c != 24 ==> t == u.(sent := s.sent + [Option(252, c)]))
  {
    hide Received, TermType;
    OptionRead(s, env, if yes then 253 else 254, c);
    var u := s.(state := TSDOPT, command := if yes then 253 else 254);
    if yes { TermTypeAgreed(u, env, 24); } else { TermTypeEnded(u, env, 24); }
  }

  // ----- Text on the terminal

  /** Control characters and the capabilities that do the same. */
  const CONTROLS: map<int, string> := map[7 := "bl", 8 := "bc", 9 := "ta", 11 := "do", 12 := "cl"]

  /** What a character looks like: itself if it can be printed; a control character in the table by the capability, or
   itself if the terminal does not have it; and others like nothing. */
  function Look(env: Setting, c: Byte): seq<Shown> {
    if 32 <= c <= 254 then [Char(c)]
    else if c !in CONTROLS then []
    else if env.terminal != Unknown && CONTROLS[c] in env.capabilities then [Capability(CONTROLS[c])]
    else [Char(c)]
  }

  /** What the terminal does for a carriage return or a line feed that no partner follows. */
  function LookHeld(env: Setting, c: Byte): seq<Shown> {
    var name := if c == 13 then "cr" else "do";
    if (c == 13 || c == 10) && env.terminal != Unknown && name in env.capabilities then [Capability(name)] else []
  }

  /** A piece of text: a line end, in either order of its two characters, or one other character. */
  datatype Piece = LineEnd(crFirst: bool) | One(c: Byte)

  function PieceBytes(p: Piece): seq<Byte> {
    match p
    case LineEnd(crFirst) => if crFirst then [13, 10] else [10, 13]
    case One(c) => [c]
  }

  function PieceLook(env: Setting, p: Piece): seq<Shown> {
    if p.LineEnd? then [Char(10)] else Look(env, p.c)
  }

  function BytesOf(pieces: seq<Piece>): seq<Byte> {
    if pieces == [] then [] else BytesOf(pieces[..|pieces| - 1]) + PieceBytes(pieces[|pieces| - 1])
  }

  function LookOf(env: Setting, pieces: seq<Piece>): seq<Shown> {
    if pieces == [] then [] else LookOf(env, pieces[..|pieces| - 1]) + PieceLook(env, pieces[|pieces| - 1])
  }

  function PieceLast(p: Piece): Byte {
    if p.LineEnd? then 0 else p.c
  }

  /** The session shows text: outside commands, not binary, and not in a synch. */
  ghost predicate ShowsText(s: Session) {
    s.state == TSDATA && !s.receiveBinary && s.synching == 0
  }

  lemma {:induction false} ByteShown(s: Session, env: Setting, c: Byte)
    requires s.state == TSDATA && c != 255
    ensures Received(s, env, [c]) == Put(s, env, c)
  {
    hide Put;
    assert [c][..0] == [];
  }

  lemma {:induction false} LookIs(env: Setting, c: Byte)
    requires c != 255
    ensures Shows(env, c) == Look(env, c)
    ensures c == 13 || c == 10 ==> Look(env, c) == []
  {
  }

  /** One character after any other. One that is held back is shown first if this one does not complete a line end;
   and a carriage return or line feed is held back in its turn. */
  lemma {:induction false} CharacterShown(s: Session, env: Setting, c: Byte)
    requires ShowsText(s) && c != 255
    ensures var t := Received(s, env, [c]);
      if (s.lastChar == 13 && c == 10) || (s.lastChar == 10 && c == 13)
      then t == s.(shown := s.shown + [Char(10)], lastChar := 0)
      else t == s.(shown := s.shown + LookHeld(env, s.lastChar) + Look(env, c), lastChar := c)
  {
    hide Received, Shows, Look;
    ByteShown(s, env, c);
    LookIs(env, c);
  }

  lemma {:induction false} PieceShown(s: Session, env: Setting, p: Piece)
    requires ShowsText(s) && s.lastChar != 13 && s.lastChar != 10
    requires p.One? ==> p.c != 255 && p.c != 13 && p.c != 10
    ensures Received(s, env, PieceBytes(p)) == s.(shown := s.shown + PieceLook(env, p), lastChar := PieceLast(p))
  {
    hide Received, Look;
    match p {
      case One(c) => CharacterShown(s, env, c);
        assert s.shown + [] + Look(env, c) == s.shown + Look(env, c);
      case LineEnd(crFirst) =>
        var a: Byte, b: Byte := if crFirst then 13 else 10, if crFirst then 10 else 13;
        CharacterShown(s, env, a);
        LookIs(env, a);
        assert s.shown + [] + [] == s.shown;
        var t := s.(lastChar := a);
        CharacterShown(t, env, b);
        ReceivedMore(s, env, [a], [b]);
        assert [a] + [b] == [a, b];
    }
  }

  /** Text is shown piece by piece, without a reply, and only the last character is remembered. */
  lemma {:induction false} TextShown(s: Session, env: Setting, pieces: seq<Piece>)
    requires ShowsText(s) && s.lastChar != 13 && s.lastChar != 10
    requires forall i :: 0 <= i < |pieces| && pieces[i].One? ==> pieces[i].c !in {10, 13, 255}
    ensures Received(s, env, BytesOf(pieces))
      == s.(shown := s.shown + LookOf(env, pieces),
            lastChar := if pieces == [] then s.lastChar else PieceLast(pieces[|pieces| - 1]))
  {
    hide Received, PieceBytes, PieceLook;
    if pieces == [] {
      NothingReceived(s, env);
      assert s.shown + [] == s.shown;
    } else {
      var n := |pieces| - 1;
      TextShown(s, env, pieces[..n]);
      ReceivedMore(s, env, BytesOf(pieces[..n]), PieceBytes(pieces[n]));
      PieceShown(Received(s, env, BytesOf(pieces[..n])), env, pieces[n]);
      assert s.shown + LookOf(env, pieces) == s.shown + LookOf(env, pieces[..n]) + PieceLook(env, pieces[n]);
    }
  }

  /** Outside binary mode a doubled escape byte shows nothing of its own. */
  lemma {:induction false} EscapeShown(s: Session, env: Setting)
    requires ShowsText(s)
    ensures Received(s, env, [255, 255]) == s.(shown := s.shown + LookHeld(env, s.lastChar), lastChar := 255)
  {
    assert [255, 255][..1] == [255] && [255][..0] == [];
    var one := Step(s, env, 255);
    assert Received(s, env, [255]) == one == s.(state := TSIAC);
    assert s.shown + LookHeld(env, s.lastChar) + [] == s.shown + LookHeld(env, s.lastChar);
  }

  lemma {:induction false} BlockByte(s: Session, env: Setting, block: seq<Byte>, c: Byte)
    requires s.state == TSSUBNEG && s.sub == SubAfter(block) && c != 255
    ensures Step(s, env, c) == s.(
      sub := SubAfter(block + [c]),
      sent := if IsRequest(block + [c]) && !IsRequest(block) then s.sent + [TerminalType(s.name)] else s.sent)
    ensures IsRequest(block) ==> IsRequest(block + [c])
  {
    hide Act;
    SubActs(s, env, c);
    var more := block + [c];
    assert block == [] ==> more == [c];
    assert |block| == 1 ==> block == [block[0]] && more[0] == block[0] && more[1] == c;
    assert |block| >= 2 ==> more[0] == block[0] && more[1] == block[1];
  }

  /** The bytes of a subnegotiation, from its first on. */
  lemma {:induction false} BlockRead(s: Session, env: Setting, block: seq<Byte>)
    requires s.state == TSSUBNEG && s.sub == SS_START && 255 !in block
    ensures Received(s, env, block)
      == s.(sub := SubAfter(block), sent := s.sent + if IsRequest(block) then [TerminalType(s.name)] else [])
  {
    hide Step;
    if block == [] {
      assert s.sent + [] == s.sent;
    } else {
      hide SubAfter, IsRequest;
      var n := |block| - 1;
      BlockRead(s, env, block[..n]);
      assert block == block[..n] + [block[n]];
      BlockByte(Received(s, env, block[..n]), env, block[..n], block[n]);
      assert s.sent + [] == s.sent;
    }
  }

  /** A subnegotiation does nothing but tell the terminal's name, once, if its first two bytes ask for it. */
  lemma {:induction false} BlockAnswered(s: Session, env: Setting, block: seq<Byte>)
    requires s.state == TSDATA && s.sub == SS_START && 255 !in block
    ensures Received(s, env, [255, 250] + block + [255, 240])
      == s.(sent := s.sent + if |block| >= 2 && block[0] == 24 && block[1] == 1 then [TerminalType(s.name)] else [])
  {
    hide Received, SubAfter;
    var t := BlockBegins(s, env);
    var u := Received(s, env, [255, 250] + block);
    ReceivedMore(s, env, [255, 250], block);
    BlockRead(t, env, block);
    ReceivedMore(s, env, [255, 250] + block, [255, 240]);
    BlockEnds(u, env);
  }

  lemma {:induction false} BlockBegins(s: Session, env: Setting) returns (t: Session)
    requires s.state == TSDATA
    ensures t == Received(s, env, [255, 250]) == s.(state := TSSUBNEG)
  {
    assert [255, 250][..1] == [255] && [255][..0] == [];
    var one := Step(s, env, 255);
    assert Received(s, env, [255]) == one == s.(state := TSIAC);
    t := Step(one, env, 250);
  }

  lemma {:induction false} BlockEnds(s: Session, env: Setting)
    requires s.state == TSSUBNEG
    ensures Received(s, env, [255, 240]) == s.(state := TSDATA, sub := SS_START)
  {
    assert [255, 240][..1] == [255] && [255][..0] == [];
    var one := Step(s, env, 255);
    assert Received(s, env, [255]) == one == s.(state := TSSUBIAC);
    assert Step(one, env, 240) == s.(state := TSDATA, sub := SS_START);
  }

  /** In a synch nothing is shown, until as many marks have come as were announced. */
  lemma {:induction false} SynchDrops(s: Session, env: Setting, x: seq<Byte>)
    requires s.state == TSDATA && !s.receiveBinary && s.synching > 0 && 255 !in x
    ensures Received(s, env, x) == s && Received(s, env, [255, 242]) == s.(synching := s.synching - 1)
  {
    if x != [] {
      var n := |x| - 1;
      SynchDrops(s, env, x[..n]);
      assert x[n] != 255 && Step(s, env, x[n]) == s;
    }
    assert [255, 242][..1] == [255] && [255][..0] == [];
    assert Received(s, env, [255]) == s.(state := TSIAC);
  }

  // ----- Terminal-type requests

  /** How often a terminal name is told. */
  function Told(sent: seq<Message>, name: Name): nat {
    if sent == [] then 0
    else Told(sent[..|sent| - 1], name) + if sent[|sent| - 1] == TerminalType(name) then 1 else 0
  }

  lemma {:induction false} ToldSend(s: Session, m: Message, name: Name)
    ensures Told(Send(s, m).sent, name) == Told(s.sent, name) + if m == TerminalType(name) then 1 else 0
  {
    assert (s.sent + [m])[..|s.sent|] == s.sent;
  }

  lemma {:induction false} BinaryTold(s: Session, c: Byte, name: Name)
    ensures Told(ReceiveBinary(s, c).sent, name) == Told(SendBinary(s, c).sent, name) == Told(s.sent, name)
  {
    hide Told;
    ToldSend(s.(receiveBinary := !s.receiveBinary), Option(if s.receiveBinary then TCDONT else TCDO, c), name);
    ToldSend(s.(sendBinary := !s.sendBinary), Option(if s.sendBinary then TCWONT else TCWILL, c), name);
  }

  lemma {:induction false} TermTypeTold(s: Session, env: Setting, c: Byte, name: Name)
    ensures Told(TermType(s, env, c).sent, name) == Told(s.sent, name)
  {
    hide Told, ReceiveBinary, SendBinary;
    ToldSend(s.(termType := false), Option(TCWONT, c), name);
    ToldSend(s, Option(TCWONT, c), name);
    var t := s.(termType := true, name := LookedUp(s, env));
    ToldSend(t, Option(TCWILL, c), name);
    var u := Send(t, Option(TCWILL, c)).(command := TCWILL);
    BinaryTold(u, TOTXBINARY, name);
    BinaryTold(ReceiveBinary(u, TOTXBINARY).(command := TCDO), TOTXBINARY, name);
  }

  /** Only the nested machine tells the terminal type. */
  lemma {:induction false} ActTold(s: Session, env: Setting, action: Action, c: Byte, name: Name)
    requires action != SubOpt
    ensures Told(Act(s, env, action, c).sent, name) == Told(s.sent, name)
  {
    hide Told, TermType, ReceiveBinary, SendBinary;
    match action {
      case DoEcho =>
        var t := if env.ttyOk then s.(echo := !s.echo) else s;
        ToldSend(t, Option(if t.echo then TCDO else TCDONT, c), name);
      case DoNoGa =>
        ToldSend(s.(noGoAhead := !s.noGoAhead), Option(if s.noGoAhead then TCDONT else TCDO, c), name);
      case DoTxBinary => BinaryTold(s, c, name);
      case WillTxBinary => BinaryTold(s, c, name);
      case DoNotSup => ToldSend(s, Option(TCDONT, c), name);
      case WillNotSup => ToldSend(s, Option(TCWONT, c), name);
      case WillTermType => TermTypeTold(s, env, c, name);
      case _ =>
    }
  }

  /** The subnegotiations of a stream: the finished ones, and the one that is being read, if any, with
   escaped bytes as the bytes they stand for. */
  datatype Place = InData | InCommand | InOption | InBlock | InEscape
  datatype Scan = Scan(place: Place, block: seq<Byte>, blocks: seq<seq<Byte>>)

  function ScanStep(r: Scan, c: Byte): Scan {
    match r.place
    case InData => if c == TCIAC then r.(place := InCommand) else r
    case InCommand =>
      if c == TCSB then Scan(InBlock, [], r.blocks)
      else r.(place := if TCWILL <= c <= TCDONT then InOption else InData)
    case InOption => r.(place := InData)
    case InBlock => if c == TCIAC then r.(place := InEscape) else r.(block := r.block + [c])
    case InEscape =>
      if c == TCSE then Scan(InData, [], r.blocks + [r.block]) else Scan(InBlock, r.block + [c], r.blocks)
  }

  function Scanned(bytes: seq<Byte>): Scan {
    if bytes == [] then Scan(InData, [], [])
    else ScanStep(Scanned(bytes[..|bytes| - 1]), bytes[|bytes| - 1])
  }

  /** A block that asks for the terminal type. */
  predicate IsRequest(block: seq<Byte>) {
    |block| >= 2 && block[0] == TOTERMTYPE && block[1] == TT_SEND
  }

  function Requests(blocks: seq<seq<Byte>>): nat {
    if blocks == [] then 0 else Requests(blocks[..|blocks| - 1]) + if IsRequest(blocks[|blocks| - 1]) then 1 else 0
  }

  function RequestsIn(r: Scan): nat {
    Requests(r.blocks) + if (r.place == InBlock || r.place == InEscape) && IsRequest(r.block) then 1 else 0
  }

  /** The state of the nested machine after the bytes of a block. */
  function SubAfter(block: seq<Byte>): Byte {
    if block == [] then SS_START else if block == [TOTERMTYPE] then SS_TERMTYPE else SS_END
  }

  ghost predicate Matches(s: Session, r: Scan) {
    && (s.state == TSDATA <==> r.place == InData) && (s.state == TSIAC <==> r.place == InCommand)
    && (s.state == TSWOPT || s.state == TSDOPT <==> r.place == InOption)
    && (s.state == TSSUBNEG <==> r.place == InBlock) && (s.state == TSSUBIAC <==> r.place == InEscape)
    && s.sub == SubAfter(r.block) && (r.place != InBlock && r.place != InEscape ==> r.block == [])
  }

  /** What is added to the times a name is told, when the session knows the name `known`. */
  function Counted(name: Name, known: Name, before: nat, after: nat): int {
    if name == known then after - before else 0
  }

  lemma {:induction false} BlockGrows(s: Session, block: seq<Byte>, c: Byte, name: Name)
    requires s.sub == SubAfter(block)
    ensures SubStep(s, c).sub == SubAfter(block + [c])
    ensures Told(SubStep(s, c).sent, name) == Told(s.sent, name)
      + Counted(name, s.name, if IsRequest(block) then 1 else 0, if IsRequest(block + [c]) then 1 else 0)
  {
    hide Told;
    ToldSend(s, TerminalType(s.name), name);
    var more := block + [c];
    assert block == [] ==> more == [c];
    assert |block| == 1 ==> block == [block[0]] && more[0] == block[0] && more[1] == c;
    assert |block| >= 2 ==> more[0] == block[0] && more[1] == block[1];
  }

  lemma {:induction false} BlockDone(blocks: seq<seq<Byte>>, block: seq<Byte>)
    ensures Requests(blocks + [block]) == Requests(blocks) + if IsRequest(block) then 1 else 0
  {
    assert (blocks + [block])[..|blocks|] == blocks;
  }

  /** Inside a subnegotiation. */
  lemma {:induction false} BlockMatches(s: Session, env: Setting, r: Scan, c: Byte, name: Name)
    requires Matches(s, r) && (r.place == InBlock || r.place == InEscape)
    ensures Matches(Step(s, env, c), ScanStep(r, c))
    ensures Told(Step(s, env, c).sent, name)
      == Told(s.sent, name) + Counted(name, s.name, RequestsIn(r), RequestsIn(ScanStep(r, c)))
  {
    hide Act, Told, SubStep, IsRequest, Requests;
    SubActs(s, env, c);
    ActTold(s, env, NoOp, c, name);
    ActKeepsMachine(s, env, NoOp, c);
    BlockGrows(s, r.block, c, name);
    BlockDone(r.blocks, r.block);
  }

  /** One byte: the name known before it is told exactly if the byte makes a block ask for it. */
  lemma {:induction false} StepMatches(s: Session, env: Setting, r: Scan, c: Byte, name: Name)
    requires Matches(s, r)
    ensures Matches(Step(s, env, c), ScanStep(r, c))
    ensures Told(Step(s, env, c).sent, name)
      == Told(s.sent, name) + Counted(name, s.name, RequestsIn(r), RequestsIn(ScanStep(r, c)))
  {
    hide Act, Told, SubStep, IsRequest, Requests;
    if r.place == InBlock || r.place == InEscape {
      BlockMatches(s, env, r, c, name);
    } else {
      var (next, action) := Rule(s.state, c);
      ActTold(s, env, action, c, name);
      ActKeepsMachine(s, env, action, c);
      EmptyBlock();
    }
  }

  lemma {:induction false} EmptyBlock()
    ensures !IsRequest([])
  {
  }

  // ----- The name is looked up when the option is asked for

  /** The server has asked for the option, outside every subnegotiation. */
  predicate Offered(bytes: seq<Byte>) {
    var n := |bytes|;
    n >= 2 && (Offered(bytes[..n - 1])
               || (Scanned(bytes[..n - 2]).place == InCommand && bytes[n - 2] == TCDO && bytes[n - 1] == TOTERMTYPE))
  }

  /** The stream up to the byte that first asks for the option. */
  function BeforeOffer(bytes: seq<Byte>): seq<Byte> {
    if Offered(bytes) then BeforeOffer(bytes[..|bytes| - 1]) else bytes
  }

  /** The stream while no name is known to a session that began with the name `first`. */
  function Nameless(env: Setting, first: Name, bytes: seq<Byte>): seq<Byte> {
    if first.Known? then [] else if env.terminal.Unknown? then bytes else BeforeOffer(bytes)
  }

  /** The name that is told in the end. */
  function Final(env: Setting, first: Name): Name {
    if first.Known? then first else env.terminal
  }

  /** What the session keeps of the stream: the name, and the command of an unfinished option. */
  ghost predicate Remembers(s: Session, env: Setting, first: Name, bytes: seq<Byte>) {
    && s.name == (if first.Known? || Offered(bytes) then Final(env, first) else Unknown)
    && (s.termType ==> s.name.Known?)
    && (s.state == TSDOPT || s.state == TSWOPT ==>
          && |bytes| > 0 && s.command == bytes[|bytes| - 1] && Scanned(bytes[..|bytes| - 1]).place == InCommand
          && (s.state == TSDOPT <==> s.command == TCDO || s.command == TCDONT))
  }

  lemma {:induction false} OfferedNext(bytes: seq<Byte>, c: Byte)
    ensures Offered(bytes + [c]) <==>
              || Offered(bytes)
              || (|bytes| > 0 && Scanned(bytes[..|bytes| - 1]).place == InCommand
                  && bytes[|bytes| - 1] == TCDO && c == TOTERMTYPE)
  {
    hide Scanned;
    var n, more := |bytes|, bytes + [c];
    assert more[..n] == bytes;
    if n > 0 { assert more[..n - 1] == bytes[..n - 1]; }
  }

  lemma {:induction false} TermTypeRemembers(s: Session, env: Setting, c: Byte)
    requires s.command == TCDO || s.command == TCDONT
    requires s.termType ==> s.name.Known?
    ensures var t := TermType(s, env, c);
      t.name == (if s.command == TCDO then LookedUp(s, env) else s.name) && (t.termType ==> t.name.Known?)
  {
    if s.command == TCDO { TermTypeAgreed(s, env, c); } else { TermTypeEnded(s, env, c); }
  }

  /** An offer is completed exactly by the byte that makes the client act on it. */
  lemma {:induction false} OfferActs(s: Session, env: Setting, first: Name, bytes: seq<Byte>, c: Byte)
    requires Remembers(s, env, first, bytes) && Matches(s, Scanned(bytes))
    ensures Rule(s.state, c).1 == Action.WillTermType <==> s.state == TSDOPT && c == TOTERMTYPE
    ensures Offered(bytes + [c]) <==>
              Offered(bytes) || (s.state == TSDOPT && s.command == TCDO && c == TOTERMTYPE)
  {
    hide Offered, Scanned;
    OfferedNext(bytes, c);
    var n := |bytes| - 1;
    if n >= 0 {
      ScannedLast(bytes[..n], bytes[n]);
      assert bytes[..n] + [bytes[n]] == bytes;
    }
  }

  lemma {:induction false} WillActs(s: Session, env: Setting, c: Byte)
    ensures Act(s, env, Action.WillTermType, c) == TermType(s, env, c)
  {
  }

  lemma {:induction false} StepRemembers(s: Session, env: Setting, first: Name, bytes: seq<Byte>, c: Byte)
    requires Remembers(s, env, first, bytes) && Matches(s, Scanned(bytes))
    ensures Remembers(Step(s, env, c), env, first, bytes + [c])
  {
    hide Act, Scanned, Offered, TermType;
    OfferActs(s, env, first, bytes, c);
    assert (bytes + [c])[..|bytes|] == bytes;
    var (next, action) := Rule(s.state, c);
    if action == Action.WillTermType {
      WillActs(s, env, c);
      TermTypeRemembers(s, env, c);
    } else {
      ActKeepsName(s, env, action, c);
    }
  }

  lemma {:induction false} NothingOffered(s: Session, env: Setting)
    requires Sound(s) && s.state == TSDATA
    ensures Remembers(s, env, s.name, []) && Matches(s, Scanned([])) && RequestsIn(Scanned([])) == 0
  {
  }

  /** What is remembered, over every stream. */
  lemma {:induction false} ReceivedRemembers(s: Session, env: Setting, bytes: seq<Byte>)
    requires Sound(s) && s.state == TSDATA
    ensures var t := Received(s, env, bytes); Remembers(t, env, s.name, bytes) && Matches(t, Scanned(bytes))
  {
    hide Step, Remembers, Matches, Scanned, Sound;
    if bytes == [] {
      NothingOffered(s, env);
    } else {
      var n := |bytes| - 1;
      ReceivedRemembers(s, env, bytes[..n]);
      var t := Received(s, env, bytes[..n]);
      StepRemembers(t, env, s.name, bytes[..n], bytes[n]);
      StepMatches(t, env, Scanned(bytes[..n]), bytes[n], Unknown);
      ScannedLast(bytes[..n], bytes[n]);
      assert bytes[..n] + [bytes[n]] == bytes;
    }
  }

  /** How often `name` is to be told: as often as a block asks while it is the name known. */
  function Due(env: Setting, first: Name, bytes: seq<Byte>, name: Name): int {
    var early := RequestsIn(Scanned(Nameless(env, first, bytes)));
    if name.Unknown? then early else if name == Final(env, first) then RequestsIn(Scanned(bytes)) - early else 0
  }

  lemma {:induction false} DueNext(s: Session, env: Setting, first: Name, bytes: seq<Byte>, c: Byte, name: Name)
    requires Remembers(s, env, first, bytes) && Matches(s, Scanned(bytes))
    ensures Due(env, first, bytes + [c], name)
      == Due(env, first, bytes, name)
        + Counted(name, s.name, RequestsIn(Scanned(bytes)), RequestsIn(Scanned(bytes + [c])))
  {
    hide Scanned, RequestsIn, Matches, Offered;
    var more := bytes + [c];
    assert more[..|bytes|] == bytes;
    OfferedNext(bytes, c);
    if Offered(more) && !Offered(bytes) {
      SameRequests(s, env, first, bytes, c);
    }
  }

  /** The byte that completes an offer is in no block. */
  lemma {:induction false} SameRequests(s: Session, env: Setting, first: Name, bytes: seq<Byte>, c: Byte)
    requires Remembers(s, env, first, bytes) && Matches(s, Scanned(bytes)) && Offered(bytes + [c]) && !Offered(bytes)
    ensures RequestsIn(Scanned(bytes + [c])) == RequestsIn(Scanned(bytes))
  {
    hide Scanned, Offered, Requests, IsRequest;
    OfferActs(s, env, first, bytes, c);
    ScannedLast(bytes, c);
  }

  /** Over every stream, a name is told exactly once for each block that asks for it while it is the name known; that
   is no name before the server has asked for the option, and never one if the environment has none. */
  lemma {:induction false} OneReplyPerRequest(s: Session, env: Setting, bytes: seq<Byte>, name: Name)
    requires Sound(s) && s.state == TSDATA
    ensures Told(Received(s, env, bytes).sent, name) == Told(s.sent, name) + Due(env, s.name, bytes, name)
  {
    hide Step, Remembers, Matches, Scanned, Sound, Told, Due;
    if bytes == [] {
      NothingDue(s, env, name);
    } else {
      var n := |bytes| - 1;
      OneReplyPerRequest(s, env, bytes[..n], name);
      ReceivedRemembers(s, env, bytes[..n]);
      var t := Received(s, env, bytes[..n]);
      DueNext(t, env, s.name, bytes[..n], bytes[n], name);
      StepMatches(t, env, Scanned(bytes[..n]), bytes[n], name);
      ScannedLast(bytes[..n], bytes[n]);
      assert bytes[..n] + [bytes[n]] == bytes;
    }
  }

  lemma {:induction false} NothingDue(s: Session, env: Setting, name: Name)
    requires Sound(s) && s.state == TSDATA
    ensures Due(env, s.name, [], name) == 0
  {
    NothingOffered(s, env);
  }

  /** A block asks for the name while none is known. */
  predicate AskedTooEarly(env: Setting, first: Name, bytes: seq<Byte>) {
    RequestsIn(Scanned(Nameless(env, first, bytes))) > 0
  }

  lemma {:induction false} NeverTold(sent: seq<Message>, name: Name)
    ensures Told(sent, name) == 0 <==> TerminalType(name) !in sent
  {
    if sent != [] {
      NeverTold(sent[..|sent| - 1], name);
      assert sent == sent[..|sent| - 1] + [sent[|sent| - 1]];
    }
  }

  /** The null name is passed on exactly if a block asks too early; otherwise the terminal's name is told exactly once
   for each block that asks, finished or not. */
  lemma {:induction false} NullPassedOn(s: Session, env: Setting, bytes: seq<Byte>)
    requires Sound(s) && s.state == TSDATA && TerminalType(Unknown) !in s.sent
    ensures var sent, name := Received(s, env, bytes).sent, Final(env, s.name);
      && (TerminalType(Unknown) in sent <==> AskedTooEarly(env, s.name, bytes))
      && (!AskedTooEarly(env, s.name, bytes) ==> Told(sent, name) == Told(s.sent, name) + RequestsIn(Scanned(bytes)))
  {
    hide Received, RequestsIn, Scanned, Told;
    var name := Final(env, s.name);
    OneReplyPerRequest(s, env, bytes, Unknown);
    OneReplyPerRequest(s, env, bytes, name);
    NeverTold(s.sent, Unknown);
    NeverTold(Received(s, env, bytes).sent, Unknown);
  }

  /** It is the longest prefix without an offer, so that what asks in it asks before the first offer. */
  lemma {:induction false} BeforeOfferIs(bytes: seq<Byte>)
    ensures var p := BeforeOffer(bytes);
      && p <= bytes && !Offered(p) && forall k :: |p| < k <= |bytes| ==> Offered(bytes[..k])
  {
    hide Scanned;
    if Offered(bytes) {
      var n := |bytes| - 1;
      BeforeOfferIs(bytes[..n]);
      forall k | |BeforeOffer(bytes)| < k <= |bytes| ensures Offered(bytes[..k]) {
        if k <= n {
          assert bytes[..n][..k] == bytes[..k];
        } else {
          assert bytes[..k] == bytes;
        }
      }
    }
  }

  /** Asking right away: the name is not known, whatever the environment holds. */
  lemma {:induction false} NullAtOnce(s: Session, env: Setting)
    requires s.state == TSDATA && s.sub == SS_START && s.name.Unknown?
    ensures Received(s, env, [255, 250, 24, 1]).sent == s.sent + [TerminalType(Unknown)]
  {
    hide Received;
    var t := BlockBegins(s, env);
    BlockRead(t, env, [24, 1]);
    ReceivedMore(s, env, [255, 250], [24, 1]);
    assert [255, 250] + [24, 1] == [255, 250, 24, 1];
  }

  /** A message as it goes over the wire; a null name is not a string that could be written. */
  function Wire(m: Message): seq<Byte>
    requires m != TerminalType(Unknown)
  {
    match m
    case Option(command, option) => [TCIAC, command, option]
    case TerminalType(name) => [TCIAC, TCSB, TOTERMTYPE, TT_IS] + name.text + [TCIAC, TCSE]
  }

  /** The reply, byte by byte. */
  lemma {:induction false} ReplyBytes(text: seq<Byte>)
    ensures Wire(TerminalType(Known(text))) == [255, 250, 24, 0] + text + [255, 240]
  {
  }

  lemma {:induction false} ScannedLast(bytes: seq<Byte>, c: Byte)
    ensures Scanned(bytes + [c]) == ScanStep(Scanned(bytes), c)
  {
    assert (bytes + [c])[..|bytes|] == bytes;
  }

  lemma {:induction false} ScannedPlain(bytes: seq<Byte>, plain: seq<Byte>)
    requires Scanned(bytes).place == InBlock && TCIAC !in plain
    ensures Scanned(bytes + plain) == Scanned(bytes).(block := Scanned(bytes).block + plain)
  {
    hide Scanned;
    if plain == [] {
      assert bytes + plain == bytes && Scanned(bytes).block + plain == Scanned(bytes).block;
    } else {
      var n := |plain| - 1;
      ScannedPlain(bytes, plain[..n]);
      ScannedLast(bytes + plain[..n], plain[n]);
      assert bytes + plain[..n] + [plain[n]] == bytes + plain;
      assert Scanned(bytes).block + plain[..n] + [plain[n]] == Scanned(bytes).block + plain;
    }
  }

  /** How many bytes the subnegotiations read so far hold. */
  function Payload(r: Scan): nat {
    TotalLength(r.blocks) + |r.block|
  }

  function TotalLength(blocks: seq<seq<Byte>>): nat {
    if blocks == [] then 0 else TotalLength(blocks[..|blocks| - 1]) + |blocks[|blocks| - 1]|
  }

  /** A byte adds at most one byte, and an escape byte in a block, and what may follow it, adds none. */
  lemma {:induction false} PayloadStep(r: Scan, c: Byte)
    ensures Payload(ScanStep(r, c)) <= Payload(r) + 1
    ensures r.place == InBlock && c == TCIAC ==> Payload(ScanStep(r, c)) == Payload(r)
    ensures r.place != InEscape && c == TCIAC ==>
              Payload(ScanStep(r, c)) <= Payload(r) && ScanStep(r, c).place != InBlock
    ensures r.place != InBlock && c == TCSE ==> Payload(ScanStep(r, c)) <= Payload(r)
  {
    assert (r.blocks + [r.block])[..|r.blocks|] == r.blocks;
  }

  lemma {:induction false} ScannedLoses(bytes: seq<Byte>, name: seq<Byte>)
    requires Scanned(bytes).place == InBlock && TCIAC in name
    ensures Payload(Scanned(bytes + name)) < Payload(Scanned(bytes)) + |name|
  {
    hide Scanned, ScanStep, TotalLength;
    var n := |name| - 1;
    assert bytes + name[..n] + [name[n]] == bytes + name;
    ScannedLast(bytes + name[..n], name[n]);
    PayloadStep(Scanned(bytes + name[..n]), name[n]);
    if TCIAC in name[..n] {
      ScannedLoses(bytes, name[..n]);
    } else {
      ScannedPlain(bytes, name[..n]);
    }
  }

  /** The reply is one subnegotiation that holds the option, the answer command and the terminal's name, exactly if
   the name does not hold the escape byte. */
  lemma {:induction false} ReplyIsOneBlock(text: seq<Byte>)
    ensures Scanned(Wire(TerminalType(Known(text)))) == Scan(InData, [], [[TOTERMTYPE, TT_IS] + text])
      <==> TCIAC !in text
  {
    hide Scanned;
    var start: seq<Byte> := [TCIAC, TCSB, TOTERMTYPE, TT_IS];
    ScannedStart();
    ScannedLast(start + text, TCIAC);
    ScannedLast(start + text + [TCIAC], TCSE);
    assert Wire(TerminalType(Known(text))) == start + text + [TCIAC] + [TCSE];
    if TCIAC !in text {
      ScannedPlain(start, text);
    } else {
      var r := Scanned(start + text);
      ScannedLoses(start, text);
      PayloadStep(r, TCIAC);
      PayloadStep(ScanStep(r, TCIAC), TCSE);
      PayloadOfOne([TOTERMTYPE, TT_IS] + text);
    }
  }

  lemma {:induction false} PayloadOfOne(block: seq<Byte>)
    ensures Payload(Scan(InData, [], [block])) == |block| && Payload(Scan(InBlock, block, [])) == |block|
  {
    var blocks: seq<seq<Byte>> := [block];
    assert blocks[..0] == [];
    assert TotalLength(blocks) == TotalLength(blocks[..0]) + |block|;
  }

  lemma {:induction false} ScannedStart()
    ensures Scanned([TCIAC, TCSB, TOTERMTYPE, TT_IS]) == Scan(InBlock, [TOTERMTYPE, TT_IS], [])
  {
    hide Scanned;
    ScannedOpening();
    ScannedLast([TCIAC, TCSB], TOTERMTYPE);
    ScannedLast([TCIAC, TCSB, TOTERMTYPE], TT_IS);
    assert [TCIAC, TCSB] + [TOTERMTYPE] == [TCIAC, TCSB, TOTERMTYPE];
    assert [TCIAC, TCSB, TOTERMTYPE] + [TT_IS] == [TCIAC, TCSB, TOTERMTYPE, TT_IS];
  }

  lemma {:induction false} ScannedOpening()
    ensures Scanned([TCIAC, TCSB]) == Scan(InBlock, [], [])
  {
    ScannedLast([], TCIAC);
    ScannedLast([TCIAC], TCSB);
    assert [] + [TCIAC] == [TCIAC] && [TCIAC] + [TCSB] == [TCIAC, TCSB];
  }

  // ----- Bytes through the socket

  /** The keys that stand for commands when the path to the server is not binary. */
  datatype Keys = Keys(interrupt: Byte, quit: Byte, erase: Byte, kill: Byte, flush: Byte)

  const TCIP: Byte := 244
  const TCAO: Byte := 245
  const TCEC: Byte := 247
  const TCEL: Byte := 248

  /** A byte for the server, with the escape byte doubled. */
  function Stuffed(c: Byte): seq<Byte> {
    if c == TCIAC then [TCIAC, c] else [c]
  }

  /** Otherwise seven bits of it, or the command that its key stands for. */
  function Keyed(keys: Keys, d: Byte): seq<Byte> {
    if d == keys.interrupt || d == keys.quit then [TCIAC, TCIP]
    else if d == keys.erase then [TCIAC, TCEC]
    else if d == keys.kill then [TCIAC, TCEL]
    else if d == keys.flush then [TCIAC, TCAO]
    else [d]
  }

  method SoPutC(out: seq<Byte>, sendBinary: bool, keys: Keys, c: Byte) returns (sent: seq<Byte>)
    ensures sent == out + if sendBinary then Stuffed(c) else Keyed(keys, c % 128)
    ensures sendBinary && c != 255 ==> sent == out + [c]
    ensures sendBinary && c == 255 ==> sent == out + [255, 255]
    ensures var d := c % 128;
      !sendBinary ==>
        sent == out + (if d == keys.interrupt || d == keys.quit then [255, 244] else if d == keys.erase then [255, 247]
                       else if d == keys.kill then [255, 248] else if d == keys.flush then [255, 245] else [d])
  {
    sent := out;
    if sendBinary {
      if c == TCIAC {
        sent := sent + [TCIAC];
      }
      sent := sent + [c];
      assert sent == out + Stuffed(c);
      return;
    }
    var d := c % 128;
    if d == keys.interrupt || d == keys.quit {
      sent := sent + [TCIAC];
      sent := sent + [TCIP];
    } else if d == keys.erase {
      sent := sent + [TCIAC];
      sent := sent + [TCEC];
    } else if d == keys.kill {
      sent := sent + [TCIAC];
      sent := sent + [TCEL];
    } else if d == keys.flush {
      sent := sent + [TCIAC];
      sent := sent + [TCAO];
    } else {
      sent := sent + [d];
    }
    assert sent == out + Keyed(keys, d);
  }

  method SendAll(x: seq<Byte>, keys: Keys) returns (sent: seq<Byte>)
    ensures sent == Encoded(x)
  {
    sent := [];
    for i := 0 to |x|
      invariant sent == Encoded(x[..i])
    {
      sent := SoPutC(sent, true, keys, x[i]);
      assert x[..i + 1][..i] == x[..i];
    }
    assert x[..|x|] == x;
  }

  function Encoded(x: seq<Byte>): seq<Byte> {
    if x == [] then [] else Encoded(x[..|x| - 1]) + Stuffed(x[|x| - 1])
  }

  function Plain(x: seq<Byte>): seq<Shown> {
    if x == [] then [] else Plain(x[..|x| - 1]) + [Char(x[|x| - 1])]
  }

  lemma {:induction false} ReceivedMore(s: Session, env: Setting, bytes: seq<Byte>, more: seq<Byte>)
    ensures Received(s, env, bytes + more) == Received(Received(s, env, bytes), env, more)
  {
    hide Step;
    if more == [] {
      assert bytes + more == bytes;
    } else {
      var n := |more| - 1;
      assert (bytes + more)[..|bytes + more| - 1] == bytes + more[..n];
      ReceivedMore(s, env, bytes, more[..n]);
    }
  }

  lemma {:induction false} StuffedRead(s: Session, env: Setting, c: Byte)
    requires s.state == TSDATA && s.receiveBinary
    ensures Received(s, env, Stuffed(c)) == s.(shown := s.shown + [Char(c)])
  {
    if c == TCIAC {
      var t := Step(s, env, TCIAC);
      assert [TCIAC, c][..1] == [TCIAC] && [TCIAC][..0] == [];
      assert Received(s, env, [TCIAC]) == t == s.(state := TSIAC);
      assert Step(t, env, c) == s.(shown := s.shown + [Char(c)]);
    } else {
      assert [c][..0] == [];
      assert Step(s, env, c) == s.(shown := s.shown + [Char(c)]);
    }
  }

  /** Whatever bytes are sent in binary mode arrive as they are, without a reply and without leaving a trace
   in the state of the machine. */
  lemma {:induction false} BinaryRoundTrip(s: Session, env: Setting, x: seq<Byte>)
    requires s.state == TSDATA && s.receiveBinary
    ensures Received(s, env, Encoded(x)) == s.(shown := s.shown + Plain(x))
  {
    hide Received, Stuffed;
    if x == [] {
      NothingReceived(s, env);
      assert s.shown + [] == s.shown;
    } else {
      var n := |x| - 1;
      BinaryRoundTrip(s, env, x[..n]);
      ReceivedMore(s, env, Encoded(x[..n]), Stuffed(x[n]));
      StuffedRead(s.(shown := s.shown + Plain(x[..n])), env, x[n]);
      assert s.shown + Plain(x[..n]) + [Char(x[n])] == s.shown + Plain(x);
    }
  }

  lemma {:induction false} NothingReceived(s: Session, env: Setting)
    ensures Received(s, env, []) == s
  {
  }

  // ----- The program

  /** The tables hold the entries that govern each state and byte. */
  ghost predicate TablesOk(ttfsm: array2<int>, subfsm: array2<int>)
    reads ttfsm, subfsm
  {
    && ttfsm.Length0 == NTSTATES && ttfsm.Length1 == NCHRS && subfsm.Length0 == NSSTATES && subfsm.Length1 == NCHRS
    && (forall s, c :: 0 <= s < NTSTATES && 0 <= c < NCHRS ==>
          ttfsm[s, c] >= 0 && Governs(TtSTab(), NTTS, s, c, ttfsm[s, c], NTTS))
    && (forall s, c :: 0 <= s < NSSTATES && 0 <= c < NCHRS ==>
          subfsm[s, c] >= 0 && Governs(SubSTab(), NSUBS, s, c, subfsm[s, c], NSUBS))
  }

  class Client {
    const env: Setting
    const ttfsm: array2<int>
    const subfsm: array2<int>
    var ttstate: Byte
    var substate: Byte
    var optionCmd: Byte
    var rcvbinary: bool
    var sndbinary: bool
    var doecho: bool
    var noga: bool
    var termtype: bool
    var term: Name
    var synching: nat
    var lastChar: Byte
    var toServer: seq<Message>
    var toTerminal: seq<Shown>

    ghost function View(): Session
      reads this
    {
      Session(ttstate, substate, optionCmd, rcvbinary, sndbinary, doecho, noga, termtype, term, synching,
              lastChar, toServer, toTerminal)
    }

    ghost predicate Valid()
      reads this, ttfsm, subfsm
    {
      TablesOk(ttfsm, subfsm) && ttstate < NTSTATES && substate < NSSTATES
    }

    constructor (e: Setting)
      ensures Valid() && env == e && Sound(View()) && fresh(ttfsm) && fresh(subfsm)
      ensures ttstate == TSDATA && term == Unknown && toServer == [] && toTerminal == []
      ensures !rcvbinary && !sndbinary && !doecho && !noga && !termtype && synching == 0 && lastChar == 0
    {
      env := e;
      ttfsm := new int[NTSTATES, NCHRS];
      subfsm := new int[NSSTATES, NCHRS];
      ttstate, substate, optionCmd := TSDATA, SS_START, 0;
      rcvbinary, sndbinary, doecho, noga, termtype := false, false, false, false, false;
      term, synching, lastChar, toServer, toTerminal := Unknown, 0, 0, [], [];
      new;
      TtWellFormed();
      SubWellFormed();
      FsmInit(ttfsm, TtSTab(), NTSTATES, NTTS);
      FsmInit(subfsm, SubSTab(), NSSTATES, NSUBS);
    }

    method SendOption(command: Byte, c: Byte)
      modifies this`toServer
      ensures View() == Send(old(View()), Option(command, c))
    {
      toServer := toServer + [Option(command, c)];
    }

    method DoEcho(c: Byte)
      modifies this
      ensures View() == Echo(old(View()), env, c)
    {
      if doecho {
        if optionCmd == TCWILL {
          return;
        }
      } else if optionCmd == TCWONT {
        return;
      }
      if env.ttyOk {
        doecho := !doecho;
      }
      SendOption(if doecho then TCDO else TCDONT, c);
    }

    method DoNoGa(c: Byte)
      modifies this
      ensures View() == NoGoAhead(old(View()), c)
    {
      if noga {
        if optionCmd == TCWILL {
          return;
        }
      } else if optionCmd == TCWONT {
        return;
      }
      noga := !noga;
      SendOption(if noga then TCDO else TCDONT, c);
    }

    method DoTxBinary(c: Byte)
      modifies this
      ensures View() == ReceiveBinary(old(View()), c)
    {
      if rcvbinary {
        if optionCmd == TCWILL {
          return;
        }
      } else if optionCmd == TCWONT {
        return;
      }
      rcvbinary := !rcvbinary;
      SendOption(if rcvbinary then TCDO else TCDONT, c);
    }

    method WillTxBinary(c: Byte)
      modifies this
      ensures View() == SendBinary(old(View()), c)
    {
      if sndbinary {
        if optionCmd == TCDO {
          return;
        }
      } else if optionCmd == TCDONT {
        return;
      }
      sndbinary := !sndbinary;
      SendOption(if sndbinary then TCWILL else TCWONT, c);
    }

    /** A request to tell the terminal type, or its end: agreeing also makes both directions binary. */
    method WillTermType(c: Byte)
      modifies this
      ensures View() == TermType(old(View()), env, c)
      ensures old(optionCmd) == TCDO ==> (termtype <==> old(termtype) || old(term).Known? || env.terminal.Known?)
      ensures old(optionCmd) == TCDO && !old(termtype) && termtype ==>
        && term.Known? && rcvbinary && sndbinary
        && toServer == old(toServer) + old(Agreement(View(), c))
      ensures old(optionCmd) == TCDO && !termtype ==> View() == Send(old(View()), Option(TCWONT, c))
      ensures old(optionCmd) == TCDONT ==> !termtype && rcvbinary == old(rcvbinary) && sndbinary == old(sndbinary)
      ensures old(optionCmd) == (if old(termtype) then TCDO else TCDONT) ==> View() == old(View())
    {
      hide TermType, Agreement;
      ghost var s := View();
      if optionCmd == TCDO {
        TermTypeAgreed(s, env, c);
      } else if optionCmd == TCDONT {
        TermTypeEnded(s, env, c);
      }
      SwitchTermType(c);
    }

    method SwitchTermType(c: Byte)
      modifies this
      ensures View() == TermType(old(View()), env, c)
    {
      hide ReceiveBinary, SendBinary;
      if termtype {
        if optionCmd == TCDO {
          return;
        }
      } else if optionCmd == TCDONT {
        return;
      }
      termtype := !termtype;
      if termtype {
        if term == Unknown {
          term := env.terminal;
          if term == Unknown {
            termtype := !termtype;
          }
        }
      }
      SendOption(if termtype then TCWILL else TCWONT, c);
      if termtype {
        SetUpBinary();
      }
    }

    /** A binary path both ways. */
    method SetUpBinary()
      modifies this
      ensures View() == SendBinary(
        ReceiveBinary(old(View()).(command := TCWILL), TOTXBINARY).(command := TCDO), TOTXBINARY)
    {
      hide ReceiveBinary, SendBinary;
      optionCmd := TCWILL;
      DoTxBinary(TOTXBINARY);
      optionCmd := TCDO;
      WillTxBinary(TOTXBINARY);
    }

    method TcOut(name: string) returns (ok: bool)
      modifies this`toTerminal
      ensures ok <==> Has(env, name)
      ensures toTerminal == old(toTerminal) + UseCapability(env, name)
    {
      ok := env.terminal.Known? && name in env.capabilities;
      if ok {
        toTerminal := toTerminal + [Capability(name)];
      }
    }

    method TtPutC(c: Byte)
      modifies this
      ensures View() == Put(old(View()), env, c)
    {
      hide Shows, UseCapability;
      if rcvbinary {
        toTerminal := toTerminal + [Char(c)];
        return;
      }
      if synching > 0 {
        return;
      }
      if (lastChar == VPCR && c == VPLF) || (lastChar == VPLF && c == VPCR) {
        toTerminal := toTerminal + [Char(VPLF)];
        lastChar := 0;
        return;
      }
      if lastChar == VPCR {
        var _ := TcOut("cr");
      } else if lastChar == VPLF {
        var _ := TcOut("do");
      }
      Show(c);
      lastChar := c;
    }

    /** A printable character, or a control character by its capability if the terminal has it. */
    method Show(c: Byte)
      modifies this`toTerminal
      ensures toTerminal == old(toTerminal) + Shows(env, c)
    {
      hide CapabilityOf;
      if 32 <= c < TCIAC {
        toTerminal := toTerminal + [Char(c)];
      } else {
        var tc := true;
        if CapabilityOf(c) != "" {
          tc := TcOut(CapabilityOf(c));
        }
        if !tc {
          toTerminal := toTerminal + [Char(c)];
        }
      }
    }

    /** One step of the nested machine, by its table. */
    method SubOpt(c: Byte)
      requires Valid()
      modifies this
      ensures Valid() && View() == SubStep(old(View()), c)
    {
      hide TablesOk;
      SubEntry(ttfsm, subfsm, substate, c);
      var ti := subfsm[substate, c];
      var pt := SubSTab()[ti];
      if pt.action == SubTermType {
        toServer := toServer + [TerminalType(term)];
      }
      substate := pt.next;
    }

    method Perform(action: Action, c: Byte)
      requires Valid() && action != SubTermType && action != TnAbort
      modifies this
      ensures Valid() && View() == Act(old(View()), env, action, c)
    {
      hide Put, Echo, NoGoAhead, ReceiveBinary, SendBinary, TermType, SubStep, TablesOk;
      if action != Action.SubOpt && action != Action.SubEnd {
        ActKeepsMachine(View(), env, action, c);
      }
      match action {
        case NoOp =>
        case TtPutC => TtPutC(c);
        case TcDm =>
          if synching > 0 {
            synching := synching - 1;
          }
        case RecOpt => optionCmd := c;
        case SubOpt => SubOpt(c);
        case SubEnd => substate := SS_START;
        case DoEcho => DoEcho(c);
        case DoNoGa => DoNoGa(c);
        case DoTxBinary => DoTxBinary(c);
        case DoNotSup => SendOption(TCDONT, c);
        case WillTermType => WillTermType(c);
        case WillTxBinary => WillTxBinary(c);
        case WillNotSup => SendOption(TCWONT, c);
      }
    }

    /** The loop over the bytes of a buffer: by the tables, it never gets to the entry that aborts. */
    method TtWrite(buf: seq<Byte>)
      requires Valid() && Sound(View())
      modifies this
      ensures Valid() && View() == Received(old(View()), env, buf) && Sound(View())
    {
      hide Valid, Sound, Step;
      for i := 0 to |buf|
        invariant Valid() && Sound(View()) && View() == Received(old(View()), env, buf[..i])
      {
        TakeByte(buf[i]);
        assert buf[..i + 1][..i] == buf[..i];
      }
      assert buf[..|buf|] == buf;
    }

    method TakeByte(c: Byte)
      requires Valid() && Sound(View())
      modifies this
      ensures Valid() && View() == Step(old(View()), env, c) && Sound(View())
    {
      hide TablesOk, Act, Rule;
      StepSound(View(), env, c);
      TtEntry(ttfsm, subfsm, ttstate, c);
      var ti := ttfsm[ttstate, c];
      var pt := TtSTab()[ti];
      Perform(pt.action, c);
      ttstate := pt.next;
    }
  }

  lemma {:induction false} TtEntry(ttfsm: array2<int>, subfsm: array2<int>, s: int, c: Byte)
    requires TablesOk(ttfsm, subfsm) && 0 <= s < NTSTATES
    ensures ttfsm.Length0 == NTSTATES && ttfsm.Length1 == NCHRS && 0 <= ttfsm[s, c] < NTTS
    ensures var pt := TtSTab()[ttfsm[s, c]];
      (pt.next, pt.action) == Rule(s, c) && pt.next < NTSTATES && pt.action != SubTermType && pt.action != TnAbort
  {
    hide Governs;
    TtGoverned(s, c, ttfsm[s, c]);
  }

  lemma {:induction false} SubEntry(ttfsm: array2<int>, subfsm: array2<int>, s: int, c: Byte)
    requires TablesOk(ttfsm, subfsm) && 0 <= s < NSSTATES
    ensures subfsm.Length0 == NSSTATES && subfsm.Length1 == NCHRS && 0 <= subfsm[s, c] < NSUBS
    ensures var pt := SubSTab()[subfsm[s, c]];
      (pt.next, pt.action) == SubRule(s, c) && pt.next < NSSTATES
  {
    hide Governs;
    SubGoverned(s, c, subfsm[s, c]);
  }
}
