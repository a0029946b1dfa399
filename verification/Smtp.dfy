/**
 An SMTP session: the state functions of services/smtp/conn.go, each of which reads a line,
 changes the connection and names the state function to go on with.

 Reading a mail header, the TLS handshake and the reply lines are outside: an input says
 whether they succeed.  A slice or index out of range is a panic, which ends the session.
 */
module Smtp {
  import opened Text
  import opened Words

  const LOOP_THRESHOLD: nat := 100

  datatype Message = Message(from: string, to: seq<string>, domain: string, buffer: seq<byte>)

  datatype Tls = Unavailable | HandshakeFails | Secured

  /**
   What the client sends next: a line (none: reading failed), the bytes behind it, and
   whether a message made of them can be parsed.
   */
  datatype Input = Input(line: string, lineOk: bool, stream: seq<byte>, streamOk: bool, parses: bool, tls: Tls)

  datatype Phase = HelloState | LoopState | MailFromState | Over

  /** What a session does, in order. */
  datatype Mark =
    | Greeted(domain: string)
    | Mailed(from: string)
    | Recipient(to: string)
    | Chunk(bytes: seq<byte>)
    | Renewed                                    // a new message object
    | Delivered(message: Message, raw: seq<byte>, chunked: bool)

  datatype Conn = Conn(i: nat, msg: Message, domain: string)

  type Outcome = (Phase, Conn, seq<Mark>)

  // ---------------------------------------------------------------- lines

  function Upper(c: char): char {
    if 'a' <= c <= 'z' then c - 32 as char else c
  }

  predicate HasPrefixUpper(line: string, cmd: string) {
    |cmd| <= |line| && forall k :: 0 <= k < |cmd| ==> Upper(line[k]) == cmd[k]
  }

  predicate Digits(s: string) {
    forall k :: 0 <= k < |s| ==> '0' <= s[k] <= '9'
  }

  function Decimal(s: string): nat
    requires Digits(s)
  {
    if s == "" then 0 else Decimal(s[..|s| - 1]) * 10 + (s[|s| - 1] as int - '0' as int)
  }

  datatype Option<+T> = None | Some(value: T)

  /** strconv.ParseInt(s, 10, 32) */
  function ParseInt32(s: string): Option<int> {
    var signed := s != "" && (s[0] == '-' || s[0] == '+');
    var digits := if signed then s[1..] else s;
    if digits == "" || !Digits(digits) then None
    else
      var n: int := if signed && s[0] == '-' then -(Decimal(digits) as int) else Decimal(digits);
      if -0x8000_0000 <= n < 0x8000_0000 then Some(n) else None
  }

  /** parseHelloArgument: what is behind the first blank, or the whole line. */
  function HelloArgument(line: string): string {
    if line == "" then ""
    else if line[0] == ' ' then line[1..]
    else if ' ' in line then HelloArgument(line[1..])
    else line
  }

  // ---------------------------------------------------------------- state functions

  function NewMessage(c: Conn): Message {
    Message("", [], c.domain, [])
  }

  function OnHello(c: Conn, x: Input): Outcome {
    var line := if x.lineOk then x.line else "";
    if (HasPrefixUpper(line, "HELO") || HasPrefixUpper(line, "EHLO")) && HelloArgument(line) != "" then
      var domain := HelloArgument(line);
      (LoopState, c.(domain := domain, msg := c.msg.(domain := domain)), [Greeted(domain)])
    else (Over, c, [])
  }

  function OnLoop(c: Conn, x: Input): Outcome {
    if !x.lineOk then (Over, c, [])
    else if x.line == "" then (LoopState, c, [])
    else
      var c1 := c.(i := c.i + 1);
      if c1.i > LOOP_THRESHOLD then (Over, c1, [])
      else if HasPrefixUpper(x.line, "MAIL FROM") then
        if |x.line| < 10 then (Over, c1, [])
        else (MailFromState, c1.(msg := c1.msg.(from := x.line[10..])), [Mailed(x.line[10..])])
      else if HasPrefixUpper(x.line, "STARTTLS") then
        (if x.tls == Secured then HelloState else Over, c1, [])
      else if HasPrefixUpper(x.line, "RSET") then
        (LoopState, c1.(msg := NewMessage(c1)), [Renewed])
      else if HasPrefixUpper(x.line, "QUIT") then (Over, c1, [])
      else (LoopState, c1, [])
  }

  /** Parsing what was collected and handing the message on; a new one takes its place. */
  function Deliver(c: Conn, raw: seq<byte>, chunked: bool, parses: bool): Outcome {
    if !parses then (Over, c, [])
    else (LoopState, c.(msg := NewMessage(c)), [Delivered(c.msg, raw, chunked), Renewed])
  }

  function OnChunk(c: Conn, x: Input): Outcome {
    var parts := Split(x.line, ' ');
    if |parts| < 2 then (Over, c, [])
    else
      match ParseInt32(parts[1])
      case None => (Over, c, [])
      case Some(n) =>
        var count := if n < 0 then 0 else n;
        if count > |x.stream| then (Over, c, [])
        else
          var chunk := x.stream[..count];
          var c1 := c.(msg := c.msg.(buffer := c.msg.buffer + chunk));
          if !(|parts| == 3 && parts[2] == "LAST") then (MailFromState, c1, [Chunk(chunk)])
          else
            var (p, c2, marks) := Deliver(c1, c1.msg.buffer, true, x.parses);
            (p, c2, [Chunk(chunk)] + marks)
  }

  function OnMailFrom(c: Conn, x: Input): Outcome {
    if !x.lineOk then (Over, c, [])
    else if x.line == "" then (LoopState, c, [])
    else if HasPrefixUpper(x.line, "RSET") then (LoopState, c.(msg := NewMessage(c)), [Renewed])
    else if HasPrefixUpper(x.line, "RCPT TO") then
      if |x.line| < 8 then (Over, c, [])
      else (MailFromState, c.(msg := c.msg.(to := c.msg.to + [x.line[8..]])), [Recipient(x.line[8..])])
    else if HasPrefixUpper(x.line, "BDAT") then OnChunk(c, x)
    else if HasPrefixUpper(x.line, "DATA") then
      if !x.streamOk then (Over, c, []) else Deliver(c, x.stream, false, x.parses)
    else (LoopState, c, [])
  }

  function Step(p: Phase, c: Conn, x: Input): Outcome {
    match p
    case HelloState => OnHello(c, x)
    case LoopState => OnLoop(c, x)
    case MailFromState => OnMailFrom(c, x)
    case Over => (Over, c, [])
  }

  // ---------------------------------------------------------------- reading the marks of a session

  function Last(marks: seq<Mark>): Mark
    requires marks != []
  {
    marks[|marks| - 1]
  }

  function Front(marks: seq<Mark>): seq<Mark>
    requires marks != []
  {
    marks[..|marks| - 1]
  }

  /** The latest accepted greeting. */
  function Greeting(marks: seq<Mark>): Option<string> {
    if marks == [] then None
    else if Last(marks).Greeted? then Some(Last(marks).domain)
    else Greeting(Front(marks))
  }

  /** The latest MAIL FROM, unless a greeting, a new message object or a delivery came after it. */
  function Sender(marks: seq<Mark>): Option<string> {
    if marks == [] || Last(marks).Greeted? || Last(marks).Renewed? || Last(marks).Delivered? then None
    else if Last(marks).Mailed? then Some(Last(marks).from)
    else Sender(Front(marks))
  }

  /** The recipients, and the chunks, since the message object was made. */
  function Recipients(marks: seq<Mark>): seq<string> {
    if marks == [] || Last(marks).Renewed? then []
    else Recipients(Front(marks)) + if Last(marks).Recipient? then [Last(marks).to] else []
  }

  function Chunks(marks: seq<Mark>): seq<byte> {
    if marks == [] || Last(marks).Renewed? then []
    else Chunks(Front(marks)) + if Last(marks).Chunk? then Last(marks).bytes else []
  }

  function Deliveries(marks: seq<Mark>): nat {
    if marks == [] then 0 else Deliveries(Front(marks)) + if Last(marks).Delivered? then 1 else 0
  }

  /** What is promised of the k-th mark, if it is a delivery. */
  predicate Proper(marks: seq<Mark>, k: nat)
    requires k < |marks|
  {
    marks[k].Delivered? ==>
      var before, m := marks[..k], marks[k].message;
      && Greeting(before) == Some(m.domain)
      && Sender(before) == Some(m.from)
      && m.to == Recipients(before)
      && (marks[k].chunked ==> marks[k].raw == Chunks(before))
  }

  // ---------------------------------------------------------------- every session

  datatype Session = Session(phase: Phase, conn: Conn, marks: seq<Mark>)

  function Begin(): Session {
    Session(HelloState, Conn(0, Message("", [], "", []), ""), [])
  }

  /** serve, on the inputs of a client. */
  function Serve(inputs: seq<Input>): Session {
    if inputs == [] then Begin() else
    var s := Serve(inputs[..|inputs| - 1]);
    var (p, c, marks) := Step(s.phase, s.conn, inputs[|inputs| - 1]);
    Session(p, c, s.marks + marks)
  }

  predicate Inv(p: Phase, c: Conn, marks: seq<Mark>) {
    && (Greeting(marks) == None ==> c.domain == "")
    && (Greeting(marks).Some? ==> c.domain == Greeting(marks).value)
    && c.msg.domain == c.domain
    && (p == LoopState || p == MailFromState ==> Greeting(marks).Some?)
    && (p == MailFromState ==> Sender(marks) == Some(c.msg.from))
    && c.msg.to == Recipients(marks) && c.msg.buffer == Chunks(marks)
    && Deliveries(marks) <= LOOP_THRESHOLD
    && (p != Over ==> Deliveries(marks) + (if p == MailFromState then 1 else 0) <= c.i <= LOOP_THRESHOLD)
    && forall k :: 0 <= k < |marks| ==> Proper(marks, k)
  }

  lemma Push(marks: seq<Mark>, m: Mark)
    ensures Greeting(marks + [m]) == if m.Greeted? then Some(m.domain) else Greeting(marks)
    ensures Sender(marks + [m]) ==
            if m.Greeted? || m.Renewed? || m.Delivered? then None else if m.Mailed? then Some(m.from) else Sender(marks)
    ensures Recipients(marks + [m]) ==
            if m.Renewed? then [] else if m.Recipient? then Recipients(marks) + [m.to] else Recipients(marks)
    ensures Chunks(marks + [m]) ==
            if m.Renewed? then [] else if m.Chunk? then Chunks(marks) + m.bytes else Chunks(marks)
    ensures Deliveries(marks + [m]) == Deliveries(marks) + if m.Delivered? then 1 else 0
  {
    assert Front(marks + [m]) == marks;
  }

  lemma PushProper(marks: seq<Mark>, m: Mark)
    requires forall k :: 0 <= k < |marks| ==> Proper(marks, k)
    requires m.Delivered? ==>
      && Greeting(marks) == Some(m.message.domain) && Sender(marks) == Some(m.message.from)
      && m.message.to == Recipients(marks) && (m.chunked ==> m.raw == Chunks(marks))
    ensures forall k :: 0 <= k < |marks + [m]| ==> Proper(marks + [m], k)
  {
    hide Greeting, Sender, Recipients, Chunks;
    forall k | 0 <= k < |marks + [m]|
      ensures Proper(marks + [m], k)
    {
      if k < |marks| {
        assert Proper(marks, k);
        assert (marks + [m])[..k] == marks[..k];
      } else {
        assert (marks + [m])[..k] == marks;
      }
    }
  }

  /** Deliver keeps the invariant when the message is complete. */
  lemma DeliverKeeps(c: Conn, marks: seq<Mark>, raw: seq<byte>, chunked: bool, parses: bool)
    requires Inv(MailFromState, c, marks) && (chunked ==> raw == c.msg.buffer)
    ensures var (p, c', new_) := Deliver(c, raw, chunked, parses);
            Inv(p, c', marks + new_)
  {
    hide Greeting, Sender, Recipients, Chunks, Deliveries, Proper;
    if parses {
      var d := Delivered(c.msg, raw, chunked);
      Push(marks, d);
      PushProper(marks, d);
      Push(marks + [d], Renewed);
      PushProper(marks + [d], Renewed);
      assert marks + [d, Renewed] == marks + [d] + [Renewed];
    } else {
      assert marks + [] == marks;
    }
  }

  lemma ChunkKeeps(c: Conn, marks: seq<Mark>, x: Input)
    requires Inv(MailFromState, c, marks)
    ensures var (p, c', new_) := OnChunk(c, x);
            Inv(p, c', marks + new_)
  {
    hide Inv, Deliver, Split, ParseInt32;
    var (p, c', new_) := OnChunk(c, x);
    if new_ == [] {
      assert marks + new_ == marks;
      OverKeeps(c, marks);
    } else {
      var chunk := new_[0].bytes;
      var m := Chunk(chunk);
      var c1 := c.(msg := c.msg.(buffer := c.msg.buffer + chunk));
      ChunkAdded(c, marks, chunk);
      DeliverKeeps(c1, marks + [m], c1.msg.buffer, true, x.parses);
      assert marks + new_ == marks + [m] + new_[1..];
    }
  }

  lemma OverKeeps(c: Conn, marks: seq<Mark>)
    requires Inv(MailFromState, c, marks)
    ensures Inv(Over, c, marks)
  {
  }

  lemma ChunkAdded(c: Conn, marks: seq<Mark>, chunk: seq<byte>)
    requires Inv(MailFromState, c, marks)
    ensures Inv(MailFromState, c.(msg := c.msg.(buffer := c.msg.buffer + chunk)), marks + [Chunk(chunk)])
  {
    hide Greeting, Sender, Recipients, Chunks, Deliveries, Proper;
    Push(marks, Chunk(chunk));
    PushProper(marks, Chunk(chunk));
  }

  lemma HelloKeeps(c: Conn, marks: seq<Mark>, x: Input)
    requires Inv(HelloState, c, marks)
    ensures var (p, c', new_) := OnHello(c, x);
            Inv(p, c', marks + new_)
  {
    hide Greeting, Sender, Recipients, Chunks, Deliveries, Proper, HasPrefixUpper, HelloArgument;
    var new_ := OnHello(c, x).2;
    if new_ == [] {
      assert marks + new_ == marks;
    } else {
      Push(marks, new_[0]);
      PushProper(marks, new_[0]);
      assert new_ == [new_[0]];
    }
  }

  lemma LoopKeeps(c: Conn, marks: seq<Mark>, x: Input)
    requires Inv(LoopState, c, marks)
    ensures var (p, c', new_) := OnLoop(c, x);
            Inv(p, c', marks + new_)
  {
    hide Greeting, Sender, Recipients, Chunks, Deliveries, Proper, HasPrefixUpper;
    var new_ := OnLoop(c, x).2;
    if new_ == [] {
      assert marks + new_ == marks;
    } else {
      Push(marks, new_[0]);
      PushProper(marks, new_[0]);
      assert new_ == [new_[0]];
    }
  }

  lemma MailFromKeeps(c: Conn, marks: seq<Mark>, x: Input)
    requires Inv(MailFromState, c, marks)
    ensures var (p, c', new_) := OnMailFrom(c, x);
            Inv(p, c', marks + new_)
  {
    hide Greeting, Sender, Recipients, Chunks, Deliveries, Proper, HasPrefixUpper, OnChunk, Deliver;
    assert marks + [] == marks;
    ChunkKeeps(c, marks, x);
    DeliverKeeps(c, marks, x.stream, false, x.parses);
    Push(marks, Renewed);
    PushProper(marks, Renewed);
    if |x.line| >= 8 {
      Push(marks, Recipient(x.line[8..]));
      PushProper(marks, Recipient(x.line[8..]));
    }
  }

  lemma {:induction false} ServeKeeps(inputs: seq<Input>)
    ensures var s := Serve(inputs);
            Inv(s.phase, s.conn, s.marks)
  {
    hide OnHello, OnLoop, OnMailFrom;
    if inputs != [] {
      var x := inputs[|inputs| - 1];
      ServeKeeps(inputs[..|inputs| - 1]);
      var s := Serve(inputs[..|inputs| - 1]);
      assert s.marks + [] == s.marks;
      match s.phase
      case HelloState => HelloKeeps(s.conn, s.marks, x);
      case LoopState => LoopKeeps(s.conn, s.marks, x);
      case MailFromState => MailFromKeeps(s.conn, s.marks, x);
      case Over =>
    }
  }

  /**
   In every session: each delivered message carries the domain of the latest accepted
   greeting and the sender of its own MAIL FROM, which was accepted after that greeting,
   after the last RSET and after the delivery before it, as section 4.1.4 of RFC 5321 asks;
   its recipients are the RCPT TO entries since its message object was made, and the body of a
   BDAT LAST is made of all chunks since then; and there are at most 100 deliveries.
   */
  lemma Deliverable(inputs: seq<Input>)
    ensures var marks := Serve(inputs).marks;
            && (forall k :: 0 <= k < |marks| ==> Proper(marks, k))
            && Deliveries(marks) <= 100
  {
    ServeKeeps(inputs);
  }

  // ---------------------------------------------------------------- from the lines of a client to its deliveries

  /** A line with nothing behind it. */
  function Line(line: string): Input {
    Input(line, true, [], true, true, Unavailable)
  }

  function RcptLines(bs: seq<string>): seq<Input> {
    if bs == [] then [] else RcptLines(bs[..|bs| - 1]) + [Line("RCPT TO:" + bs[|bs| - 1])]
  }

  function RcptMarks(bs: seq<string>): seq<Mark> {
    if bs == [] then [] else RcptMarks(bs[..|bs| - 1]) + [Recipient(bs[|bs| - 1])]
  }

  /** `DATA`, and the text that follows. */
  function DataInput(body: seq<byte>): Input {
    Input("DATA", true, body, true, true, Unavailable)
  }

  /** A number as it is written on a BDAT line. */
  function Show(n: nat): (s: string)
    ensures |s| > 0 && Digits(s)
  {
    if n < 10 then [('0' as int + n) as char] else Show(n / 10) + [('0' as int + n % 10) as char]
  }

  lemma {:induction false} DecimalOfShown(n: nat)
    ensures Decimal(Show(n)) == n
  {
    var s := Show(n);
    if n < 10 {
      assert s[..|s| - 1] == "";
    } else {
      DecimalOfShown(n / 10);
      assert s[..|s| - 1] == Show(n / 10);
    }
  }

  lemma NumberParses(n: nat)
    requires n < 0x8000_0000
    ensures ParseInt32(Show(n)) == Some(n) && ' ' !in Show(n)
  {
    DecimalOfShown(n);
    var s := Show(n);
    assert '0' <= s[0] <= '9';
  }

  /** A chunk: how many bytes it announces, and the bytes that are there to read. */
  datatype Piece = Piece(count: nat, stream: seq<byte>)

  predicate Whole(p: Piece) {
    p.count < 0x8000_0000 && p.count <= |p.stream|
  }

  function Announced(p: Piece): seq<byte>
    requires Whole(p)
  {
    p.stream[..p.count]
  }

  function BdatInput(p: Piece, last: bool): Input {
    Input("BDAT " + Show(p.count) + (if last then " LAST" else ""), true, p.stream, true, true, Unavailable)
  }

  function BdatLines(ps: seq<Piece>): seq<Input> {
    if ps == [] then [] else BdatLines(ps[..|ps| - 1]) + [BdatInput(ps[|ps| - 1], false)]
  }

  function BdatMarks(ps: seq<Piece>): seq<Mark>
    requires forall p :: p in ps ==> Whole(p)
  {
    if ps == [] then [] else
    assert ps[|ps| - 1] in ps;
    BdatMarks(ps[..|ps| - 1]) + [Chunk(Announced(ps[|ps| - 1]))]
  }

  /** The bytes announced, one chunk behind the other. */
  function Body(ps: seq<Piece>): seq<byte>
    requires forall p :: p in ps ==> Whole(p)
  {
    if ps == [] then [] else
    assert ps[|ps| - 1] in ps;
    Body(ps[..|ps| - 1]) + Announced(ps[|ps| - 1])
  }

  lemma {:induction false} HelloArgumentOf(word: string, d: string)
    requires ' ' !in word
    ensures HelloArgument(word + " " + d) == d
  {
    var line := word + " " + d;
    if word == "" {
      assert line[1..] == d;
    } else {
      assert line[1..] == word[1..] + " " + d;
      assert line[|word|] == ' ';
      HelloArgumentOf(word[1..], d);
    }
  }

  lemma HelloTaken(c: Conn, d: string, extended: bool)
    requires d != ""
    ensures OnHello(c, Line((if extended then "EHLO" else "HELO") + " " + d)) ==
            (LoopState, c.(domain := d, msg := c.msg.(domain := d)), [Greeted(d)])
  {
    hide HasPrefixUpper, HelloArgument;
    var cmd := if extended then "EHLO" else "HELO";
    HelloArgumentOf(cmd, d);
    StartsWith(cmd, " " + d);
    assert cmd + (" " + d) == cmd + " " + d;
  }

  /** A line that starts with a command in capitals is that command. */
  lemma StartsWith(cmd: string, rest: string)
    requires forall k :: 0 <= k < |cmd| ==> !('a' <= cmd[k] <= 'z')
    ensures HasPrefixUpper(cmd + rest, cmd)
  {
  }

  lemma MailTaken(c: Conn, a: string)
    requires c.i < 100
    ensures OnLoop(c, Line("MAIL FROM:" + a)) ==
            (MailFromState, c.(i := c.i + 1, msg := c.msg.(from := a)), [Mailed(a)])
  {
    hide HasPrefixUpper;
    StartsWith("MAIL FROM", ":" + a);
    assert "MAIL FROM" + (":" + a) == "MAIL FROM:" + a;
    assert ("MAIL FROM:" + a)[10..] == a;
  }

  lemma RcptTaken(c: Conn, b: string)
    ensures OnMailFrom(c, Line("RCPT TO:" + b)) ==
            (MailFromState, c.(msg := c.msg.(to := c.msg.to + [b])), [Recipient(b)])
  {
    hide HasPrefixUpper;
    var line := "RCPT TO:" + b;
    StartsWith("RCPT TO", ":" + b);
    assert "RCPT TO" + (":" + b) == line;
    OneCommand(Line(line));
    assert line[8..] == b;
  }

  lemma DataTaken(c: Conn, body: seq<byte>)
    ensures OnMailFrom(c, DataInput(body)) ==
            (LoopState, c.(msg := Message("", [], c.domain, [])), [Delivered(c.msg, body, false), Renewed])
  {
    hide HasPrefixUpper;
    StartsWith("DATA", "");
    assert "DATA" + "" == "DATA";
    OneCommand(DataInput(body));
  }

  lemma BdatParts(p: Piece, last: bool)
    requires p.count < 0x8000_0000
    ensures var line := BdatInput(p, last).line;
            && HasPrefixUpper(line, "BDAT") && line[0] == 'B'
            && Split(line, ' ') == ["BDAT", Show(p.count)] + if last then ["LAST"] else []
  {
    hide Split, HasPrefixUpper;
    var n := Show(p.count);
    var more := " " + n + if last then " LAST" else "";
    StartsWith("BDAT", more);
    assert "BDAT" + more == BdatInput(p, last).line;
    NumberParses(p.count);
    SplitNothing("BDAT", ' ');
    SplitNothing(n, ' ');
    SplitNothing("LAST", ' ');
    SplitConcat("BDAT", n, ' ');
    assert "BDAT" + [' '] + n == "BDAT " + n;
    if last {
      SplitConcat("BDAT " + n, "LAST", ' ');
      assert "BDAT " + n + [' '] + "LAST" == "BDAT " + n + " LAST";
    } else {
      assert "BDAT " + n + "" == "BDAT " + n;
    }
  }

  lemma BdatTaken(c: Conn, p: Piece, last: bool)
    requires Whole(p)
    ensures var chunk := Announced(p);
            var c1 := c.(msg := c.msg.(buffer := c.msg.buffer + chunk));
            OnMailFrom(c, BdatInput(p, last)) ==
            if !last then (MailFromState, c1, [Chunk(chunk)])
            else (LoopState, c.(msg := Message("", [], c.domain, [])),
                  [Chunk(chunk), Delivered(c1.msg, c1.msg.buffer, true), Renewed])
  {
    hide Split, ParseInt32, HasPrefixUpper;
    BdatParts(p, last);
    NumberParses(p.count);
    OneCommand(BdatInput(p, last));
    var parts := Split(BdatInput(p, last).line, ' ');
    assert parts[1] == Show(p.count) && (last ==> parts[2] == "LAST");
    assert |parts| == if last then 3 else 2;
    assert OnMailFrom(c, BdatInput(p, last)) == OnChunk(c, BdatInput(p, last));
    var chunk := Announced(p);
    var d := Delivered(c.msg.(buffer := c.msg.buffer + chunk), c.msg.buffer + chunk, true);
    assert [Chunk(chunk)] + [d, Renewed] == [Chunk(chunk), d, Renewed];
  }

  /** One more input. */
  lemma ServeMore(inputs: seq<Input>, x: Input)
    ensures var s, s' := Serve(inputs), Serve(inputs + [x]);
            var (p, c, marks) := Step(s.phase, s.conn, x);
            s' == Session(p, c, s.marks + marks)
  {
    assert (inputs + [x])[..|inputs|] == inputs;
  }

  lemma {:induction false} RcptSession(before: seq<Input>, bs: seq<string>)
    requires Serve(before).phase == MailFromState
    ensures var s := Serve(before);
            Serve(before + RcptLines(bs)) ==
            Session(MailFromState, s.conn.(msg := s.conn.msg.(to := s.conn.msg.to + bs)), s.marks + RcptMarks(bs))
  {
    hide OnMailFrom, Serve;
    var s := Serve(before);
    if bs == [] {
      assert before + RcptLines(bs) == before;
      assert s.conn.msg.to + bs == s.conn.msg.to && s.marks + [] == s.marks;
    } else {
      var front, b := bs[..|bs| - 1], bs[|bs| - 1];
      RcptSession(before, front);
      assert before + RcptLines(bs) == before + RcptLines(front) + [Line("RCPT TO:" + b)];
      ServeMore(before + RcptLines(front), Line("RCPT TO:" + b));
      var c := Serve(before + RcptLines(front)).conn;
      RcptTaken(c, b);
      assert s.conn.msg.to + front + [b] == s.conn.msg.to + bs;
      assert s.marks + RcptMarks(front) + [Recipient(b)] == s.marks + RcptMarks(bs);
    }
  }

  lemma {:induction false} BdatSession(before: seq<Input>, ps: seq<Piece>)
    requires Serve(before).phase == MailFromState && forall p :: p in ps ==> Whole(p)
    ensures var s := Serve(before);
            Serve(before + BdatLines(ps)) ==
            Session(MailFromState, s.conn.(msg := s.conn.msg.(buffer := s.conn.msg.buffer + Body(ps))),
                    s.marks + BdatMarks(ps))
  {
    hide OnMailFrom, Serve;
    var s := Serve(before);
    if ps == [] {
      assert before + BdatLines(ps) == before;
      assert s.conn.msg.buffer + [] == s.conn.msg.buffer && s.marks + [] == s.marks;
    } else {
      var front, p := ps[..|ps| - 1], ps[|ps| - 1];
      assert p in ps && forall q :: q in front ==> q in ps;
      BdatSession(before, front);
      assert before + BdatLines(ps) == before + BdatLines(front) + [BdatInput(p, false)];
      ServeMore(before + BdatLines(front), BdatInput(p, false));
      var c, chunk := Serve(before + BdatLines(front)).conn, Announced(p);
      BdatTaken(c, p, false);
      assert s.conn.msg.buffer + Body(front) + chunk == s.conn.msg.buffer + (Body(front) + chunk);
      assert s.marks + BdatMarks(front) + [Chunk(chunk)] == s.marks + (BdatMarks(front) + [Chunk(chunk)]);
    }
  }

  /** The lines of a mail up to its text. */
  function Envelope(a: string, bs: seq<string>): seq<Input> {
    [Line("MAIL FROM:" + a)] + RcptLines(bs)
  }

  lemma EnvelopeSession(before: seq<Input>, a: string, bs: seq<string>)
    requires Serve(before).phase == LoopState && Serve(before).conn.i < 100
    ensures var s := Serve(before);
            Serve(before + Envelope(a, bs)) ==
            Session(MailFromState,
                    s.conn.(i := s.conn.i + 1, msg := s.conn.msg.(from := a, to := s.conn.msg.to + bs)),
                    s.marks + ([Mailed(a)] + RcptMarks(bs)))
  {
    hide OnLoop, Serve;
    var s, mail := Serve(before), Line("MAIL FROM:" + a);
    ServeMore(before, mail);
    MailTaken(s.conn, a);
    RcptSession(before + [mail], bs);
    assert before + Envelope(a, bs) == before + [mail] + RcptLines(bs);
    assert s.marks + [Mailed(a)] + RcptMarks(bs) == s.marks + ([Mailed(a)] + RcptMarks(bs));
  }

  /**
   A mail with DATA, at any point of any session where a command is awaited: it is delivered
   once, from the sender and with the domain and the text that the client sent, to the
   recipients it named, behind those of a mail that was broken off without RSET.
   */
  lemma DataMail(before: seq<Input>, a: string, bs: seq<string>, body: seq<byte>)
    requires Serve(before).phase == LoopState && Serve(before).conn.i < 100
    ensures var s := Serve(before);
            var m := Message(a, s.conn.msg.to + bs, s.conn.msg.domain, s.conn.msg.buffer);
            Serve(before + Envelope(a, bs) + [DataInput(body)]) ==
            Session(LoopState, Conn(s.conn.i + 1, Message("", [], s.conn.domain, []), s.conn.domain),
                    s.marks + ([Mailed(a)] + RcptMarks(bs)) + [Delivered(m, body, false), Renewed])
  {
    hide OnMailFrom, Serve, Envelope;
    EnvelopeSession(before, a, bs);
    var all := before + Envelope(a, bs);
    ServeMore(all, DataInput(body));
    DataTaken(Serve(all).conn, body);
  }

  /** The same with BDAT chunks, the last of them marked LAST: the text is made of the bytes they announce. */
  lemma BdatMail(before: seq<Input>, a: string, bs: seq<string>, ps: seq<Piece>, last: Piece)
    requires Serve(before).phase == LoopState && Serve(before).conn.i < 100
    requires Whole(last) && forall p :: p in ps ==> Whole(p)
    ensures var s := Serve(before);
            var chunk := Announced(last);
            var body := s.conn.msg.buffer + Body(ps) + chunk;
            var m := Message(a, s.conn.msg.to + bs, s.conn.msg.domain, body);
            Serve(before + Envelope(a, bs) + BdatLines(ps) + [BdatInput(last, true)]) ==
            Session(LoopState, Conn(s.conn.i + 1, Message("", [], s.conn.domain, []), s.conn.domain),
                    s.marks + ([Mailed(a)] + RcptMarks(bs)) + BdatMarks(ps) +
                    [Chunk(chunk), Delivered(m, body, true), Renewed])
  {
    hide OnMailFrom, Serve, Envelope;
    EnvelopeSession(before, a, bs);
    BdatSession(before + Envelope(a, bs), ps);
    var all := before + Envelope(a, bs) + BdatLines(ps);
    ServeMore(all, BdatInput(last, true));
    BdatTaken(Serve(all).conn, last, true);
  }

  /** From the first line on: what a client that greets and sends one mail has delivered. */
  lemma FirstDataMail(d: string, extended: bool, a: string, bs: seq<string>, body: seq<byte>)
    requires d != ""
    ensures var hello := Line((if extended then "EHLO" else "HELO") + " " + d);
            Serve([hello] + Envelope(a, bs) + [DataInput(body)]).marks ==
            [Greeted(d)] + ([Mailed(a)] + RcptMarks(bs)) + [Delivered(Message(a, bs, d, []), body, false), Renewed]
  {
    GreetingServed(d, extended);
    hide Serve, Envelope;
    var hello := Line((if extended then "EHLO" else "HELO") + " " + d);
    DataMail([hello], a, bs, body);
    assert [] + bs == bs;
  }

  lemma FirstBdatMail(d: string, extended: bool, a: string, bs: seq<string>, ps: seq<Piece>, last: Piece)
    requires d != "" && Whole(last) && forall p :: p in ps ==> Whole(p)
    ensures var hello := Line((if extended then "EHLO" else "HELO") + " " + d);
            var chunk := Announced(last);
            var body := Body(ps) + chunk;
            Serve([hello] + Envelope(a, bs) + BdatLines(ps) + [BdatInput(last, true)]).marks ==
            [Greeted(d)] + ([Mailed(a)] + RcptMarks(bs)) + BdatMarks(ps) +
            [Chunk(chunk), Delivered(Message(a, bs, d, body), body, true), Renewed]
  {
    GreetingServed(d, extended);
    hide Serve, Envelope;
    var hello := Line((if extended then "EHLO" else "HELO") + " " + d);
    BdatMail([hello], a, bs, ps, last);
    assert [] + bs == bs && [] + Body(ps) == Body(ps);
  }

  lemma GreetingServed(d: string, extended: bool)
    requires d != ""
    ensures var hello := Line((if extended then "EHLO" else "HELO") + " " + d);
            Serve([hello]) == Session(LoopState, Conn(0, Message("", [], d, []), d), [Greeted(d)])
  {
    var hello := Line((if extended then "EHLO" else "HELO") + " " + d);
    ServeMore([], hello);
    HelloTaken(Begin().conn, d, extended);
    assert [] + [hello] == [hello] && [] + [Greeted(d)] == [Greeted(d)];
  }

  // ---------------------------------------------------------------- which input leaves which mark

  /** The bytes that a BDAT line asks for, if it can be read and they are there. */
  function ChunkOf(x: Input): Option<seq<byte>> {
    var parts := Split(x.line, ' ');
    if |parts| < 2 then None
    else match ParseInt32(parts[1])
         case None => None
         case Some(n) => if n < 0 then Some([]) else if n <= |x.stream| then Some(x.stream[..n]) else None
  }

  /** A line that the message state takes for a command that comes after the others. */
  predicate IsMailCommand(x: Input, cmd: string) {
    x.lineOk && HasPrefixUpper(x.line, cmd)
  }

  /** Exactly which input leaves a mark of the envelope, and what it says. */
  lemma EnvelopeMarks(p: Phase, c: Conn, x: Input, t: string)
    ensures var marks := Step(p, c, x).2;
            && (Greeted(t) in marks <==>
                  && p == HelloState && (IsMailCommand(x, "HELO") || IsMailCommand(x, "EHLO"))
                  && t == HelloArgument(x.line) != "")
            && (Mailed(t) in marks <==>
                  p == LoopState && c.i < 100 && IsMailCommand(x, "MAIL FROM") && |x.line| >= 10 && t == x.line[10..])
            && (Recipient(t) in marks <==>
                  p == MailFromState && IsMailCommand(x, "RCPT TO") && |x.line| >= 8 && t == x.line[8..])
  {
    hide HelloArgument, Split, ParseInt32;
    if p == MailFromState && IsMailCommand(x, "RCPT TO") {
      assert Upper(x.line[1]) == "RCPT TO"[1];
    }
  }

  /** Exactly which input leaves a chunk, a delivery or a new message object. */
  lemma TextMarks(p: Phase, c: Conn, x: Input)
    ensures var marks := Step(p, c, x).2;
            var bdat := p == MailFromState && IsMailCommand(x, "BDAT") && ChunkOf(x).Some?;
            var parts := Split(x.line, ' ');
            var last := bdat && |parts| == 3 && parts[2] == "LAST" && x.parses;
            var data := p == MailFromState && IsMailCommand(x, "DATA") && x.streamOk && x.parses;
            && (forall b :: Chunk(b) in marks <==> bdat && b == ChunkOf(x).value)
            && (forall m, raw, chunked :: Delivered(m, raw, chunked) in marks <==>
                  || (data && !chunked && m == c.msg && raw == x.stream)
                  || (last && chunked && m == c.msg.(buffer := raw) && raw == c.msg.buffer + ChunkOf(x).value))
            && (Renewed in marks <==>
                  || data || last
                  || (p == LoopState && c.i < 100 && IsMailCommand(x, "RSET"))
                  || (p == MailFromState && IsMailCommand(x, "RSET")))
  {
    hide HelloArgument, Split, ParseInt32;
    OneCommand(x);
  }

  /** Exactly which input leads to which state function; any other ends the session. */
  lemma NextState(p: Phase, c: Conn, x: Input)
    ensures var next := Step(p, c, x).0;
            var chunk := IsMailCommand(x, "BDAT") && ChunkOf(x).Some?;
            var parts := Split(x.line, ' ');
            var last := |parts| == 3 && parts[2] == "LAST";
            && (next == HelloState <==> p == LoopState && c.i < 100 && IsMailCommand(x, "STARTTLS") && x.tls == Secured)
            && (next == MailFromState <==>
                  || (p == LoopState && c.i < 100 && IsMailCommand(x, "MAIL FROM") && |x.line| >= 10)
                  || (p == MailFromState && IsMailCommand(x, "RCPT TO") && |x.line| >= 8)
                  || (p == MailFromState && chunk && !last))
            && (next == LoopState <==>
                  || (p == HelloState && (IsMailCommand(x, "HELO") || IsMailCommand(x, "EHLO"))
                      && HelloArgument(x.line) != "")
                  || (p == LoopState && x.lineOk && x.line == "")
                  || (p == LoopState && x.lineOk && c.i < 100 && !IsMailCommand(x, "MAIL FROM")
                      && !IsMailCommand(x, "STARTTLS") && !IsMailCommand(x, "QUIT"))
                  || (p == MailFromState && x.lineOk && !IsMailCommand(x, "RCPT TO")
                      && !IsMailCommand(x, "BDAT") && !IsMailCommand(x, "DATA"))
                  || (p == MailFromState && chunk && last && x.parses)
                  || (p == MailFromState && IsMailCommand(x, "DATA") && x.streamOk && x.parses))
  {
    hide HelloArgument, Split, ParseInt32, HasPrefixUpper;
    OneCommand(x);
    NoCommandOnEmptyLine("HELO");
    NoCommandOnEmptyLine("EHLO");
    NoCommandOnEmptyLine("RCPT TO");
    NoCommandOnEmptyLine("BDAT");
    NoCommandOnEmptyLine("DATA");
    NoCommandOnEmptyLine("MAIL FROM");
    NoCommandOnEmptyLine("STARTTLS");
  }

  lemma NoCommandOnEmptyLine(cmd: string)
    requires cmd != ""
    ensures !HasPrefixUpper("", cmd)
  {
  }

  lemma FirstLetters(line: string, cmd: string)
    requires |cmd| >= 2
    ensures HasPrefixUpper(line, cmd) ==> |line| >= 2 && Upper(line[0]) == cmd[0] && Upper(line[1]) == cmd[1]
  {
  }

  /** No line is two of these commands at once. */
  lemma OneCommand(x: Input)
    ensures HasPrefixUpper(x.line, "BDAT") ==>
      !HasPrefixUpper(x.line, "RSET") && !HasPrefixUpper(x.line, "RCPT TO") && !HasPrefixUpper(x.line, "DATA")
    ensures HasPrefixUpper(x.line, "DATA") ==>
      !HasPrefixUpper(x.line, "RSET") && !HasPrefixUpper(x.line, "RCPT TO") && !HasPrefixUpper(x.line, "BDAT")
    ensures HasPrefixUpper(x.line, "RSET") ==>
      && !HasPrefixUpper(x.line, "MAIL FROM") && !HasPrefixUpper(x.line, "STARTTLS")
      && !HasPrefixUpper(x.line, "RCPT TO") && !HasPrefixUpper(x.line, "QUIT")
    ensures HasPrefixUpper(x.line, "MAIL FROM") ==>
      !HasPrefixUpper(x.line, "STARTTLS") && !HasPrefixUpper(x.line, "QUIT")
    ensures HasPrefixUpper(x.line, "STARTTLS") ==> !HasPrefixUpper(x.line, "QUIT")
  {
    hide HasPrefixUpper, Upper;
    FirstLetters(x.line, "BDAT");
    FirstLetters(x.line, "DATA");
    FirstLetters(x.line, "RSET");
    FirstLetters(x.line, "RCPT TO");
    FirstLetters(x.line, "MAIL FROM");
    FirstLetters(x.line, "STARTTLS");
    FirstLetters(x.line, "QUIT");
  }

  /** What isCommand accepts: the command at the start of the line, each letter in either case. */
  lemma CommandInEitherCase(line: string, cmd: string)
    requires forall k :: 0 <= k < |cmd| ==> !('a' <= cmd[k] <= 'z')
    ensures HasPrefixUpper(line, cmd) <==>
            && |cmd| <= |line|
            && forall k :: 0 <= k < |cmd| ==>
                 line[k] == cmd[k] || ('A' <= cmd[k] <= 'Z' && line[k] as int == cmd[k] as int + 32)
  {
    forall k | 0 <= k < |cmd| && |cmd| <= |line|
      ensures Upper(line[k]) == cmd[k] <==>
              line[k] == cmd[k] || ('A' <= cmd[k] <= 'Z' && line[k] as int == cmd[k] as int + 32)
    {
      EitherCase(line[k], cmd[k]);
    }
  }

  lemma EitherCase(l: char, c: char)
    requires !('a' <= c <= 'z')
    ensures Upper(l) == c <==> l == c || ('A' <= c <= 'Z' && l as int == c as int + 32)
  {
  }

  // ---------------------------------------------------------------- the code

  class Connection {
    var i: nat
    var msg: Message
    var domain: string
    /** what the session has done so far */
    var log: seq<Mark>

    ghost function View(): Conn
      reads this
    {
      Conn(i, msg, domain)
    }

    /** newConn of server.go */
    constructor ()
      ensures View() == Begin().conn && log == []
    {
      i, msg, domain, log := 0, Message("", [], "", []), "", [];
    }

    method Renew()
      modifies this`msg, this`log
      ensures msg == NewMessage(View()) && log == old(log) + [Renewed]
    {
      msg := Message("", [], domain, []);
      log := log + [Renewed];
    }

    method Hello(x: Input) returns (next: Phase)
      modifies this
      ensures (next, View()) == (OnHello(old(View()), x).0, OnHello(old(View()), x).1)
      ensures log == old(log) + OnHello(old(View()), x).2
    {
      hide HasPrefixUpper, HelloArgument;
      var line := if x.lineOk then x.line else "";
      if HasPrefixUpper(line, "HELO") || HasPrefixUpper(line, "EHLO") {
        var arg := HelloArgument(line);
        if arg == "" {
          return Over;
        }
        domain := arg;
        msg := msg.(domain := arg);
        log := log + [Greeted(arg)];
        return LoopState;
      }
      return Over;
    }

    method Loop(x: Input) returns (next: Phase)
      modifies this
      ensures (next, View()) == (OnLoop(old(View()), x).0, OnLoop(old(View()), x).1)
      ensures log == old(log) + OnLoop(old(View()), x).2
    {
      hide HasPrefixUpper;
      if !x.lineOk {
        return Over;
      }
      if x.line == "" {
        return LoopState;
      }
      i := i + 1;
      if i > LOOP_THRESHOLD {
        return Over;
      }
      if HasPrefixUpper(x.line, "MAIL FROM") {
        if |x.line| < 10 {
          return Over;
        }
        msg := msg.(from := x.line[10..]);
        log := log + [Mailed(x.line[10..])];
        return MailFromState;
      } else if HasPrefixUpper(x.line, "STARTTLS") {
        if x.tls == Unavailable {
          return Over;
        }
        if x.tls == HandshakeFails {
          return Over;
        }
        return HelloState;
      } else if HasPrefixUpper(x.line, "RSET") {
        Renew();
        return LoopState;
      } else if HasPrefixUpper(x.line, "QUIT") {
        return Over;
      }
      // NOOP, a blank line, or an unrecognized command
      return LoopState;
    }

    method Finish(raw: seq<byte>, chunked: bool, parses: bool) returns (next: Phase)
      modifies this`msg, this`log
      ensures next == Deliver(old(View()), raw, chunked, parses).0
      ensures View() == Deliver(old(View()), raw, chunked, parses).1
      ensures log == old(log) + Deliver(old(View()), raw, chunked, parses).2
    {
      if !parses {
        return Over;
      }
      log := log + [Delivered(msg, raw, chunked)];
      Renew();
      return LoopState;
    }

    method Bdat(x: Input) returns (next: Phase)
      modifies this`msg, this`log
      ensures (next, View()) == (OnChunk(old(View()), x).0, OnChunk(old(View()), x).1)
      ensures log == old(log) + OnChunk(old(View()), x).2
    {
      hide Split, ParseInt32;
      var parts := Split(x.line, ' ');
      if |parts| < 2 {
        return Over;
      }
      var parsed := ParseInt32(parts[1]);
      if parsed == None {
        return Over;
      }
      var count := if parsed.value < 0 then 0 else parsed.value;
      if count > |x.stream| {
        return Over;
      }
      msg := msg.(buffer := msg.buffer + x.stream[..count]);
      log := log + [Chunk(x.stream[..count])];
      var last := |parts| == 3 && parts[2] == "LAST";
      if !last {
        return MailFromState;
      }
      next := Finish(msg.buffer, true, x.parses);
    }

    method MailFrom(x: Input) returns (next: Phase)
      modifies this
      ensures (next, View()) == (OnMailFrom(old(View()), x).0, OnMailFrom(old(View()), x).1)
      ensures log == old(log) + OnMailFrom(old(View()), x).2
    {
      hide HasPrefixUpper, OnChunk, Deliver;
      if !x.lineOk {
        return Over;
      }
      if x.line == "" {
        return LoopState;
      }
      if HasPrefixUpper(x.line, "RSET") {
        Renew();
        return LoopState;
      } else if HasPrefixUpper(x.line, "RCPT TO") {
        if |x.line| < 8 {
          return Over;
        }
        msg := msg.(to := msg.to + [x.line[8..]]);
        log := log + [Recipient(x.line[8..])];
        return MailFromState;
      } else if HasPrefixUpper(x.line, "BDAT") {
        next := Bdat(x);
      } else if HasPrefixUpper(x.line, "DATA") {
        if !x.streamOk {
          return Over;
        }
        next := Finish(x.stream, false, x.parses);
      } else {
        return LoopState;
      }
    }
  }

  /** serve: one state function after the other, until there is none or the client is silent. */
  method ServeConnection(inputs: seq<Input>) returns (log: seq<Mark>)
    ensures log == Serve(inputs).marks
    ensures forall k :: 0 <= k < |log| ==> Proper(log, k)
    ensures Deliveries(log) <= 100
  {
    hide OnHello, OnLoop, OnMailFrom, Proper;
    var c := new Connection();
    var state := HelloState;
    for n := 0 to |inputs|
      invariant fresh(c)
      invariant Session(state, c.View(), c.log) == Serve(inputs[..n])
    {
      assert inputs[..n + 1][..n] == inputs[..n];
      match state {
        case HelloState => state := c.Hello(inputs[n]);
        case LoopState => state := c.Loop(inputs[n]);
        case MailFromState => state := c.MailFrom(inputs[n]);
        case Over =>
          assert c.log + [] == c.log;
      }
    }
    assert inputs[..|inputs|] == inputs;
    Deliverable(inputs);
    log := c.log;
  }
}
