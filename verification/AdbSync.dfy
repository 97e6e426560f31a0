/// The ADB sync service of `src/adb.rs`: a parser over a byte stream that arrives in arbitrary
/// chunks, and the stream that carries a file. The texts of failure messages are dropped.
module AdbSync {
  import opened Bytes

  const SYNC_STAT: bytes := Ascii("STAT")
  const SYNC_LIST: bytes := Ascii("LIST")
  const SYNC_SEND: bytes := Ascii("SEND")
  const SYNC_RECV: bytes := Ascii("RECV")
  const SYNC_DENT: bytes := Ascii("DENT")
  const SYNC_DONE: bytes := Ascii("DONE")
  const SYNC_DATA: bytes := Ascii("DATA")
  const SYNC_OKAY: bytes := Ascii("OKAY")
  const SYNC_QUIT: bytes := Ascii("QUIT")
  const SYNC_CHUNK: nat := 0x1_0000

  // The outside world.

  /// What the session asked of the file system, in order.
  datatype Action =
    | Stat(path: bytes)
    | List(path: bytes)
    | Create(path: bytes)
    | Mkdir(path: bytes)
    | Write(path: bytes, data: bytes)
    | Finish(path: bytes, mode: u32, mtime: u32)

  datatype Dent = Dent(mode: u32, size: u32, mtime: u32, name: bytes)

  /// The file system's answers, which may depend on everything asked before.
  datatype Host = Host(
    stat: (seq<Action>, bytes) -> (u32, u32, u32),
    list: (seq<Action>, bytes) -> (seq<Dent>, bool),
    create: (seq<Action>, bytes) -> bool,
    mkdir: (seq<Action>, bytes) -> bool,
    write: (seq<Action>, bytes, bytes) -> bool,
    finish: (seq<Action>, bytes, u32, u32) -> bool)

  // Packets.

  function StatusPacket(id: bytes, value: u32): bytes { id + ToLe32(value) }

  function StatPacket(mode: u32, size: u32, mtime: u32): bytes { SYNC_STAT + ToLe32(mode) + ToLe32(size) + ToLe32(mtime) }

  function DentPacket(d: Dent): Result<bytes> {
    if |d.name| >= U32_LIMIT then InvalidData
    else Ok(SYNC_DENT + ToLe32(d.mode) + ToLe32(d.size) + ToLe32(d.mtime) + ToLe32(|d.name|) + d.name)
  }

  function ListDonePacket(): bytes { SYNC_DONE + ToLe32(0) + ToLe32(0) + ToLe32(0) + ToLe32(0) }

  function DataPacket(data: bytes): bytes
    requires |data| < U32_LIMIT
  {
    SYNC_DATA + ToLe32(|data|) + data
  }

  // The session.

  datatype Response = Packet(payload: bytes) | Fail | File(path: bytes)

  /// A transfer in progress; a directory has no open file.
  datatype Send = Send(path: bytes, mode: u32, open: bool, failed: bool)

  datatype Mode = Idle | Receiving(send: Send)

  datatype Session = Session(buffer: bytes, mode: Mode, log: seq<Action>, responses: seq<Response>)

  function Respond(s: Session, r: Response): Session { s.(responses := s.responses + [r]) }

  function Log(s: Session, a: Action): Session { s.(log := s.log + [a]) }

  /// The last comma of a SEND target.
  function LastComma(payload: bytes): Option<nat> {
    if payload == [] then None
    else if payload[|payload| - 1] == ',' as int then Some(|payload| - 1)
    else LastComma(payload[..|payload| - 1])
  }

  /// `parse::<u32>` on digits.
  function Digits(text: bytes, value: nat): Option<u32> {
    if value >= U32_LIMIT then None
    else if text == [] then Some(value)
    else if !('0' as int <= text[0] <= '9' as int) then None
    else Digits(text[1..], 10 * value + (text[0] - '0' as int))
  }

  function ParseU32(text: bytes): Option<u32> {
    var digits := if text != [] && text[0] == '+' as int then text[1..] else text;
    if digits == [] then None else Digits(digits, 0)
  }

  /// `parse_send_target`.
  function SendTarget(payload: bytes): (r: Option<(bytes, u32)>) {
    var comma := LastComma(payload);
    if comma.None? || comma.value >= |payload| then None
    else
      var mode :- ParseU32(payload[comma.value + 1..]);
      Some((payload[..comma.value], mode))
  }

  predicate IsDirectory(mode: u32) { mode / 0x1000 % 0x10 == 0x4 }

  predicate IsLink(mode: u32) { mode / 0x1000 % 0x10 == 0xa }

  /// `start_send`.
  function StartSend(h: Host, s: Session, payload: bytes): Session {
    match SendTarget(payload)
    case None => Respond(s, Fail)
    case Some((path, mode)) =>
      if IsDirectory(mode) then Log(s, Mkdir(path)).(mode := Receiving(Send(path, mode, false, !h.mkdir(s.log, path))))
      else if IsLink(mode) then s.(mode := Receiving(Send(path, mode, false, true)))
      else
        var made := h.create(s.log, path);
        Log(s, Create(path)).(mode := Receiving(Send(path, mode, made, !made)))
  }

  /// The entries of a directory up to one that cannot be encoded.
  function DentPackets(entries: seq<Dent>): (seq<Response>, bool) {
    if entries == [] then ([], true)
    else if DentPacket(entries[0]).InvalidData? then ([], false)
    else
      var (rest, whole) := DentPackets(entries[1..]);
      ([Packet(DentPacket(entries[0]).value)] + rest, whole)
  }

  /// `handle_list`.
  function HandleList(h: Host, s: Session, path: bytes): Session {
    var (entries, complete) := h.list(s.log, path);
    var (packets, whole) := DentPackets(entries);
    var end := if complete && whole then Packet(ListDonePacket()) else Fail;
    Log(s, List(path)).(responses := s.responses + packets + [end])
  }

  /// `handle_sync_request`.
  function HandleRequest(h: Host, s: Session, id: bytes, payload: bytes): Session {
    if id == SYNC_STAT then
      var (mode, size, mtime) := h.stat(s.log, payload);
      Respond(Log(s, Stat(payload)), Packet(StatPacket(mode, size, mtime)))
    else if id == SYNC_LIST then HandleList(h, s, payload)
    else if id == SYNC_RECV then Respond(s, File(payload))
    else if id == SYNC_SEND then StartSend(h, s, payload)
    else if id == SYNC_QUIT then s
    else Respond(s, Fail)
  }

  /// `handle_send_data`.
  function HandleData(h: Host, s: Session, data: bytes): Session
    requires s.mode.Receiving?
  {
    var send := s.mode.send;
    if send.failed then s
    else if !send.open then
      if data == [] then s else s.(mode := Receiving(send.(failed := true)))
    else if h.write(s.log, send.path, data) then Log(s, Write(send.path, data))
    else Log(s, Write(send.path, data)).(mode := Receiving(send.(failed := true, open := false)))
  }

  /// `finish_send`: flush, mode and time are one question to the file system.
  function FinishSend(h: Host, s: Session, mtime: u32): Session
    requires s.mode.Receiving?
  {
    var send := s.mode.send;
    var idle := s.(mode := Idle);
    if send.failed then Respond(idle, Fail)
    else
      var done := Log(idle, Finish(send.path, send.mode, mtime));
      Respond(done, if h.finish(s.log, send.path, send.mode, mtime) then Packet(StatusPacket(SYNC_OKAY, 0)) else Fail)
  }

  // The parser.

  /// What one turn of `process_buffer` does: waits for more, consumes a message, or loses the stream.
  datatype Turn = Wait | Went(next: Session) | Lost(next: Session)

  /// The part of a turn that depends on the message only: how many bytes it takes, or none yet.
  function MessageLength(s: Session): Option<nat> {
    if |s.buffer| < 8 then None
    else
      var value := Le32(s.buffer[4..8]);
      var total := if s.mode.Receiving? && s.buffer[..4] != SYNC_DATA then 8 else 8 + value;
      if |s.buffer| < total then None else Some(total)
  }

  /// `process_idle_message` and `process_send_message`.
  function Next(h: Host, s: Session): (t: Turn)
    ensures t.Went? ==> |t.next.buffer| + 8 <= |s.buffer|
  {
    var length := MessageLength(s);
    if length.None? then Wait
    else
      var id, payload, rest := s.buffer[..4], s.buffer[8..length.value], s.(buffer := s.buffer[length.value..]);
      if s.mode.Idle? then Went(HandleRequest(h, rest, id, payload))
      else if id == SYNC_DATA then Went(HandleData(h, rest, payload))
      else if id == SYNC_DONE then Went(FinishSend(h, rest, Le32(s.buffer[4..8])))
      else Lost(Respond(s.(buffer := [], mode := Idle), Fail))
  }

  /// `process_buffer`.
  function Process(h: Host, s: Session): Session
    decreases |s.buffer|
  {
    var t := Next(h, s);
    if t.Wait? then s else if t.Lost? then t.next else Process(h, t.next)
  }

  /// Processing comes upon an id other than DATA or DONE while receiving.
  predicate Loses(h: Host, s: Session)
    decreases |s.buffer|
  {
    var t := Next(h, s);
    t.Lost? || (t.Went? && Loses(h, t.next))
  }

  function More(s: Session, data: bytes): Session { s.(buffer := s.buffer + data) }

  /// `write_input`.
  function Input(h: Host, s: Session, data: bytes): Session { Process(h, More(s, data)) }

  // Chunks.

  lemma LongerMessage(s: Session, data: bytes)
    requires MessageLength(s).Some?
    ensures MessageLength(More(s, data)) == MessageLength(s)
    ensures
      var n, t := MessageLength(s).value, More(s, data).buffer;
      && 8 <= n <= |s.buffer|
      && t[..4] == s.buffer[..4] && t[4..8] == s.buffer[4..8] && t[8..n] == s.buffer[8..n] && t[n..] == s.buffer[n..] + data
  {
    var t := s.buffer + data;
    assert t[..4] == s.buffer[..4] && t[4..8] == s.buffer[4..8];
    hide Bytes.Le32, Bytes.Ascii;
    var n := MessageLength(s).value;
    assert t[8..n] == s.buffer[8..n] && t[n..] == s.buffer[n..] + data;
  }

  lemma RequestKeepsBuffer(h: Host, s: Session, id: bytes, payload: bytes, data: bytes)
    ensures HandleRequest(h, More(s, data), id, payload) == More(HandleRequest(h, s, id, payload), data)
  {
    hide Bytes.Ascii, DentPackets, SendTarget, StatPacket, ListDonePacket;
  }

  /// One turn does the same with more bytes behind it, except that a lost stream loses them too.
  lemma NextLonger(h: Host, s: Session, data: bytes)
    ensures Next(h, s).Went? ==> Next(h, More(s, data)) == Went(More(Next(h, s).next, data))
    ensures Next(h, s).Lost? ==> Next(h, More(s, data)) == Next(h, s)
  {
    if !Next(h, s).Wait? {
      LongerMessage(s, data);
      hide MessageLength, HandleRequest, Bytes.Ascii, Bytes.Le32;
      var n := MessageLength(s).value;
      RequestKeepsBuffer(h, s.(buffer := s.buffer[n..]), s.buffer[..4], s.buffer[8..n], data);
    }
  }

  /// Splitting a stream at any point: the same result as one call, or, when the first part loses the
  /// stream, the second part is dropped by the one call.
  lemma {:induction false} InputSplit(h: Host, s: Session, data: bytes)
    ensures Process(h, More(s, data)) == if Loses(h, s) then Process(h, s) else Process(h, More(Process(h, s), data))
    ensures Loses(h, s) ==> Loses(h, More(s, data))
    ensures !Loses(h, s) ==> (Loses(h, More(s, data)) <==> Loses(h, More(Process(h, s), data)))
    decreases |s.buffer|
  {
    hide Next, More;
    NextLonger(h, s, data);
    if Next(h, s).Went? {
      InputSplit(h, Next(h, s).next, data);
    }
  }

  function Concat(chunks: seq<bytes>): bytes {
    if chunks == [] then [] else chunks[0] + Concat(chunks[1..])
  }

  /// Successive calls of `write_input`.
  function Feed(h: Host, s: Session, chunks: seq<bytes>): Session
    decreases |chunks|
  {
    if chunks == [] then s else Feed(h, Input(h, s, chunks[0]), chunks[1..])
  }

  /// Nothing in the buffer is complete, as after every call.
  predicate Settled(h: Host, s: Session) { Next(h, s).Wait? }

  lemma {:induction false} ProcessSettles(h: Host, s: Session)
    ensures !Loses(h, s) ==> Settled(h, Process(h, s))
    decreases |s.buffer|
  {
    hide Next;
    if Next(h, s).Went? {
      ProcessSettles(h, Next(h, s).next);
    }
  }

  lemma MoreMore(s: Session, x: bytes, y: bytes)
    ensures More(More(s, x), y) == More(s, x + y)
    ensures More(s, []) == s
  {
    assert s.buffer + x + y == s.buffer + (x + y) && s.buffer + [] == s.buffer;
  }

  lemma SettledStays(h: Host, s: Session)
    requires Settled(h, s)
    ensures Process(h, s) == s && !Loses(h, s)
  {
  }

  /// A stream in which no foreign id comes up while receiving gives the same responses, file system
  /// actions, state and leftover bytes however it is split.
  lemma {:induction false} ChunkIndependence(h: Host, s: Session, chunks: seq<bytes>)
    requires Settled(h, s) && !Loses(h, More(s, Concat(chunks)))
    ensures Feed(h, s, chunks) == Input(h, s, Concat(chunks))
    decreases |chunks|
  {
    hide Next, More, Process, Loses;
    if chunks == [] {
      MoreMore(s, [], []);
      SettledStays(h, s);
    } else {
      var first, rest := chunks[0], Concat(chunks[1..]);
      MoreMore(s, first, rest);
      InputSplit(h, More(s, first), rest);
      ProcessSettles(h, More(s, first));
      ChunkIndependence(h, Input(h, s, first), chunks[1..]);
    }
  }

  /// No byte follows a message with a foreign id that comes up while receiving.
  predicate Undisturbed(h: Host, s: Session, data: bytes) {
    data != [] ==> !Loses(h, More(s, data[..|data| - 1]))
  }

  /// Every split of the stream gives what one call gives.
  ghost predicate SplitsAgree(h: Host, s: Session, data: bytes) {
    forall chunks: seq<bytes> :: Concat(chunks) == data ==> Feed(h, s, chunks) == Input(h, s, data)
  }

  /// How a stream is split makes no difference if and only if nothing follows a foreign message.
  lemma SplitsAgreeExactly(h: Host, s: Session, data: bytes)
    requires Settled(h, s)
    ensures SplitsAgree(h, s, data) <==> Undisturbed(h, s, data)
  {
    hide Next, More, Process, Loses, Feed, Input, Undisturbed, Settled;
    if Undisturbed(h, s, data) {
      forall chunks: seq<bytes> | Concat(chunks) == data ensures Feed(h, s, chunks) == Input(h, s, data) {
        UndisturbedSplits(h, s, chunks);
      }
    } else {
      DisturbedSplit(h, s, data);
    }
  }

  lemma {:induction false} UndisturbedSplits(h: Host, s: Session, chunks: seq<bytes>)
    requires Settled(h, s) && Undisturbed(h, s, Concat(chunks))
    ensures Feed(h, s, chunks) == Input(h, s, Concat(chunks))
    decreases |chunks|
  {
    hide Next, More, Process, Loses;
    var data := Concat(chunks);
    if chunks == [] {
      MoreMore(s, [], []);
      SettledStays(h, s);
    } else {
      var first, rest := chunks[0], Concat(chunks[1..]);
      InputSplit(h, More(s, first), rest);
      MoreMore(s, first, rest);
      ProcessSettles(h, More(s, first));
      if rest == [] {
        LostEmpty(h, More(s, first));
        assert first + rest == first;
        var after := Input(h, s, first);
        MoreMore(after, [], []);
        EmptyRest(h, s, first);
        SettledStays(h, after);
        ChunkIndependence(h, after, chunks[1..]);
      } else {
        var most := rest[..|rest| - 1];
        assert data[..|data| - 1] == first + most;
        MoreMore(s, first, most);
        InputSplit(h, More(s, first), most);
        UndisturbedSplits(h, Input(h, s, first), chunks[1..]);
      }
    }
  }

  /// A call leaves nothing that is complete, also when it loses the stream.
  lemma EmptyRest(h: Host, s: Session, first: bytes)
    ensures Settled(h, Input(h, s, first))
  {
    hide Process, Loses, Next;
    ProcessSettles(h, More(s, first));
    if Loses(h, More(s, first)) {
      LostEmpty(h, More(s, first));
      ShortWaits(h, Input(h, s, first));
    }
  }

  lemma ShortWaits(h: Host, s: Session)
    requires |s.buffer| < 8
    ensures Settled(h, s)
  {
  }

  /// A stream that is lost leaves an empty buffer.
  lemma {:induction false} LostEmpty(h: Host, s: Session)
    ensures Loses(h, s) ==> Process(h, s).buffer == []
    decreases |s.buffer|
  {
    hide MessageLength, HandleRequest, HandleData, FinishSend, Bytes.Ascii;
    if Next(h, s).Went? {
      LostEmpty(h, Next(h, s).next);
    }
  }

  /// Behind a foreign message the last byte stays in the buffer when it comes in a call of its own.
  lemma DisturbedSplit(h: Host, s: Session, data: bytes)
    requires !Undisturbed(h, s, data)
    ensures !SplitsAgree(h, s, data)
  {
    hide Next, More, Process, Loses, Feed, Input;
    var most, last := data[..|data| - 1], data[|data| - 1..];
    assert Concat([most, last]) == data by {
      var none: seq<bytes> := [];
      assert [most, last][1..] == [last] && [last][1..] == none && Concat([last]) == last + [];
      assert most + last == data;
    }
    FeedTwo(h, s, most, last);
    InputSplit(h, More(s, most), last);
    MoreMore(s, most, last);
    assert most + last == data;
    LostEmpty(h, More(s, most));
    OneByteStays(h, s, most, last, data);
  }

  lemma OneByteStays(h: Host, s: Session, most: bytes, last: bytes, data: bytes)
    requires Process(h, More(s, most)).buffer == [] && |last| == 1
    requires Process(h, More(s, data)) == Process(h, More(s, most))
    ensures Input(h, Input(h, s, most), last) != Input(h, s, data)
  {
    hide Process;
    var lost := Process(h, More(s, most));
    assert More(lost, last).buffer == last;
    ShortWaits(h, More(lost, last));
    SettledStays(h, More(lost, last));
  }

  lemma ForeignIsLost(h: Host, send: Send, log: seq<Action>, rest: bytes)
    ensures Input(h, Session([], Receiving(send), log, []), StatusPacket(SYNC_QUIT, 0) + rest) == Session([], Idle, log, [Fail])
  {
    assert SYNC_QUIT[0] == 'Q' as int && SYNC_DATA[0] == 'D' as int && SYNC_DONE[0] == 'D' as int;
    PacketParts(SYNC_QUIT, 0, [], rest);
    hide Bytes.Ascii, Bytes.Le32, Bytes.ToLe32, HandleData, FinishSend, HandleRequest;
    assert [] + (StatusPacket(SYNC_QUIT, 0) + rest) == SYNC_QUIT + ToLe32(0) + [] + rest;
  }

  lemma RequestIsAnswered(h: Host, log: seq<Action>)
    ensures Input(h, Session([], Idle, log, [Fail]), StatusPacket(SYNC_RECV, 0)) == Session([], Idle, log, [Fail, File([])])
  {
    assert SYNC_RECV[0] == 'R' as int && SYNC_STAT[0] == 'S' as int && SYNC_LIST[0] == 'L' as int;
    PacketParts(SYNC_RECV, 0, [], []);
    var s, after := Session([], Idle, log, [Fail]), Session([], Idle, log, [Fail, File([])]);
    hide Bytes.Ascii, Bytes.Le32, Bytes.ToLe32, StartSend, HandleList;
    var request := StatusPacket(SYNC_RECV, 0);
    assert [] + request == SYNC_RECV + ToLe32(0) + [] + [];
    assert request[8..] == [] && request[8..8] == [];
    assert Next(h, More(s, request)) == Went(after);
    EmptySettled(h, after);
    SettledStays(h, after);
  }

  /// While receiving, a message with a foreign id, then a request: one call drops the request with the
  /// rest of its buffer, two calls answer it.
  lemma ForeignIdDependsOnSplit(h: Host, send: Send, log: seq<Action>)
    ensures
      var s := Session([], Receiving(send), log, []);
      var foreign, request := StatusPacket(SYNC_QUIT, 0), StatusPacket(SYNC_RECV, 0);
      && Feed(h, s, [foreign + request]).responses == [Fail]
      && Feed(h, s, [foreign, request]).responses == [Fail, File([])]
  {
    hide StatusPacket, Input, Feed;
    var s := Session([], Receiving(send), log, []);
    var foreign, request := StatusPacket(SYNC_QUIT, 0), StatusPacket(SYNC_RECV, 0);
    ForeignIsLost(h, send, log, request);
    ForeignIsLost(h, send, log, []);
    assert foreign + [] == foreign;
    RequestIsAnswered(h, log);
    FeedOne(h, s, foreign + request);
    FeedTwo(h, s, foreign, request);
  }

  lemma FeedOne(h: Host, s: Session, x: bytes)
    ensures Feed(h, s, [x]) == Input(h, s, x)
  {
    assert [x][1..] == [];
  }

  lemma FeedTwo(h: Host, s: Session, x: bytes, y: bytes)
    ensures Feed(h, s, [x, y]) == Input(h, Input(h, s, x), y)
  {
    assert [x, y][1..] == [y];
    FeedOne(h, Input(h, s, x), y);
  }

  // A file on the stream.

  /// The DATA messages of some chunks and the closing DONE.
  function FileStream(chunks: seq<bytes>): bytes
    requires forall c <- chunks :: |c| < U32_LIMIT
  {
    if chunks == [] then StatusPacket(SYNC_DONE, 0) else DataPacket(chunks[0]) + FileStream(chunks[1..])
  }

  function Writes(path: bytes, chunks: seq<bytes>): seq<Action> {
    if chunks == [] then [] else [Write(path, chunks[0])] + Writes(path, chunks[1..])
  }

  /// What a file holds after these actions, when it was created among them.
  function Contents(log: seq<Action>, path: bytes): Option<bytes> {
    if log == [] then None
    else
      var before := Contents(log[..|log| - 1], path);
      match log[|log| - 1]
      case Create(p) => if p == path then Some([]) else before
      case Write(p, data) => if p == path && before.Some? then Some(before.value + data) else before
      case _ => before
  }

  lemma ContentsSnoc(log: seq<Action>, a: Action, path: bytes)
    ensures Contents(log + [a], path) ==
      match a
      case Create(p) => if p == path then Some([]) else Contents(log, path)
      case Write(p, data) =>
        if p == path && Contents(log, path).Some? then Some(Contents(log, path).value + data) else Contents(log, path)
      case _ => Contents(log, path)
  {
    assert (log + [a])[..|log|] == log;
  }

  lemma WritesStep(log: seq<Action>, path: bytes, chunks: seq<bytes>)
    requires chunks != []
    ensures log + Writes(path, chunks) == (log + [Write(path, chunks[0])]) + Writes(path, chunks[1..])
  {
  }

  lemma {:induction false} ContentsOfWrites(log: seq<Action>, path: bytes, chunks: seq<bytes>)
    requires Contents(log, path).Some?
    ensures Contents(log + Writes(path, chunks), path) == Some(Contents(log, path).value + Concat(chunks))
    decreases |chunks|
  {
    if chunks == [] {
      assert log + [] == log;
      EmptyConcat(Contents(log, path).value);
    } else {
      WritesStep(log, path, chunks);
      ContentsSnoc(log, Write(path, chunks[0]), path);
      ContentsOfWrites(log + [Write(path, chunks[0])], path, chunks[1..]);
      Assoc(Contents(log, path).value, chunks[0], Concat(chunks[1..]));
    }
  }

  /// The file system takes everything for this path.
  ghost predicate Accepts(h: Host, path: bytes) {
    && (forall log, data :: h.write(log, path, data))
    && (forall log, mode, mtime :: h.finish(log, path, mode, mtime))
  }

  lemma PacketParts(id: bytes, value: u32, payload: bytes, rest: bytes)
    requires |id| == 4
    ensures
      var b := id + ToLe32(value) + payload + rest;
      && b[..4] == id && Le32(b[4..8]) == value && b[8..8 + |payload|] == payload && b[8 + |payload|..] == rest
  {
    var word := ToLe32(value);
    var b := id + word + payload + rest;
    assert b[4..8] == word;
    Le32ToLe32(value);
  }

  lemma DataTurn(h: Host, s: Session, chunk: bytes, rest: bytes)
    requires s.mode.Receiving? && |chunk| < U32_LIMIT && s.buffer == DataPacket(chunk) + rest
    ensures Next(h, s) == Went(HandleData(h, s.(buffer := rest), chunk))
  {
    assert |SYNC_DATA| == 4;
    PacketParts(SYNC_DATA, |chunk|, chunk, rest);
    hide Bytes.Ascii, Bytes.Le32, Bytes.ToLe32, HandleData;
  }

  lemma IdsDiffer()
    ensures SYNC_DONE != SYNC_DATA && |SYNC_DONE| == 4
  {
    assert SYNC_DONE[1] == 'O' as int && SYNC_DATA[1] == 'A' as int;
  }

  lemma DoneTurn(h: Host, s: Session, mtime: u32)
    requires s.mode.Receiving? && s.buffer == StatusPacket(SYNC_DONE, mtime)
    ensures Next(h, s) == Went(FinishSend(h, s.(buffer := []), mtime))
  {
    IdsDiffer();
    PacketParts(SYNC_DONE, mtime, [], []);
    assert SYNC_DONE + ToLe32(mtime) + [] + [] == s.buffer;
    hide Bytes.Ascii, Bytes.Le32, Bytes.ToLe32, FinishSend;
  }

  /// The session after a whole file.
  function Received(s: Session, chunks: seq<bytes>): Session
    requires s.mode.Receiving?
  {
    Session([], Idle, s.log + Writes(s.mode.send.path, chunks) + [Finish(s.mode.send.path, s.mode.send.mode, 0)],
            s.responses + [Packet(StatusPacket(SYNC_OKAY, 0))])
  }

  /// A receiving session that is fed a file stream writes exactly its chunks and answers OKAY.
  lemma {:induction false} FileIsReceived(h: Host, s: Session, chunks: seq<bytes>)
    requires s.mode.Receiving? && s.mode.send.open && !s.mode.send.failed && Accepts(h, s.mode.send.path)
    requires forall c <- chunks :: |c| < U32_LIMIT
    requires s.buffer == FileStream(chunks)
    ensures Process(h, s) == Received(s, chunks) && !Loses(h, s)
    decreases |chunks|
  {
    hide Bytes.Ascii, Bytes.ToLe32, Bytes.Le32, Next;
    if chunks == [] {
      DoneTurn(h, s, 0);
      var last := FinishSend(h, s.(buffer := []), 0);
      assert s.log + [] == s.log;
      EmptySettled(h, last);
      SettledStays(h, last);
    } else {
      var chunk, rest := chunks[0], FileStream(chunks[1..]);
      DataTurn(h, s, chunk, rest);
      var next := HandleData(h, s.(buffer := rest), chunk);
      assert next == Log(s.(buffer := rest), Write(s.mode.send.path, chunk));
      FileIsReceived(h, next, chunks[1..]);
      assert s.log + [Write(s.mode.send.path, chunk)] + Writes(s.mode.send.path, chunks[1..])
          == s.log + Writes(s.mode.send.path, chunks);
    }
  }

  lemma EmptySettled(h: Host, s: Session)
    requires s.buffer == []
    ensures Settled(h, s)
  {
  }

  /// The stream of a file, however it is split on the way, rebuilds the file.
  lemma FileRoundTrip(h: Host, s: Session, chunks: seq<bytes>, split: seq<bytes>)
    requires s.buffer == [] && s.mode.Receiving? && s.mode.send.open && !s.mode.send.failed
    requires Accepts(h, s.mode.send.path) && Contents(s.log, s.mode.send.path) == Some([])
    requires (forall c <- chunks :: |c| < U32_LIMIT) && Concat(split) == FileStream(chunks)
    ensures
      var r := Feed(h, s, split);
      && Contents(r.log, s.mode.send.path) == Some(Concat(chunks))
      && r.mode == Idle && r.buffer == []
      && r.responses == s.responses + [Packet(StatusPacket(SYNC_OKAY, 0))]
  {
    hide Bytes.Ascii, Bytes.ToLe32, Next, Feed, Process, Loses, Concat;
    var path := s.mode.send.path;
    EmptySettled(h, s);
    assert s.buffer + FileStream(chunks) == FileStream(chunks);
    FileIsReceived(h, More(s, FileStream(chunks)), chunks);
    ChunkIndependence(h, s, split);
    ContentsOfWrites(s.log, path, chunks);
    assert [] + Concat(chunks) == Concat(chunks);
    FinishKeeps(s.log + Writes(path, chunks), path, s.mode.send.mode);
  }

  lemma FinishKeeps(log: seq<Action>, path: bytes, mode: u32)
    ensures Contents(log + [Finish(path, mode, 0)], path) == Contents(log, path)
  {
    ContentsSnoc(log, Finish(path, mode, 0), path);
  }

  // The code.

  /// What one read answers: some bytes if any are left, or an error.
  datatype Read = Got(size: nat) | Fails

  const SYNC_FAIL: bytes := Ascii("FAIL")

  /// `sync_fail_packet`.
  function FailPacket(message: bytes): bytes
    requires |message| < U32_LIMIT
  {
    SYNC_FAIL + ToLe32(|message|) + message
  }

  /// `send_sync_file`, with the answers of the file system, the text of a failure and the number of
  /// payloads that find credit. Sent in full, the payloads are the stream of the content, or data of the
  /// file so far and a FAIL packet when it cannot be opened or read; cut off, they are data packets.
  method SendSyncFile(content: bytes, openable: bool, answers: seq<Read>, message: bytes, maxPayload: u32, credits: nat)
    returns (sent: bool, payloads: seq<bytes>, ghost chunks: seq<bytes>, ghost failed: bool)
    requires |answers| > |content|
    ensures (forall c <- chunks :: |c| < U32_LIMIT) && Concat(chunks) <= content
    ensures forall c <- chunks :: 0 < |c| <= 64 * 1024
    ensures sent && !failed ==> Concat(chunks) == content && Concat(payloads) == FileStream(chunks)
    ensures sent && failed ==> |message| < U32_LIMIT && Concat(payloads) == DataPackets(chunks) + FailPacket(message)
    ensures !sent ==> Concat(payloads) == DataPackets(chunks)
    ensures openable && (forall r <- answers :: r.Got?) ==> !failed
    ensures !openable ==> failed && chunks == []
    ensures |payloads| <= credits && (!sent ==> |payloads| == credits || (failed && |message| >= U32_LIMIT))
    ensures forall p <- payloads :: |p| <= maxPayload || |p| == 9 || (sent && p == payloads[|payloads| - 1])
  {
    hide *;
    var stop := ReadFails;
    failed := !openable;
    if openable {
      stop, payloads, chunks := SendData(content, answers, maxPayload, credits);
      if stop == NoCredit {
        return false, payloads, chunks, failed;
      }
      failed := stop == ReadFails;
    } else {
      NothingSent(content);
      payloads, chunks := [], [];
    }
    if stop == ReadFails {
      sent, payloads := SendFailure(message, payloads, credits, chunks);
      return;
    }
    if |payloads| == credits {
      return false, payloads, chunks, failed;
    }
    ConcatSnoc(payloads, StatusPacket(SYNC_DONE, 0));
    StreamOfPackets(chunks);
    payloads := payloads + [StatusPacket(SYNC_DONE, 0)];
    sent := true;
  }

  /// Why no more data of a file is sent.
  datatype Stop = AtEnd | ReadFails | NoCredit

  /// The loop of `send_sync_file`.
  method SendData(content: bytes, answers: seq<Read>, maxPayload: u32, credits: nat)
    returns (stop: Stop, payloads: seq<bytes>, ghost chunks: seq<bytes>)
    requires |answers| > |content|
    ensures (forall c <- chunks :: |c| < U32_LIMIT) && Concat(chunks) <= content
    ensures forall c <- chunks :: 0 < |c| <= 64 * 1024
    ensures Concat(payloads) == DataPackets(chunks) && |payloads| <= credits
    ensures stop == AtEnd ==> Concat(chunks) == content
    ensures stop == NoCredit ==> |payloads| == credits
    ensures stop == ReadFails ==> exists r <- answers :: r.Fails?
    ensures forall p <- payloads :: |p| <= maxPayload || |p| == 9
  {
    NothingSent(content);
    payloads, chunks := [], [];
    hide Concat, DataPackets, DataPacket, Clamp;
    var chunkSize := if maxPayload <= 9 then 1 else if maxPayload - 8 < SYNC_CHUNK then maxPayload - 8 else SYNC_CHUNK;
    var offset, k := 0, 0;
    while true
      invariant 0 <= offset <= |content| && k <= offset && |payloads| <= credits
      invariant forall c <- chunks :: 0 < |c| <= 64 * 1024
      invariant Concat(chunks) == content[..offset]
      invariant Concat(payloads) == DataPackets(chunks)
      invariant forall p <- payloads :: |p| <= maxPayload || |p| == 9
      decreases |content| - offset
    {
      if answers[k].Fails? {
        assert answers[k] in answers;
        return ReadFails, payloads, chunks;
      }
      if offset == |content| {
        assert content[..offset] == content;
        return AtEnd, payloads, chunks;
      }
      if |payloads| == credits {
        return NoCredit, payloads, chunks;
      }
      var n := Clamp(answers[k].size, chunkSize, |content| - offset);
      var data := content[offset..offset + n];
      SendStep(content, offset, n, chunks, payloads);
      chunks := chunks + [data];
      payloads := payloads + [DataPacket(data)];
      offset, k := offset + n, k + 1;
    }
  }

  lemma NothingSent(content: bytes)
    ensures Concat([]) == [] && DataPackets([]) == [] && content[..0] == [] && [] <= content
  {
  }

  lemma SendStep(content: bytes, offset: nat, n: nat, chunks: seq<bytes>, payloads: seq<bytes>)
    requires offset + n <= |content| && n < U32_LIMIT && forall c <- chunks :: |c| < U32_LIMIT
    requires Concat(chunks) == content[..offset] && Concat(payloads) == DataPackets(chunks)
    ensures
      var data := content[offset..offset + n];
      && (forall c <- chunks + [data] :: |c| < U32_LIMIT) && |DataPacket(data)| == n + 8
      && Concat(chunks + [data]) == content[..offset + n]
      && Concat(payloads + [DataPacket(data)]) == DataPackets(chunks + [data])
  {
    var data := content[offset..offset + n];
    ConcatSnoc(chunks, data);
    ConcatSnoc(payloads, DataPacket(data));
    DataPacketsSnoc(chunks, data);
    assert content[..offset] + data == content[..offset + n];
    hide Concat, DataPackets, Bytes.ToLe32;
    assert |SYNC_DATA| == 4;
  }

  method SendFailure(message: bytes, before: seq<bytes>, credits: nat, ghost chunks: seq<bytes>)
    returns (sent: bool, payloads: seq<bytes>)
    requires |before| <= credits && (forall c <- chunks :: |c| < U32_LIMIT) && Concat(before) == DataPackets(chunks)
    ensures sent <==> |message| < U32_LIMIT && |before| < credits
    ensures payloads == if sent then before + [FailPacket(message)] else before
    ensures Concat(payloads) == if sent then DataPackets(chunks) + FailPacket(message) else DataPackets(chunks)
  {
    hide FailPacket;
    if |message| >= U32_LIMIT || |before| == credits {
      return false, before;
    }
    ConcatSnoc(before, FailPacket(message));
    return true, before + [FailPacket(message)];
  }

  /// A read returns at least one byte, and no more than fits or is left.
  function Clamp(read: nat, chunkSize: nat, left: nat): (n: nat)
    requires chunkSize > 0 && left > 0
    ensures 0 < n <= left && n <= chunkSize
  {
    var most := if chunkSize < left then chunkSize else left;
    if read == 0 then 1 else if read > most then most else read
  }

  function DataPackets(chunks: seq<bytes>): bytes
    requires forall c <- chunks :: |c| < U32_LIMIT
  {
    if chunks == [] then [] else DataPacket(chunks[0]) + DataPackets(chunks[1..])
  }

  lemma {:induction false} ConcatSnoc(chunks: seq<bytes>, last: bytes)
    ensures Concat(chunks + [last]) == Concat(chunks) + last
    decreases |chunks|
  {
    if chunks == [] {
      assert chunks + [last] == [last] && [last][1..] == [];
      assert Concat([last]) == last + Concat([]);
    } else {
      ConcatSnoc(chunks[1..], last);
      assert (chunks + [last])[1..] == chunks[1..] + [last];
      assert chunks[0] + (Concat(chunks[1..]) + last) == Concat(chunks) + last;
    }
  }

  lemma {:induction false} DataPacketsSnoc(chunks: seq<bytes>, last: bytes)
    requires (forall c <- chunks :: |c| < U32_LIMIT) && |last| < U32_LIMIT
    ensures DataPackets(chunks + [last]) == DataPackets(chunks) + DataPacket(last)
    decreases |chunks|
  {
    hide DataPacket;
    if chunks == [] {
      assert chunks + [last] == [last] && [last][1..] == [];
      assert DataPackets([last]) == DataPacket(last) + DataPackets([]);
    } else {
      DataPacketsSnoc(chunks[1..], last);
      assert (chunks + [last])[1..] == chunks[1..] + [last];
      assert DataPacket(chunks[0]) + (DataPackets(chunks[1..]) + DataPacket(last)) == DataPackets(chunks) + DataPacket(last);
    }
  }

  lemma {:induction false} StreamOfPackets(chunks: seq<bytes>)
    requires forall c <- chunks :: |c| < U32_LIMIT
    ensures FileStream(chunks) == DataPackets(chunks) + StatusPacket(SYNC_DONE, 0)
    decreases |chunks|
  {
    hide DataPacket, StatusPacket;
    if chunks == [] {
      assert [] + StatusPacket(SYNC_DONE, 0) == StatusPacket(SYNC_DONE, 0);
    } else {
      StreamOfPackets(chunks[1..]);
      assert DataPacket(chunks[0]) + (DataPackets(chunks[1..]) + StatusPacket(SYNC_DONE, 0))
          == DataPackets(chunks) + StatusPacket(SYNC_DONE, 0);
    }
  }

  /// The session object.
  class SyncSession {
    var buffer: bytes
    var mode: Mode
    var log: seq<Action>
    var responses: seq<Response>

    constructor ()
      ensures Value() == Session([], Idle, [], [])
    {
      buffer, mode, log, responses := [], Idle, [], [];
    }

    function Value(): Session
      reads this
    {
      Session(buffer, mode, log, responses)
    }

    method Become(s: Session)
      modifies this
      ensures Value() == s
    {
      buffer, mode, log, responses := s.buffer, s.mode, s.log, s.responses;
    }

    /// `process_idle_message`.
    method ProcessIdle(h: Host) returns (consumed: bool)
      requires mode.Idle?
      modifies this
      ensures consumed <==> Next(h, old(Value())).Went?
      ensures Value() == if consumed then Next(h, old(Value())).next else old(Value())
      ensures !Next(h, old(Value())).Lost?
    {
      hide HandleRequest, Bytes.Ascii, Bytes.Le32;
      if |buffer| < 8 {
        return false;
      }
      var id, total := buffer[..4], 8 + Le32(buffer[4..8]);
      if |buffer| < total {
        return false;
      }
      var payload := buffer[8..total];
      buffer := buffer[total..];
      Become(HandleRequest(h, Value(), id, payload));
      return true;
    }

    /// `process_send_message`; a foreign id clears the buffer and stops the loop.
    method ProcessSend(h: Host) returns (consumed: bool)
      requires mode.Receiving?
      modifies this
      ensures consumed <==> Next(h, old(Value())).Went?
      ensures Value() == if Next(h, old(Value())).Wait? then old(Value()) else Next(h, old(Value())).next
    {
      hide HandleData, FinishSend, Bytes.Ascii, Bytes.Le32;
      if |buffer| < 8 {
        return false;
      }
      var id, value := buffer[..4], Le32(buffer[4..8]);
      if id == SYNC_DATA {
        var total: nat := 8 + value as int;
        if |buffer| < total {
          return false;
        }
        var data := buffer[8..total];
        buffer := buffer[total..];
        Become(HandleData(h, Value(), data));
        return true;
      }
      if id == SYNC_DONE {
        buffer := buffer[8..];
        Become(FinishSend(h, Value(), value));
        return true;
      }
      buffer := [];
      mode := Idle;
      responses := responses + [Fail];
      return false;
    }

    /// `write_input`.
    method WriteInput(h: Host, data: bytes)
      modifies this
      ensures Value() == Input(h, old(Value()), data)
    {
      hide Next;
      buffer := buffer + data;
      ghost var whole := Process(h, Value());
      while true
        invariant Process(h, Value()) == whole
        decreases |buffer|
      {
        var consumed: bool;
        if mode.Idle? {
          consumed := ProcessIdle(h);
        } else {
          consumed := ProcessSend(h);
        }
        if !consumed {
          break;
        }
      }
    }
  }
}
