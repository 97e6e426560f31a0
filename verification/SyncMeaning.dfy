/// The messages of the file sync service of `src/adb.rs`, byte by byte, and what a session makes of them.
module SyncMeaning {
  import opened Bytes
  import opened AdbSync

  /// A message: four letters, a little-endian length and the payload.
  function Message(id: bytes, payload: bytes): bytes
    requires |payload| < U32_LIMIT
  {
    id + ToLe32(|payload|) + payload
  }

  // Packets.

  /// The packets that the service sends.
  lemma PacketMeaning(mode: u32, size: u32, mtime: u32, payload: bytes)
    requires |payload| < U32_LIMIT
    ensures StatPacket(mode, size, mtime) == Ascii("STAT") + ToLe32(mode) + ToLe32(size) + ToLe32(mtime)
    ensures DentPacket(Dent(mode, size, mtime, payload)) ==
      Ok(Ascii("DENT") + ToLe32(mode) + ToLe32(size) + ToLe32(mtime) + ToLe32(|payload|) + payload)
    ensures ListDonePacket() == Ascii("DONE") + [0, 0, 0, 0, 0, 0, 0, 0, 0, 0, 0, 0, 0, 0, 0, 0]
    ensures DataPacket(payload) == Message(Ascii("DATA"), payload)
    ensures FailPacket(payload) == Message(Ascii("FAIL"), payload)
    ensures StatusPacket(SYNC_OKAY, 0) == Ascii("OKAY") + [0, 0, 0, 0]
    ensures StatusPacket(SYNC_DONE, 0) == Ascii("DONE") + [0, 0, 0, 0]
  {
    NoughtBytes();
    hide Bytes.Ascii, Bytes.ToLe32;
  }

  lemma NoughtBytes()
    ensures ToLe32(0) == [0, 0, 0, 0]
  {
  }

  /// A file is sent as one message for each of its chunks, and the end.
  lemma {:induction false} StreamMeaning(chunks: seq<bytes>, k: nat)
    requires k < |chunks| && forall c <- chunks :: |c| < U32_LIMIT
    ensures FileStream(chunks) ==
      Joined(chunks[..k]) + Message(Ascii("DATA"), chunks[k]) + FileStream(chunks[k + 1..])
    ensures FileStream([]) == Ascii("DONE") + [0, 0, 0, 0]
  {
    NoughtBytes();
    hide Bytes.Ascii, Bytes.ToLe32;
    var head := Message(Ascii("DATA"), chunks[0]);
    if k == 0 {
      assert chunks[..0] == [];
    } else {
      StreamMeaning(chunks[1..], k - 1);
      assert chunks[1..][k..] == chunks[k + 1..] && chunks[1..][..k - 1] == chunks[..k][1..];
    }
  }

  function Joined(chunks: seq<bytes>): bytes
    requires forall c <- chunks :: |c| < U32_LIMIT
  {
    if chunks == [] then [] else Message(Ascii("DATA"), chunks[0]) + Joined(chunks[1..])
  }

  // The target of a SEND.

  /// The value of decimal digits.
  function Decimal(digits: bytes): int {
    if digits == [] then 0 else 10 * Decimal(digits[..|digits| - 1]) + digits[|digits| - 1] as int - 0x30
  }

  predicate AreDigits(text: bytes) { forall i :: 0 <= i < |text| ==> 0x30 <= text[i] <= 0x39 }

  /// A decimal number of 32 bits, with or without a plus sign.
  predicate NumberIs(text: bytes, value: u32) {
    var digits := if text != [] && text[0] == 0x2b then text[1..] else text;
    digits != [] && AreDigits(digits) && Decimal(digits) == value
  }

  /// The path, a comma, and the mode without another comma.
  predicate TargetIs(payload: bytes, path: bytes, mode: u32) {
    && |path| < |payload| && payload[..|path|] == path && payload[|path|] == 0x2c
    && (forall i :: |path| < i < |payload| ==> payload[i] != 0x2c)
    && NumberIs(payload[|path| + 1..], mode)
  }

  lemma {:induction false} DecimalAppend(a: bytes, b: bytes)
    ensures b != [] ==> Decimal(a + b) == 10 * Decimal(a + b[..|b| - 1]) + b[|b| - 1] as int - 0x30
  {
    if b != [] {
      assert (a + b)[..|a + b| - 1] == a + b[..|b| - 1];
    }
  }

  lemma {:induction false} DigitsGrow(done: bytes, text: bytes)
    requires AreDigits(done + text)
    ensures 0 <= Decimal(done) <= Decimal(done + text)
    decreases |text|, |done|
  {
    if text == [] {
      assert done + text == done;
      if done != [] {
        DigitsGrow(done[..|done| - 1], []);
      }
    } else {
      DecimalAppend(done, text);
      assert AreDigits(done + text[..|text| - 1]) by {
        assert done + text == (done + text[..|text| - 1]) + [text[|text| - 1]];
      }
      DigitsGrow(done, text[..|text| - 1]);
    }
  }

  lemma {:induction false} DigitsMeaning(done: bytes, text: bytes, value: nat)
    requires AreDigits(done) && Decimal(done) == value
    ensures Digits(text, value) ==
      if AreDigits(text) && Decimal(done + text) < U32_LIMIT then Some(Decimal(done + text)) else None
    decreases |text|
  {
    if text == [] {
      assert done + text == done;
    } else if 0x30 <= text[0] <= 0x39 {
      var done' := done + [text[0]];
      DigitStep(done, text);
      hide Decimal, AreDigits;
      DigitsMeaning(done', text[1..], 10 * value + text[0] as int - 0x30);
      if AreDigits(text) {
        DigitsGrow(done, text);
      }
    }
  }

  lemma DigitStep(done: bytes, text: bytes)
    requires AreDigits(done) && text != [] && 0x30 <= text[0] <= 0x39
    ensures
      var done' := done + [text[0]];
      && AreDigits(done') && Decimal(done') == 10 * Decimal(done) + text[0] as int - 0x30
      && done' + text[1..] == done + text && (AreDigits(text) <==> AreDigits(text[1..]))
      && (AreDigits(text) ==> AreDigits(done + text))
  {
    var done' := done + [text[0]];
    assert done'[..|done|] == done;
    assert text == [text[0]] + text[1..];
  }

  lemma {:induction false} CommaMeaning(payload: bytes)
    ensures
      var comma := LastComma(payload);
      && (comma.None? ==> forall i :: 0 <= i < |payload| ==> payload[i] != 0x2c)
      && (comma.Some? ==> comma.value < |payload| && payload[comma.value] == 0x2c
                          && forall i :: comma.value < i < |payload| ==> payload[i] != 0x2c)
  {
    if payload != [] && payload[|payload| - 1] != 0x2c {
      CommaMeaning(payload[..|payload| - 1]);
    }
  }

  lemma NumberMeaning(text: bytes, value: u32)
    ensures ParseU32(text) == Some(value) <==> NumberIs(text, value)
  {
    var digits := if text != [] && text[0] == 0x2b then text[1..] else text;
    DigitsMeaning([], digits, 0);
    assert [] + digits == digits;
  }

  lemma TargetMeaning(payload: bytes, path: bytes, mode: u32)
    ensures SendTarget(payload) == Some((path, mode)) <==> TargetIs(payload, path, mode)
  {
    CommaMeaning(payload);
    var comma := LastComma(payload);
    hide LastComma, ParseU32, NumberIs;
    if comma.Some? {
      NumberMeaning(payload[comma.value + 1..], mode);
      if TargetIs(payload, path, mode) {
        assert comma.value == |path|;
      }
    }
  }

  // Requests.

  /// The answers to a LIST: one entry for each name, up to the first that is too long, and the end, or FAIL
  /// when not all of them could be listed.
  ghost predicate ListingIs(answers: seq<Response>, entries: seq<Dent>, complete: bool) {
    && answers != [] && |answers| - 1 <= |entries|
    && (forall k :: 0 <= k < |answers| - 1 ==> |entries[k].name| < U32_LIMIT && answers[k] == Packet(Entry(entries[k])))
    && (if complete && |answers| - 1 == |entries|
        then answers[|answers| - 1] == Packet(Ascii("DONE") + [0, 0, 0, 0, 0, 0, 0, 0, 0, 0, 0, 0, 0, 0, 0, 0])
        else answers[|answers| - 1] == Fail)
    && (|answers| - 1 < |entries| ==> |entries[|answers| - 1].name| >= U32_LIMIT)
  }

  function Entry(d: Dent): bytes
    requires |d.name| < U32_LIMIT
  {
    Ascii("DENT") + ToLe32(d.mode) + ToLe32(d.size) + ToLe32(d.mtime) + ToLe32(|d.name|) + d.name
  }

  lemma {:induction false} EntriesMeaning(entries: seq<Dent>)
    ensures
      var (packets, whole) := DentPackets(entries);
      && |packets| <= |entries| && (whole <==> |packets| == |entries|)
      && (forall k :: 0 <= k < |packets| ==> |entries[k].name| < U32_LIMIT && packets[k] == Packet(Entry(entries[k])))
      && (|packets| < |entries| ==> |entries[|packets|].name| >= U32_LIMIT)
  {
    hide Bytes.Ascii, Bytes.ToLe32;
    if entries != [] {
      EntriesMeaning(entries[1..]);
    }
  }

  lemma ListingMeaning(h: Host, s: Session, path: bytes)
    ensures
      var next, (entries, complete) := HandleList(h, s, path), h.list(s.log, path);
      && next.log == s.log + [List(path)] && next.mode == s.mode && next.buffer == s.buffer
      && s.responses <= next.responses && ListingIs(next.responses[|s.responses|..], entries, complete)
  {
    var (entries, complete) := h.list(s.log, path);
    EntriesMeaning(entries);
    PacketMeaning(0, 0, 0, []);
    hide Bytes.Ascii, Bytes.ToLe32, DentPackets, Entry, ListDonePacket;
    var (packets, whole) := DentPackets(entries);
    var end := if complete && whole then Packet(ListDonePacket()) else Fail;
    var next := HandleList(h, s, path);
    assert next.responses == s.responses + (packets + [end]);
    assert next.responses[|s.responses|..] == packets + [end];
  }

  /// What a request makes of an idle session.
  ghost predicate RequestIs(h: Host, s: Session, id: bytes, payload: bytes, next: Session) {
    if id == Ascii("STAT") then
      var (mode, size, mtime) := h.stat(s.log, payload);
      && next.responses == s.responses + [Packet(Ascii("STAT") + ToLe32(mode) + ToLe32(size) + ToLe32(mtime))]
      && next.log == s.log + [Stat(payload)] && next.mode == Idle
    else if id == Ascii("LIST") then
      var (entries, complete) := h.list(s.log, payload);
      && s.responses <= next.responses && ListingIs(next.responses[|s.responses|..], entries, complete)
      && next.log == s.log + [List(payload)] && next.mode == Idle
    else if id == Ascii("RECV") then
      next.responses == s.responses + [File(payload)] && next.log == s.log && next.mode == Idle
    else if id == Ascii("SEND") && exists path: bytes, mode: u32 :: TargetIs(payload, path, mode) then
      exists path: bytes, mode: u32 :: TargetIs(payload, path, mode) && Started(h, s, path, mode, next)
    else if id == Ascii("QUIT") then
      next.responses == s.responses && next.log == s.log && next.mode == Idle
    else
      next.responses == s.responses + [Fail] && next.log == s.log && next.mode == Idle
  }

  /// A SEND starts: directories are made, symbolic links are refused in the end, and everything else is a file.
  ghost predicate Started(h: Host, s: Session, path: bytes, mode: u32, next: Session) {
    && next.responses == s.responses
    && if mode / 0x1000 % 0x10 == 0x4 then
         next.log == s.log + [Mkdir(path)] && next.mode == Receiving(Send(path, mode, false, !h.mkdir(s.log, path)))
       else if mode / 0x1000 % 0x10 == 0xa then
         next.log == s.log && next.mode == Receiving(Send(path, mode, false, true))
       else
         var made := h.create(s.log, path);
         next.log == s.log + [Create(path)] && next.mode == Receiving(Send(path, mode, made, !made))
  }

  lemma StartMeaning(h: Host, s: Session, payload: bytes, path: bytes, mode: u32)
    requires TargetIs(payload, path, mode)
    ensures Started(h, s, path, mode, StartSend(h, s, payload))
  {
    TargetMeaning(payload, path, mode);
    hide TargetIs, SendTarget;
  }

  lemma NotStarted(h: Host, s: Session, payload: bytes)
    requires forall path: bytes, mode: u32 :: !TargetIs(payload, path, mode)
    ensures StartSend(h, s, payload) == Respond(s, Fail)
  {
    var target := SendTarget(payload);
    if target.Some? {
      TargetMeaning(payload, target.value.0, target.value.1);
    }
  }

  lemma SixNames()
    ensures Ascii("STAT") == [0x53, 0x54, 0x41, 0x54] && Ascii("LIST") == [0x4c, 0x49, 0x53, 0x54]
    ensures Ascii("RECV") == [0x52, 0x45, 0x43, 0x56] && Ascii("SEND") == [0x53, 0x45, 0x4e, 0x44]
    ensures Ascii("QUIT") == [0x51, 0x55, 0x49, 0x54]
  {
  }

  lemma HandledMeaning(h: Host, s: Session, id: bytes, payload: bytes)
    requires s.mode.Idle?
    ensures RequestIs(h, s, id, payload, HandleRequest(h, s, id, payload))
    ensures HandleRequest(h, s, id, payload).buffer == s.buffer
  {
    SixNames();
    hide Bytes.Ascii, Bytes.ToLe32, TargetIs, StartSend, Started, HandleList, ListingIs;
    if id == Ascii("LIST") {
      ListingMeaning(h, s, payload);
    } else if id == Ascii("SEND") {
      if path: bytes, mode: u32 :| TargetIs(payload, path, mode) {
        StartMeaning(h, s, payload, path, mode);
        StartKeeps(h, s, payload);
      } else {
        NotStarted(h, s, payload);
      }
    }
  }

  lemma StartKeeps(h: Host, s: Session, payload: bytes)
    ensures StartSend(h, s, payload).buffer == s.buffer
  {
    hide SendTarget;
  }

  // Messages.

  /// A session waits until its buffer holds a whole message.
  lemma WaitMeaning(h: Host, s: Session)
    ensures Next(h, s).Wait? <==>
      || |s.buffer| < 8
      || (|s.buffer| < 8 + Le32(s.buffer[4..8]) && (s.mode.Idle? || s.buffer[..4] == Ascii("DATA")))
  {
    hide HandleRequest, HandleData, FinishSend, Bytes.Le32, Bytes.Ascii;
  }

  lemma MessageParts(id: bytes, payload: bytes, rest: bytes)
    requires |id| == 4 && |payload| < U32_LIMIT
    ensures
      var buffer, n := Message(id, payload) + rest, 8 + |payload|;
      && |buffer| >= n && buffer[..4] == id && Le32(buffer[4..8]) == |payload| && buffer[8..n] == payload && buffer[n..] == rest
  {
    Le32ToLe32(|payload|);
    hide Bytes.Le32, Bytes.ToLe32;
    var buffer := Message(id, payload) + rest;
    assert buffer[4..8] == ToLe32(|payload|);
  }

  /// An idle session takes the first message of its buffer as a request.
  lemma RequestMeaning(h: Host, s: Session, id: bytes, payload: bytes, rest: bytes)
    requires s.mode.Idle? && |id| == 4 && |payload| < U32_LIMIT && s.buffer == Message(id, payload) + rest
    ensures Next(h, s).Went? && Next(h, s).next.buffer == rest
    ensures RequestIs(h, s.(buffer := rest), id, payload, Next(h, s).next)
  {
    MessageParts(id, payload, rest);
    HandledMeaning(h, s.(buffer := rest), id, payload);
    hide Message, HandleRequest, Bytes.Le32, Bytes.Ascii, RequestIs;
  }

  /// A receiving session takes DATA as content of the file, ...
  lemma DataMeaning(h: Host, s: Session, data: bytes, rest: bytes)
    requires s.mode.Receiving? && |data| < U32_LIMIT && s.buffer == Message(Ascii("DATA"), data) + rest
    ensures
      var t, send := Next(h, s), s.mode.send;
      && t.Went? && t.next.buffer == rest && t.next.responses == s.responses
      && (if send.failed || (!send.open && data == []) then t.next.log == s.log && t.next.mode == s.mode
          else if !send.open then t.next.log == s.log && t.next.mode == Receiving(send.(failed := true))
          else t.next.log == s.log + [Write(send.path, data)]
               && t.next.mode == if h.write(s.log, send.path, data) then s.mode
                                 else Receiving(send.(failed := true, open := false)))
  {
    MessageParts(Ascii("DATA"), data, rest);
    hide Message, Bytes.Le32, Bytes.Ascii;
  }

  /// ... DONE as its end, with the time of modification in place of a length, ...
  lemma DoneMeaning(h: Host, s: Session, mtime: u32, rest: bytes)
    requires s.mode.Receiving? && s.buffer == Ascii("DONE") + ToLe32(mtime) + rest
    ensures
      var t, send := Next(h, s), s.mode.send;
      && t.Went? && t.next.buffer == rest && t.next.mode == Idle
      && (if send.failed then t.next.log == s.log && t.next.responses == s.responses + [Fail]
          else t.next.log == s.log + [Finish(send.path, send.mode, mtime)]
               && t.next.responses == s.responses +
                    [if h.finish(s.log, send.path, send.mode, mtime) then Packet(Ascii("OKAY") + [0, 0, 0, 0]) else Fail])
  {
    assert s.buffer[..4] == Ascii("DONE") && s.buffer[4..8] == ToLe32(mtime) && s.buffer[8..] == rest;
    Le32ToLe32(mtime);
    NoughtBytes();
    assert Ascii("DONE") != Ascii("DATA") by {
      assert Ascii("DONE")[1] == 'O' as int && Ascii("DATA")[1] == 'A' as int;
    }
    hide Bytes.Le32, Bytes.ToLe32, Bytes.Ascii;
  }

  /// ... and anything else as an error that ends the transfer and drops the buffer.
  lemma ForeignMeaning(h: Host, s: Session)
    requires s.mode.Receiving? && |s.buffer| >= 8 && s.buffer[..4] != Ascii("DATA") && s.buffer[..4] != Ascii("DONE")
    ensures Next(h, s) == Lost(Session([], Idle, s.log, s.responses + [Fail]))
  {
    hide Bytes.Le32, Bytes.Ascii;
  }
}
