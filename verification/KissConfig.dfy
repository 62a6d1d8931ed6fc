/**
  * The configuration commands that travel in KISS frames: a one byte checksum, the
  * dispatch of a received frame, and the responses the device sends back.
  */
module KissConfig {
  import opened Bytes
  import opened Kiss

  // ---------------------------------------------------------------------
  // The checksum
  // ---------------------------------------------------------------------

  function SumTo(s: seq<byte>, n: nat): (r: nat)
    requires n <= |s|
  {
    if n == 0 then 0 else SumTo(s, n - 1) + s[n - 1]
  }

  /** The complement of the sum of all bytes, in eight bits. */
  function Crc(s: seq<byte>): (r: byte) {
    255 - SumTo(s, |s|) % 256
  }

  /** The loop as it is written. Its index has eight bits, so it ends only for up to 255 bytes. */
  method ComputeCrc(data: seq<byte>) returns (r: byte)
    requires |data| <= 255
    ensures r == Crc(data)
  {
    var i, sum: int := 0, 0;
    while i < |data|
      invariant 0 <= i <= |data|
      invariant sum == SumTo(data, i) % 256
    {
      AddMod(SumTo(data, i), data[i]);
      sum := (sum + data[i]) % 256;
      i := (i + 1) % 256;
    }
    r := 255 - sum;
  }

  lemma AddMod(x: nat, y: nat)
    ensures (x % 256 + y) % 256 == (x + y) % 256
  {
  }

  /** The loop's index after n turns. */
  function Index(n: nat): (i: nat)
    ensures i == n % 256
  {
    if n == 0 then 0 else (Index(n - 1) + 1) % 256
  }

  /** Some number of turns takes the index to the end exactly when the size fits eight bits. */
  lemma CrcEndsIff(size: nat)
    ensures (exists n: nat :: Index(n) >= size) <==> size <= 255
  {
    if size <= 255 {
      assert Index(size) >= size;
    }
  }

  lemma {:induction false} SumOfUpdate(s: seq<byte>, i: nat, b: byte, n: nat)
    requires i < |s| && n <= |s|
    ensures SumTo(s[i := b], n) == SumTo(s, n) + if i < n then b - s[i] else 0
  {
    if n > 0 {
      SumOfUpdate(s, i, b, n - 1);
    }
  }

  lemma {:induction false} SumOfPrefix(s: seq<byte>, t: seq<byte>, n: nat)
    requires n <= |s| && n <= |t| && forall i :: 0 <= i < n ==> s[i] == t[i]
    ensures SumTo(s, n) == SumTo(t, n)
  {
    if n > 0 {
      SumOfPrefix(s, t, n - 1);
    }
  }

  /** The last byte has to be the checksum of the ones before it. */
  predicate Verified(payload: seq<byte>) {
    payload != [] && payload[|payload| - 1] == Crc(payload[..|payload| - 1])
  }

  /** verify_config_data. */
  method VerifyConfig(payload: seq<byte>) returns (good: bool)
    requires |payload| <= 255
    ensures good == Verified(payload)
  {
    if |payload| == 0 {
      return false;
    }
    var n := |payload| - 1;
    var sum := ComputeCrc(payload[..n]);
    good := payload[n] == sum;
  }

  function WithCrc(data: seq<byte>): (r: seq<byte>)
    ensures |r| == |data| + 1
  {
    data + [Crc(data)]
  }

  lemma WithCrcVerified(data: seq<byte>)
    ensures Verified(WithCrc(data))
  {
    assert WithCrc(data)[..|data|] == data;
  }

  /** The checksum of a payload in terms of one sum over all of it. */
  lemma VerifiedIffSum(payload: seq<byte>)
    requires payload != []
    ensures Verified(payload) <==> SumTo(payload, |payload|) % 256 == 255
  {
    var n := |payload| - 1;
    SumOfPrefix(payload[..n], payload, n);
    Complement(SumTo(payload, n), payload[n]);
  }

  lemma Complement(x: nat, p: byte)
    ensures p == 255 - x % 256 <==> (x + p) % 256 == 255
  {
  }

  /** Changing any one byte, the checksum included, is detected. */
  lemma OneChangeDetected(payload: seq<byte>, i: nat, b: byte)
    requires Verified(payload) && i < |payload| && b != payload[i]
    ensures !Verified(payload[i := b])
  {
    VerifiedIffSum(payload);
    VerifiedIffSum(payload[i := b]);
    SumOfUpdate(payload, i, b, |payload|);
  }

  // ---------------------------------------------------------------------
  // Responses
  // ---------------------------------------------------------------------

  const CMD_DATA := 0x00
  const CMD_TEXT := 0x0B
  const CMD_CALL := 0x0C
  const CMD_PARAMS := 0x0D
  const CMD_MAGIC := 0x0F

  function Response(cmd: nat, data: seq<byte>): (r: seq<byte>) {
    Encode(Header(0, cmd), WithCrc(data))
  }

  /** A response as the device sends it: the data and its checksum in one frame. */
  method Respond(serial: Serial, cmd: nat, data: seq<byte>)
    requires |data| <= 255
    modifies serial
    ensures serial.sent == old(serial.sent) + Response(cmd, data)
  {
    ghost var before := serial.sent;
    var crc := ComputeCrc(data);
    serial.Begin(0, cmd);
    serial.Send(data);
    serial.Send([crc]);
    serial.End();
    EscapeAppend(data, [crc]);
    RegroupFive(before, [FEND, Header(0, cmd)], EscapeAll(data), EscapeAll([crc]), [FEND]);
  }

  lemma RegroupFive(a: seq<byte>, b: seq<byte>, c: seq<byte>, d: seq<byte>, e: seq<byte>)
    ensures a + b + c + d + e == a + (b + (c + d) + e)
  {
  }

  /** A response with up to 253 data bytes passes the device's own decoder and its own check. */
  lemma ResponseAccepted(d: Decoder, s: seq<Timed>, i: nat, cmd: nat, data: seq<byte>)
    requires cmd < 16 && |data| <= 253
    requires 0 < i <= |s| && s[i - 1].c == FEND && NoGaps(s, i)
    requires Carries(s, i, Response(cmd, data)) && |s| == i + |Response(cmd, data)|
    ensures Frames(d, s, |s|) == Frames(d, s, i) + [Request(cmd, data)]
    ensures Verified(Request(cmd, data)[1..])
  {
    OneDelivered(d, s, i, Frame(cmd, WithCrc(data)), Response(cmd, data));
    WithCrcVerified(data);
    RequestParts(cmd, data);
  }

  // ---------------------------------------------------------------------
  // Settings and the dispatch of frames
  // ---------------------------------------------------------------------

  const PARAMS_LEN := 11
  const CALL_LEN := 28
  const TEXT_MAX := 128
  const BUILD := 2332

  /** What the commands read and write: the parameter block, the call data and the beacon text store. */
  datatype Settings = Settings(params: seq<byte>, call: seq<byte>, textSet: bool, textStore: seq<byte>)

  ghost predicate Sized(st: Settings) {
    |st.params| == PARAMS_LEN && |st.call| == CALL_LEN && |st.textStore| == TEXT_MAX
  }

  function UpToNul(s: seq<byte>): (r: seq<byte>)
    ensures |r| <= |s| && r == s[..|r|] && 0 !in r && (|r| < |s| ==> s[|r|] == 0)
  {
    if s == [] || s[0] == 0 then [] else [s[0]] + UpToNul(s[1..])
  }

  /**
    * settings_get_beacon_text. The buffer length of 330 is passed in eight bits, so at most
    * 330 - 256 - 1 bytes are read from the store.
    */
  function BeaconText(st: Settings, byDefault: seq<byte>): (r: seq<byte>)
    requires |st.textStore| == TEXT_MAX
  {
    if st.textSet then UpToNul(st.textStore[..BUF_LEN % 256 - 1]) else byDefault
  }

  /** settings_set_beacon_text: at most 127 bytes and a terminator. */
  function StoreText(st: Settings, data: seq<byte>): (r: Settings)
    requires |st.textStore| == TEXT_MAX
    ensures |r.textStore| == TEXT_MAX && r.textSet
  {
    var n := if |data| <= TEXT_MAX - 1 then |data| else TEXT_MAX - 1;
    st.(textSet := true, textStore := data[..n] + [0] + st.textStore[n + 1..])
  }

  lemma {:induction false} UpToNulIs(s: seq<byte>, t: seq<byte>)
    requires 0 !in t && t <= s && (|t| < |s| ==> s[|t|] == 0)
    ensures UpToNul(s) == t
    decreases |t|
  {
    if t != [] {
      assert s[0] == t[0] && t[0] in t;
      UpToNulIs(s[1..], t[1..]);
      assert t == [t[0]] + t[1..];
    }
  }

  /** A beacon text reads back as it was written exactly when it has no NUL and at most 73 bytes. */
  lemma TextReadsBackIff(st: Settings, data: seq<byte>, byDefault: seq<byte>)
    requires |st.textStore| == TEXT_MAX
    ensures BeaconText(StoreText(st, data), byDefault) == data <==> |data| <= 73 && 0 !in data
  {
    var store := StoreText(st, data).textStore;
    if |data| <= 73 && 0 !in data {
      assert store[..73][..|data|] == data;
      UpToNulIs(store[..73], data);
    }
  }

  datatype Action = Nothing | ToModem(bytes: seq<byte>) | Reboot

  datatype Outcome = Outcome(settings: Settings, sent: seq<byte>, action: Action)

  /** kiss_handle_frame and the handlers it calls. The decoder delivers no frame longer than 255 bytes. */
  function Handle(st: Settings, frame: seq<byte>, byDefault: seq<byte>): (r: Outcome)
    requires Sized(st) && |frame| <= 255
    ensures Sized(r.settings)
  {
    if |frame| < 2 || frame[0] / 16 > 0 then Outcome(st, [], Nothing)
    else
      var cmd, payload := frame[0] % 16, frame[1..];
      if cmd == CMD_DATA then Outcome(st, [], ToModem(payload))
      else if (cmd == CMD_PARAMS || cmd == CMD_TEXT || cmd == CMD_CALL || cmd == CMD_MAGIC) && Verified(payload) then
        HandleConfig(st, cmd, payload[..|payload| - 1], byDefault)
      else Outcome(st, [], Nothing)
  }

  function Ok(): (r: seq<byte>) {
    Response(CMD_MAGIC, [])
  }

  function HandleConfig(st: Settings, cmd: nat, data: seq<byte>, byDefault: seq<byte>): (r: Outcome)
    requires Sized(st)
    ensures Sized(r.settings)
  {
    if cmd == CMD_PARAMS then
      if data == [] then Outcome(st, Response(CMD_PARAMS, st.params), Nothing)
      else if |data| == PARAMS_LEN then Outcome(st.(params := data), Ok(), Nothing)
      else Outcome(st, [], Nothing)
    else if cmd == CMD_TEXT then
      if data == [] then
        var text := BeaconText(st, byDefault);
        Outcome(st, if text == [] then [] else Response(CMD_TEXT, text), Nothing)
      else Outcome(StoreText(st, data), Ok(), Nothing)
    else if cmd == CMD_CALL then
      if data == [] then Outcome(st, Response(CMD_CALL, st.call), Nothing)
      else if |data| == CALL_LEN then Outcome(st.(call := data), Ok(), Nothing)
      else Outcome(st, [], Nothing)
    else
      if data == [0x0B, 0x00, 0x00, 0x07] then Outcome(st, Ok(), Reboot)
      else if data == [0x0B, 0x0A, 0x0B, 0x0E] then
        Outcome(st, Response(CMD_MAGIC, [1, 0, BUILD / 256, BUILD % 256]), Nothing)
      else Outcome(st, [], Nothing)
  }

  /** The device: its settings, and the serial line that responses go to. */
  class Device {
    const serial: Serial
    var settings: Settings

    constructor (serial: Serial, settings: Settings)
      ensures this.serial == serial && this.settings == settings
    {
      this.serial, this.settings := serial, settings;
    }

    /** A complete frame: the settings change and the bytes sent are those of Handle. */
    method HandleFrame(frame: seq<byte>, byDefault: seq<byte>) returns (action: Action)
      requires Sized(settings) && |frame| <= 255 && |byDefault| <= 255
      modifies this, serial
      ensures var r := Handle(old(settings), frame, byDefault);
              settings == r.settings && serial.sent == old(serial.sent) + r.sent && action == r.action
    {
      action := Nothing;
      if |frame| == 0 {
        return;
      }
      if |frame| == 1 && frame[0] == 0xFF {
        return;
      }
      if |frame| < 2 {
        return;
      }
      var cmd, port := frame[0] % 16, frame[0] / 16 % 16;
      if port > 0 {
        return;
      }
      var payload := frame[1..];
      if cmd == CMD_DATA {
        action := ToModem(payload);
      } else if cmd == CMD_PARAMS || cmd == CMD_TEXT || cmd == CMD_CALL || cmd == CMD_MAGIC {
        var good := VerifyConfig(payload);
        if good {
          action := HandleConfigCommand(cmd, payload[..|payload| - 1], byDefault);
        }
      }
    }

    method HandleConfigCommand(cmd: nat, data: seq<byte>, byDefault: seq<byte>) returns (action: Action)
      requires Sized(settings) && |data| <= 253 && |byDefault| <= 255
      modifies this, serial
      ensures var r := HandleConfig(old(settings), cmd, data, byDefault);
              settings == r.settings && serial.sent == old(serial.sent) + r.sent && action == r.action
    {
      action := Nothing;
      if cmd == CMD_PARAMS {
        if |data| == 0 {
          Respond(serial, CMD_PARAMS, settings.params);
        } else if |data| == PARAMS_LEN {
          settings := settings.(params := data);
          Respond(serial, CMD_MAGIC, []);
        }
      } else if cmd == CMD_TEXT {
        if |data| == 0 {
          var text := BeaconText(settings, byDefault);
          if |text| > 0 {
            Respond(serial, CMD_TEXT, text);
          }
        } else {
          settings := StoreText(settings, data);
          Respond(serial, CMD_MAGIC, []);
        }
      } else if cmd == CMD_CALL {
        if |data| == 0 {
          Respond(serial, CMD_CALL, settings.call);
        } else if |data| == CALL_LEN {
          settings := settings.(call := data);
          Respond(serial, CMD_MAGIC, []);
        }
      } else {
        if data == [0x0B, 0x00, 0x00, 0x07] {
          Respond(serial, CMD_MAGIC, []);
          action := Reboot;
        } else if data == [0x0B, 0x0A, 0x0B, 0x0E] {
          Respond(serial, CMD_MAGIC, [1, 0, BUILD / 256, BUILD % 256]);
        }
      }
    }
  }

  function Request(cmd: byte, data: seq<byte>): (frame: seq<byte>) {
    [cmd] + WithCrc(data)
  }

  /** A request with a good checksum reaches its handler with its data. */
  lemma RequestHandled(st: Settings, cmd: byte, data: seq<byte>, byDefault: seq<byte>)
    requires Sized(st) && |data| <= 253
    requires cmd == CMD_PARAMS || cmd == CMD_TEXT || cmd == CMD_CALL || cmd == CMD_MAGIC
    ensures Handle(st, Request(cmd, data), byDefault) == HandleConfig(st, cmd, data, byDefault)
  {
    RequestParts(cmd, data);
    WithCrcVerified(data);
  }

  lemma RequestParts(cmd: byte, data: seq<byte>)
    ensures Request(cmd, data)[0] == cmd && Request(cmd, data)[1..] == WithCrc(data)
    ensures |WithCrc(data)| - 1 == |data| && WithCrc(data)[..|data|] == data
  {
  }

  /** Nothing but a frame whose checksum is right can change the settings or restart the device. */
  lemma OnlyVerifiedFramesAct(st: Settings, frame: seq<byte>, byDefault: seq<byte>)
    requires Sized(st) && |frame| <= 255
    requires |frame| < 2 || !Verified(frame[1..])
    ensures var r := Handle(st, frame, byDefault);
            r.settings == st && r.sent == [] && !r.action.Reboot?
  {
  }

  /** A frame that is a verified request for a command on port 0. */
  predicate Asks(frame: seq<byte>, cmd: byte) {
    |frame| >= 2 && frame[0] == cmd && Verified(frame[1..])
  }

  /** What such a frame carries between its header and its checksum. */
  function Carried(frame: seq<byte>): (data: seq<byte>)
    requires |frame| >= 2
  {
    frame[1..|frame| - 1]
  }

  lemma PayloadIsCarried(frame: seq<byte>)
    requires |frame| >= 2
    ensures frame[1..][..|frame[1..]| - 1] == Carried(frame)
  {
  }

  /**
    * Whatever frame comes in, each part of the settings changes only at the request of its own
    * command and to what the request carries; a change is acknowledged; only its magic restarts the device.
    */
  lemma EachCommandItsOwn(st: Settings, frame: seq<byte>, byDefault: seq<byte>)
    requires Sized(st) && |frame| <= 255
    ensures var r := Handle(st, frame, byDefault);
            && (r.settings.params != st.params ==> Asks(frame, CMD_PARAMS) && r.settings.params == Carried(frame))
            && (r.settings.call != st.call ==> Asks(frame, CMD_CALL) && r.settings.call == Carried(frame))
            && (r.settings.textSet != st.textSet || r.settings.textStore != st.textStore ==>
                  Asks(frame, CMD_TEXT) && Carried(frame) != [] && r.settings == StoreText(st, Carried(frame)))
            && (r.settings != st ==> r.sent == Ok())
            && (r.action.Reboot? ==> Asks(frame, CMD_MAGIC) && Carried(frame) == [0x0B, 0x00, 0x00, 0x07] && r.settings == st)
  {
    if |frame| >= 2 {
      PayloadIsCarried(frame);
    }
  }

  /** Data frames on port 0, and nothing else, go to the radio; whole, and with no other effect. */
  lemma DataGoesToModem(st: Settings, frame: seq<byte>, byDefault: seq<byte>)
    requires Sized(st) && |frame| <= 255
    ensures var r := Handle(st, frame, byDefault);
            && (r.action.ToModem? <==> |frame| >= 2 && frame[0] == 0)
            && (r.action.ToModem? ==> r == Outcome(st, [], ToModem(frame[1..])))
  {
  }

  /** What each query is answered with, in numbers; none of them changes a setting. */
  lemma QueriesAnswered(st: Settings, byDefault: seq<byte>)
    requires Sized(st)
    ensures Handle(st, Request(0x0D, []), byDefault) == Outcome(st, Response(0x0D, st.params), Nothing)
    ensures Handle(st, Request(0x0C, []), byDefault) == Outcome(st, Response(0x0C, st.call), Nothing)
    ensures var text := if st.textSet then UpToNul(st.textStore[..73]) else byDefault;
            Handle(st, Request(0x0B, []), byDefault) == Outcome(st, if text == [] then [] else Response(0x0B, text), Nothing)
  {
    RequestHandled(st, 0x0D, [], byDefault);
    RequestHandled(st, 0x0C, [], byDefault);
    RequestHandled(st, 0x0B, [], byDefault);
  }

  /** The two magics: the version, 1.0 build 2332, and a restart. */
  lemma MagicsAnswered(st: Settings, byDefault: seq<byte>)
    requires Sized(st)
    ensures Handle(st, Request(0x0F, [0x0B, 0x0A, 0x0B, 0x0E]), byDefault) == Outcome(st, Response(0x0F, [1, 0, 9, 28]), Nothing)
    ensures Handle(st, Request(0x0F, [0x0B, 0x00, 0x00, 0x07]), byDefault) == Outcome(st, Response(0x0F, []), Reboot)
  {
    RequestHandled(st, 0x0F, [0x0B, 0x0A, 0x0B, 0x0E], byDefault);
    RequestHandled(st, 0x0F, [0x0B, 0x00, 0x00, 0x07], byDefault);
  }

  /** What each setting is set by, in numbers. A write is answered with an empty response; data of a wrong length is ignored. */
  lemma WritesAnswered(st: Settings, data: seq<byte>, byDefault: seq<byte>)
    requires Sized(st) && 1 <= |data| <= 253
    ensures Handle(st, Request(0x0D, data), byDefault) ==
            if |data| == 11 then Outcome(st.(params := data), Response(0x0F, []), Nothing) else Outcome(st, [], Nothing)
    ensures Handle(st, Request(0x0C, data), byDefault) ==
            if |data| == 28 then Outcome(st.(call := data), Response(0x0F, []), Nothing) else Outcome(st, [], Nothing)
    ensures Handle(st, Request(0x0B, data), byDefault) == Outcome(StoreText(st, data), Response(0x0F, []), Nothing)
  {
    RequestHandled(st, 0x0D, data, byDefault);
    RequestHandled(st, 0x0C, data, byDefault);
    RequestHandled(st, 0x0B, data, byDefault);
  }

  /** A text is stored byte by byte, up to 127 of them, with a zero behind; what lies further on is kept. */
  lemma StoreTextIs(st: Settings, data: seq<byte>, i: nat)
    requires |st.textStore| == TEXT_MAX && i < 128
    ensures var (n, store) := (if |data| <= 127 then |data| else 127, StoreText(st, data).textStore);
            |store| == 128 && store[i] == if i < n then data[i] else if i == n then 0 else st.textStore[i]
  {
  }

  /** Frames that are too short, for another port, or for no known command have no effect at all. */
  lemma OthersIgnored(st: Settings, frame: seq<byte>, byDefault: seq<byte>)
    requires Sized(st) && |frame| <= 255
    requires |frame| < 2 || (frame[0] != 0 && frame[0] != 0x0B && frame[0] != 0x0C && frame[0] != 0x0D && frame[0] != 0x0F)
    ensures Handle(st, frame, byDefault) == Outcome(st, [], Nothing)
  {
  }

  /** The bytes of an encoded data frame, polled one by one, end up at the modem. */
  method Relay(device: Device, reader: Reader, payload: seq<byte>, clock: nat -> int, byDefault: seq<byte>)
    returns (action: Action)
    requires Sized(device.settings) && |byDefault| <= 255 && 1 <= |payload| <= 254
    requires reader.Valid() && Clean(reader.View())
    requires NoGaps(Stamped(EncodeAll([Frame(0, payload)]), clock), 0)
    modifies reader, reader.buf, device, device.serial
    ensures action == ToModem(payload) && device.settings == old(device.settings) && device.serial.sent == old(device.serial.sent)
  {
    ghost var st := device.settings;
    var frames := ThereAndBack(reader, [Frame(0, payload)], clock);
    DataContent(payload);
    DataGoesToModem(st, [0] + payload, byDefault);
    action := device.HandleFrame(frames[0], byDefault);
  }

  lemma DataContent(payload: seq<byte>)
    ensures Contents([Frame(0, payload)]) == [[0] + payload]
    ensures ([0] + payload)[1..] == payload
  {
  }

  /** Whatever frame comes in, the answer is nothing or one response that fits the decoder. */
  lemma AnswerIsOneResponse(st: Settings, frame: seq<byte>, byDefault: seq<byte>)
    returns (cmd: nat, data: seq<byte>)
    requires Sized(st) && |frame| <= 255 && |byDefault| <= 253
    ensures cmd < 16 && |data| <= 253
    ensures var r := Handle(st, frame, byDefault); r.sent == [] || r.sent == Response(cmd, data)
  {
    cmd, data := 0, [];
    if |frame| >= 2 && Handle(st, frame, byDefault).sent != [] {
      cmd := frame[0] % 16;
      var asked := frame[1..][..|frame| - 2];
      if asked != [] && cmd != CMD_MAGIC {
        cmd := CMD_MAGIC;
      } else if cmd == CMD_PARAMS {
        data := st.params;
      } else if cmd == CMD_CALL {
        data := st.call;
      } else if cmd == CMD_TEXT {
        data := BeaconText(st, byDefault);
      } else if asked == [0x0B, 0x0A, 0x0B, 0x0E] {
        data := [1, 0, BUILD / 256, BUILD % 256];
      }
    }
  }

  /** A damaged configuration request is ignored, whichever byte of its payload was hit. */
  lemma DamagedRequestIgnored(st: Settings, cmd: byte, data: seq<byte>, i: nat, b: byte, byDefault: seq<byte>)
    requires Sized(st) && |data| <= 253 && 0 < i < |Request(cmd, data)| && b != Request(cmd, data)[i]
    ensures var r := Handle(st, Request(cmd, data)[i := b], byDefault);
            r.settings == st && r.sent == [] && !r.action.Reboot?
  {
    var payload := WithCrc(data);
    WithCrcVerified(data);
    OneChangeDetected(payload, i - 1, b);
    assert Request(cmd, data)[i := b][1..] == payload[i - 1 := b];
    OnlyVerifiedFramesAct(st, Request(cmd, data)[i := b], byDefault);
  }

  /** Parameters and call data read back exactly as they were written, and writing one keeps the other. */
  lemma SettingsReadBack(st: Settings, cmd: byte, data: seq<byte>, byDefault: seq<byte>)
    requires Sized(st)
    requires (cmd == CMD_PARAMS && |data| == PARAMS_LEN) || (cmd == CMD_CALL && |data| == CALL_LEN)
    ensures var first := Handle(st, Request(cmd, data), byDefault);
            && first.sent == Ok()
            && Handle(first.settings, Request(cmd, []), byDefault) == Outcome(first.settings, Response(cmd, data), Nothing)
            && var other: byte := if cmd == CMD_PARAMS then CMD_CALL else CMD_PARAMS;
               Handle(first.settings, Request(other, []), byDefault).sent == Handle(st, Request(other, []), byDefault).sent
  {
    var first := Handle(st, Request(cmd, data), byDefault);
    RequestHandled(st, cmd, data, byDefault);
    RequestHandled(first.settings, cmd, [], byDefault);
    var other: byte := if cmd == CMD_PARAMS then CMD_CALL else CMD_PARAMS;
    RequestHandled(first.settings, other, [], byDefault);
    RequestHandled(st, other, [], byDefault);
  }
}
