/**
 The client's reading of the media progress stream (client_media_progress.go): server-sent events as in
 section 9.2.6 of the WHATWG HTML Living Standard, under the client's own limits.
 */
module WatchMedia {
  import opened Text

  /** 1<<20: the scanner's longest token, its newline included, and the bound on an event's data. */
  const LIMIT: int := 0x10_0000

  /** What receive is given; a heartbeat carries no read. */
  datatype Update = Update(event: string, cursor: string, read: Option<string>)

  datatype Outcome = UnexpectedEOF | LineTooLong | EventTooLarge | BadJSON | ServerError(data: string) | ReceiveFailed

  datatype State = State(event: string, cursor: string, data: string, delivered: seq<Update>)

  /** decodes: an event's data unmarshals; receives: the nth delivery returns no error. */
  datatype Host = Host(decodes: (string, string) -> bool, receives: nat -> bool)

  predicate IsRead(event: string) { event in {"snapshot", "progress", "resync"} }

  // ---------------------------------------------------------------- lines

  /** bufio.ScanLines drops one trailing carriage return. */
  function DropCR(line: string): string {
    if line != "" && line[|line| - 1] == '\r' then line[..|line| - 1] else line
  }

  /** The scanner's lines, and whether it then failed on one that does not fit its buffer. */
  function Scan(stream: string): (seq<string>, bool) {
    if stream == "" then ([], false) else
      var i := IndexOf(stream, '\n');
      if i >= LIMIT then ([], true)
      else if i == |stream| then ([DropCR(stream)], false)
      else
        var (lines, failed) := Scan(stream[i + 1..]);
        ([DropCR(stream[..i])] + lines, failed)
  }

  // ---------------------------------------------------------------- steps

  /** The blank line's dispatch. */
  function Dispatch(s: State, host: Host): (State, Option<Outcome>) {
    if s.data == "" then (s.(event := ""), None)
    else if IsRead(s.event) && !host.decodes(s.event, s.data) then (s, Some(BadJSON))
    else if s.event == "error" then (s, Some(if host.decodes(s.event, s.data) then ServerError(s.data) else BadJSON))
    else if IsRead(s.event) || s.event == "heartbeat" then
      var update := Update(s.event, s.cursor, if IsRead(s.event) then Some(s.data) else None);
      (State("", s.cursor, "", s.delivered + [update]),
       if host.receives(|s.delivered|) then None else Some(ReceiveFailed))
    else (s.(event := "", data := ""), None)
  }

  function TrimPrefix(value: string): string { if value != "" && value[0] == ' ' then value[1..] else value }

  function Field(s: State, line: string): (State, Option<Outcome>) {
    match Cut(line, ':')
    case None => (s, None)
    case Some((key, rest)) =>
      var value := TrimPrefix(rest);
      if key == "event" then (s.(event := value), None)
      else if key == "id" then (if '\0' in value then s else s.(cursor := value), None)
      else if key == "data" then
        if |s.data| + |value| > LIMIT then (s, Some(EventTooLarge))
        else (s.(data := (if s.data != "" then s.data + "\n" else "") + value), None)
      else (s, None)
  }

  function Line(s: State, line: string, host: Host): (State, Option<Outcome>) {
    if line == "" then Dispatch(s, host) else Field(s, line)
  }

  /** The lines one by one, until an outcome. */
  function Steps(s: State, lines: seq<string>, host: Host): (State, Option<Outcome>)
    decreases lines
  {
    if lines == [] then (s, None) else
      var (next, outcome) := Line(s, lines[0], host);
      if outcome.Some? then (next, outcome) else Steps(next, lines[1..], host)
  }

  /** A whole stream. */
  function Watched(s: State, stream: string, host: Host): (State, Outcome) {
    var (lines, failed) := Scan(stream);
    var (last, outcome) := Steps(s, lines, host);
    (last, if outcome.Some? then outcome.value else if failed then LineTooLong else UnexpectedEOF)
  }

  const START: State := State("", "", "", [])

  class Watcher {
    var event: string
    var cursor: string
    var data: string
    var delivered: seq<Update>

    function Now(): State
      reads this
    {
      State(event, cursor, data, delivered)
    }

    constructor ()
      ensures Now() == START
    {
      event, cursor, data, delivered := "", "", "", [];
    }

    /** A blank line delivers at most one update, exactly for a known event whose data is not empty and, if
        it carries a read, decodes; the cursor stays, and nothing else is left for the next event. */
    method DispatchEvent(host: Host) returns (outcome: Option<Outcome>)
      modifies this
      ensures (Now(), outcome) == Dispatch(old(Now()), host)
      ensures cursor == old(cursor) && (outcome == None ==> event == "" && data == "")
      ensures var known :=
                if IsRead(old(event)) then host.decodes(old(event), old(data)) else old(event) == "heartbeat";
              if old(data) != "" && known then
                && delivered == old(delivered) +
                   [Update(old(event), cursor, if IsRead(old(event)) then Some(old(data)) else None)]
                && (outcome == None <==> host.receives(|old(delivered)|))
              else delivered == old(delivered)
    {
      if data == "" {
        event := "";
        return None;
      }
      var update := Update(event, cursor, None);
      match event {
        case "snapshot" | "progress" | "resync" =>
          if !host.decodes(event, data) { return Some(BadJSON); }
          update := update.(read := Some(data));
        case "error" =>
          if !host.decodes(event, data) { return Some(BadJSON); }
          return Some(ServerError(data));
        case "heartbeat" =>
        case _ =>
          data, event := "", "";
          return None;
      }
      data, event := "", "";
      var received := host.receives(|delivered|);
      delivered := delivered + [update];
      outcome := if received then None else Some(ReceiveFailed);
    }

    /** Reads the stream to its end or the first failure. No more than LIMIT + 1 bytes of data are ever
        buffered. */
    method Watch(stream: string, host: Host) returns (outcome: Outcome)
      requires |data| <= LIMIT + 1
      modifies this
      ensures (Now(), outcome) == Watched(old(Now()), stream, host)
      ensures |data| <= LIMIT + 1
    {
      hide Dispatch, Cut, Watched;
      var rest := stream;
      while rest != ""
        invariant |data| <= LIMIT + 1
        invariant Watched(Now(), rest, host) == Watched(old(Now()), stream, host)
        decreases |rest|
      {
        WatchedOne(Now(), rest, host);
        var i := IndexOf(rest, '\n');
        if i >= LIMIT { return LineTooLong; }
        var line := DropCR(rest[..i]);
        rest := if i == |rest| then "" else rest[i + 1..];
        ghost var before := Now();
        if line == "" {
          var stop := DispatchEvent(host);
          DispatchShrinks(before, host);
          if stop.Some? { return stop.value; }
        } else {
          var field := Cut(line, ':');
          if field.None? { continue; }
          var key, value := field.value.0, TrimPrefix(field.value.1);
          match key {
            case "event" => event := value;
            case "id" => if '\0' !in value { cursor := value; }
            case "data" =>
              if |data| + |value| > LIMIT { return EventTooLarge; }
              if data != "" { data := data + "\n"; }
              data := data + value;
            case _ =>
          }
        }
      }
      WatchedNothing(Now(), host);
      return UnexpectedEOF;
    }
  }

  lemma WatchedNothing(s: State, host: Host)
    ensures Watched(s, "", host) == (s, UnexpectedEOF)
  {}

  /** A stream is read line by line. */
  lemma WatchedOne(s: State, stream: string, host: Host)
    requires stream != ""
    ensures var i := IndexOf(stream, '\n');
            Watched(s, stream, host) ==
              if i >= LIMIT then (s, LineTooLong)
              else
                var r := Line(s, DropCR(stream[..i]), host);
                if r.1.Some? then (r.0, r.1.value)
                else Watched(r.0, if i == |stream| then "" else stream[i + 1..], host)
  {
    hide Line, DropCR, Scan, Steps, IndexOf, Watched;
    var i := IndexOf(stream, '\n');
    ScanStep(stream);
    if i >= LIMIT {
      WatchedTooLong(s, stream, host);
    } else {
      WatchedLine(s, stream, DropCR(stream[..i]), if i == |stream| then "" else stream[i + 1..], host);
    }
  }

  lemma WatchedTooLong(s: State, stream: string, host: Host)
    requires Scan(stream) == ([], true)
    ensures Watched(s, stream, host) == (s, LineTooLong)
  {
    hide Scan;
  }

  lemma WatchedLine(s: State, stream: string, line: string, rest: string, host: Host)
    requires Scan(stream) == ([line] + Scan(rest).0, Scan(rest).1)
    ensures var r := Line(s, line, host);
            Watched(s, stream, host) == if r.1.Some? then (r.0, r.1.value) else Watched(r.0, rest, host)
  {
    hide Scan, Line, Steps;
    StepsCons(s, line, Scan(rest).0, host);
  }

  lemma ScanStep(stream: string)
    requires stream != ""
    ensures var i := IndexOf(stream, '\n');
            Scan(stream) ==
              if i >= LIMIT then ([], true)
              else
                var rest := Scan(if i == |stream| then "" else stream[i + 1..]);
                ([DropCR(stream[..i])] + rest.0, rest.1)
  {
    hide DropCR;
    assert stream[..|stream|] == stream;
    assert Scan("") == ([], false);
    assert [DropCR(stream)] + [] == [DropCR(stream)];
  }

  lemma StepsCons(s: State, line: string, lines: seq<string>, host: Host)
    ensures Steps(s, [line] + lines, host) ==
              var (next, outcome) := Line(s, line, host);
              if outcome.Some? then (next, outcome) else Steps(next, lines, host)
  {
    hide Line;
    assert ([line] + lines)[1..] == lines;
  }

  lemma DispatchShrinks(s: State, host: Host)
    ensures |Dispatch(s, host).0.data| <= |s.data|
  {}

  /** Comments, fields the client does not know, lines without a colon and ids with a NUL change nothing. */
  lemma IgnoredLines(s: State, host: Host, key: string, rest: string)
    requires ':' !in key
    ensures key !in {"event", "id", "data"} ==> Line(s, key + ":" + rest, host) == (s, None)
    ensures key != "" ==> Line(s, key, host) == (s, None)
    ensures '\0' in rest ==> Line(s, "id:" + rest, host) == (s, None)
  {
    hide Dispatch, Cut;
    assert key + ":" + rest == key + [':'] + rest && "id:" + rest == "id" + [':'] + rest;
    CutJoined(key, ':', rest);
    CutJoined("id", ':', rest);
    CutAbsent(key, ':');
    if '\0' in rest && rest[0] == ' ' {
      assert rest == [' '] + rest[1..];
    }
  }

  // ---------------------------------------------------------------- bounds

  /** After any lines at all, the buffered data is at most LIMIT + 1 bytes. */
  lemma {:induction false} BufferIsBounded(s: State, lines: seq<string>, host: Host)
    requires |s.data| <= LIMIT + 1
    ensures |Steps(s, lines, host).0.data| <= LIMIT + 1
    decreases lines
  {
    if lines != [] {
      DispatchShrinks(s, host);
      if Line(s, lines[0], host).1.None? { BufferIsBounded(Line(s, lines[0], host).0, lines[1..], host); }
    }
  }

  // ---------------------------------------------------------------- printed frames

  /** How a server writes its lines: a space after the colon or none, and either line end. */
  datatype Style = Style(space: bool, crlf: bool)

  const PLAIN := Style(true, false)

  function Colon(style: Style): string { if style.space then ": " else ":" }

  function LineEnd(style: Style): string { if style.crlf then "\r\n" else "\n" }

  datatype Frame = Frame(id: Option<string>, event: string, data: seq<string>)

  function DataLines(data: seq<string>, style: Style): seq<string> {
    if data == [] then [] else DataLines(data[..|data| - 1], style) + ["data" + Colon(style) + data[|data| - 1]]
  }

  function Heading(f: Frame, style: Style): seq<string> {
    (if f.id.Some? then ["id" + Colon(style) + f.id.value] else []) + ["event" + Colon(style) + f.event]
  }

  function FrameLines(f: Frame, style: Style): seq<string> { Heading(f, style) + DataLines(f.data, style) + [""] }

  function Print(frames: seq<Frame>, style: Style): seq<string> {
    if frames == [] then [] else FrameLines(frames[0], style) + Print(frames[1..], style)
  }

  /** The bytes of lines. */
  function Bytes(lines: seq<string>, style: Style): string {
    if lines == [] then "" else lines[0] + LineEnd(style) + Bytes(lines[1..], style)
  }

  /** The data the client buffers for a frame. */
  function DataOf(data: seq<string>): string {
    if data == [] then "" else
      var before := DataOf(data[..|data| - 1]);
      (if before != "" then before + "\n" else "") + data[|data| - 1]
  }

  /** It is the lines joined, exactly, when the first is not empty. */
  lemma {:induction false} DataIsJoined(data: seq<string>)
    requires data != [] && data[0] != ""
    ensures DataOf(data) == Join(data, "\n") && DataOf(data) != ""
    decreases data
  {
    if |data| == 1 {
      assert DataOf(data[..0]) == "";
    } else {
      var init, last := data[..|data| - 1], data[|data| - 1];
      DataIsJoined(init);
      JoinLast(init, last);
      assert data == init + [last];
    }
  }

  lemma {:induction false} JoinLast(init: seq<string>, last: string)
    requires init != []
    ensures Join(init + [last], "\n") == Join(init, "\n") + "\n" + last
    decreases init
  {
    if |init| > 1 {
      assert (init + [last])[1..] == init[1..] + [last];
      JoinLast(init[1..], last);
    }
  }

  /** One printed line's value: no line break of its own, and room for the line in the scanner's buffer. */
  predicate Fits(name: string, value: string, style: Style) {
    && '\n' !in value && (value != "" ==> value[|value| - 1] != '\r' && (style.space || value[0] != ' '))
    && |name + Colon(style) + value| + |LineEnd(style)| <= LIMIT
  }

  /** The reader's own bound: before each data line, what is buffered and the line's value. */
  predicate DataFits(data: seq<string>) {
    data == [] || (DataFits(data[..|data| - 1]) && |DataOf(data[..|data| - 1])| + |data[|data| - 1]| <= LIMIT)
  }

  predicate FrameOk(f: Frame, style: Style) {
    && Fits("event", f.event, style) && (f.id.Some? ==> Fits("id", f.id.value, style) && '\0' !in f.id.value)
    && (forall d <- f.data :: Fits("data", d, style)) && DataFits(f.data)
  }

  function CursorAfter(f: Frame, cursor: string): string { if f.id.Some? then f.id.value else cursor }

  /** One frame's update, if any. */
  function UpdateOf(f: Frame, cursor: string): seq<Update> {
    if DataOf(f.data) == "" then []
    else if IsRead(f.event) then [Update(f.event, CursorAfter(f, cursor), Some(DataOf(f.data)))]
    else if f.event == "heartbeat" then [Update(f.event, CursorAfter(f, cursor), None)]
    else []
  }

  /** What the frames say, read independently: the known events with data up to the first error event. */
  function Deliveries(frames: seq<Frame>, cursor: string): seq<Update> {
    if frames == [] || (frames[0].event == "error" && DataOf(frames[0].data) != "") then []
    else UpdateOf(frames[0], cursor) + Deliveries(frames[1..], CursorAfter(frames[0], cursor))
  }

  function FirstError(frames: seq<Frame>): Option<string> {
    if frames == [] then None
    else if DataOf(frames[0].data) != "" && frames[0].event == "error" then Some(DataOf(frames[0].data))
    else FirstError(frames[1..])
  }

  /** What one host gets of it: until the first event it does not decode, error event, or delivery it does
      not receive. n counts earlier deliveries. */
  function Received(frames: seq<Frame>, cursor: string, n: nat, host: Host): (seq<Update>, Option<Outcome>) {
    if frames == [] then ([], None) else
      var f, update := frames[0], UpdateOf(frames[0], cursor);
      var data := DataOf(f.data);
      if data != "" && (IsRead(f.event) || f.event == "error") && !host.decodes(f.event, data) then
        ([], Some(BadJSON))
      else if data != "" && f.event == "error" then ([], Some(ServerError(data)))
      else if update != [] && !host.receives(n) then (update, Some(ReceiveFailed))
      else
        var (more, outcome) := Received(frames[1..], CursorAfter(f, cursor), n + |update|, host);
        (update + more, outcome)
  }

  /** It is a prefix of what the frames say, and all of it for a host that decodes and receives everything. */
  lemma {:induction false} ReceivedIsPrefix(frames: seq<Frame>, cursor: string, n: nat, host: Host)
    ensures Received(frames, cursor, n, host).0 <= Deliveries(frames, cursor)
    ensures Agreeable(host) ==>
              && Received(frames, cursor, n, host).0 == Deliveries(frames, cursor)
              && Received(frames, cursor, n, host).1 ==
                 match FirstError(frames) case None => None case Some(e) => Some(ServerError(e))
    decreases frames
  {
    hide DataOf;
    if frames != [] {
      ReceivedIsPrefix(frames[1..], CursorAfter(frames[0], cursor), n + |UpdateOf(frames[0], cursor)|, host);
    }
  }

  /** The host decodes and receives everything. */
  ghost predicate Agreeable(host: Host) {
    (forall e, d :: host.decodes(e, d)) && forall n: nat :: host.receives(n)
  }

  // ---------------------------------------------------------------- reading frames back

  lemma {:induction false} StepsConcat(s: State, a: seq<string>, b: seq<string>, host: Host)
    ensures Steps(s, a + b, host) ==
              if Steps(s, a, host).1.Some? then Steps(s, a, host) else Steps(Steps(s, a, host).0, b, host)
    decreases a
  {
    if a == [] {
      assert a + b == b;
    } else {
      assert (a + b)[1..] == a[1..] + b;
      var (next, outcome) := Line(s, a[0], host);
      if outcome.None? { StepsConcat(next, a[1..], b, host); }
    }
  }

  lemma FieldIs(key: string, value: string, style: Style)
    requires ':' !in key && (style.space || value == "" || value[0] != ' ')
    ensures var rest := if style.space then " " + value else value;
            Cut(key + Colon(style) + value, ':') == Some((key, rest)) && TrimPrefix(rest) == value
  {
    var rest := if style.space then " " + value else value;
    assert key + Colon(style) + value == key + [':'] + rest;
    CutJoined(key, ':', rest);
    assert (" " + value)[1..] == value;
  }

  lemma StepsOne(s: State, line: string, host: Host)
    ensures Steps(s, [line], host) == Line(s, line, host)
  {
    assert [line][1..] == [];
  }

  lemma HeadingSteps(s: State, f: Frame, host: Host, style: Style)
    requires Fits("event", f.event, style)
    requires f.id.Some? ==> '\0' !in f.id.value && Fits("id", f.id.value, style)
    ensures Steps(s, Heading(f, style), host) == (s.(event := f.event, cursor := CursorAfter(f, s.cursor)), None)
  {
    hide Cut;
    FieldIs("event", f.event, style);
    var event := "event" + Colon(style) + f.event;
    var s' := s;
    if f.id.Some? {
      FieldIs("id", f.id.value, style);
      var id := "id" + Colon(style) + f.id.value;
      s' := s.(cursor := f.id.value);
      StepsOne(s, id, host);
      StepsConcat(s, [id], [event], host);
    } else {
      assert Heading(f, style) == [event];
    }
    StepsOne(s', event, host);
  }

  lemma {:induction false} DataSteps(s: State, data: seq<string>, host: Host, style: Style)
    requires s.data == "" && DataFits(data) && forall d <- data :: Fits("data", d, style)
    ensures Steps(s, DataLines(data, style), host) == (s.(data := DataOf(data)), None)
    decreases data
  {
    hide Cut;
    if data != [] {
      var init, last := data[..|data| - 1], data[|data| - 1];
      assert last in data && forall d <- init :: d in data;
      DataSteps(s, init, host, style);
      var line := "data" + Colon(style) + last;
      StepsConcat(s, DataLines(init, style), [line], host);
      FieldIs("data", last, style);
      StepsOne(s.(data := DataOf(init)), line, host);
    }
  }

  lemma FrameSteps(s: State, f: Frame, host: Host, style: Style)
    requires s.data == "" && FrameOk(f, style)
    ensures Steps(s, FrameLines(f, style), host) ==
              Dispatch(s.(event := f.event, cursor := CursorAfter(f, s.cursor), data := DataOf(f.data)), host)
  {
    hide Dispatch;
    var s1 := s.(event := f.event, cursor := CursorAfter(f, s.cursor));
    HeadingSteps(s, f, host, style);
    DataSteps(s1, f.data, host, style);
    StepsOne(s1.(data := DataOf(f.data)), "", host);
    StepsConcat(s, Heading(f, style), DataLines(f.data, style), host);
    StepsConcat(s, Heading(f, style) + DataLines(f.data, style), [""], host);
  }

  lemma DispatchFrame(s: State, f: Frame, host: Host)
    requires s.data == ""
    ensures var (next, outcome) :=
              Dispatch(s.(event := f.event, cursor := CursorAfter(f, s.cursor), data := DataOf(f.data)), host);
            var one := Received([f], s.cursor, |s.delivered|, host);
            && next.delivered == s.delivered + one.0 && outcome == one.1
            && (outcome.None? ==>
                  && next == State("", CursorAfter(f, s.cursor), "", s.delivered + UpdateOf(f, s.cursor)))
  {
    hide DataOf;
    assert [f][1..] == [];
    assert UpdateOf(f, s.cursor) + [] == UpdateOf(f, s.cursor);
  }

  lemma ReceivedCons(frames: seq<Frame>, cursor: string, n: nat, host: Host)
    requires frames != []
    ensures var one := Received([frames[0]], cursor, n, host);
            var update := UpdateOf(frames[0], cursor);
            && (one.1.None? ==> one.0 == update)
            && Received(frames, cursor, n, host) ==
               if one.1.Some? then one else
                 var rest := Received(frames[1..], CursorAfter(frames[0], cursor), n + |update|, host);
                 (update + rest.0, rest.1)
  {
    hide DataOf, UpdateOf;
    assert [frames[0]][1..] == [];
    assert UpdateOf(frames[0], cursor) + [] == UpdateOf(frames[0], cursor);
  }

  /** All the frames, read line by line, are what the host receives of them. */
  lemma {:induction false} FramesDeliver(s: State, frames: seq<Frame>, host: Host, style: Style)
    requires s.data == "" && s.event == "" && forall f <- frames :: FrameOk(f, style)
    ensures var (last, outcome) := Steps(s, Print(frames, style), host);
            var received := Received(frames, s.cursor, |s.delivered|, host);
            && last.delivered == s.delivered + received.0 && outcome == received.1
            && (outcome.None? ==> last.data == "" && last.event == "")
    decreases frames
  {
    hide Dispatch, FrameLines, FrameOk, UpdateOf, CursorAfter, Received, Steps;
    if frames == [] {
      NoFrames(s, host, style);
    } else {
      var f, rest := frames[0], frames[1..];
      assert f in frames && forall g <- rest :: g in frames;
      FrameSteps(s, f, host, style);
      DispatchFrame(s, f, host);
      StepsConcat(s, FrameLines(f, style), Print(rest, style), host);
      ReceivedCons(frames, s.cursor, |s.delivered|, host);
      var (next, outcome) := Steps(s, FrameLines(f, style), host);
      if outcome.None? { FramesDeliver(next, rest, host, style); }
    }
  }

  lemma NoFrames(s: State, host: Host, style: Style)
    ensures Steps(s, Print([], style), host) == (s, None) && Received([], s.cursor, |s.delivered|, host) == ([], None)
  {}

  // ---------------------------------------------------------------- bytes

  predicate ShortLine(line: string, style: Style) {
    '\n' !in line && (line != "" ==> line[|line| - 1] != '\r') && |line| + |LineEnd(style)| <= LIMIT
  }

  lemma {:induction false} ScanPrinted(lines: seq<string>, tail: string, style: Style)
    requires forall l <- lines :: ShortLine(l, style)
    ensures Scan(Bytes(lines, style) + tail) == (lines + Scan(tail).0, Scan(tail).1)
    decreases lines
  {
    hide Scan, ShortLine;
    if lines == [] {
      assert Bytes(lines, style) + tail == tail;
      assert [] + Scan(tail).0 == Scan(tail).0;
    } else {
      var rest := Bytes(lines[1..], style) + tail;
      assert lines[0] in lines && forall l <- lines[1..] :: l in lines;
      ScanPrinted(lines[1..], tail, style);
      ScanOne(lines[0], rest, style);
      assert Bytes(lines, style) + tail == lines[0] + LineEnd(style) + rest;
      assert lines == [lines[0]] + lines[1..];
      assert lines + Scan(tail).0 == [lines[0]] + (lines[1..] + Scan(tail).0);
    }
  }

  lemma ScanOne(line: string, rest: string, style: Style)
    requires ShortLine(line, style)
    ensures Scan(line + LineEnd(style) + rest) == ([line] + Scan(rest).0, Scan(rest).1)
  {
    hide Scan, IndexOf, DropCR;
    var stream := line + LineEnd(style) + rest;
    var i := |line| + |LineEnd(style)| - 1;
    assert stream[..i] == line + LineEnd(style)[..|LineEnd(style)| - 1] && stream[i + 1..] == rest;
    assert stream[i] == '\n' && '\n' !in stream[..i];
    LineKept(line, style);
    IndexOfUnique(stream, '\n', i);
    ScanStep(stream);
  }

  lemma LineKept(line: string, style: Style)
    requires line != "" ==> line[|line| - 1] != '\r'
    ensures DropCR(line + LineEnd(style)[..|LineEnd(style)| - 1]) == line
  {
    assert (line + "\r")[..|line|] == line && line + "" == line;
  }

  lemma {:induction false} DataLinesShort(data: seq<string>, style: Style)
    requires forall d <- data :: Fits("data", d, style)
    ensures forall l <- DataLines(data, style) :: ShortLine(l, style)
    decreases data
  {
    if data != [] {
      assert data[|data| - 1] in data;
      DataLinesShort(data[..|data| - 1], style);
      ValueShort("data", data[|data| - 1], style);
    }
  }

  lemma ValueShort(name: string, value: string, style: Style)
    requires name in {"id", "event", "data"} && Fits(name, value, style)
    ensures ShortLine(name + Colon(style) + value, style)
  {
    var line := name + Colon(style) + value;
    assert '\n' !in name + Colon(style);
    assert value == "" ==> line == name + Colon(style);
    assert value != "" ==> line[|line| - 1] == value[|value| - 1];
  }

  lemma {:induction false} PrintShort(frames: seq<Frame>, style: Style)
    requires forall f <- frames :: FrameOk(f, style)
    ensures forall l <- Print(frames, style) :: ShortLine(l, style)
    decreases frames
  {
    if frames != [] {
      var f := frames[0];
      assert f in frames;
      DataLinesShort(f.data, style);
      ValueShort("event", f.event, style);
      if f.id.Some? { ValueShort("id", f.id.value, style); }
      PrintShort(frames[1..], style);
    }
  }

  function Size(lines: seq<string>): nat { if lines == [] then 0 else |lines[0]| + Size(lines[1..]) }

  lemma {:induction false} ScanSize(stream: string)
    requires |stream| < LIMIT
    ensures Size(Scan(stream).0) <= |stream| && !Scan(stream).1
    decreases |stream|
  {
    if stream != "" {
      var i := IndexOf(stream, '\n');
      if i < |stream| { ScanSize(stream[i + 1..]); }
    }
  }

  /** Field lines without a blank one deliver nothing, and stop nothing while their data fits. */
  lemma {:induction false} UnterminatedDeliversNothing(s: State, lines: seq<string>, host: Host)
    requires forall l <- lines :: l != ""
    ensures var (last, outcome) := Steps(s, lines, host);
            && last.delivered == s.delivered && outcome in {None, Some(EventTooLarge)}
            && (|s.data| + Size(lines) <= LIMIT ==> outcome == None)
    decreases lines
  {
    if lines != [] {
      assert lines[0] in lines && forall l <- lines[1..] :: l in lines;
      CutParts(lines[0], ':');
      var (next, outcome) := Field(s, lines[0]);
      UnterminatedDeliversNothing(next, lines[1..], host);
    }
  }

  /** Any event sequence printed as frames in any style, followed by a last frame that never got its blank
      line. The host receives exactly what Received says: everything the frames say when it decodes and receives
      all, and otherwise what came before its first failure. The unterminated rest is dropped. */
  lemma WatchedFrames(frames: seq<Frame>, tail: string, host: Host, style: Style)
    requires (forall f <- frames :: FrameOk(f, style)) && forall l <- Scan(tail).0 :: l != ""
    ensures var (last, outcome) := Watched(START, Bytes(Print(frames, style), style) + tail, host);
            var (received, failure) := Received(frames, "", 0, host);
            && last.delivered == received <= Deliveries(frames, "")
            && (match failure
                case Some(o) => outcome == o
                case None => outcome in {UnexpectedEOF, EventTooLarge, LineTooLong}
                             && (|tail| < LIMIT ==> outcome == UnexpectedEOF))
            && (Agreeable(host) ==>
                  && received == Deliveries(frames, "")
                  && failure == match FirstError(frames) case None => None case Some(e) => Some(ServerError(e)))
  {
    PrintShort(frames, style);
    ScanPrinted(Print(frames, style), tail, style);
    FramesDeliver(START, frames, host, style);
    ReceivedIsPrefix(frames, "", 0, host);
    StepsConcat(START, Print(frames, style), Scan(tail).0, host);
    if |tail| < LIMIT { ScanSize(tail); }
    hide Steps, Print, Scan, Bytes, Deliveries, FirstError, Agreeable, Received;
    var (mid, outcome) := Steps(START, Print(frames, style), host);
    if outcome.None? { UnterminatedDeliversNothing(mid, Scan(tail).0, host); }
  }

  function OneFrame(id: string, event: string, body: string): string {
    Bytes(["id: " + id, "event: " + event, "data: " + body, ""], PLAIN)
  }

  /** Exactly the one-line bodies that leave the scanner room for their field name and newline are delivered,
      though the server sends bodies of up to LIMIT bytes: the last six bytes of that limit are lost. */
  lemma DeliveredExactlyWhenItFits(id: string, event: string, body: string, host: Host)
    requires Fits("id", id, PLAIN) && Fits("event", event, PLAIN) && '\0' !in id
    requires body != "" && '\n' !in body && body[|body| - 1] != '\r'
    requires (IsRead(event) || event == "heartbeat") && Agreeable(host)
    ensures var (last, outcome) := Watched(START, OneFrame(id, event, body), host);
            if |body| < LIMIT - |"data: "| then
              && last.delivered == [Update(event, id, if IsRead(event) then Some(body) else None)]
              && outcome == UnexpectedEOF
            else last.delivered == [] && outcome == LineTooLong
  {
    if |body| >= LIMIT - |"data: "| {
      LargestBodiesAreLost(id, event, body, host);
    } else {
      var f := Frame(Some(id), event, [body]);
      assert [body][..0] == [] && DataOf([]) == "" && DataOf(f.data) == body;
      assert DataFits([]) && DataFits(f.data);
      OneFrameIs(f, body);
      hide Bytes, Print, Watched, DataFits, Fits;
      WatchedFrames([f], "", host, PLAIN);
      assert Bytes(Print([f], PLAIN), PLAIN) + "" == Bytes(Print([f], PLAIN), PLAIN);
      assert [f][1..] == [] && Deliveries([], id) == [] && FirstError([]) == None;
      assert UpdateOf(f, "") + [] == UpdateOf(f, "");
    }
  }

  lemma OneFrameIs(f: Frame, body: string)
    requires f.id.Some? && f.data == [body]
    ensures Bytes(Print([f], PLAIN), PLAIN) == OneFrame(f.id.value, f.event, body)
  {
    hide Bytes;
    assert [f][1..] == [] && Print([], PLAIN) == [] && [body][..0] == [] && DataLines([], PLAIN) == [];
    assert "id" + ": " + f.id.value == "id: " + f.id.value && "event" + ": " + f.event == "event: " + f.event;
    assert "data" + ": " + body == "data: " + body;
    assert Print([f], PLAIN) == ["id: " + f.id.value, "event: " + f.event, "data: " + body, ""];
  }

  /** A longer body ends the stream, whoever the host is. */
  lemma LargestBodiesAreLost(id: string, event: string, body: string, host: Host)
    requires Fits("id", id, PLAIN) && Fits("event", event, PLAIN) && '\0' !in id && '\n' !in body
    requires LIMIT - |"data: "| <= |body|
    ensures var (last, outcome) := Watched(START, OneFrame(id, event, body), host);
            outcome == LineTooLong && last.delivered == []
  {
    var head, line := ["id: " + id, "event: " + event], "data: " + body;
    var all := ["id: " + id, "event: " + event, line, ""];
    ValueShort("id", id, PLAIN);
    ValueShort("event", event, PLAIN);
    assert "id" + ": " + id == head[0] && "event" + ": " + event == head[1];
    assert all[1..] == [all[1], line, ""] && all[1..][1..] == [line, ""];
    var tail := Bytes([line, ""], PLAIN);
    assert Bytes(all, PLAIN) == Bytes(head, PLAIN) + tail by {
      assert head[1..] == ["event: " + event] && head[1..][1..] == [];
      assert Bytes(head[1..], PLAIN) == head[1] + "\n";
    }
    ScanPrinted(head, tail, PLAIN);
    LongLineFails(line);
    assert head + [] == head;
    HeadingSteps(START, Frame(Some(id), event, []), host, PLAIN);
    assert Heading(Frame(Some(id), event, []), PLAIN) == head;
  }

  lemma LongLineFails(line: string)
    requires '\n' !in line && |line| >= LIMIT
    ensures Scan(Bytes([line, ""], PLAIN)) == ([], true)
  {
    var tail := Bytes([line, ""], PLAIN);
    assert [line, ""][1..] == [""];
    assert tail == line + "\n" + Bytes([""], PLAIN);
    assert tail[..|line|] == line && tail[|line|] == '\n';
    IndexOfUnique(tail, '\n', |line|);
  }
}
