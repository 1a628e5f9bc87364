/** The incremental parser of server-sent event streams (section 9.2.6 of the WHATWG
    HTML Living Standard describes the format). */
module Sse {
  import opened Wrappers
  import opened Decimal
  import opened Text

  const SIZE_LIMIT: nat := 0x1_0000_0000_0000_0000

  datatype Event = Event(id: Option<string>, event: string, data: string, retry: Option<nat>)

  const FRESH := Event(None, "message", "", None)

  /** What the application answers after each event, given all events so far. */
  type Callback = seq<Event> -> bool

  // ----- one line

  /** Drop one carriage return at the end. */
  function Chomp(line: string): string {
    if line != [] && line[|line| - 1] == '\r' then line[..|line| - 1] else line
  }

  /** The value after the colon, without one leading space. */
  function Unspace(value: string): string {
    if value != [] && value[0] == ' ' then value[1..] else value
  }

  /** The leading decimal number of a retry field, if there is one and it fits. */
  function ParseSize(value: string): Option<nat> {
    if Leading(value) == [] || Value(Leading(value)) >= SIZE_LIMIT then None else Some(Value(Leading(value)))
  }

  function AppendData(data: string, value: string): string {
    if data == "" then value else data + "\n" + value
  }

  function SetField(field: string, value: string, e: Event): Event {
    if field == "event" then e.(event := value)
    else if field == "data" then e.(data := AppendData(e.data, value))
    else if field == "id" then (if '\0' in value then e else e.(id := Some(value)))
    else if field == "retry" then (if ParseSize(value).Some? then e.(retry := ParseSize(value)) else e)
    else e
  }

  function ApplyLine(line: string, e: Event): Event
    requires line != ""
  {
    if line[0] == ':' then e
    else
      var n := IndexOf(line, ':');
      SetField(line[..n], if n == |line| then "" else Unspace(line[n + 1..]), e)
  }

  // ----- the whole buffer

  datatype Outcome = Outcome(buffer: string, current: Event, events: seq<Event>, ok: bool)

  /** Consume complete lines until none is left or the callback refuses an event. */
  function Drain(buffer: string, current: Event, events: seq<Event>, cb: Callback): Outcome
    decreases |buffer|
  {
    var n := IndexOf(buffer, '\n');
    if n == |buffer| then Outcome(buffer, current, events, true)
    else
      var line, rest := Chomp(buffer[..n]), buffer[n + 1..];
      if line != "" then Drain(rest, ApplyLine(line, current), events, cb)
      else if current.data == "" then Drain(rest, FRESH, events, cb)
      else if cb(events + [current]) then Drain(rest, FRESH, events + [current], cb)
      else Outcome(rest, FRESH, events + [current], false)
  }

  class Parser {
    var buffer: string
    var current: Event
    /** The events handed to the callback. */
    var events: seq<Event>

    constructor ()
      ensures buffer == "" && current == FRESH && events == []
    {
      buffer, current, events := "", FRESH, [];
    }

    method Reset()
      modifies this
      ensures buffer == "" && current == FRESH && events == old(events)
    {
      buffer, current := "", FRESH;
    }

    method DispatchEvent(cb: Callback) returns (ok: bool)
      modifies this`current, this`events
      ensures current == FRESH
      ensures events == if old(current).data == "" then old(events) else old(events) + [old(current)]
      ensures ok == (old(current).data == "" || cb(events))
    {
      if current.data == "" {
        current := FRESH;
        return true;
      }
      events := events + [current];
      current := FRESH;
      return cb(events);
    }

    method ProcessLine(line: string, cb: Callback) returns (ok: bool)
      modifies this`current, this`events
      ensures line != "" ==> ok && events == old(events) && current == ApplyLine(line, old(current))
      ensures line == "" ==>
                && current == FRESH
                && events == (if old(current).data == "" then old(events) else old(events) + [old(current)])
                && ok == (old(current).data == "" || cb(events))
    {
      if line == "" {
        ok := DispatchEvent(cb);
        return;
      }
      if line[0] == ':' {
        return true;
      }
      var colon := IndexOf(line, ':');
      var field, value := line[..colon], "";
      if colon < |line| {
        var start := colon + 1;
        if start < |line| && line[start] == ' ' {
          start := start + 1;
        }
        value := line[start..];
      }
      current := SetField(field, value, current);
      return true;
    }

    method Parse(data: string, cb: Callback) returns (ok: bool)
      modifies this
      ensures Outcome(buffer, current, events, ok) == Drain(old(buffer) + data, old(current), old(events), cb)
    {
      buffer := buffer + data;
      ghost var whole := Drain(buffer, current, events, cb);
      while IndexOf(buffer, '\n') != |buffer|
        invariant Drain(buffer, current, events, cb) == whole
        decreases |buffer|
      {
        var pos := IndexOf(buffer, '\n');
        var line := buffer[..pos];
        buffer := buffer[pos + 1..];
        if line != "" && line[|line| - 1] == '\r' {
          line := line[..|line| - 1];
        }
        var go := ProcessLine(line, cb);
        if !go {
          return false;
        }
      }
      return true;
    }
  }

  // ----- chunks

  /** Feeding more data later is the same as having it from the start, unless the
      callback has refused an event: then the rest is left unread. */
  lemma {:induction false} DrainAppend(a: string, b: string, current: Event, events: seq<Event>, cb: Callback)
    ensures var d := Drain(a, current, events, cb);
            Drain(a + b, current, events, cb) ==
              if d.ok then Drain(d.buffer + b, d.current, d.events, cb) else d.(buffer := d.buffer + b)
    decreases |a|
  {
    var n := IndexOf(a, '\n');
    if n >= |a| {
    } else {
      IndexPrefix(a, b, '\n');
      var line, rest := Chomp(a[..n]), a[n + 1..];
      assert (a + b)[..n] == a[..n] && (a + b)[n + 1..] == rest + b;
      if line != "" {
        DrainAppend(rest, b, ApplyLine(line, current), events, cb);
      } else if current.data == "" {
        DrainAppend(rest, b, FRESH, events, cb);
      } else if cb(events + [current]) {
        DrainAppend(rest, b, FRESH, events + [current], cb);
      }
    }
  }

  function Join(chunks: seq<string>): string {
    if chunks == [] then "" else chunks[0] + Join(chunks[1..])
  }

  /** Parse chunk after chunk, stopping for good at the first refusal. */
  function Feed(chunks: seq<string>, s: Outcome, cb: Callback): Outcome {
    if chunks == [] || !s.ok then s
    else Feed(chunks[1..], Drain(s.buffer + chunks[0], s.current, s.events, cb), cb)
  }

  lemma DrainPartial(buffer: string, current: Event, events: seq<Event>, cb: Callback)
    requires '\n' !in buffer
    ensures Drain(buffer, current, events, cb) == Outcome(buffer, current, events, true)
  {
  }

  /** How the stream is cut into chunks does not matter: the same events reach the
      callback and parsing ends in the same state. */
  lemma {:induction false} ChunkInvariance(chunks: seq<string>, s: Outcome, cb: Callback)
    requires s.ok && '\n' !in s.buffer
    ensures var a, b := Feed(chunks, s, cb), Drain(s.buffer + Join(chunks), s.current, s.events, cb);
            a.events == b.events && a.ok == b.ok && a.current == b.current && (a.ok ==> a.buffer == b.buffer)
  {
    hide Drain;
    if chunks == [] {
      assert s.buffer + "" == s.buffer;
      DrainPartial(s.buffer, s.current, s.events, cb);
    } else {
      var c, rest := chunks[0], Join(chunks[1..]);
      var d := Drain(s.buffer + c, s.current, s.events, cb);
      assert s.buffer + Join(chunks) == (s.buffer + c) + rest;
      DrainAppend(s.buffer + c, rest, s.current, s.events, cb);
      if d.ok {
        NoLineLeft(s.buffer + c, s.current, s.events, cb);
        ChunkInvariance(chunks[1..], d, cb);
      } else {
        FeedRefused(chunks[1..], d, cb);
      }
    }
  }

  lemma FeedRefused(chunks: seq<string>, s: Outcome, cb: Callback)
    requires !s.ok
    ensures Feed(chunks, s, cb) == s
  {
  }

  /** A parse that was not refused leaves no complete line behind. */
  lemma {:induction false} NoLineLeft(buffer: string, current: Event, events: seq<Event>, cb: Callback)
    ensures Drain(buffer, current, events, cb).ok ==> '\n' !in Drain(buffer, current, events, cb).buffer
    decreases |buffer|
  {
    var n := IndexOf(buffer, '\n');
    if n < |buffer| {
      var line, rest := Chomp(buffer[..n]), buffer[n + 1..];
      if line != "" {
        NoLineLeft(rest, ApplyLine(line, current), events, cb);
      } else if current.data == "" {
        NoLineLeft(rest, FRESH, events, cb);
      } else {
        NoLineLeft(rest, FRESH, events + [current], cb);
      }
    } else {
      assert buffer[..n] == buffer;
    }
  }

  // ----- printing an event and parsing it back

  /** The lines of a text, cut at newlines. */
  function Lines(text: string): (ls: seq<string>)
    ensures ls != []
    ensures forall l | l in ls :: '\n' !in l
  {
    var n := IndexOf(text, '\n');
    if n == |text| then
      assert text[..n] == text;
      [text]
    else [text[..n]] + Lines(text[n + 1..])
  }

  function FieldLine(name: string, value: string): string {
    name + ": " + value + "\n"
  }

  function DataLines(ls: seq<string>): string {
    if ls == [] then "" else FieldLine("data", ls[0]) + DataLines(ls[1..])
  }

  function IdLine(id: Option<string>): string {
    if id.Some? then FieldLine("id", id.value) else ""
  }

  function RetryLine(retry: Option<nat>): string {
    if retry.Some? then FieldLine("retry", Decimal.Print(retry.value)) else ""
  }

  function ReadId(id: Option<string>): Option<string> {
    if id.Some? && '\0' !in Chomp(id.value) then Some(Chomp(id.value)) else None
  }

  function Print(e: Event): string {
    FieldLine("event", e.event) + DataLines(Lines(e.data))
    + IdLine(e.id) + RetryLine(e.retry) + "\n"
  }

  /** A field is one line of the stream. */
  predicate OneLine(e: Event) {
    && '\n' !in e.event
    && (e.id.Some? ==> '\n' !in e.id.value)
    && (e.retry.Some? ==> e.retry.value < SIZE_LIMIT)
  }

  /** What the data lines accumulate to. */
  function Gather(data: string, ls: seq<string>): string
    decreases |ls|
  {
    if ls == [] then data else Gather(AppendData(data, Chomp(ls[0])), ls[1..])
  }

  /** The event the parser reads back from a printed one. */
  function Reread(e: Event): Event {
    Event(ReadId(e.id), Chomp(e.event), Gather("", Lines(e.data)), e.retry)
  }

  /** One non-empty line in front of the rest of the stream. */
  lemma DrainLine(line: string, rest: string, current: Event, events: seq<Event>, cb: Callback)
    requires '\n' !in line && Chomp(line) != ""
    ensures Drain(line + "\n" + rest, current, events, cb) == Drain(rest, ApplyLine(Chomp(line), current), events, cb)
  {
    var s := line + "\n" + rest;
    assert s[..|line|] == line && s[|line| + 1..] == rest;
    IndexAt(s, '\n', |line|);
  }

  lemma ApplyField(name: string, value: string, current: Event)
    requires name != "" && ':' !in name
    ensures Chomp(name + ": " + value) == name + ": " + Chomp(value)
    ensures ApplyLine(name + ": " + Chomp(value), current) == SetField(name, Chomp(value), current)
  {
    hide SetField, ApplyLine, Chomp;
    ChompTail(name + ": ", value);
    ApplyColon(name, Chomp(value), current);
  }

  /** A carriage return at the end is dropped from the value. */
  lemma ChompTail(head: string, value: string)
    requires head != "" && head[|head| - 1] != '\r'
    ensures Chomp(head + value) == head + Chomp(value)
  {
    var line := head + value;
    if value == "" {
      assert line == head;
    } else if value[|value| - 1] == '\r' {
      assert line[..|line| - 1] == head + value[..|value| - 1];
    }
  }

  lemma ApplyColon(name: string, value: string, current: Event)
    requires name != "" && ':' !in name
    ensures ApplyLine(name + ": " + value, current) == SetField(name, value, current)
  {
    hide SetField, IndexOf;
    var s := name + ": " + value;
    assert s[..|name|] == name && s[|name| + 1..] == " " + value;
    IndexAt(s, ':', |name|);
    assert (" " + value)[1..] == value;
  }

  // ----- every kind of line

  /** A line may end in a carriage return and a newline, or in a newline alone. */
  function LineEnd(cr: bool): string {
    if cr then "\r\n" else "\n"
  }

  /** The end of a line is taken off, and nothing else of it. */
  lemma {:induction false} DrainEnd(line: string, cr: bool, rest: string,
                                    current: Event, events: seq<Event>, cb: Callback)
    requires '\n' !in line && line != "" && (line[|line| - 1] == '\r' ==> cr)
    ensures Drain(line + LineEnd(cr) + rest, current, events, cb) == Drain(rest, ApplyLine(line, current), events, cb)
  {
    hide ApplyLine, IndexOf, Drain;
    if cr {
      assert line + LineEnd(cr) + rest == (line + "\r") + "\n" + rest;
      assert (line + "\r")[..|line|] == line;
      DrainLine(line + "\r", rest, current, events, cb);
    } else {
      DrainLine(line, rest, current, events, cb);
    }
  }

  /** A carriage return before it does not keep an empty line from ending the event. */
  lemma {:induction false} BlankEnd(rest: string, current: Event, events: seq<Event>, cb: Callback)
    ensures Drain("\r\n" + rest, current, events, cb) == Drain("\n" + rest, current, events, cb)
  {
    DrainBlank(rest, current, events, cb);
    var s := "\r\n" + rest;
    assert s[..1] == "\r" && s[2..] == rest;
    IndexAt(s, '\n', 1);
  }

  /** A comment changes nothing. */
  lemma {:induction false} CommentLine(text: string, cr: bool, rest: string,
                                       current: Event, events: seq<Event>, cb: Callback)
    requires '\n' !in text && (text != "" && text[|text| - 1] == '\r' ==> cr)
    ensures Drain(":" + text + LineEnd(cr) + rest, current, events, cb) == Drain(rest, current, events, cb)
  {
    hide Drain;
    DrainEnd(":" + text, cr, rest, current, events, cb);
  }

  /** The parts of a line with a colon; the space after the colon is optional, and a value
      that starts with a space needs it. */
  lemma {:induction false} ColonLine(name: string, space: bool, value: string, current: Event)
    requires name != "" && ':' !in name && (value != "" && value[0] == ' ' ==> space)
    ensures ApplyLine(name + ":" + (if space then " " else "") + value, current) == SetField(name, value, current)
  {
    hide SetField, IndexOf;
    var tail := (if space then " " else "") + value;
    var s := name + ":" + tail;
    assert s == name + ":" + (if space then " " else "") + value;
    assert s[..|name|] == name && s[|name| + 1..] == tail;
    IndexAt(s, ':', |name|);
    assert space ==> tail[1..] == value;
  }

  /** What a line with a field does, with and without the space after its colon and
      whatever its end: the value of the field, character by character, and nothing else. */
  lemma {:induction false} FieldReceived(name: string, space: bool, value: string, cr: bool, rest: string,
                                         current: Event, events: seq<Event>, cb: Callback)
    requires name != "" && ':' !in name && '\n' !in name && '\n' !in value
    requires value != "" ==> (value[0] == ' ' ==> space) && (value[|value| - 1] == '\r' ==> cr)
    ensures var line := name + ":" + (if space then " " else "") + value + LineEnd(cr);
            var got := Drain(line + rest, current, events, cb);
            && (name == "event" ==> got == Drain(rest, current.(event := value), events, cb))
            && (name == "data" ==>
                  var data := if current.data == "" then value else current.data + "\n" + value;
                  got == Drain(rest, current.(data := data), events, cb))
            && (name == "id" ==>
                  got == Drain(rest, if '\0' in value then current else current.(id := Some(value)), events, cb))
            && (name !in {"event", "data", "id", "retry"} ==> got == Drain(rest, current, events, cb))
  {
    hide Drain, ApplyLine;
    var line := name + ":" + (if space then " " else "") + value;
    DrainEnd(line, cr, rest, current, events, cb);
    ColonLine(name, space, value, current);
  }

  /** A retry line takes the number that its value starts with, whatever follows; a value
      that starts with no digit, or with a number beyond 64 bits, is ignored. */
  lemma {:induction false} RetryReceived(space: bool, value: string, n: nat, cr: bool, rest: string,
                                         current: Event, events: seq<Event>, cb: Callback)
    requires '\n' !in value && n <= |value|
    requires AllDigits(value[..n]) && (n < |value| ==> !IsDigit(value[n]))
    requires value != "" ==> (value[0] == ' ' ==> space) && (value[|value| - 1] == '\r' ==> cr)
    ensures Drain("retry" + ":" + (if space then " " else "") + value + LineEnd(cr) + rest, current, events, cb)
         == Drain(rest, if n > 0 && Value(value[..n]) < 0x1_0000_0000_0000_0000
                        then current.(retry := Some(Value(value[..n]))) else current, events, cb)
  {
    hide Drain, ApplyLine, Value, Leading, AllDigits;
    var line := "retry" + ":" + (if space then " " else "") + value;
    DrainEnd(line, cr, rest, current, events, cb);
    ColonLine("retry", space, value, current);
    RetryValue(value, n, current);
  }

  lemma {:induction false} RetryValue(value: string, n: nat, current: Event)
    requires n <= |value| && AllDigits(value[..n]) && (n < |value| ==> !IsDigit(value[n]))
    ensures SetField("retry", value, current)
         == if n > 0 && Value(value[..n]) < 0x1_0000_0000_0000_0000
            then current.(retry := Some(Value(value[..n]))) else current
  {
    hide Value, Leading;
    if n == |value| {
      assert value[..n] == value;
      LeadingAll(value);
    } else {
      assert value[..n] + value[n..] == value;
      LeadingStops(value[..n], value[n..]);
    }
  }

  /** A line without a colon is a field with an empty value. */
  lemma {:induction false} BareLine(name: string, cr: bool, rest: string,
                                    current: Event, events: seq<Event>, cb: Callback)
    requires name != "" && ':' !in name && '\n' !in name && (name[|name| - 1] == '\r' ==> cr)
    ensures Drain(name + LineEnd(cr) + rest, current, events, cb)
         == Drain(name + ":" + LineEnd(cr) + rest, current, events, cb)
  {
    hide Drain, ApplyLine;
    DrainEnd(name, cr, rest, current, events, cb);
    assert name + ":" + LineEnd(cr) + rest == (name + ":" + "" + "") + LineEnd(cr) + rest;
    DrainEnd(name + ":", cr, rest, current, events, cb);
    ColonLine(name, false, "", current);
    assert name + ":" + "" + "" == name + ":";
    BareField(name, current);
  }

  lemma {:induction false} BareField(name: string, current: Event)
    requires name != "" && ':' !in name
    ensures ApplyLine(name, current) == SetField(name, "", current)
  {
    hide SetField;
    assert name[..|name|] == name;
  }

  lemma DrainField(name: string, value: string, rest: string, current: Event, events: seq<Event>, cb: Callback)
    requires name != "" && ':' !in name && '\n' !in name && '\n' !in value
    ensures Drain(FieldLine(name, value) + rest, current, events, cb)
         == Drain(rest, SetField(name, Chomp(value), current), events, cb)
  {
    var line := name + ": " + value;
    assert FieldLine(name, value) + rest == line + "\n" + rest;
    ApplyField(name, value, current);
    DrainLine(line, rest, current, events, cb);
  }

  lemma {:induction false} DrainData(ls: seq<string>, rest: string, current: Event, events: seq<Event>, cb: Callback)
    requires forall l | l in ls :: '\n' !in l
    ensures Drain(DataLines(ls) + rest, current, events, cb)
         == Drain(rest, current.(data := Gather(current.data, ls)), events, cb)
  {
    if ls == [] {
      assert DataLines(ls) + rest == rest;
    } else {
      assert DataLines(ls) + rest == FieldLine("data", ls[0]) + (DataLines(ls[1..]) + rest);
      DrainField("data", ls[0], DataLines(ls[1..]) + rest, current, events, cb);
      DrainData(ls[1..], rest, current.(data := AppendData(current.data, Chomp(ls[0]))), events, cb);
    }
  }

  lemma ParseSizeOfPrint(n: nat)
    requires n < SIZE_LIMIT
    ensures '\n' !in Decimal.Print(n) && Chomp(Decimal.Print(n)) == Decimal.Print(n)
    ensures ParseSize(Decimal.Print(n)) == Some(n)
  {
    ValueOfPrint(n);
    LeadingAll(Decimal.Print(n));
    assert Decimal.Print(n)[|Decimal.Print(n)| - 1] in Decimal.Print(n);
  }

  lemma DrainId(id: Option<string>, rest: string, current: Event, events: seq<Event>, cb: Callback)
    requires id.Some? ==> '\n' !in id.value
    requires current.id.None?
    ensures Drain(IdLine(id) + rest, current, events, cb) == Drain(rest, current.(id := ReadId(id)), events, cb)
  {
    hide Drain, Chomp;
    if id.Some? {
      DrainField("id", id.value, rest, current, events, cb);
    } else {
      assert IdLine(id) + rest == rest;
      assert current.(id := ReadId(id)) == current;
    }
  }

  lemma DrainRetry(retry: Option<nat>, rest: string, current: Event, events: seq<Event>, cb: Callback)
    requires retry.Some? ==> retry.value < SIZE_LIMIT
    requires current.retry.None?
    ensures Drain(RetryLine(retry) + rest, current, events, cb) == Drain(rest, current.(retry := retry), events, cb)
  {
    hide Drain, Chomp, ParseSize, Decimal.Print;
    if retry.Some? {
      ParseSizeOfPrint(retry.value);
      DrainField("retry", Decimal.Print(retry.value), rest, current, events, cb);
    } else {
      assert RetryLine(retry) + rest == rest;
      assert current.(retry := retry) == current;
    }
  }

  /** Parsing a printed event, whatever it holds. */
  lemma DrainPrinted(e: Event, rest: string, events: seq<Event>, cb: Callback)
    requires OneLine(e)
    ensures Drain(Print(e) + rest, FRESH, events, cb) == Drain("\n" + rest, Reread(e), events, cb)
  {
    hide Drain, Chomp, Lines, Gather, DataLines, IdLine, RetryLine, ReadId, FieldLine;
    var r3 := "\n" + rest;
    var r2 := RetryLine(e.retry) + r3;
    var r1 := IdLine(e.id) + r2;
    var r0 := DataLines(Lines(e.data)) + r1;
    assert Print(e) + rest == FieldLine("event", e.event) + r0;
    var e1 := FRESH.(event := Chomp(e.event));
    DrainField("event", e.event, r0, FRESH, events, cb);
    DrainData(Lines(e.data), r1, e1, events, cb);
    var e2 := e1.(data := Gather("", Lines(e.data)));
    DrainId(e.id, r2, e2, events, cb);
    DrainRetry(e.retry, r3, e2.(id := ReadId(e.id)), events, cb);
  }

  lemma DrainBlank(rest: string, e: Event, events: seq<Event>, cb: Callback)
    ensures Drain("\n" + rest, e, events, cb) ==
              if e.data == "" then Drain(rest, FRESH, events, cb)
              else if cb(events + [e]) then Drain(rest, FRESH, events + [e], cb)
              else Outcome(rest, FRESH, events + [e], false)
  {
    var s := "\n" + rest;
    assert s[1..] == rest;
    IndexAt(s, '\n', 0);
  }

  /** An event starts without id, type and retry of the event before it: data alone arrives
      with the type "message" and nothing else. */
  lemma DataAlone(value: string, events: seq<Event>)
    requires value != "" && '\n' !in value && value[0] != ' ' && value[|value| - 1] != '\r'
    ensures Drain("data:" + value + "\n\n", Event(None, "message", "", None), events, KeepGoing)
         == Outcome("", Event(None, "message", "", None), events + [Event(None, "message", value, None)], true)
    ensures Drain("\n", Event(Some(value), value, value, Some(1)), events, KeepGoing).current
         == Event(None, "message", "", None)
  {
    hide Drain;
    FieldReceived("data", false, value, false, "\n", FRESH, events, KeepGoing);
    assert "data" + ":" + "" + value + LineEnd(false) + "\n" == "data:" + value + "\n\n";
    var e := FRESH.(data := value);
    assert "\n" + "" == "\n";
    DrainBlank("", e, events, KeepGoing);
    DrainBlank("", Event(Some(value), value, value, Some(1)), events, KeepGoing);
    DrainPartial("", FRESH, events + [e], KeepGoing);
    DrainPartial("", FRESH, events + [Event(Some(value), value, value, Some(1))], KeepGoing);
  }

  // ----- which events survive printing and parsing

  /** The text survives the removal of a carriage return at the end of its line. */
  predicate Plain(line: string) {
    line == "" || line[|line| - 1] != '\r'
  }

  predicate AllPlain(ls: seq<string>) {
    forall l | l in ls :: Plain(l)
  }

  /** The events that parsing gives back unchanged. */
  predicate Survives(e: Event) {
    && Plain(e.event)
    && (e.id.Some? ==> Plain(e.id.value) && '\0' !in e.id.value)
    && Lines(e.data)[0] != "" && AllPlain(Lines(e.data))
  }

  function Unlines(ls: seq<string>): string
    requires ls != []
  {
    if |ls| == 1 then ls[0] else ls[0] + "\n" + Unlines(ls[1..])
  }

  /** The length of the lines with one newline each. */
  function Weight(ls: seq<string>): nat {
    if ls == [] then 0 else |ls[0]| + 1 + Weight(ls[1..])
  }

  lemma {:induction false} UnlinesLines(text: string)
    ensures Unlines(Lines(text)) == text
    ensures Weight(Lines(text)) == |text| + 1
    decreases |text|
  {
    hide Unlines, Weight;
    var n := IndexOf(text, '\n');
    if n < |text| {
      var head, rest := text[..n], text[n + 1..];
      UnlinesLines(rest);
      UnlinesFirst(head, Lines(rest));
      WeightFirst(head, Lines(rest));
      assert text == head + "\n" + rest;
    } else {
      UnlinesOne(text);
      WeightFirst(text, []);
      WeightNone();
      assert [text] + [] == [text];
    }
  }

  lemma WeightFirst(first: string, ls: seq<string>)
    ensures Weight([first] + ls) == |first| + 1 + Weight(ls)
  {
    assert ([first] + ls)[1..] == ls;
  }

  lemma WeightNone()
    ensures Weight([]) == 0
  {
  }

  /** Lost carriage returns and lost empty lines both make the text shorter. */
  lemma {:induction false} GatherBound(data: string, ls: seq<string>)
    ensures |Gather(data, ls)| <= |data| + Weight(ls)
    ensures data == "" && ls != [] ==> |Gather(data, ls)| < Weight(ls)
    ensures |Gather(data, ls)| == |data| + Weight(ls) ==> AllPlain(ls)
    decreases |ls|
  {
    if ls == [] {
    } else {
      GatherBound(AppendData(data, Chomp(ls[0])), ls[1..]);
      if |Gather(data, ls)| == |data| + Weight(ls) {
        assert AllPlain(ls[1..]) && Plain(ls[0]);
        assert forall l | l in ls :: l == ls[0] || l in ls[1..];
      }
    }
  }

  lemma UnlinesFirst(first: string, ls: seq<string>)
    requires ls != []
    ensures Unlines([first] + ls) == first + "\n" + Unlines(ls)
  {
    assert ([first] + ls)[1..] == ls;
  }

  lemma UnlinesMerge(a: string, b: string, ls: seq<string>)
    ensures Unlines([a + "\n" + b] + ls) == a + "\n" + Unlines([b] + ls)
  {
    hide Unlines;
    if ls == [] {
      UnlinesOne(a + "\n" + b);
      UnlinesOne(b);
      assert [a + "\n" + b] + ls == [a + "\n" + b] && [b] + ls == [b];
    } else {
      UnlinesFirst(a + "\n" + b, ls);
      UnlinesFirst(b, ls);
    }
  }

  lemma UnlinesOne(l: string)
    ensures Unlines([l]) == l
  {
  }

  lemma {:induction false} GatherPlain(data: string, ls: seq<string>)
    requires data != "" && AllPlain(ls)
    ensures Gather(data, ls) == Unlines([data] + ls)
    decreases |ls|
  {
    hide Unlines;
    if ls == [] {
      UnlinesOne(data);
      assert [data] + ls == [data];
    } else {
      assert ls[0] in ls && AllPlain(ls[1..]);
      GatherPlain(data + "\n" + ls[0], ls[1..]);
      UnlinesMerge(data, ls[0], ls[1..]);
      assert [ls[0]] + ls[1..] == ls;
      UnlinesFirst(data, ls);
    }
  }

  /** The first line starts the text without a separator. */
  lemma GatherFirst(ls: seq<string>)
    requires ls != []
    ensures Gather("", ls) == Gather(Chomp(ls[0]), ls[1..])
    ensures Weight(ls) == |ls[0]| + 1 + Weight(ls[1..])
  {
  }

  lemma AllPlainFirst(ls: seq<string>)
    requires ls != []
    ensures AllPlain(ls) <==> Plain(ls[0]) && AllPlain(ls[1..])
  {
    assert ls[0] in ls && forall l | l in ls :: l == ls[0] || l in ls[1..];
    assert forall l | l in ls[1..] :: l in ls;
  }

  lemma GatherExact(text: string)
    ensures Gather("", Lines(text)) == text != "" <==> Lines(text)[0] != "" && AllPlain(Lines(text))
  {
    hide Lines, Gather, Weight, Unlines, AllPlain;
    var ls := Lines(text);
    var first := Chomp(ls[0]);
    UnlinesLines(text);
    GatherFirst(ls);
    AllPlainFirst(ls);
    GatherBound(first, ls[1..]);
    WeightNone();
    if ls[0] != "" && AllPlain(ls) {
      GatherPlain(first, ls[1..]);
      assert [first] + ls[1..] == ls;
      GatherNonEmpty(text);
    }
  }

  /** A text whose first line is not empty is not empty. */
  lemma GatherNonEmpty(text: string)
    ensures Lines(text)[0] != "" ==> text != ""
  {
  }

  /** The callback that never stops the stream. */
  function KeepGoing(events: seq<Event>): bool {
    true
  }

  /** Printing an event and parsing it gives exactly that event if and only if no line
      ends in a carriage return, the id has no NUL and the data starts with a non-empty
      line. */
  lemma RoundTripExact(e: Event, events: seq<Event>)
    requires OneLine(e)
    ensures Drain(Print(e), FRESH, events, KeepGoing) == Outcome("", FRESH, events + [e], true) <==> Survives(e)
  {
    hide Lines, Gather, AllPlain, Print, DataLines;
    assert Print(e) + "" == Print(e);
    DrainPrinted(e, "", events, KeepGoing);
    DrainBlank("", Reread(e), events, KeepGoing);
    GatherExact(e.data);
    assert Drain("", FRESH, events, KeepGoing) == Outcome("", FRESH, events, true);
    assert Reread(e).data != "" && Reread(e) == e <==> Survives(e);
    if Reread(e).data != "" {
      assert (events + [Reread(e)])[|events|] == Reread(e);
      assert (events + [e])[|events|] == e;
    } else {
      assert |events + [e]| == |events| + 1;
    }
  }

  function PrintAll(es: seq<Event>): string {
    if es == [] then "" else Print(es[0]) + PrintAll(es[1..])
  }

  lemma DrainNothing(events: seq<Event>, cb: Callback)
    ensures Drain("", FRESH, events, cb) == Outcome("", FRESH, events, true)
  {
  }

  lemma {:induction false} DrainAll(es: seq<Event>, events: seq<Event>)
    requires forall e | e in es :: OneLine(e) && Survives(e)
    ensures Drain(PrintAll(es), FRESH, events, KeepGoing) == Outcome("", FRESH, events + es, true)
    decreases |es|
  {
    hide Survives, OneLine, Print, Drain;
    if es == [] {
      assert events + es == events;
      DrainNothing(events, KeepGoing);
    } else {
      var e := es[0];
      assert e in es;
      RoundTripExact(e, events);
      DrainAppend(Print(e), PrintAll(es[1..]), FRESH, events, KeepGoing);
      assert "" + PrintAll(es[1..]) == PrintAll(es[1..]);
      DrainAll(es[1..], events + [e]);
      assert events + [e] + es[1..] == events + es;
    }
  }

  /** A stream of printed events arrives complete and in order however the transport
      cuts it. */
  lemma StreamRoundTrip(es: seq<Event>, chunks: seq<string>)
    requires forall e | e in es :: OneLine(e) && Survives(e)
    requires Join(chunks) == PrintAll(es)
    ensures Feed(chunks, Outcome("", FRESH, [], true), KeepGoing) == Outcome("", FRESH, es, true)
  {
    hide Survives, OneLine, Print;
    var start := Outcome("", FRESH, [], true);
    assert "" + Join(chunks) == Join(chunks) && [] + es == es;
    ChunkInvariance(chunks, start, KeepGoing);
    DrainAll(es, []);
  }

  /** Data that starts with an empty line comes back without it. */
  lemma LeadingNewlineLost(events: seq<Event>)
    ensures var e := Event(None, "message", "\nx", None);
            OneLine(e) && Drain(Print(e), FRESH, events, KeepGoing) != Outcome("", FRESH, events + [e], true)
  {
    hide Print, Drain;
    var e := Event(None, "message", "\nx", None);
    IndexAt("\nx", '\n', 0);
    assert Lines("\nx")[0] == "\nx"[..0] == "";
    RoundTripExact(e, events);
  }
}
