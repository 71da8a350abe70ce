/** Server-sent events between an agent and the server: the agent writes them, the server reads them back. */
module Sse {

  import opened Text
  import opened PercentCoding

  datatype Event = Event(kind: string, data: string)

  datatype Outcome = Finished | TooLong | Refused

  // ---- Writing ----

  function EventLine(e: Event): string {
    "event: " + e.kind
  }

  function DataLine(e: Event): string {
    "data: " + e.data
  }

  function Written(e: Event): string {
    EventLine(e) + "\n" + DataLine(e) + "\n\n"
  }

  function WrittenAll(events: seq<Event>): string {
    if events == [] then [] else Written(events[0]) + WrittenAll(events[1..])
  }

  // ---- Reading ----

  predicate IsNewline(c: char) {
    c == '\n'
  }

  /** The lines of a text; a last line without a newline counts unless it is empty. */
  function Lines(text: string): seq<string> {
    var pieces := Split(text, [], IsNewline);
    if pieces != [] && pieces[|pieces| - 1] == [] then pieces[..|pieces| - 1] else pieces
  }

  /** The scanner gives up on a line of this many bytes. */
  const MAX_LINE := 1048576

  function TrimReturns(s: string): string {
    if s != [] && s[|s| - 1] == '\r' then TrimReturns(s[..|s| - 1]) else s
  }

  predicate HasPrefix(s: string, prefix: string) {
    |s| >= |prefix| && s[..|prefix|] == prefix
  }

  /** The event read so far. */
  datatype Partial = Partial(kind: string, lines: seq<string>)

  const NOTHING := Partial("", [])

  predicate Flushes(p: Partial) {
    p.kind != "" || p.lines != []
  }

  function Whole(p: Partial): Event {
    Event(p.kind, Join(p.lines, "\n"))
  }

  /** What a line that is not blank adds. */
  function WithLine(p: Partial, line: string): Partial {
    if HasPrefix(line, "event:") then p.(kind := TrimSpace(line[6..]))
    else if HasPrefix(line, "data:") then p.(lines := p.lines + [TrimSpace(line[5..])])
    else p
  }

  /** Everything delivered, and how reading ends. `accepts` says of what has been delivered whether the callback
      took its last event. */
  function ReadFrom(lines: seq<string>, p: Partial, delivered: seq<Event>,
                    accepts: seq<Event> -> bool): (seq<Event>, Outcome)
    decreases lines
  {
    if lines == [] then
      if !Flushes(p) then (delivered, Finished)
      else (delivered + [Whole(p)], if accepts(delivered + [Whole(p)]) then Finished else Refused)
    else if Bytes(lines[0]) >= MAX_LINE then (delivered, TooLong)
    else if TrimReturns(lines[0]) != "" then
      ReadFrom(lines[1..], WithLine(p, TrimReturns(lines[0])), delivered, accepts)
    else if !Flushes(p) then ReadFrom(lines[1..], NOTHING, delivered, accepts)
    else if accepts(delivered + [Whole(p)]) then ReadFrom(lines[1..], NOTHING, delivered + [Whole(p)], accepts)
    else (delivered + [Whole(p)], Refused)
  }

  method ReadSSE(text: string, accepts: seq<Event> -> bool) returns (delivered: seq<Event>, outcome: Outcome)
    ensures (delivered, outcome) == ReadFrom(Lines(text), NOTHING, [], accepts)
  {
    var lines := Lines(text);
    var p := NOTHING;
    delivered := [];
    for i := 0 to |lines|
      invariant ReadFrom(lines[i..], p, delivered, accepts) == ReadFrom(lines, NOTHING, [], accepts)
    {
      assert lines[i..][1..] == lines[i + 1..];
      if Bytes(lines[i]) >= MAX_LINE {
        return delivered, TooLong;
      }
      var line := TrimReturns(lines[i]);
      if line == "" {
        if Flushes(p) {
          delivered := delivered + [Whole(p)];
          if !accepts(delivered) {
            return delivered, Refused;
          }
        }
        p := NOTHING;
      } else {
        p := WithLine(p, line);
      }
    }
    outcome := Finished;
    if Flushes(p) {
      delivered := delivered + [Whole(p)];
      if !accepts(delivered) {
        outcome := Refused;
      }
    }
  }

  // ---- The round trip ----

  predicate SingleLine(e: Event) {
    && (forall i :: 0 <= i < |e.kind| ==> !IsNewline(e.kind[i]))
    && (forall i :: 0 <= i < |e.data| ==> !IsNewline(e.data[i]))
  }

  predicate FitsLines(e: Event) {
    Bytes(EventLine(e)) < MAX_LINE && Bytes(DataLine(e)) < MAX_LINE
  }

  function Trimmed(e: Event): Event {
    Event(TrimSpace(e.kind), TrimSpace(e.data))
  }

  /** What a reader of whole events would see: every event trimmed, up to one that does not fit a line or that
      the callback refuses. */
  function Seen(events: seq<Event>, delivered: seq<Event>, accepts: seq<Event> -> bool): (seq<Event>, Outcome)
    decreases events
  {
    if events == [] then (delivered, Finished)
    else if !FitsLines(events[0]) then (delivered, TooLong)
    else if accepts(delivered + [Trimmed(events[0])]) then Seen(events[1..], delivered + [Trimmed(events[0])], accepts)
    else (delivered + [Trimmed(events[0])], Refused)
  }

  function LinesOf(events: seq<Event>): seq<string> {
    if events == [] then [] else [EventLine(events[0]), DataLine(events[0]), ""] + LinesOf(events[1..])
  }

  lemma SplitOfWritten(e: Event, rest: string)
    requires SingleLine(e)
    ensures Split(Written(e) + rest, [], IsNewline) == [EventLine(e), DataLine(e), ""] + Split(rest, [], IsNewline)
  {
    var afterData := "" + "\n" + rest;
    var afterKind := DataLine(e) + "\n" + afterData;
    assert Written(e) + rest == EventLine(e) + "\n" + afterKind;
    SplitAt(EventLine(e), '\n', afterKind, [], IsNewline);
    SplitAt(DataLine(e), '\n', afterData, [], IsNewline);
    SplitAt([], '\n', rest, [], IsNewline);
    assert [] + EventLine(e) == EventLine(e) && [] + DataLine(e) == DataLine(e);
  }

  /** The lines of a written list are the lines of its events. */
  lemma {:induction false} SplitOfAll(events: seq<Event>)
    requires forall i :: 0 <= i < |events| ==> SingleLine(events[i])
    ensures Split(WrittenAll(events), [], IsNewline) == LinesOf(events) + [""]
  {
    if events != [] {
      SplitOfAll(events[1..]);
      SplitOfWritten(events[0], WrittenAll(events[1..]));
    }
  }

  lemma LinesOfAll(events: seq<Event>)
    requires forall i :: 0 <= i < |events| ==> SingleLine(events[i])
    ensures Lines(WrittenAll(events)) == LinesOf(events)
  {
    SplitOfAll(events);
    assert (LinesOf(events) + [""])[..|LinesOf(events)|] == LinesOf(events);
  }

  /** Carriage returns at the end of a field do not survive trimming, and never reach its name. */
  lemma {:induction false} TrimmedField(name: string, text: string)
    requires name != [] && name[|name| - 1] == ' '
    ensures var line := TrimReturns(name + text);
      |line| >= |name| && line[..|name|] == name && TrimSpace(line[|name|..]) == TrimSpace(text)
    decreases text
  {
    var line := name + text;
    if text != [] && text[|text| - 1] == '\r' {
      var front := text[..|text| - 1];
      assert line[..|line| - 1] == name + front && text == front + ['\r'];
      TrimmedField(name, front);
      TrimSpaceAround(front, '\r');
    } else if text == [] {
      assert line == name;
    }
  }

  lemma ReadsKind(e: Event)
    ensures var line := TrimReturns(EventLine(e));
      line != "" && WithLine(NOTHING, line) == Partial(TrimSpace(e.kind), [])
  {
    TrimmedField("event: ", e.kind);
    var line := TrimReturns(EventLine(e));
    assert line[..7][..6] == "event:";
    assert line[..6] == line[..7][..6];
    assert line[6..] == [' '] + line[7..];
    TrimSpaceAround(line[7..], ' ');
  }

  lemma ReadsData(e: Event, p: Partial)
    ensures var line := TrimReturns(DataLine(e));
      line != "" && WithLine(p, line) == p.(lines := p.lines + [TrimSpace(e.data)])
  {
    TrimmedField("data: ", e.data);
    var line := TrimReturns(DataLine(e));
    assert line[0] == line[..6][0] == 'd';
    assert line[..6][..5] == "data:";
    assert line[..5] == line[..6][..5];
    assert line[5..] == [' '] + line[6..];
    TrimSpaceAround(line[6..], ' ');
  }

  lemma FieldStep(line: string, rest: seq<string>, p: Partial, delivered: seq<Event>, accepts: seq<Event> -> bool)
    requires Bytes(line) < MAX_LINE && TrimReturns(line) != ""
    ensures ReadFrom([line] + rest, p, delivered, accepts) ==
      ReadFrom(rest, WithLine(p, TrimReturns(line)), delivered, accepts)
  {
    assert ([line] + rest)[1..] == rest;
  }

  lemma BlankStep(rest: seq<string>, p: Partial, delivered: seq<Event>, accepts: seq<Event> -> bool)
    requires Flushes(p)
    ensures ReadFrom([""] + rest, p, delivered, accepts) ==
      if accepts(delivered + [Whole(p)]) then ReadFrom(rest, NOTHING, delivered + [Whole(p)], accepts)
      else (delivered + [Whole(p)], Refused)
  {
    assert ([""] + rest)[1..] == rest;
  }

  /** Three lines of an event that fits deliver it. */
  lemma ReadsEvent(e: Event, rest: seq<string>, delivered: seq<Event>, accepts: seq<Event> -> bool)
    requires FitsLines(e)
    ensures ReadFrom([EventLine(e), DataLine(e), ""] + rest, NOTHING, delivered, accepts) ==
      if accepts(delivered + [Trimmed(e)]) then ReadFrom(rest, NOTHING, delivered + [Trimmed(e)], accepts)
      else (delivered + [Trimmed(e)], Refused)
  {
    var p, q := Partial(TrimSpace(e.kind), []), Partial(TrimSpace(e.kind), [] + [TrimSpace(e.data)]);
    ReadsKind(e);
    ReadsData(e, p);
    FieldStep(EventLine(e), [DataLine(e)] + ([""] + rest), NOTHING, delivered, accepts);
    FieldStep(DataLine(e), [""] + rest, p, delivered, accepts);
    BlankStep(rest, q, delivered, accepts);
    assert [EventLine(e), DataLine(e), ""] + rest == [EventLine(e)] + ([DataLine(e)] + ([""] + rest));
    assert Whole(q) == Trimmed(e);
  }

  /** An event that does not fit stops the reading before it. */
  lemma LongEventStops(e: Event, rest: seq<string>, delivered: seq<Event>, accepts: seq<Event> -> bool)
    requires !FitsLines(e)
    ensures ReadFrom([EventLine(e), DataLine(e), ""] + rest, NOTHING, delivered, accepts) == (delivered, TooLong)
  {
    var tail := [DataLine(e)] + ([""] + rest);
    assert [EventLine(e), DataLine(e), ""] + rest == [EventLine(e)] + tail;
    if Bytes(EventLine(e)) < MAX_LINE {
      ReadsKind(e);
      FieldStep(EventLine(e), tail, NOTHING, delivered, accepts);
    }
  }

  lemma {:induction false} ReadsAll(events: seq<Event>, delivered: seq<Event>, accepts: seq<Event> -> bool)
    ensures ReadFrom(LinesOf(events), NOTHING, delivered, accepts) == Seen(events, delivered, accepts)
    decreases events
  {
    if events != [] {
      if FitsLines(events[0]) {
        ReadsEvent(events[0], LinesOf(events[1..]), delivered, accepts);
        ReadsAll(events[1..], delivered + [Trimmed(events[0])], accepts);
      } else {
        LongEventStops(events[0], LinesOf(events[1..]), delivered, accepts);
      }
    }
  }

  /** Reading the text of any list of single-line events is reading the events themselves, each trimmed: they come
      one by one and in order until one does not fit the scanner's lines or the callback refuses one. */
  lemma ReadWritten(events: seq<Event>, accepts: seq<Event> -> bool)
    requires forall i :: 0 <= i < |events| ==> SingleLine(events[i])
    ensures ReadFrom(Lines(WrittenAll(events)), NOTHING, [], accepts) == Seen(events, [], accepts)
  {
    LinesOfAll(events);
    ReadsAll(events, [], accepts);
  }

  lemma {:induction false} AllSeen(events: seq<Event>, delivered: seq<Event>, accepts: seq<Event> -> bool)
    requires forall i :: 0 <= i < |events| ==> FitsLines(events[i])
    requires forall es :: accepts(es)
    ensures Seen(events, delivered, accepts) == (delivered + TrimmedAll(events), Finished)
    decreases events
  {
    if events == [] {
      assert delivered + [] == delivered;
    } else {
      AllSeen(events[1..], delivered + [Trimmed(events[0])], accepts);
      assert delivered + [Trimmed(events[0])] + TrimmedAll(events[1..]) == delivered + TrimmedAll(events);
    }
  }

  function TrimmedAll(events: seq<Event>): seq<Event> {
    if events == [] then [] else [Trimmed(events[0])] + TrimmedAll(events[1..])
  }

  lemma {:induction false} TrimmedAllAt(events: seq<Event>)
    ensures |TrimmedAll(events)| == |events|
    ensures forall i :: 0 <= i < |events| ==> TrimmedAll(events)[i] == Trimmed(events[i])
  {
    if events != [] {
      TrimmedAllAt(events[1..]);
    }
  }

  predicate AllWritable(events: seq<Event>) {
    forall i :: 0 <= i < |events| ==> SingleLine(events[i]) && FitsLines(events[i])
  }

  predicate AllTrimmed(events: seq<Event>) {
    forall i :: 0 <= i < |events| ==> Trimmed(events[i]) == events[i]
  }

  lemma TrimmedSame(events: seq<Event>)
    ensures TrimmedAll(events) == events <==> AllTrimmed(events)
  {
    TrimmedAllAt(events);
  }

  lemma ReadAllWritten(events: seq<Event>, accepts: seq<Event> -> bool)
    requires AllWritable(events) && forall es :: accepts(es)
    ensures ReadFrom(Lines(WrittenAll(events)), NOTHING, [], accepts) == (TrimmedAll(events), Finished)
  {
    ReadWritten(events, accepts);
    AllSeen(events, [], accepts);
    assert [] + TrimmedAll(events) == TrimmedAll(events);
  }

  /** The round trip: when no line is too long and the callback takes everything, reading what was written gives
      exactly the events written if and only if their types and data carry no blanks at the ends. An empty type
      or empty data is no obstacle. */
  lemma RoundTripIff(events: seq<Event>, accepts: seq<Event> -> bool)
    requires AllWritable(events) && forall es :: accepts(es)
    ensures ReadFrom(Lines(WrittenAll(events)), NOTHING, [], accepts) == (events, Finished) <==> AllTrimmed(events)
  {
    ReadAllWritten(events, accepts);
    TrimmedSame(events);
  }

  // ---- What any text means ----

  /** What a block says of the type: the value of its last type line. */
  function KindOf(block: seq<string>): string {
    if block == [] then []
    else
      var last := TrimReturns(block[|block| - 1]);
      if HasPrefix(last, "event:") then TrimSpace(last[6..]) else KindOf(block[..|block| - 1])
  }

  /** The values of its data lines, in order. */
  function DataOf(block: seq<string>): seq<string> {
    if block == [] then []
    else
      var last := TrimReturns(block[|block| - 1]);
      DataOf(block[..|block| - 1]) + if HasPrefix(last, "data:") then [TrimSpace(last[5..])] else []
  }

  /** Neither blank nor too long. */
  predicate IsText(line: string) {
    Bytes(line) < MAX_LINE && TrimReturns(line) != ""
  }

  predicate IsBlock(block: seq<string>) {
    forall i :: 0 <= i < |block| ==> IsText(block[i])
  }

  lemma FieldsDiffer(line: string)
    ensures HasPrefix(line, "event:") ==> !HasPrefix(line, "data:")
  {
    if HasPrefix(line, "event:") {
      assert line[0] == line[..6][0] && line[0] == line[..5][0];
    }
  }

  lemma LineAdds(front: seq<string>, last: string)
    ensures WithLine(Partial(KindOf(front), DataOf(front)), TrimReturns(last)) ==
      Partial(KindOf(front + [last]), DataOf(front + [last]))
  {
    var block := front + [last];
    assert block[..|block| - 1] == front && block[|block| - 1] == last;
    FieldsDiffer(TrimReturns(last));
    assert DataOf(front) + [] == DataOf(front);
  }

  lemma BlockGrows(front: seq<string>, last: string, tail: seq<string>, delivered: seq<Event>,
                   accepts: seq<Event> -> bool)
    requires IsText(last)
    ensures ReadFrom([last] + tail, Partial(KindOf(front), DataOf(front)), delivered, accepts) ==
      ReadFrom(tail, Partial(KindOf(front + [last]), DataOf(front + [last])), delivered, accepts)
  {
    FieldStep(last, tail, Partial(KindOf(front), DataOf(front)), delivered, accepts);
    LineAdds(front, last);
  }

  /** Reading a block leaves what it says. */
  lemma {:induction false} BlockRead(block: seq<string>, tail: seq<string>, delivered: seq<Event>,
                                     accepts: seq<Event> -> bool)
    requires IsBlock(block)
    ensures ReadFrom(block + tail, NOTHING, delivered, accepts) ==
      ReadFrom(tail, Partial(KindOf(block), DataOf(block)), delivered, accepts)
  {
    if block == [] {
      assert block + tail == tail;
    } else {
      var front, last := block[..|block| - 1], block[|block| - 1];
      assert block + tail == front + ([last] + tail) && block == front + [last];
      BlockRead(front, [last] + tail, delivered, accepts);
      BlockGrows(front, last, tail, delivered, accepts);
    }
  }

  /** The event a block stands for, if it has a type or a data line. */
  function EventOf(block: seq<string>): Event {
    Event(KindOf(block), Join(DataOf(block), "\n"))
  }

  predicate SaysSomething(block: seq<string>) {
    KindOf(block) != "" || DataOf(block) != []
  }

  /** Any lines at all: a block before a blank line is one event, whose type is its last one and whose data lines are
      joined by newlines; other lines do not matter, and a block without type and data is no event. */
  lemma BlockIsEvent(block: seq<string>, rest: seq<string>, delivered: seq<Event>, accepts: seq<Event> -> bool)
    requires IsBlock(block)
    ensures var e := EventOf(block);
      ReadFrom(block + [""] + rest, NOTHING, delivered, accepts) ==
        if !SaysSomething(block) then ReadFrom(rest, NOTHING, delivered, accepts)
        else if accepts(delivered + [e]) then ReadFrom(rest, NOTHING, delivered + [e], accepts)
        else (delivered + [e], Refused)
  {
    BlockRead(block, [""] + rest, delivered, accepts);
    assert block + ([""] + rest) == block + [""] + rest;
    assert ([""] + rest)[1..] == rest;
  }

  /** The last block needs no blank line. */
  lemma LastBlock(block: seq<string>, delivered: seq<Event>, accepts: seq<Event> -> bool)
    requires IsBlock(block)
    ensures var e := EventOf(block);
      ReadFrom(block, NOTHING, delivered, accepts) ==
        if !SaysSomething(block) then (delivered, Finished)
        else (delivered + [e], if accepts(delivered + [e]) then Finished else Refused)
  {
    BlockRead(block, [], delivered, accepts);
    assert block + [] == block;
  }

  /** A line that is too long ends the reading, without the block it is in. */
  lemma LongLineEnds(block: seq<string>, line: string, rest: seq<string>, delivered: seq<Event>,
                     accepts: seq<Event> -> bool)
    requires IsBlock(block) && Bytes(line) >= MAX_LINE
    ensures ReadFrom(block + [line] + rest, NOTHING, delivered, accepts) == (delivered, TooLong)
  {
    BlockRead(block, [line] + rest, delivered, accepts);
    assert block + ([line] + rest) == block + [line] + rest;
  }
}
