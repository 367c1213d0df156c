/** Server-sent events: how the client cuts the stream into events. */
module Events {
  import opened Text
  import opened Delimiters
  import opened Transport
  import opened Messages

  /** A line that ends an event. */
  predicate BlankLine(line: string) {
    line == "" || line == "\r"
  }

  /** The text that is copied for one line: the line without its CR, then LF. */
  function LineText(line: string): string {
    line[..TextEnd(line)] + "\n"
  }

  /** The text of an event, and the bytes left for the next one. */
  datatype Event = Event(text: string, rest: string)

  /** Lines are copied up to the first blank one, which is dropped. */
  function CopiedLines(s: string): (e: Event)
    ensures |e.rest| <= |s|
    ensures s != "" ==> |e.rest| < |s|
    decreases |s|
  {
    if s == "" then Event("", "")
    else
      var l := GetLine(s);
      if BlankLine(l.line) then Event("", l.rest)
      else
        var more := CopiedLines(l.rest);
        Event(LineText(l.line) + more.text, more.rest)
  }

  /** One-shot reading of an event stream: the text of every event that the stream completes. */
  function EventTexts(s: string): seq<string>
    decreases |s|
  {
    match FirstEnd(HeaderEnd, s)
    case None => []
    case Some(_) =>
      assert s != "";
      [CopiedLines(s).text] + EventTexts(CopiedLines(s).rest)
  }

  /** The loop that copies the lines of one event from the buffer to the content. */
  method CopyLines(events: Streambuf, content: Streambuf)
    requires events != content
    modifies events, content
    ensures var e := CopiedLines(old(events.data));
            events.data == e.rest && content.data == old(content.data) + e.text
  {
    assert content.data + CopiedLines(events.data).text == old(content.data) + CopiedLines(old(events.data)).text;
    var done := false;
    while !done
      invariant !done ==>
                  && CopiedLines(events.data).rest == CopiedLines(old(events.data)).rest
                  && content.data + CopiedLines(events.data).text ==
                     old(content.data) + CopiedLines(old(events.data)).text
      invariant done ==>
                  && events.data == CopiedLines(old(events.data)).rest
                  && content.data == old(content.data) + CopiedLines(old(events.data)).text
      decreases !done, |events.data|
    {
      ghost var all, before := events.data, content.data;
      CopyStep(all, before);
      hide CopiedLines, LineText;
      var ok, line := events.GetLine();
      if !ok || line == "" || (line[|line| - 1] == '\r' && |line| == 1) {
        done := true;
      } else {
        var text := line[..|line| - if line[|line| - 1] == '\r' then 1 else 0] + "\n";
        TextOfLine(line);
        content.Put(text);
      }
    }
  }

  lemma {:induction false} TextOfLine(line: string)
    requires line != ""
    ensures LineText(line) == line[..|line| - if line[|line| - 1] == '\r' then 1 else 0] + "\n"
  {
  }

  lemma {:induction false} CopyStep(s: string, before: string)
    ensures s == "" ==> before + CopiedLines(s).text == before && CopiedLines(s).rest == ""
    ensures s != "" ==>
              var l := GetLine(s);
              if BlankLine(l.line) then before + CopiedLines(s).text == before && CopiedLines(s).rest == l.rest
              else
                && before + CopiedLines(s).text == (before + LineText(l.line)) + CopiedLines(l.rest).text
                && CopiedLines(s).rest == CopiedLines(l.rest).rest
  {
    hide LineText;
    if s != "" && !BlankLine(GetLine(s).line) {
      Assoc(before, LineText(GetLine(s).line), CopiedLines(GetLine(s).rest).text);
    }
  }

  /** `read_server_sent_event` until the peer closes the stream: however the bytes arrive, the events
      reported, and the content appended for them, are those of the one-shot reading. */
  method ReadServerSentEvent(socket: Socket, content: Streambuf, events: Streambuf) returns (texts: seq<string>)
    requires content != events
    modifies socket, content, events
    ensures texts == EventTexts(old(Total(socket, events)))
    ensures content.data == old(content.data) + Concat(texts)
    decreases |Total(socket, events)|
  {
    ghost var total, before := Total(socket, events), content.data;
    var ok, n := ReadUntilHeaderEnd(socket, events);
    if !ok {
      assert before + "" == before;
      return [];
    }
    hide EndsAt, CopiedLines;
    EventBuffered(events.data, socket.incoming, n);
    var size := |content.data|;
    CopyLines(events, content);
    // The callback is told that the content has grown by this event.
    var text := content.data[size..];
    assert text == CopiedLines(total).text;
    var more := ReadServerSentEvent(socket, content, events);
    Assoc(before, text, Concat(more));
    texts := [text] + more;
    assert texts[1..] == more;
  }

  // ----- an event is exactly the lines before its blank line

  /** The first blank line, or the number of lines. */
  function FirstBlank(ls: seq<string>): (b: nat)
    ensures b <= |ls|
    ensures forall k :: 0 <= k < b ==> !BlankLine(ls[k])
    ensures b < |ls| ==> BlankLine(ls[b])
  {
    if ls == [] || BlankLine(ls[0]) then 0 else 1 + FirstBlank(ls[1..])
  }

  function Texts(ls: seq<string>): string {
    if ls == [] then "" else LineText(ls[0]) + Texts(ls[1..])
  }

  lemma {:induction false} CopiedFromLines(ls: seq<string>, tail: string)
    requires WithoutLf(ls) && FirstBlank(ls) < |ls|
    ensures var b := FirstBlank(ls);
            CopiedLines(Join(ls) + tail) == Event(Texts(ls[..b]), Join(ls[b + 1..]) + tail)
  {
    hide CopiedLines, LineText, Join, Texts, GetLine, BlankLine, FirstBlank;
    assert ls[0] in ls;
    FirstCopied(ls[0], Join(ls[1..]) + tail);
    JoinFirst(ls, tail);
    FirstOfBlanks(ls);
    if !BlankLine(ls[0]) {
      CopiedFromLines(ls[1..], tail);
      TextsFirst(ls, FirstBlank(ls));
      assert ls[1..][FirstBlank(ls)..] == ls[FirstBlank(ls) + 1..];
    } else {
      NoTexts(ls[..0]);
    }
  }

  lemma {:induction false} FirstCopied(line: string, more: string)
    requires '\n' !in line
    ensures CopiedLines(line + "\n" + more) ==
            if BlankLine(line) then Event("", more)
            else Event(LineText(line) + CopiedLines(more).text, CopiedLines(more).rest)
  {
    hide LineText, CopiedLines, GetLine;
    var s := line + "\n" + more;
    GetLineOf(line, more);
    CopyStep(s, "");
    EmptyBefore(CopiedLines(s).text);
    EmptyBefore(LineText(line));
  }

  lemma {:induction false} JoinFirst(ls: seq<string>, tail: string)
    requires ls != []
    ensures Join(ls) + tail == ls[0] + "\n" + (Join(ls[1..]) + tail)
  {
  }

  lemma {:induction false} FirstOfBlanks(ls: seq<string>)
    requires ls != []
    ensures FirstBlank(ls) == if BlankLine(ls[0]) then 0 else 1 + FirstBlank(ls[1..])
  {
  }

  lemma {:induction false} TextsFirst(ls: seq<string>, b: nat)
    requires 0 < b <= |ls|
    ensures Texts(ls[..b]) == LineText(ls[0]) + Texts(ls[1..][..b - 1])
  {
    assert ls[..b][1..] == ls[1..][..b - 1];
  }

  lemma {:induction false} NoTexts(ls: seq<string>)
    requires ls == []
    ensures Texts(ls) == ""
  {
  }

  lemma {:induction false} EmptyBefore(s: string)
    ensures "" + s == s
  {
  }

  /** Whenever the match condition ends at `p`, the copying stops at a blank line at or before `p`:
      it takes exactly the lines up to and including the first blank one of `s[..p]`, and whatever the
      match had covered beyond it stays buffered. */
  lemma {:induction false} EventWithinMatch(s: string, p: nat)
    requires IsFirstEnd(HeaderEnd, s, p)
    ensures var ls := Lines(s[..p]);
            var b := FirstBlank(ls);
            && b < |ls|
            && CopiedLines(s) == Event(Texts(ls[..b]), Join(ls[b + 1..]) + s[p..])
            && s == Join(ls[..b + 1]) + CopiedLines(s).rest
            && |s| - p <= |CopiedLines(s).rest|
  {
    hide EndsAt, CopiedLines, Join, Lines, Texts;
    HeadLines(HeaderEnd, s, p);
    var ls := Lines(s[..p]);
    var b := FirstBlank(ls);
    assert BlankLine(ls[|ls| - 1]);
    Cut(s, p, p);
    CopiedFromLines(ls, s[p..]);
    assert ls == ls[..b + 1] + ls[b + 1..];
    JoinAppend(ls[..b + 1], ls[b + 1..]);
    Assoc(Join(ls[..b + 1]), Join(ls[b + 1..]), s[p..]);
  }

  /** What is buffered beyond the match makes no difference to the event. */
  lemma {:induction false} EventBuffered(buffered: string, incoming: string, n: nat)
    requires n <= |buffered| && FirstEnd(HeaderEnd, buffered + incoming) == Some(n)
    ensures var e := CopiedLines(buffered);
            CopiedLines(buffered + incoming) == Event(e.text, e.rest + incoming)
    ensures buffered != ""
  {
    hide EndsAt, CopiedLines, Join, Lines, Texts, FirstEnd, BlankLine;
    var total := buffered + incoming;
    HeadLines(HeaderEnd, total, n);
    EndsInLf(HeaderEnd, total, n);
    var ls := Lines(total[..n]);
    LastIsBlank(ls);
    BufferedParts(buffered, incoming, n);
    CopiedFromLines(ls, total[n..]);
    CopiedFromLines(ls, buffered[n..]);
    Assoc(Join(ls[FirstBlank(ls) + 1..]), buffered[n..], incoming);
  }

  lemma {:induction false} LastIsBlank(ls: seq<string>)
    requires ls != [] && (ls[|ls| - 1] == "" || ls[|ls| - 1] == "\r")
    ensures FirstBlank(ls) < |ls|
  {
    assert BlankLine(ls[|ls| - 1]);
  }

  lemma {:induction false} BufferedParts(buffered: string, incoming: string, n: nat)
    requires n <= |buffered|
    ensures var total := buffered + incoming;
            && buffered == total[..n] + buffered[n..] && total == total[..n] + total[n..]
            && total[n..] == buffered[n..] + incoming
  {
  }

  // ----- the round trip

  /** Of a line that ends in CR the CR is dropped, and every line is ended by LF: CRLF or LF, the text is the same. */
  lemma {:induction false} TextsMean(lines: seq<string>, plain: seq<string>)
    requires |lines| == |plain|
    requires forall k :: 0 <= k < |lines| ==>
               || lines[k] == plain[k] + "\r"
               || (lines[k] == plain[k] && (plain[k] == "" || plain[k][|plain[k]| - 1] != '\r'))
    ensures Texts(lines) == Join(plain)
  {
    if lines != [] {
      TextsMean(lines[1..], plain[1..]);
      assert lines[0] == plain[0] + "\r" || lines[0] == plain[0];
      assert LineText(lines[0]) == plain[0] + "\n";
    }
  }

  /** An event as a server writes it: its lines, and the blank line after them. */
  datatype Sent = Sent(lines: seq<string>, blank: string)

  /** There is a line; none is blank or holds LF; the blank line is empty or a CR. */
  predicate ValidEvent(e: Sent) {
    NotBlank(e.lines) && BlankLine(e.blank)
  }

  predicate ValidEvents(events: seq<Sent>) {
    forall e :: e in events ==> ValidEvent(e)
  }

  function AllLines(events: seq<Sent>): seq<string> {
    if events == [] then [] else events[0].lines + [events[0].blank] + AllLines(events[1..])
  }

  /** Every line is ended by LF. */
  function Written(events: seq<Sent>): string {
    Join(AllLines(events))
  }

  function TextsOf(events: seq<Sent>): (texts: seq<string>)
    ensures |texts| == |events|
  {
    if events == [] then [] else [Texts(events[0].lines)] + TextsOf(events[1..])
  }

  /** The blank line completes a header end: it is empty, or the line before it ends in an odd number of CRs. */
  predicate Completes(e: Sent) {
    e.lines != [] && (e.blank == "" || OddCr(e.lines[|e.lines| - 1]))
  }

  /** How many of the events are reported: those up to the last whose blank line completes a header end. */
  function Reported(events: seq<Sent>): (n: nat)
    ensures n <= |events|
    ensures n > 0 ==> Completes(events[n - 1])
    ensures forall k :: n <= k < |events| ==> !Completes(events[k])
  {
    if events == [] then 0
    else
      var more := Reported(events[1..]);
      if more > 0 || Completes(events[0]) then 1 + more else 0
  }

  lemma {:induction false} AllLinesAppend(a: seq<Sent>, b: seq<Sent>)
    ensures AllLines(a + b) == AllLines(a) + AllLines(b)
  {
    if a == [] {
      assert a + b == b;
    } else {
      assert (a + b)[1..] == a[1..] + b;
      AllLinesAppend(a[1..], b);
      Assoc(a[0].lines + [a[0].blank], AllLines(a[1..]), AllLines(b));
    }
  }

  lemma {:induction false} AllLinesWithoutLf(events: seq<Sent>)
    requires ValidEvents(events)
    ensures WithoutLf(AllLines(events))
    ensures events != [] ==> FirstBlank(AllLines(events)) == |events[0].lines| < |AllLines(events)|
  {
    if events != [] {
      assert events[0] in events;
      AllLinesWithoutLf(events[1..]);
      var e, all := events[0], AllLines(events);
      assert all[|e.lines|] == e.blank;
      assert forall k :: 0 <= k < |e.lines| ==> all[k] == e.lines[k] && e.lines[k] in e.lines;
    }
  }

  lemma {:induction false} LastLines(events: seq<Sent>, e: Sent)
    requires e.lines != []
    ensures Closes(HeaderEnd, AllLines(events + [e])) <==> e.blank == "" || (e.blank == "\r" && Completes(e))
  {
    AllLinesAppend(events, [e]);
    assert AllLines([e]) == e.lines + [e.blank];
  }

  /** A blank line that completes a header end is found. */
  lemma {:induction false} CompletedIsFound(events: seq<Sent>, k: nat)
    requires ValidEvents(events) && k < |events| && Completes(events[k])
    ensures FirstEnd(HeaderEnd, Written(events)).Some?
  {
    hide EndsAt, FirstEnd, Closes, Completes, Join;
    var e, before, after := events[k], events[..k], events[k + 1..];
    assert e in events && events[..k + 1] == before + [e] && events == events[..k + 1] + after;
    AllLinesAppend(events[..k + 1], after);
    JoinAppend(AllLines(before + [e]), AllLines(after));
    AllLinesWithoutLf(events[..k + 1]);
    LastLines(before, e);
    EndOfLines(HeaderEnd, AllLines(before + [e]), Join(AllLines(after)));
  }

  /** Whatever is found is completed by one of the blank lines. */
  lemma {:induction false} FoundIsCompleted(events: seq<Sent>)
    requires ValidEvents(events) && FirstEnd(HeaderEnd, Written(events)).Some?
    ensures Reported(events) > 0
  {
    hide FirstEnd, EndsAt, Closes, Lines, Join;
    var s, p := Written(events), FirstEnd(HeaderEnd, Written(events)).value;
    HeadLines(HeaderEnd, s, p);
    EndsInLf(HeaderEnd, s, p);
    var ls := Lines(s[..p]);
    Cut(s, p, p);
    EndOfLines(HeaderEnd, ls, s[p..]);
    AllLinesWithoutLf(events);
    LinesOfJoin(AllLines(events));
    LinesAppend(s[..p], s[p..]);
    assert AllLines(events)[..|ls|] == ls;
    ClosesInEvent(events, |ls|);
  }

  lemma {:induction false} ClosesInEvent(events: seq<Sent>, k: nat)
    requires ValidEvents(events) && 2 <= k <= |AllLines(events)| && Closes(HeaderEnd, AllLines(events)[..k])
    ensures Reported(events) > 0
  {
    hide Closes, Completes;
    assert events != [];
    var e, rest := events[0], AllLines(events[1..]);
    assert e in events;
    if k <= |e.lines| {
      assert AllLines(events)[..k] == e.lines[..k];
      ClosesNotWithin(e.lines, k);
    } else {
      ClosesHere(e, rest, k);
      if k > |e.lines| + 2 {
        ClosesInEvent(events[1..], k - |e.lines| - 1);
      } else if k == |e.lines| + 2 {
        assert events[1] in events;
        AllLinesWithoutLf(events[1..]);
        assert false;
      }
    }
  }

  lemma {:induction false} ClosesNotWithin(ls: seq<string>, k: nat)
    requires NotBlank(ls) && 2 <= k <= |ls|
    ensures !Closes(HeaderEnd, ls[..k])
  {
    assert ls[k - 1] in ls;
  }

  /** The lines of an event and those after it close a head at its blank line only if that completes one, and
      beyond it only where those after it do. */
  lemma {:induction false} ClosesHere(e: Sent, rest: seq<string>, k: nat)
    requires ValidEvent(e) && |e.lines| < k <= |e.lines + [e.blank] + rest|
    requires Closes(HeaderEnd, (e.lines + [e.blank] + rest)[..k])
    ensures var m := k - |e.lines| - 1;
            && (m == 0 ==> Completes(e))
            && (m == 1 ==> BlankLine(rest[0]))
            && (m > 1 ==> Closes(HeaderEnd, rest[..m]))
  {
    hide OddCr;
    var all, m := (e.lines + [e.blank] + rest)[..k], k - |e.lines| - 1;
    assert all[k - 1] == if m > 0 then rest[m - 1] else e.blank;
    assert all[k - 2] == if m > 1 then rest[m - 2] else if m == 1 then e.blank else e.lines[k - 2];
  }

  /** For every list of events, with blank lines of both kinds: the client reports the events up to the
      last whose blank line completes a header end, in order and with the text of their lines; so it reports
      all exactly when the last one does. */
  lemma {:induction false} EventsRoundTrip(events: seq<Sent>)
    requires ValidEvents(events)
    ensures EventTexts(Written(events)) == TextsOf(events[..Reported(events)])
    ensures EventTexts(Written(events)) == TextsOf(events) <==> events == [] || Completes(events[|events| - 1])
  {
    hide CopiedLines, EndsAt, FirstEnd, Completes, Join;
    var n := Reported(events);
    if n == 0 {
      if FirstEnd(HeaderEnd, Written(events)).Some? {
        FoundIsCompleted(events);
      }
    } else {
      CompletedIsFound(events, n - 1);
      AllLinesWithoutLf(events);
      CopiedFromLines(AllLines(events), "");
      EventsRoundTrip(events[1..]);
      var e, all := events[0], AllLines(events);
      assert all[..|e.lines|] == e.lines && all[|e.lines| + 1..] == AllLines(events[1..]);
      assert Written(events) + "" == Written(events) && Written(events[1..]) + "" == Written(events[1..]);
      assert events[..n][1..] == events[1..][..n - 1];
    }
  }
}
