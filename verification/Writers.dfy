/** What client and server write, and how a head that was written is parsed. */
module Writers {
  import opened Text
  import opened Delimiters
  import opened Messages
  import Numbers

  function Decimal(n: nat): string {
    Numbers.Print(n, 10)
  }

  // ----- heads

  function FieldText(f: Field): string {
    f.name + ": " + f.value + "\r\n"
  }

  function FieldsText(fs: seq<Field>): string {
    if fs == [] then "" else FieldText(fs[0]) + FieldsText(fs[1..])
  }

  lemma {:induction false} FieldsAppend(fs: seq<Field>, more: seq<Field>)
    ensures FieldsText(fs + more) == FieldsText(fs) + FieldsText(more)
  {
    hide FieldText;
    if fs == [] {
      assert fs + more == more;
    } else {
      assert (fs + more)[1..] == fs[1..] + more;
      FieldsAppend(fs[1..], more);
      Assoc(FieldText(fs[0]), FieldsText(fs[1..]), FieldsText(more));
    }
  }

  lemma {:induction false} FieldsAppendOne(before: string, fs: seq<Field>, f: Field)
    ensures before + FieldsText(fs + [f]) == before + FieldsText(fs) + FieldText(f)
  {
    hide FieldText;
    FieldsAppend(fs, [f]);
    assert FieldsText([f]) == FieldText(f) + "";
    Assoc(before, FieldsText(fs), FieldText(f));
  }

  /** A message: its first line, its fields, a blank line and its content. */
  function MessageText(first: string, fs: seq<Field>, content: string): string {
    first + "\r\n" + FieldsText(fs) + "\r\n" + content
  }

  // ----- the client

  /** The settings of a client that its request heads depend on; `proxied` stands for plain HTTP
      through a proxy. */
  datatype Settings = Settings(host: string, port: nat, defaultPort: nat, proxied: bool)

  function Target(config: Settings, path: string): string {
    var corrected := if path == "" then "/" else path;
    if config.proxied then "http://" + config.host + ":" + Decimal(config.port) + corrected else corrected
  }

  function HostField(config: Settings): Field {
    Field("Host", if config.port != config.defaultPort then config.host + ":" + Decimal(config.port) else config.host)
  }

  function RequestFirst(config: Settings, verb: string, path: string): string {
    verb + " " + Target(config, path) + " HTTP/1.1"
  }

  /** A Content-Length is added to content that the caller's fields neither measure nor chunk. */
  function LengthField(header: seq<Field>, content: string): seq<Field> {
    var chunked := Lookup(header, "Transfer-Encoding") == Some("chunked");
    if content != "" && Lookup(header, "Content-Length").None? && !chunked then
      [Field("Content-Length", Decimal(|content|))]
    else []
  }

  function RequestText(config: Settings, verb: string, path: string, header: seq<Field>, content: string): string {
    MessageText(RequestFirst(config, verb, path), [HostField(config)] + header + LengthField(header, content), content)
  }

  /** The text of a request, written out. */
  lemma {:induction false} RequestTextIs(
    config: Settings, verb: string, path: string, header: seq<Field>, content: string)
    ensures var proxy := if config.proxied then "http://" + config.host + ":" + Numbers.Print(config.port, 10) else "";
            var target := if path == "" then proxy + "/" else proxy + path;
            var port := if config.port == config.defaultPort then "" else ":" + Numbers.Print(config.port, 10);
            var length :=
              if content == "" || Lookup(header, "Content-Length").Some?
                 || Lookup(header, "Transfer-Encoding") == Some("chunked") then ""
              else "Content-Length: " + Numbers.Print(|content|, 10) + "\r\n";
            RequestText(config, verb, path, header, content) ==
            verb + " " + target + " HTTP/1.1" + "\r\n" +
            ("Host: " + config.host + port + "\r\n" + FieldsText(header) + length) + "\r\n" + content
  {
    hide Lookup, Numbers.Print, FieldsText, MessageText, HostField, LengthField, Target;
    TargetIs(config, path);
    HostTextIs(config, header);
    LengthTextIs(header, content);
    FieldsAppend([HostField(config)] + header, LengthField(header, content));
    var fs := [HostField(config)] + header + LengthField(header, content);
    MessageTextIs(RequestFirst(config, verb, path), fs, content);
  }

  lemma {:induction false} MessageTextIs(first: string, fs: seq<Field>, content: string)
    ensures MessageText(first, fs, content) == first + "\r\n" + FieldsText(fs) + "\r\n" + content
  {
  }

  lemma {:induction false} TargetIs(config: Settings, path: string)
    ensures var proxy := if config.proxied then "http://" + config.host + ":" + Numbers.Print(config.port, 10) else "";
            Target(config, path) == if path == "" then proxy + "/" else proxy + path
  {
    hide Numbers.Print;
    assert "" + path == path && "" + "/" == "/";
  }

  lemma {:induction false} HostTextIs(config: Settings, header: seq<Field>)
    ensures var port := if config.port == config.defaultPort then "" else ":" + Numbers.Print(config.port, 10);
            FieldsText([HostField(config)] + header) == "Host: " + config.host + port + "\r\n" + FieldsText(header)
  {
    hide FieldsText, Numbers.Print;
    FieldsTextIs(HostField(config), header);
    assert "Host" + ": " == "Host: ";
    assert config.host + "" == config.host;
    var port := if config.port == config.defaultPort then "" else ":" + Numbers.Print(config.port, 10);
    assert "Host: " + HostField(config).value == "Host: " + config.host + port;
  }

  lemma {:induction false} LengthTextIs(header: seq<Field>, content: string)
    ensures FieldsText(LengthField(header, content)) ==
            if content == "" || Lookup(header, "Content-Length").Some?
               || Lookup(header, "Transfer-Encoding") == Some("chunked") then ""
            else "Content-Length: " + Numbers.Print(|content|, 10) + "\r\n"
  {
    hide Lookup, Numbers.Print, FieldsText;
    var fs := LengthField(header, content);
    FieldsTextIs(Field("", ""), []);
    if fs != [] {
      assert fs == [fs[0]] + [];
      FieldsTextIs(fs[0], []);
      assert "Content-Length" + ": " == "Content-Length: ";
      assert FieldsText(fs) == "Content-Length: " + fs[0].value + "\r\n";
    }
  }

  /** The text of the fields: name, colon, space, value and CRLF of each in turn. */
  lemma {:induction false} FieldsTextIs(f: Field, fs: seq<Field>)
    ensures FieldsText([]) == ""
    ensures FieldsText([f] + fs) == f.name + ": " + f.value + "\r\n" + FieldsText(fs)
  {
    assert ([f] + fs)[1..] == fs;
  }

  /** `create_request_header`, for the fields in the order in which the multimap is iterated. */
  method CreateRequestHeader(config: Settings, verb: string, path: string, header: seq<Field>) returns (text: string)
    ensures text == RequestFirst(config, verb, path) + "\r\n" + FieldsText([HostField(config)] + header)
  {
    var correctedPath := path;
    if correctedPath == "" {
      correctedPath := "/";
    }
    if config.proxied {
      correctedPath := "http://" + config.host + ":" + Decimal(config.port) + correctedPath;
    }
    assert correctedPath == Target(config, path);
    text := verb + " " + correctedPath + " HTTP/1.1" + "\r\n";
    text := WriteHost(config, text);
    text := WriteFields(text, [HostField(config)], header, RequestFirst(config, verb, path) + "\r\n");
  }

  method WriteHost(config: Settings, before: string) returns (text: string)
    ensures text == before + FieldsText([HostField(config)])
  {
    text := "Host" + ": " + config.host;
    if config.port != config.defaultPort {
      text := "Host" + ": " + (config.host + ":" + Decimal(config.port));
    }
    text := text + "\r\n";
    assert text == FieldText(HostField(config));
    FieldsAppendOne("", [], HostField(config));
    assert [] + [HostField(config)] == [HostField(config)];
    text := before + text;
  }

  /** Writes the fields one by one after `before`, which holds those in `done`. */
  method WriteFields(before: string, ghost done: seq<Field>, header: seq<Field>, ghost first: string)
    returns (text: string)
    requires before == first + FieldsText(done)
    ensures text == first + FieldsText(done + header)
  {
    text := before;
    assert done + header[..0] == done;
    for i := 0 to |header|
      invariant text == first + FieldsText(done + header[..i])
    {
      hide FieldsText;
      assert done + header[..i + 1] == (done + header[..i]) + [header[i]];
      FieldsAppendOne(first, done + header[..i], header[i]);
      text := text + (header[i].name + ": " + header[i].value + "\r\n");
    }
    assert header[..|header|] == header;
  }

  /** `request`: the head, a Content-Length if one is needed, a blank line, the content. */
  method Request(config: Settings, verb: string, path: string, header: seq<Field>, content: string)
    returns (text: string)
    ensures text == RequestText(config, verb, path, header, content)
  {
    text := CreateRequestHeader(config, verb, path, header);
    ghost var first, fs := RequestFirst(config, verb, path) + "\r\n", [HostField(config)] + header;
    hide FieldsText, Lookup, RequestFirst, Decimal;
    if |content| > 0 {
      var it := Lookup(header, "Content-Length");
      if it.None? {
        it := Lookup(header, "Transfer-Encoding");
        if it.None? || it.value != "chunked" {
          FieldsAppendOne(first, fs, Field("Content-Length", Decimal(|content|)));
          text := text + ("Content-Length" + ": " + Decimal(|content|) + "\r\n");
        }
      }
    }
    assert fs + [] == fs;
    assert text == first + FieldsText(fs + LengthField(header, content));
    text := text + "\r\n";
    text := text + content;
  }

  // ----- the server

  /** The fields that keep `write_header` from adding a Content-Length. */
  predicate Measured(header: seq<Field>) {
    exists f :: f in header && Measures(f)
  }

  predicate Measures(f: Field) {
    || CaseInsensitiveEqual(f.name, "content-length")
    || (CaseInsensitiveEqual(f.name, "transfer-encoding") && CaseInsensitiveEqual(f.value, "chunked"))
  }

  function ResponseLength(header: seq<Field>, size: nat, close: bool): seq<Field> {
    if Measured(header) || close then [] else [Field("Content-Length", Decimal(size))]
  }

  /** What `write(status, content, header)` puts into the stream buffer; `close` is
      `close_connection_after_response`. */
  function ResponseText(status: string, header: seq<Field>, content: string, close: bool): string {
    MessageText("HTTP/1.1 " + status, header + ResponseLength(header, |content|, close), content)
  }

  /** The text of a response, written out. */
  lemma {:induction false} ResponseTextIs(status: string, header: seq<Field>, content: string, close: bool)
    ensures ResponseText(status, header, content, close) ==
            "HTTP/1.1 " + status + "\r\n" + FieldsText(header) +
            (if close || !NoLength(header) then ""
             else "Content-Length: " + Numbers.Print(|content|, 10) + "\r\n") +
            "\r\n" + content
  {
    hide Measured, NoLength, Numbers.Print;
    var length := ResponseLength(header, |content|, close);
    NoLengthIs(header);
    FieldsAppend(header, length);
    if length != [] {
      FieldsTextIs(length[0], []);
      assert length == [length[0]] + [];
    }
  }

  /** No field tells the length of the content or that it is chunked. */
  predicate NoLength(header: seq<Field>) {
    forall f :: f in header ==>
      && !CaseInsensitiveEqual(f.name, "Content-Length")
      && !(CaseInsensitiveEqual(f.name, "Transfer-Encoding") && CaseInsensitiveEqual(f.value, "chunked"))
  }

  lemma {:induction false} NoLengthIs(header: seq<Field>)
    ensures NoLength(header) <==> !Measured(header)
  {
    hide CaseInsensitiveEqual;
    forall f: Field
      ensures Measures(f) <==>
              || CaseInsensitiveEqual(f.name, "Content-Length")
              || (CaseInsensitiveEqual(f.name, "Transfer-Encoding") && CaseInsensitiveEqual(f.value, "chunked"))
    {
      SameNames(f.name);
    }
  }

  /** The two spellings of the same names. */
  lemma {:induction false} SameNames(name: string)
    ensures CaseInsensitiveEqual(name, "content-length") <==> CaseInsensitiveEqual(name, "Content-Length")
    ensures CaseInsensitiveEqual(name, "transfer-encoding") <==> CaseInsensitiveEqual(name, "Transfer-Encoding")
  {
    var a, b, c, d := "content-length", "Content-Length", "transfer-encoding", "Transfer-Encoding";
    assert forall i :: 0 <= i < 14 ==> ToLower(a[i]) == ToLower(b[i]);
    assert forall i :: 0 <= i < 17 ==> ToLower(c[i]) == ToLower(d[i]);
  }

  method WriteHeader(before: string, header: seq<Field>, size: nat, close: bool) returns (text: string)
    ensures text == before + FieldsText(header + ResponseLength(header, size, close)) + "\r\n"
  {
    var contentLengthWritten, chunkedTransferEncoding := false, false;
    text := before;
    assert before + FieldsText([]) == before;
    for i := 0 to |header|
      invariant text == before + FieldsText(header[..i])
      invariant contentLengthWritten || chunkedTransferEncoding <==> exists k :: 0 <= k < i && Measures(header[k])
      invariant contentLengthWritten <==>
                exists k :: 0 <= k < i && CaseInsensitiveEqual(header[k].name, "content-length")
    {
      hide FieldsText, CaseInsensitiveEqual;
      var field := header[i];
      NotBoth(field.name);
      if !contentLengthWritten && CaseInsensitiveEqual(field.name, "content-length") {
        contentLengthWritten := true;
      } else if !chunkedTransferEncoding && CaseInsensitiveEqual(field.name, "transfer-encoding")
                && CaseInsensitiveEqual(field.value, "chunked") {
        chunkedTransferEncoding := true;
      }
      assert header[..i + 1] == header[..i] + [header[i]];
      FieldsAppendOne(before, header[..i], field);
      text := text + (field.name + ": " + field.value + "\r\n");
    }
    assert header[..|header|] == header && header + [] == header;
    if !contentLengthWritten && !chunkedTransferEncoding && !close {
      FieldsAppendOne(before, header, Field("Content-Length", Decimal(size)));
      text := text + ("Content-Length" + ": " + Decimal(size) + "\r\n") + "\r\n";
    } else {
      text := text + "\r\n";
    }
  }

  lemma {:induction false} NotBoth(name: string)
    ensures !(CaseInsensitiveEqual(name, "content-length") && CaseInsensitiveEqual(name, "transfer-encoding"))
  {
    assert |"content-length"| == 14 && |"transfer-encoding"| == 17;
  }

  method WriteResponse(status: string, content: string, header: seq<Field>, close: bool) returns (text: string)
    ensures text == ResponseText(status, header, content, close)
  {
    text := "HTTP/1.1 " + status + "\r\n";
    text := WriteHeader(text, header, |content|, close);
    if content != "" {
      text := text + content;
    } else {
      assert text + content == text;
    }
  }

  // ----- a head that was written is found and parsed

  function FieldLine(f: Field): string {
    f.name + ": " + f.value + "\r"
  }

  function FieldLines(fs: seq<Field>): (ls: seq<string>)
    ensures |ls| == |fs| && forall i :: 0 <= i < |fs| ==> ls[i] == FieldLine(fs[i])
  {
    if fs == [] then [] else [FieldLine(fs[0])] + FieldLines(fs[1..])
  }

  lemma {:induction false} JoinFieldLines(fs: seq<Field>)
    ensures Join(FieldLines(fs)) == FieldsText(fs)
  {
    hide FieldLine, FieldText;
    if fs != [] {
      JoinFieldLines(fs[1..]);
      LineOfField(fs[0]);
    }
  }

  lemma {:induction false} LineOfField(f: Field)
    ensures FieldLine(f) + "\n" == FieldText(f)
  {
  }

  function MessageLines(first: string, fs: seq<Field>): seq<string> {
    [first + "\r"] + FieldLines(fs)
  }

  lemma {:induction false} MessageIsLines(first: string, fs: seq<Field>, content: string)
    ensures MessageText(first, fs, content) == Join(MessageLines(first, fs) + ["\r"]) + content
  {
    var ls := MessageLines(first, fs);
    JoinFieldLines(fs);
    JoinAppend(ls, ["\r"]);
    assert Join(["\r"]) == "\r\n";
    assert ls[1..] == FieldLines(fs);
    assert Join(ls) == first + "\r\n" + FieldsText(fs);
  }

  /** Names without colon and LF, values without LF: what a header line can carry. */
  predicate Sendable(f: Field) {
    ':' !in f.name && '\n' !in f.name && '\n' !in f.value
  }

  predicate AllSendable(fs: seq<Field>) {
    forall f :: f in fs ==> Sendable(f)
  }

  /** What precedes the CRLF of the last line before the blank one. */
  function LastText(first: string, fs: seq<Field>): string {
    if fs == [] then first else fs[|fs| - 1].name + ": " + fs[|fs| - 1].value
  }

  /** No stray LF, so that every line of the head arrives as one. */
  predicate OnLines(first: string, fs: seq<Field>) {
    first != "" && '\n' !in first && AllSendable(fs)
  }

  /** The text before the CRLF of the last line does not hide the CR of that line from a header end. */
  predicate Findable(d: Delimiter, first: string, fs: seq<Field>) {
    OnLines(first, fs) && (d == HeaderEnd ==> !OddCr(LastText(first, fs)))
  }

  lemma {:induction false} FieldLineShape(f: Field)
    requires Sendable(f)
    ensures var l := FieldLine(f);
            '\n' !in l && ':' in l && l != "" && l != "\r"
  {
    var l := FieldLine(f);
    assert l[|f.name|] == ':';
  }

  lemma {:induction false} MessageLinesClose(d: Delimiter, first: string, fs: seq<Field>)
    requires d != Crlf && OnLines(first, fs)
    ensures NotBlank(MessageLines(first, fs)) && HaveColon(FieldLines(fs))
    ensures Closes(d, MessageLines(first, fs) + ["\r"]) <==> Findable(d, first, fs)
  {
    hide FieldLine, LastText, OddCr;
    var ls := MessageLines(first, fs);
    forall i | 0 <= i < |fs|
      ensures var l := FieldLines(fs)[i];
              '\n' !in l && ':' in l && l != "" && l != "\r"
    {
      assert fs[i] in fs;
      FieldLineShape(fs[i]);
    }
    LastLineText(first, fs);
    OneMoreCr(LastText(first, fs));
    forall i | 0 <= i < |ls| ensures '\n' !in ls[i] && ls[i] != "" && ls[i] != "\r" {
      if i > 0 {
        assert ls[i] == FieldLines(fs)[i - 1];
      }
    }
  }

  lemma {:induction false} OneMoreCr(text: string)
    ensures OddCr(text + "\r") <==> !OddCr(text)
  {
    CrRunPrefix(text, "\r", |text|);
  }

  lemma {:induction false} LastLineText(first: string, fs: seq<Field>)
    ensures var ls := MessageLines(first, fs);
            ls[|ls| - 1] == LastText(first, fs) + "\r"
  {
    if fs != [] {
      assert MessageLines(first, fs)[|fs|] == FieldLines(fs)[|fs| - 1];
    }
  }

  /** What a field comes back as: its value without the spaces it begins with. */
  function Trimmed(f: Field): Field {
    Field(f.name, TrimLeft(f.value))
  }

  function TrimLeft(s: string): string {
    if s != "" && s[0] == ' ' then TrimLeft(s[1..]) else s
  }

  function TrimmedFields(fs: seq<Field>): (r: seq<Field>)
    ensures |r| == |fs| && forall i :: 0 <= i < |fs| ==> r[i] == Trimmed(fs[i])
  {
    if fs == [] then [] else [Trimmed(fs[0])] + TrimmedFields(fs[1..])
  }

  /** Values that begin with no space come back as they were. */
  lemma {:induction false} NothingToTrim(fs: seq<Field>)
    ensures TrimmedFields(fs) == fs <==> forall f :: f in fs ==> f.value == "" || f.value[0] != ' '
  {
    forall f: Field ensures Trimmed(f) == f <==> f.value == "" || f.value[0] != ' ' {
      TrimShortens(f.value);
    }
    if TrimmedFields(fs) == fs {
      assert forall i :: 0 <= i < |fs| ==> fs[i] == Trimmed(fs[i]);
    } else {
      assert exists i :: 0 <= i < |fs| && fs[i] != Trimmed(fs[i]);
    }
  }

  lemma {:induction false} TrimShortens(s: string)
    ensures |TrimLeft(s)| <= |s| && (s != "" && s[0] == ' ' ==> |TrimLeft(s)| < |s|)
  {
    if s != "" && s[0] == ' ' {
      TrimShortens(s[1..]);
    }
  }

  lemma {:induction false} FieldLineParses(f: Field)
    requires Sendable(f)
    ensures ':' in FieldLine(f) && HeaderField(FieldLine(f)) == [Trimmed(f)]
  {
    var line, n := FieldLine(f), |f.name|;
    assert line[n] == ':' && line[n + 1] == ' ' && line[..n] == f.name;
    assert forall k :: 0 <= k < n ==> line[k] == f.name[k];
    assert Find(line, ':', 0) == n;
    assert line[n + 2..] == f.value + "\r";
    StartOfValue(line, n + 2, f.value);
    assert ValueStart(line, n + 1) == ValueStart(line, n + 2);
  }

  lemma {:induction false} StartOfValue(line: string, from: nat, value: string)
    requires from <= |line| && line[from..] == value + "\r"
    ensures var start := ValueStart(line, from);
            start < |line| && line[|line| - 1] == '\r' && line[start..|line| - 1] == TrimLeft(value)
    decreases |line| - from
  {
    var t := line[from..];
    assert t[|t| - 1] == '\r' && |t| == |value| + 1;
    assert line[from] == t[0];
    if value != "" && value[0] == ' ' {
      assert line[from + 1..] == t[1..] == value[1..] + "\r";
      StartOfValue(line, from + 1, value[1..]);
    } else {
      assert value != "" ==> t[0] == value[0];
      assert line[from..|line| - 1] == t[..|t| - 1] == value;
    }
  }

  lemma {:induction false} FieldLinesParse(fs: seq<Field>)
    requires AllSendable(fs)
    ensures FieldsOnLines(FieldLines(fs)) == TrimmedFields(fs)
  {
    hide HeaderField, FieldLine, Trimmed;
    if fs != [] {
      assert fs[0] in fs;
      FieldLineParses(fs[0]);
      FieldLinesParse(fs[1..]);
      assert FieldLines(fs)[1..] == FieldLines(fs[1..]);
    }
  }

  /** The parser takes the head of a message, the whole head and nothing but the head; and the delimiter
      search finds the end of the head unless, for a header end, the CRs at the end of its last line hide it. */
  lemma {:induction false} MessageHead(d: Delimiter, first: string, fs: seq<Field>, content: string)
    requires d != Crlf && OnLines(first, fs)
    ensures var s, ls := MessageText(first, fs, content), MessageLines(first, fs) + ["\r"];
            && |content| <= |s| && s[|s| - |content|..] == content
            && (IsFirstEnd(d, s, |s| - |content|) <==> Findable(d, first, fs))
            && s == Join(ls) + content && IsHead(ls, Join(ls))
            && FieldsOnLines(ls[1..|ls| - 1]) == TrimmedFields(fs) && Unread(ls[1..|ls| - 1], "\r") == ""
  {
    hide IsFirstEnd, FieldsOnLines, MessageText, Join, Unread, Closes, Findable;
    var ls := MessageLines(first, fs) + ["\r"];
    MessageLinesClose(d, first, fs);
    MessageIsLines(first, fs, content);
    HeadEndsFirst(d, MessageLines(first, fs), content);
    FieldLinesParse(fs);
    assert ls[1..|ls| - 1] == FieldLines(fs);
    UnreadNothing(FieldLines(fs), "\r");
  }
}
