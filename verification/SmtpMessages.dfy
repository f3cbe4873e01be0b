/**
  SMTP messages: header lines, dot-stuffing and the data terminator, against the receiver of RFC 5321,
  section 4.5.2.
 */
module SmtpMessages {
  import opened Wrappers

  const CR := '\r'
  const LF := '\n'
  const LINE_SEPARATOR := '\U{2028}'
  const PARAGRAPH_SEPARATOR := '\U{2029}'
  const CRLF := "\r\n"
  const TERMINATOR := "\r\n.\r\n"

  /** What ends a line for a multiline regular expression of ECMA-262. */
  predicate EndsLine(c: char) { c == LF || c == CR || c == LINE_SEPARATOR || c == PARAGRAPH_SEPARATOR }

  // ----- Sending

  /** Every line feed, with or without a carriage return before it, becomes CRLF. */
  function Normalize(s: string): string
    decreases |s|
  {
    if s == "" then ""
    else if CRLF <= s then CRLF + Normalize(s[2..])
    else if s[0] == LF then CRLF + Normalize(s[1..])
    else [s[0]] + Normalize(s[1..])
  }

  /** Doubles every dot that starts a line; `lineStart` says whether `s` itself starts one. */
  function Stuff(s: string, lineStart: bool): string {
    if s == "" then ""
    else (if lineStart && s[0] == '.' then ".." else [s[0]]) + Stuff(s[1..], EndsLine(s[0]))
  }

  function DotStuff(body: string): string { Stuff(Normalize(body), true) }

  predicate IsBreak(c: char) { c == CR || c == LF }

  predicate NoBreaks(s: string) { forall i | 0 <= i < |s| :: !IsBreak(s[i]) }

  predicate IsAscii(s: string) { forall i | 0 <= i < |s| :: s[i] as int <= 127 }

  /** Every run of carriage returns and line feeds becomes one space. */
  function CollapseBreaks(s: string, inRun: bool): string {
    if s == "" then ""
    else if IsBreak(s[0]) then (if inRun then "" else " ") + CollapseBreaks(s[1..], true)
    else [s[0]] + CollapseBreaks(s[1..], false)
  }

  function TrimStart(s: string, isSpace: char -> bool): string {
    if s != "" && isSpace(s[0]) then TrimStart(s[1..], isSpace) else s
  }

  function TrimEnd(s: string, isSpace: char -> bool): string {
    if s != "" && isSpace(s[|s| - 1]) then TrimEnd(s[..|s| - 1], isSpace) else s
  }

  /** The library calls a message needs: white space, Base64 text and the current date. */
  datatype Library = Library(isSpace: char -> bool, base64: string -> string, date: string)

  function SanitizeHeader(value: string, lib: Library): string {
    TrimEnd(TrimStart(CollapseBreaks(value, false), lib.isSpace), lib.isSpace)
  }

  function EncodeHeaderValue(value: string, lib: Library): string {
    var sanitized := SanitizeHeader(value, lib);
    if IsAscii(sanitized) then sanitized else "=?UTF-8?B?" + lib.base64(sanitized) + "?="
  }

  datatype Message = Message(from: string, recipient: string, subject: Option<string>, messageId: string, body: string)

  function Headers(m: Message, lib: Library): seq<string> {
    ["From: " + SanitizeHeader(m.from, lib),
     "To: " + SanitizeHeader(m.recipient, lib),
     "Subject: " + EncodeHeaderValue(if m.subject.Some? then m.subject.value else "", lib),
     "Date: " + lib.date,
     "Message-ID: " + SanitizeHeader(m.messageId, lib),
     "MIME-Version: 1.0",
     "Content-Type: text/plain; charset=\"UTF-8\"",
     "Content-Transfer-Encoding: 8bit"]
  }

  function JoinLines(lines: seq<string>): string {
    if |lines| == 0 then "" else if |lines| == 1 then lines[0] else lines[0] + CRLF + JoinLines(lines[1..])
  }

  function FormatEmailMessage(m: Message, lib: Library): string {
    JoinLines(Headers(m, lib) + ["", DotStuff(m.body)])
  }

  /** What the DATA command writes. */
  function Data(m: Message, lib: Library): string { FormatEmailMessage(m, lib) + TERMINATOR }

  // ----- What sending makes of a text

  /** By code point: line feed, carriage return, line separator and paragraph separator. */
  lemma LineEnds(c: char)
    ensures EndsLine(c) <==> c as int in {0x0A, 0x0D, 0x2028, 0x2029}
  {
  }

  /** Carriage returns go where a line feed follows. */
  function ToLf(s: string): string
    decreases |s|
  {
    if s == "" then ""
    else if |s| > 1 && s[0] as int == 13 && s[1] as int == 10 then "\n" + ToLf(s[2..])
    else [s[0]] + ToLf(s[1..])
  }

  /** Normalizing changes nothing but carriage returns before line feeds, and leaves one before each of them. */
  lemma {:induction false} NormalizeMeaning(s: string)
    ensures ToLf(Normalize(s)) == ToLf(s)
    ensures forall i | 0 <= i < |Normalize(s)| && Normalize(s)[i] as int == 10 ::
              i > 0 && Normalize(s)[i - 1] as int == 13
    decreases |s|
  {
    NormalizeStep(s);
    if s == "" {
    } else if CRLF <= s {
      NormalizeMeaning(s[2..]);
      assert (CRLF + Normalize(s[2..]))[2..] == Normalize(s[2..]);
    } else if s[0] == LF {
      NormalizeMeaning(s[1..]);
      assert (CRLF + Normalize(s[1..]))[2..] == Normalize(s[1..]);
    } else {
      NormalizeMeaning(s[1..]);
      assert ([s[0]] + Normalize(s[1..]))[1..] == Normalize(s[1..]);
      if |s| > 1 { assert Normalize(s[1..]) == "" || Normalize(s[1..])[0] as int != 10; }
    }
  }

  predicate AllBreaks(s: string) { forall i | 0 <= i < |s| :: s[i] as int in {10, 13} }

  predicate OnOneLine(s: string) { forall i | 0 <= i < |s| :: s[i] as int !in {10, 13} }

  /** Text without line breaks stays, and each run of them becomes one space. */
  lemma {:induction false} CollapseMeaning(text: string, run: string, rest: string)
    requires OnOneLine(text) && AllBreaks(run)
    requires run != "" && (rest != "" ==> rest[0] as int !in {10, 13})
    ensures CollapseBreaks(text, false) == text
    ensures CollapseBreaks(text + run + rest, false) == text + " " + CollapseBreaks(rest, false)
    decreases |text|
  {
    if text == "" {
      assert "" + run + rest == run + rest;
      assert (run + rest)[1..] == run[1..] + rest;
      CollapseRun(run[1..], rest);
    } else {
      CollapseMeaning(text[1..], run, rest);
      assert (text + run + rest)[1..] == text[1..] + run + rest;
      assert text == [text[0]] + text[1..];
    }
  }

  lemma {:induction false} CollapseRun(run: string, rest: string)
    requires AllBreaks(run) && (rest != "" ==> rest[0] as int !in {10, 13})
    ensures CollapseBreaks(run + rest, true) == CollapseBreaks(rest, false)
    decreases |run|
  {
    if run == "" {
      assert "" + rest == rest;
    } else {
      assert (run + rest)[1..] == run[1..] + rest;
      CollapseRun(run[1..], rest);
    }
  }

  predicate AllSpace(s: string, isSpace: char -> bool) { forall i | 0 <= i < |s| :: isSpace(s[i]) }

  lemma {:induction false} TrimStartMeaning(s: string, isSpace: char -> bool) returns (cut: string)
    ensures s == cut + TrimStart(s, isSpace) && AllSpace(cut, isSpace)
    ensures TrimStart(s, isSpace) != "" ==> !isSpace(TrimStart(s, isSpace)[0])
  {
    cut := "";
    if s != "" && isSpace(s[0]) {
      cut := TrimStartMeaning(s[1..], isSpace);
      cut := [s[0]] + cut;
    }
  }

  lemma {:induction false} TrimEndMeaning(s: string, isSpace: char -> bool) returns (cut: string)
    ensures s == TrimEnd(s, isSpace) + cut && AllSpace(cut, isSpace)
    ensures var t := TrimEnd(s, isSpace); t != "" ==> !isSpace(t[|t| - 1])
    decreases |s|
  {
    cut := "";
    if s != "" && isSpace(s[|s| - 1]) {
      cut := TrimEndMeaning(s[..|s| - 1], isSpace);
      cut := cut + [s[|s| - 1]];
    }
  }

  /** A header value loses white space at its ends and nothing else once its breaks are spaces. */
  lemma SanitizeMeaning(value: string, lib: Library) returns (before: string, after: string)
    ensures CollapseBreaks(value, false) == before + SanitizeHeader(value, lib) + after
    ensures AllSpace(before, lib.isSpace) && AllSpace(after, lib.isSpace)
    ensures var t := SanitizeHeader(value, lib);
            t != "" ==> !lib.isSpace(t[0]) && !lib.isSpace(t[|t| - 1])
  {
    var collapsed := CollapseBreaks(value, false);
    before := TrimStartMeaning(collapsed, lib.isSpace);
    after := TrimEndMeaning(TrimStart(collapsed, lib.isSpace), lib.isSpace);
    var started, t := TrimStart(collapsed, lib.isSpace), SanitizeHeader(value, lib);
    if t != "" { assert started[0] == t[0]; }
  }

  /** Characters beyond the first 128 make a header value an encoded word of RFC 2047. */
  lemma EncodedMeaning(value: string, lib: Library)
    ensures var plain := SanitizeHeader(value, lib);
            && ((exists i | 0 <= i < |plain| :: plain[i] as int >= 128) ==>
                  EncodeHeaderValue(value, lib) == "=?UTF-8?B?" + (lib.base64(plain) + "?="))
            && ((forall i | 0 <= i < |plain| :: plain[i] as int < 128) ==> EncodeHeaderValue(value, lib) == plain)
  {
    var plain := SanitizeHeader(value, lib);
    assert "=?UTF-8?B?" + lib.base64(plain) + "?=" == "=?UTF-8?B?" + (lib.base64(plain) + "?=");
  }

  // ----- Reading a message back

  /** The value of the first header line with this name. */
  function Named(lines: seq<string>, name: string): Option<string>
    decreases |lines|
  {
    if lines == [] then None
    else if name + ": " <= lines[0] then Some(lines[0][|name| + 2..]) else Named(lines[1..], name)
  }

  const HEADER_NAMES: seq<string> := [
    "From", "To", "Subject", "Date", "Message-ID", "MIME-Version", "Content-Type", "Content-Transfer-Encoding"]

  /** What the message says under these names. */
  function HeaderValues(m: Message, lib: Library): seq<string> {
    [SanitizeHeader(m.from, lib), SanitizeHeader(m.recipient, lib),
     EncodeHeaderValue(match m.subject case None => "" case Some(subject) => subject, lib), lib.date,
     SanitizeHeader(m.messageId, lib), "1.0", "text/plain; charset=\"UTF-8\"", "8bit"]
  }

  /** A reader that looks headers up by their names finds the values of the message. */
  lemma HeadersByName(m: Message, lib: Library, k: nat)
    requires k < 8
    ensures |Headers(m, lib)| == 8
    ensures Named(Headers(m, lib), HEADER_NAMES[k]) == Some(HeaderValues(m, lib)[k])
  {
    HeadersAreNamed(m, lib);
    NamesDiffer();
    hide Headers, Named, HEADER_NAMES, HeaderValues;
    NamedAmong(Headers(m, lib), HEADER_NAMES, HeaderValues(m, lib), k);
  }

  lemma HeadersAreNamed(m: Message, lib: Library)
    ensures |Headers(m, lib)| == |HEADER_NAMES| == |HeaderValues(m, lib)| == 8
    ensures forall i | 0 <= i < 8 :: Headers(m, lib)[i] == HEADER_NAMES[i] + ": " + HeaderValues(m, lib)[i]
  {
    hide SanitizeHeader, EncodeHeaderValue;
    FixedHeaders();
  }

  lemma FixedHeaders()
    ensures "MIME-Version" + ": " + "1.0" == "MIME-Version: 1.0"
    ensures "Content-Type" + ": " + "text/plain; charset=\"UTF-8\"" == "Content-Type: text/plain; charset=\"UTF-8\""
    ensures "Content-Transfer-Encoding" + ": " + "8bit" == "Content-Transfer-Encoding: 8bit"
  {
  }

  predicate NoColon(name: string) { forall i | 0 <= i < |name| :: name[i] != ':' }

  lemma NamesDiffer()
    ensures forall i, j | 0 <= i < j < 8 :: HEADER_NAMES[i] != HEADER_NAMES[j]
    ensures forall i | 0 <= i < 8 :: NoColon(HEADER_NAMES[i])
  {
    var n := HEADER_NAMES;
    assert |n[0]| == 4 && |n[1]| == 2 && |n[2]| == 7 && |n[3]| == 4 && |n[4]| == 10 && |n[5]| == 12 && |n[6]| == 12
        && |n[7]| == 25;
    assert n[0][0] == 'F' && n[3][0] == 'D' && n[5][0] == 'M' && n[6][0] == 'C';
  }

  lemma NameDecides(name: string, other: string, value: string)
    requires NoColon(name) && NoColon(other)
    ensures name + ": " <= other + ": " + value <==> name == other
  {
    var line := other + ": " + value;
    assert forall i | 0 <= i < |other| :: line[i] == other[i];
    assert line[|other|] == ':';
    if name + ": " <= line {
      assert forall i | 0 <= i < |name| :: line[i] == (name + ": ")[i] == name[i];
      assert line[|name|] == (name + ": ")[|name|] == ':';
      assert |name| == |other|;
    }
    if name == other { assert line == (name + ": ") + value; }
  }

  lemma {:induction false} NamedAmong(lines: seq<string>, names: seq<string>, values: seq<string>, k: nat)
    requires |lines| == |names| == |values| && k < |lines|
    requires forall i | 0 <= i < |lines| :: lines[i] == names[i] + ": " + values[i] && NoColon(names[i])
    requires forall i, j | 0 <= i < j < |names| :: names[i] != names[j]
    ensures Named(lines, names[k]) == Some(values[k])
    decreases k
  {
    hide NoColon;
    NameDecides(names[k], names[0], values[0]);
    if k == 0 {
      assert lines[0] == (names[0] + ": ") + values[0];
      assert lines[0][|names[0]| + 2..] == values[0];
    } else {
      NamedAmong(lines[1..], names[1..], values[1..], k - 1);
    }
  }

  /** The text up to the first line break CRLF, and the text after it. */
  function FirstLine(s: string, from: nat): Option<(string, string)>
    requires from <= |s|
    decreases |s| - from
  {
    if from + 2 > |s| then None
    else if s[from] as int == 13 && s[from + 1] as int == 10 then Some((s[..from], s[from + 2..]))
    else FirstLine(s, from + 1)
  }

  /** The lines before the first empty one, and the text after it. */
  function ReadMessage(s: string): (seq<string>, string)
    decreases |s|
  {
    match FirstLine(s, 0)
    case None => ([], s)
    case Some((line, rest)) =>
      if line == "" || |rest| >= |s| then ([], rest)
      else var (lines, body) := ReadMessage(rest); ([line] + lines, body)
  }

  lemma {:induction false} FirstLineOf(line: string, from: nat, rest: string)
    requires OnOneLine(line) && from <= |line|
    ensures FirstLine(line + CRLF + rest, from) == Some((line, rest))
    decreases |line| - from
  {
    var s := line + CRLF + rest;
    if from == |line| {
      assert s[..from] == line && s[from + 2..] == rest;
    } else {
      assert s[from] == line[from];
      FirstLineOf(line, from + 1, rest);
    }
  }

  /** A reader of the formatted message finds its header lines and then its body. */
  lemma {:induction false} MessageReadBack(lines: seq<string>, body: string)
    requires forall i | 0 <= i < |lines| :: OnOneLine(lines[i]) && lines[i] != ""
    ensures ReadMessage(JoinLines(lines + ["", body])) == (lines, body)
    decreases |lines|
  {
    var all := lines + ["", body];
    if lines == [] {
      assert all[1..] == [body] && JoinLines([body]) == body;
      assert JoinLines(all) == "" + CRLF + body;
      FirstLineOf("", 0, body);
    } else {
      assert all[1..] == lines[1..] + ["", body];
      var tail := JoinLines(all[1..]);
      assert JoinLines(all) == lines[0] + CRLF + tail;
      FirstLineOf(lines[0], 0, tail);
      MessageReadBack(lines[1..], body);
      assert [lines[0]] + lines[1..] == lines;
    }
  }

  /** The message as it is formatted reads back as its headers and its dot-stuffed body. */
  lemma FormattedReadsBack(m: Message, lib: Library)
    requires LibraryBehaves(lib)
    ensures ReadMessage(FormatEmailMessage(m, lib)) == (Headers(m, lib), DotStuff(m.body))
  {
    HeadersArePlainLines(m, lib);
    var lines := Headers(m, lib);
    assert forall i | 0 <= i < |lines| :: PlainLine(lines[i]) && lines[i] != "";
    hide Headers, DotStuff;
    MessageReadBack(lines, DotStuff(m.body));
  }

  // ----- Header lines

  /** The Base64 alphabet and a UTC date hold no line breaks. */
  ghost predicate LibraryBehaves(lib: Library) {
    NoBreaks(lib.date) && forall t: string :: NoBreaks(lib.base64(t))
  }

  lemma {:induction false} CollapsedHasNoBreaks(s: string, inRun: bool)
    ensures NoBreaks(CollapseBreaks(s, inRun))
  {
    if s != "" { CollapsedHasNoBreaks(s[1..], IsBreak(s[0])); }
  }

  lemma {:induction false} TrimStartHasNoBreaks(s: string, isSpace: char -> bool)
    requires NoBreaks(s)
    ensures NoBreaks(TrimStart(s, isSpace))
  {
    if s != "" && isSpace(s[0]) { TrimStartHasNoBreaks(s[1..], isSpace); }
  }

  lemma {:induction false} TrimEndHasNoBreaks(s: string, isSpace: char -> bool)
    requires NoBreaks(s)
    ensures NoBreaks(TrimEnd(s, isSpace))
  {
    if s != "" && isSpace(s[|s| - 1]) { TrimEndHasNoBreaks(s[..|s| - 1], isSpace); }
  }

  lemma SanitizedHasNoBreaks(value: string, lib: Library)
    ensures NoBreaks(SanitizeHeader(value, lib))
  {
    CollapsedHasNoBreaks(value, false);
    TrimStartHasNoBreaks(CollapseBreaks(value, false), lib.isSpace);
    TrimEndHasNoBreaks(TrimStart(CollapseBreaks(value, false), lib.isSpace), lib.isSpace);
  }

  /** A line that no reader splits, ends the data at, or takes a dot from. */
  predicate PlainLine(line: string) { NoBreaks(line) && (line != "" ==> line[0] != '.') }

  /** Whatever the addresses, subject and identifier hold, each header is one line and none starts with a dot. */
  lemma HeadersArePlainLines(m: Message, lib: Library)
    requires LibraryBehaves(lib)
    ensures forall i | 0 <= i < |Headers(m, lib)| :: PlainLine(Headers(m, lib)[i])
  {
    var subject := if m.subject.Some? then m.subject.value else "";
    SanitizedHasNoBreaks(m.from, lib);
    SanitizedHasNoBreaks(m.recipient, lib);
    SanitizedHasNoBreaks(subject, lib);
    SanitizedHasNoBreaks(m.messageId, lib);
    EncodedHasNoBreaks(subject, lib);
    hide SanitizeHeader, EncodeHeaderValue, PlainLine, NoBreaks;
    NamedLine("From: ", SanitizeHeader(m.from, lib));
    NamedLine("To: ", SanitizeHeader(m.recipient, lib));
    NamedLine("Subject: ", EncodeHeaderValue(subject, lib));
    NamedLine("Date: ", lib.date);
    NamedLine("Message-ID: ", SanitizeHeader(m.messageId, lib));
    FixedLines();
  }

  lemma FixedLines()
    ensures PlainLine("MIME-Version: 1.0") && PlainLine("Content-Type: text/plain; charset=\"UTF-8\"")
    ensures PlainLine("Content-Transfer-Encoding: 8bit")
  {
  }

  lemma NamedLine(name: string, value: string)
    requires name in {"From: ", "To: ", "Subject: ", "Date: ", "Message-ID: "} && NoBreaks(value)
    ensures PlainLine(name + value)
  {
  }

  lemma EncodedHasNoBreaks(value: string, lib: Library)
    requires LibraryBehaves(lib)
    ensures NoBreaks(EncodeHeaderValue(value, lib))
  {
    SanitizedHasNoBreaks(value, lib);
    hide SanitizeHeader, IsAscii;
    assert NoBreaks(lib.base64(SanitizeHeader(value, lib)));
  }

  // ----- Framing

  /** Wherever a dot follows a line feed, another dot follows it. */
  predicate DotsDoubled(s: string) {
    forall i | 0 < i < |s| :: s[i] == '.' && s[i - 1] == LF ==> i + 1 < |s| && s[i + 1] == '.'
  }

  predicate FirstDotDoubled(s: string) { s != "" && s[0] == '.' ==> |s| > 1 && s[1] == '.' }

  /** After stuffing, every dot that starts a line is followed by another. */
  lemma {:induction false} StuffDoubles(s: string, lineStart: bool)
    ensures DotsDoubled(Stuff(s, lineStart))
    ensures lineStart ==> FirstDotDoubled(Stuff(s, lineStart))
    ensures s != "" ==> Stuff(s, lineStart) != "" && Stuff(s, lineStart)[0] == s[0]
  {
    if s != "" {
      var tail := Stuff(s[1..], EndsLine(s[0]));
      StuffDoubles(s[1..], EndsLine(s[0]));
      var head := if lineStart && s[0] == '.' then ".." else [s[0]];
      assert Stuff(s, lineStart) == head + tail;
      forall i | 0 < i < |head + tail| && (head + tail)[i] == '.' && (head + tail)[i - 1] == LF
        ensures i + 1 < |head + tail| && (head + tail)[i + 1] == '.'
      {
        assert i >= |head| && (head + tail)[i] == tail[i - |head|];
        if i > |head| { assert (head + tail)[i - 1] == tail[i - |head| - 1]; }
      }
    }
  }

  lemma {:induction false} LinesDoubled(lines: seq<string>, body: string)
    requires forall i | 0 <= i < |lines| :: PlainLine(lines[i])
    requires DotsDoubled(body) && FirstDotDoubled(body)
    ensures DotsDoubled(JoinLines(lines + [body])) && FirstDotDoubled(JoinLines(lines + [body]))
    decreases |lines|
  {
    if lines == [] {
      assert lines + [body] == [body];
    } else {
      var tail := JoinLines(lines[1..] + [body]);
      LinesDoubled(lines[1..], body);
      assert (lines + [body])[1..] == lines[1..] + [body];
      var s := lines[0] + CRLF + tail;
      assert JoinLines(lines + [body]) == s;
      forall i | 0 < i < |s| && s[i] == '.' && s[i - 1] == LF ensures i + 1 < |s| && s[i + 1] == '.' {
        var k := i - |lines[0]| - 2;
        assert k >= 0 && s[i] == tail[k];
        if k > 0 { assert s[i - 1] == tail[k - 1]; }
      }
    }
  }

  lemma MessageDoubled(m: Message, lib: Library)
    requires LibraryBehaves(lib)
    ensures DotsDoubled(FormatEmailMessage(m, lib))
  {
    HeadersArePlainLines(m, lib);
    var lines := Headers(m, lib) + [""];
    hide Headers;
    StuffDoubles(Normalize(m.body), true);
    assert Headers(m, lib) + ["", DotStuff(m.body)] == lines + [DotStuff(m.body)];
    LinesDoubled(lines, DotStuff(m.body));
  }

  predicate OccursAt(s: string, pattern: string, k: nat) {
    k + |pattern| <= |s| && s[k..k + |pattern|] == pattern
  }

  /** Whatever the message says, the terminator occurs in the data once: at its end. */
  lemma TerminatorOnlyAtEnd(m: Message, lib: Library, k: nat)
    requires LibraryBehaves(lib)
    ensures OccursAt(Data(m, lib), TERMINATOR, k) <==> k == |FormatEmailMessage(m, lib)|
  {
    var text := FormatEmailMessage(m, lib);
    MessageDoubled(m, lib);
    hide FormatEmailMessage;
    var sent := text + TERMINATOR;
    if OccursAt(sent, TERMINATOR, k) {
      PatternAt(sent, k);
      DotAtLineStart(text, k + 2);
    } else {
      assert sent[|text|..|text| + 5] == TERMINATOR;
    }
  }

  lemma PatternAt(s: string, k: nat)
    requires OccursAt(s, TERMINATOR, k)
    ensures s[k + 1] == LF && s[k + 2] == '.' && s[k + 3] == CR
  {
    var occurrence := s[k..k + 5];
    assert occurrence[1] == s[k + 1] && occurrence[2] == s[k + 2] && occurrence[3] == s[k + 3];
  }

  lemma DotAtLineStart(text: string, i: nat)
    requires DotsDoubled(text)
    ensures var sent := text + TERMINATOR;
            0 < i < |text| && sent[i] == '.' && sent[i - 1] == LF ==> sent[i + 1] == '.'
  {
    var sent := text + TERMINATOR;
    if 0 < i < |text| && sent[i] == '.' && sent[i - 1] == LF {
      assert text[i] == sent[i] && text[i - 1] == sent[i - 1];
      assert text[i + 1] == sent[i + 1];
    }
  }

  // ----- Receiving

  /** The receiver: the data up to its end with leading dots removed, and what follows it. */
  function Receive(s: string, lineStart: bool): Option<(string, string)>
    decreases |s|
  {
    if s == "" then None
    else if lineStart && ".\r\n" <= s then Some(("", s[3..]))
    else if lineStart && s[0] == '.' then Receive(s[1..], false)
    else if CRLF <= s then Prepend(CRLF, Receive(s[2..], true))
    else Prepend([s[0]], Receive(s[1..], false))
  }

  function Prepend(head: string, received: Option<(string, string)>): Option<(string, string)> {
    match received
    case None => None
    case Some((text, rest)) => Some((head + text, rest))
  }

  /** Doubles every dot after a lone line end: a CR, LF, LS or PS that is not part of a CRLF. */
  function DoubleOdd(s: string, afterOdd: bool): string
    decreases |s|
  {
    if s == "" then ""
    else if CRLF <= s then CRLF + DoubleOdd(s[2..], false)
    else (if afterOdd && s[0] == '.' then ".." else [s[0]]) + DoubleOdd(s[1..], EndsLine(s[0]))
  }

  lemma ReceiveDotted(tail: string, lineStart: bool)
    ensures Receive(".." + tail, lineStart) == Prepend(if lineStart then "." else "..", Receive(tail, false))
  {
    var s := ".." + tail;
    assert s[1..][0] == '.' && s[1..][1..] == tail && s[1] == '.';
    assert Receive(s[1..], false) == Prepend(".", Receive(tail, false));
    assert !(".\r\n" <= s) && !(CRLF <= s);
    if !lineStart {
      assert Receive(s, false) == Prepend(".", Receive(s[1..], false));
      if Receive(tail, false).Some? {
        assert "." + ("." + Receive(tail, false).value.0) == ".." + Receive(tail, false).value.0;
      }
    }
  }

  lemma ReceivePlain(c: char, tail: string, lineStart: bool)
    requires lineStart ==> c != '.'
    requires c == CR ==> tail != "" && tail[0] != LF
    ensures Receive([c] + tail, lineStart) == Prepend([c], Receive(tail, false))
  {
    var s := [c] + tail;
    assert s[0] == c && s[1..] == tail;
  }

  lemma ReceiveBreak(tail: string, lineStart: bool)
    ensures Receive(CRLF + tail, lineStart) == Prepend(CRLF, Receive(tail, true))
  {
    var s := CRLF + tail;
    assert s[0] == CR && s[2..] == tail;
  }

  lemma ReceiveEnd(rest: string, lineStart: bool)
    ensures Receive(TERMINATOR + rest, lineStart) == Some((CRLF, rest))
  {
    var end := ".\r\n" + rest;
    assert end[3..] == rest && TERMINATOR + rest == CRLF + end;
    ReceiveBreak(end, lineStart);
    assert CRLF + "" == CRLF;
  }

  lemma StuffStep(s: string, lineStart: bool)
    requires s != ""
    ensures Stuff(s, lineStart) == (if lineStart && s[0] == '.' then ".." else [s[0]]) + Stuff(s[1..], EndsLine(s[0]))
    ensures CRLF <= s ==> Stuff(s, lineStart) == CRLF + Stuff(s[2..], true)
  {
    if CRLF <= s {
      assert s[1..][0] == LF && s[1..][1..] == s[2..];
      assert [CR] + ([LF] + Stuff(s[2..], true)) == CRLF + Stuff(s[2..], true);
    }
  }

  /** The receiver takes back every dot except those the sender doubled where no line of the protocol starts. */
  lemma {:induction false} ReceiveStuffed(s: string, senderStart: bool, receiverStart: bool, rest: string)
    requires receiverStart ==> senderStart
    ensures Receive(Stuff(s, senderStart) + TERMINATOR + rest, receiverStart)
         == Some((DoubleOdd(s, senderStart && !receiverStart) + CRLF, rest))
    decreases |s|, 1
  {
    hide Receive, Stuff, EndsLine;
    if s == "" {
      EmptyStuff(senderStart);
      assert "" + TERMINATOR + rest == TERMINATOR + rest && "" + CRLF == CRLF;
      ReceiveEnd(rest, receiverStart);
    } else if CRLF <= s {
      StuffStep(s, senderStart);
      var tail := Stuff(s[2..], true) + TERMINATOR + rest;
      assert Stuff(s, senderStart) + TERMINATOR + rest == CRLF + tail;
      ReceiveBreak(tail, receiverStart);
      ReceiveStuffed(s[2..], true, true, rest);
      assert CRLF + (DoubleOdd(s[2..], false) + CRLF) == CRLF + DoubleOdd(s[2..], false) + CRLF;
    } else {
      ReceiveStuffedLone(s, senderStart, receiverStart, rest);
    }
  }

  lemma EmptyStuff(lineStart: bool)
    ensures Stuff("", lineStart) == ""
  {
  }

  lemma {:induction false} ReceiveStuffedLone(s: string, senderStart: bool, receiverStart: bool, rest: string)
    requires s != "" && !(CRLF <= s) && (receiverStart ==> senderStart)
    ensures Receive(Stuff(s, senderStart) + TERMINATOR + rest, receiverStart)
         == Some((DoubleOdd(s, senderStart && !receiverStart) + CRLF, rest))
    decreases |s|, 0
  {
    hide Receive, Stuff, EndsLine, DoubleOdd;
    StuffStep(s, senderStart);
    var next := EndsLine(s[0]);
    var stuffed := Stuff(s[1..], next);
    var tail := stuffed + TERMINATOR + rest;
    ReceiveStuffed(s[1..], next, false, rest);
    DoubleOddStep(s, senderStart && !receiverStart);
    var text := DoubleOdd(s[1..], next);
    if senderStart && s[0] == '.' {
      Regroup("..", stuffed, rest);
      ReceiveDotted(tail, receiverStart);
      var head := if receiverStart then "." else "..";
      assert head + (text + CRLF) == head + text + CRLF;
    } else {
      Regroup([s[0]], stuffed, rest);
      NotLineFeed(s, stuffed, rest);
      ReceivePlain(s[0], tail, receiverStart);
      assert [s[0]] + (text + CRLF) == [s[0]] + text + CRLF;
    }
  }

  lemma Regroup(head: string, stuffed: string, rest: string)
    ensures (head + stuffed) + TERMINATOR + rest == head + (stuffed + TERMINATOR + rest)
  {
  }

  lemma NotLineFeed(s: string, stuffed: string, rest: string)
    requires s != "" && !(CRLF <= s) && stuffed == Stuff(s[1..], EndsLine(s[0]))
    ensures stuffed + TERMINATOR + rest != ""
    ensures s[0] == CR ==> (stuffed + TERMINATOR + rest)[0] != LF
  {
    StuffDoubles(s[1..], EndsLine(s[0]));
    if |s| > 1 { assert (stuffed + TERMINATOR + rest)[0] == s[1]; }
  }

  lemma DoubleOddStep(s: string, afterOdd: bool)
    requires s != "" && !(CRLF <= s)
    ensures DoubleOdd(s, afterOdd)
        == (if afterOdd && s[0] == '.' then ".." else [s[0]]) + DoubleOdd(s[1..], EndsLine(s[0]))
  {
  }

  // ----- When nothing is lost or added

  predicate IsOdd(c: char) { c == CR || c == LINE_SEPARATOR || c == PARAGRAPH_SEPARATOR }

  /** A dot right after a lone carriage return, a line separator or a paragraph separator. */
  predicate HasOddDot(s: string) {
    exists i | 0 < i < |s| :: s[i] == '.' && IsOdd(s[i - 1])
  }

  lemma OddDotStep(s: string)
    requires s != ""
    ensures HasOddDot(s) <==> HasOddDot(s[1..]) || (|s| > 1 && IsOdd(s[0]) && s[1] == '.')
  {
    if i :| 0 < i < |s[1..]| && s[1..][i] == '.' && IsOdd(s[1..][i - 1]) { assert s[i + 1] == '.' && IsOdd(s[i]); }
    if i :| 0 < i < |s| && s[i] == '.' && IsOdd(s[i - 1]) {
      if i > 1 { assert s[1..][i - 1] == '.' && IsOdd(s[1..][i - 2]); }
    }
  }

  /** Every line feed is part of a CRLF. */
  predicate Normalized(s: string) { forall i | 0 <= i < |s| && s[i] == LF :: i > 0 && s[i - 1] == CR }

  lemma {:induction false} NormalizeStep(s: string)
    ensures Normalized(Normalize(s))
    ensures s != "" ==> Normalize(s) != "" && (s[0] == '.' <==> Normalize(s)[0] == '.')
    ensures HasOddDot(Normalize(s)) <==> HasOddDot(s)
    decreases |s|
  {
    if s == "" {
    } else if CRLF <= s {
      NormalizeStep(s[2..]);
      OddDotStep(s);
      OddDotStep(s[1..]);
      assert s[1..][1..] == s[2..];
      AfterBreak(Normalize(s[2..]));
    } else if s[0] == LF {
      NormalizeStep(s[1..]);
      OddDotStep(s);
      AfterBreak(Normalize(s[1..]));
    } else {
      NormalizeStep(s[1..]);
      OddDotStep(s);
      var t := [s[0]] + Normalize(s[1..]);
      OddDotStep(t);
      assert t[1..] == Normalize(s[1..]);
      forall i | 0 <= i < |t| && t[i] == LF ensures i > 0 && t[i - 1] == CR {
        assert t[i] == Normalize(s[1..])[i - 1];
      }
    }
  }

  lemma AfterBreak(tail: string)
    requires Normalized(tail)
    ensures Normalized(CRLF + tail) && (HasOddDot(CRLF + tail) <==> HasOddDot(tail))
  {
    var t := CRLF + tail;
    OddDotStep(t);
    OddDotStep(t[1..]);
    assert t[1..][0] == LF && t[1..][1..] == tail;
    forall i | 0 <= i < |t| && t[i] == LF ensures i > 0 && t[i - 1] == CR {
      if i > 1 { assert t[i] == tail[i - 2]; }
    }
  }

  lemma SuffixNormalized(s: string, n: nat)
    requires Normalized(s) && n <= |s| && (n < |s| ==> s[n] != LF)
    ensures Normalized(s[n..])
  {
    forall i | 0 <= i < |s[n..]| && s[n..][i] == LF ensures i > 0 && s[n..][i - 1] == CR { assert s[n + i] == LF; }
  }

  lemma {:induction false} DoublingAddsDots(s: string, afterOdd: bool)
    requires Normalized(s)
    ensures |DoubleOdd(s, afterOdd)| >= |s|
    ensures DoubleOdd(s, afterOdd) == s <==> !HasOddDot(s) && !(afterOdd && s != "" && s[0] == '.')
    decreases |s|
  {
    if s == "" {
    } else if CRLF <= s {
      assert s[1] == LF;
      SuffixNormalized(s, 2);
      DoublingAddsDots(s[2..], false);
      OddDotStep(s);
      OddDotStep(s[1..]);
      assert s[1..][1..] == s[2..] && s == CRLF + s[2..];
      assert (CRLF + DoubleOdd(s[2..], false))[2..] == DoubleOdd(s[2..], false);
    } else {
      SuffixNormalized(s, 1);
      DoublingAddsDots(s[1..], EndsLine(s[0]));
      OddDotStep(s);
      assert s == [s[0]] + s[1..];
      assert ([s[0]] + DoubleOdd(s[1..], EndsLine(s[0])))[1..] == DoubleOdd(s[1..], EndsLine(s[0]));
    }
  }

  /**
    The receiver gets the body with its line ends normalized, exactly when no dot in the body follows a lone
    carriage return, a line separator or a paragraph separator; what comes after the data is left as it is.
   */
  lemma BodyRoundTrip(body: string, rest: string)
    ensures Receive(DotStuff(body) + TERMINATOR + rest, true) == Some((Normalize(body) + CRLF, rest))
        <==> !HasOddDot(body)
  {
    var sent := Normalize(body);
    NormalizeStep(body);
    ReceiveStuffed(sent, true, true, rest);
    DoublingAddsDots(sent, false);
    assert DoubleOdd(sent, false) + CRLF == sent + CRLF ==> DoubleOdd(sent, false) == sent by {
      assert (DoubleOdd(sent, false) + CRLF)[..|DoubleOdd(sent, false)|] == DoubleOdd(sent, false);
      assert (sent + CRLF)[..|sent|] == sent;
    }
  }

  /** In particular for bodies whose line ends are LF or CRLF. */
  lemma OrdinaryBodyHasNoOddDot(body: string)
    requires forall i | 0 <= i < |body| ::
               body[i] != LINE_SEPARATOR && body[i] != PARAGRAPH_SEPARATOR
                 && (body[i] == CR ==> i + 1 < |body| && body[i + 1] == LF)
    ensures !HasOddDot(body)
  {
  }

  // ----- The whole message

  lemma {:induction false} ReceiveLine(line: string, done: nat, tail: string)
    requires NoBreaks(line) && done <= |line| && (done == 0 ==> line == "" || line[0] != '.')
    ensures Receive(line[done..] + CRLF + tail, done == 0) == Prepend(line[done..] + CRLF, Receive(tail, true))
    decreases |line| - done
  {
    hide Receive;
    if done == |line| {
      assert line[done..] + CRLF + tail == CRLF + tail && line[done..] + CRLF == CRLF;
      ReceiveBreak(tail, done == 0);
    } else {
      var next := line[done + 1..] + CRLF + tail;
      assert line[done..] + CRLF + tail == [line[done]] + next;
      assert !IsBreak(line[done]);
      ReceivePlain(line[done], next, done == 0);
      ReceiveLine(line, done + 1, tail);
      if Receive(tail, true).Some? {
        var text := Receive(tail, true).value.0;
        assert [line[done]] + (line[done + 1..] + CRLF + text) == line[done..] + CRLF + text;
      }
    }
  }

  lemma {:induction false} ReceiveLines(lines: seq<string>, last: string, end: string)
    requires forall i | 0 <= i < |lines| :: PlainLine(lines[i])
    ensures Receive(JoinLines(lines + [last]) + end, true)
        == Prepend(JoinLines(lines + [""]), Receive(last + end, true))
    decreases |lines|
  {
    hide Receive;
    if lines == [] {
      assert lines + [last] == [last] && lines + [""] == [""];
      if Receive(last + end, true).Some? {
        assert "" + Receive(last + end, true).value.0 == Receive(last + end, true).value.0;
      }
    } else {
      var tail := JoinLines(lines[1..] + [last]) + end;
      assert (lines + [last])[1..] == lines[1..] + [last] && (lines + [""])[1..] == lines[1..] + [""];
      assert lines[0][0..] == lines[0];
      assert JoinLines(lines + [last]) + end == lines[0] + CRLF + tail;
      ReceiveLine(lines[0], 0, tail);
      ReceiveLines(lines[1..], last, end);
      if Receive(last + end, true).Some? {
        var text := Receive(last + end, true).value.0;
        var head := JoinLines(lines[1..] + [""]);
        assert lines[0] + CRLF + (head + text) == lines[0] + CRLF + head + text;
      }
    }
  }

  /**
    The receiver reads each message as its header lines, a blank line and its normalized body, and stops
    exactly where the message ends, so that a following message or command is read by itself.
   */
  lemma MessageRoundTrip(m: Message, lib: Library, rest: string)
    requires LibraryBehaves(lib) && !HasOddDot(m.body)
    ensures Receive(Data(m, lib) + rest, true)
         == Some((JoinLines(Headers(m, lib) + ["", Normalize(m.body)]) + CRLF, rest))
  {
    HeadersArePlainLines(m, lib);
    var lines := Headers(m, lib) + [""];
    hide Headers, Receive, Stuff, PlainLine;
    assert PlainLine("") by { EmptyIsPlain(); }
    assert Headers(m, lib) + ["", DotStuff(m.body)] == lines + [DotStuff(m.body)];
    assert Data(m, lib) + rest == JoinLines(lines + [DotStuff(m.body)]) + (TERMINATOR + rest);
    ReceiveLines(lines, DotStuff(m.body), TERMINATOR + rest);
    assert DotStuff(m.body) + (TERMINATOR + rest) == DotStuff(m.body) + TERMINATOR + rest;
    BodyRoundTrip(m.body, rest);
    assert Headers(m, lib) + ["", Normalize(m.body)] == lines + [Normalize(m.body)];
    JoinLast(lines, Normalize(m.body));
    assert JoinLines(lines + [""]) + (Normalize(m.body) + CRLF) == JoinLines(lines + [""]) + Normalize(m.body) + CRLF;
  }

  lemma EmptyIsPlain()
    ensures PlainLine("")
  {
  }

  lemma {:induction false} JoinLast(lines: seq<string>, last: string)
    ensures JoinLines(lines + [last]) == JoinLines(lines + [""]) + last
    decreases |lines|
  {
    if lines == [] {
      assert lines + [last] == [last] && lines + [""] == [""] && "" + last == last;
    } else {
      assert (lines + [last])[1..] == lines[1..] + [last] && (lines + [""])[1..] == lines[1..] + [""];
      JoinLast(lines[1..], last);
      assert lines[0] + CRLF + (JoinLines(lines[1..] + [""]) + last)
          == lines[0] + CRLF + JoinLines(lines[1..] + [""]) + last;
    }
  }
}
