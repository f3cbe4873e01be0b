/**
  SMTP replies: finding one reply in the bytes received so far, and why the way they arrive in chunks
  does not matter. Replies follow RFC 5321, section 4.2.1.
 */
module SmtpReplies {
  import opened Wrappers

  const CRLF := "\r\n"

  datatype Response = Response(code: int, text: string)

  /** How text becomes a number, none when it is not an integer, and how a number is written. */
  datatype Numbers = Numbers(parse: string -> Option<int>, write: int -> string)

  // ----- Lines

  /** The text cut at every CRLF: the complete lines and then what follows the last of them. */
  function Split(s: string): (lines: seq<string>)
    ensures |lines| >= 1
    decreases |s|
  {
    SplitFrom(s, 0)
  }

  /** As `Split`, when no CRLF starts before `from`. */
  function SplitFrom(s: string, from: nat): (lines: seq<string>)
    requires from <= |s|
    ensures |lines| >= 1
    decreases |s|, |s| - from
  {
    if from + 2 > |s| then [s]
    else if s[from] == '\r' && s[from + 1] == '\n' then [s[..from]] + SplitFrom(s[from + 2..], 0)
    else SplitFrom(s, from + 1)
  }

  function Join(lines: seq<string>, separator: string): string {
    if |lines| == 0 then "" else if |lines| == 1 then lines[0] else lines[0] + separator + Join(lines[1..], separator)
  }

  /** Lines, each with its CRLF. */
  function Terminated(lines: seq<string>): string {
    if lines == [] then "" else lines[0] + CRLF + Terminated(lines[1..])
  }

  lemma {:induction false} JoinTerminates(lines: seq<string>)
    requires lines != []
    ensures Join(lines, CRLF) + CRLF == Terminated(lines)
  {
    if |lines| == 1 {
      assert Terminated(lines[1..]) == "";
      assert lines[0] + CRLF + "" == lines[0] + CRLF;
    } else {
      JoinTerminates(lines[1..]);
      assert lines[0] + CRLF + (Join(lines[1..], CRLF) + CRLF) == lines[0] + CRLF + Join(lines[1..], CRLF) + CRLF;
    }
  }

  /** The text is its complete lines, each with its CRLF, and the rest. */
  lemma {:induction false} SplitRestores(s: string, from: nat)
    requires from <= |s|
    ensures var lines := SplitFrom(s, from); s == Terminated(lines[..|lines| - 1]) + lines[|lines| - 1]
    decreases |s|, |s| - from
  {
    var lines := SplitFrom(s, from);
    if from + 2 > |s| {
      assert lines[..0] == [] && "" + s == s;
    } else if s[from] == '\r' && s[from + 1] == '\n' {
      var rest := SplitFrom(s[from + 2..], 0);
      SplitRestores(s[from + 2..], 0);
      assert lines[..|lines| - 1] == [s[..from]] + rest[..|rest| - 1];
      assert ([s[..from]] + rest[..|rest| - 1])[1..] == rest[..|rest| - 1];
      assert s == s[..from] + CRLF + s[from + 2..];
      assert s[..from] + CRLF + (Terminated(rest[..|rest| - 1]) + rest[|rest| - 1])
          == s[..from] + CRLF + Terminated(rest[..|rest| - 1]) + rest[|rest| - 1];
    } else {
      SplitRestores(s, from + 1);
    }
  }

  /** More text leaves the complete lines as they are. */
  lemma {:induction false} SplitExtends(s: string, x: string, from: nat)
    requires from <= |s|
    ensures var lines, more := SplitFrom(s, from), SplitFrom(s + x, from);
            |more| >= |lines| && more[..|lines| - 1] == lines[..|lines| - 1]
    decreases |s|, |s| - from
  {
    var t := s + x;
    if from + 2 > |s| {
      assert SplitFrom(s, from) == [s];
    } else if s[from] == '\r' && s[from + 1] == '\n' {
      SplitExtends(s[from + 2..], x, 0);
      assert t[from] == '\r' && t[from + 1] == '\n' && t[..from] == s[..from] && t[from + 2..] == s[from + 2..] + x;
      var rest, more := SplitFrom(s[from + 2..], 0), SplitFrom(t[from + 2..], 0);
      assert ([s[..from]] + more)[..|rest|] == [s[..from]] + more[..|rest| - 1];
      assert ([s[..from]] + rest)[..|rest|] == [s[..from]] + rest[..|rest| - 1];
    } else {
      SplitExtends(s, x, from + 1);
      assert t[from] == s[from] && t[from + 1] == s[from + 1];
    }
  }

  // ----- One reply

  /** The first line, from `from` on, that starts with `prefix`. */
  function FinalLine(lines: seq<string>, prefix: string, from: nat): (index: Option<nat>)
    requires from <= |lines|
    ensures index.Some? ==> from <= index.value < |lines| && prefix <= lines[index.value]
    ensures index.Some? ==> forall i | from <= i < index.value :: !(prefix <= lines[i])
    ensures index.None? ==> forall i | from <= i < |lines| :: !(prefix <= lines[i])
    decreases |lines| - from
  {
    if from == |lines| then None
    else if prefix <= lines[from] then Some(from) else FinalLine(lines, prefix, from + 1)
  }

  function CompleteLines(s: string): seq<string> { Split(s)[..|Split(s)| - 1] }

  function FirstThree(s: string): string { if |s| <= 3 then s else s[..3] }

  /** The first reply in the buffer and what follows it; none while it is incomplete. */
  function Consume(buffer: string, numbers: Numbers): (parsed: Option<(Response, string)>)
    ensures parsed.Some? ==> |parsed.value.1| + 2 <= |buffer|
  {
    var lines := Split(buffer);
    if |lines| < 2 then None
    else
      var complete := lines[..|lines| - 1];
      match numbers.parse(FirstThree(complete[0]))
      case None => None
      case Some(code) =>
        match FinalLine(complete, numbers.write(code) + " ", 0)
        case None => None
        case Some(index) =>
          var reply := complete[..index + 1];
          assert reply == lines[..index + 1];
          ConsumedFits(buffer, index + 1);
          Some((Response(code, Join(reply, "\n")), buffer[|Join(reply, CRLF)| + 2..]))
  }

  lemma {:induction false} TerminatedAppend(a: seq<string>, b: seq<string>)
    ensures Terminated(a + b) == Terminated(a) + Terminated(b)
    decreases |a|
  {
    if a == [] {
      assert a + b == b;
    } else {
      assert (a + b)[1..] == a[1..] + b;
      TerminatedAppend(a[1..], b);
      assert a[0] + CRLF + (Terminated(a[1..]) + Terminated(b)) == a[0] + CRLF + Terminated(a[1..]) + Terminated(b);
    }
  }

  /** The first `count` complete lines, joined, and one more CRLF are a prefix of the text. */
  lemma ConsumedFits(s: string, count: nat)
    requires 1 <= count < |Split(s)|
    ensures var consumed := |Join(Split(s)[..count], CRLF)| + 2;
            consumed <= |s| && s[..consumed] == Terminated(Split(s)[..count])
  {
    var lines := Split(s);
    var head, tail := lines[..count], lines[count..|lines| - 1];
    SplitRestores(s, 0);
    assert lines[..|lines| - 1] == head + tail;
    TerminatedAppend(head, tail);
    JoinTerminates(head);
    assert s == Terminated(head) + (Terminated(tail) + lines[|lines| - 1]);
  }

  lemma FinalLineExtends(lines: seq<string>, more: seq<string>, prefix: string, from: nat)
    requires from <= |lines| && lines <= more
    ensures FinalLine(lines, prefix, from).Some? ==> FinalLine(more, prefix, from) == FinalLine(lines, prefix, from)
  {
  }

  /** A reply found in the buffer is found in every longer buffer, and what follows it grows by as much. */
  lemma ReplyIsStable(buffer: string, x: string, numbers: Numbers)
    requires Consume(buffer, numbers).Some?
    ensures var (response, rest) := Consume(buffer, numbers).value;
            Consume(buffer + x, numbers) == Some((response, rest + x))
  {
    var lines, more := Split(buffer), Split(buffer + x);
    SplitExtends(buffer, x, 0);
    var complete, longer := lines[..|lines| - 1], more[..|more| - 1];
    assert complete == longer[..|complete|];
    assert longer[0] == complete[0];
    var code := numbers.parse(FirstThree(complete[0])).value;
    var prefix := numbers.write(code) + " ";
    FinalLineExtends(complete, longer, prefix, 0);
    var index := FinalLine(complete, prefix, 0).value;
    assert longer[..index + 1] == complete[..index + 1];
    ConsumedFits(buffer, index + 1);
    var consumed := |Join(complete[..index + 1], CRLF)| + 2;
    assert lines[..index + 1] == complete[..index + 1];
    assert (buffer + x)[consumed..] == buffer[consumed..] + x;
  }

  /** A first line without a number is never a reply, however much text follows. */
  lemma NoNumberNoReply(buffer: string, x: string, numbers: Numbers)
    requires |Split(buffer)| >= 2 && numbers.parse(FirstThree(Split(buffer)[0])).None?
    ensures Consume(buffer + x, numbers).None?
  {
    SplitExtends(buffer, x, 0);
    var lines, more := Split(buffer), Split(buffer + x);
    assert more[..|lines| - 1][0] == lines[..|lines| - 1][0];
  }

  // ----- All replies of a stream

  /** The replies in the buffer, one after the other, and the incomplete rest. */
  function Drain(buffer: string, numbers: Numbers): (seq<Response>, string)
    decreases |buffer|
  {
    match Consume(buffer, numbers)
    case None => ([], buffer)
    case Some((response, rest)) => var (more, last) := Drain(rest, numbers); ([response] + more, last)
  }

  lemma {:induction false} DrainExtends(buffer: string, x: string, numbers: Numbers)
    ensures var (responses, rest) := Drain(buffer, numbers);
            var (more, last) := Drain(rest + x, numbers);
            Drain(buffer + x, numbers) == (responses + more, last)
    decreases |buffer|
  {
    hide Consume;
    match Consume(buffer, numbers)
    case None =>
      var (more, last) := Drain(buffer + x, numbers);
      assert [] + more == more;
    case Some((response, rest)) =>
      ReplyIsStable(buffer, x, numbers);
      DrainExtends(rest, x, numbers);
      var (responses, left) := Drain(rest, numbers);
      var (more, last) := Drain(left + x, numbers);
      assert [response] + (responses + more) == [response] + responses + more;
  }

  /** The replies found when the text arrives in chunks. */
  function Feed(buffer: string, chunks: seq<string>, numbers: Numbers): (seq<Response>, string)
    decreases |chunks|
  {
    if chunks == [] then Drain(buffer, numbers)
    else
      var (responses, rest) := Drain(buffer, numbers);
      var (more, last) := Feed(rest + chunks[0], chunks[1..], numbers);
      (responses + more, last)
  }

  function Concat(chunks: seq<string>): string {
    if chunks == [] then "" else chunks[0] + Concat(chunks[1..])
  }

  /** However the text is cut into chunks, the replies are those of the whole text. */
  lemma {:induction false} ChunksDoNotMatter(buffer: string, chunks: seq<string>, numbers: Numbers)
    ensures Feed(buffer, chunks, numbers) == Drain(buffer + Concat(chunks), numbers)
    decreases |chunks|
  {
    hide Drain;
    if chunks == [] {
      assert buffer + "" == buffer;
    } else {
      var rest := Drain(buffer, numbers).1;
      ChunksDoNotMatter(rest + chunks[0], chunks[1..], numbers);
      DrainExtends(buffer, Concat(chunks), numbers);
      assert rest + chunks[0] + Concat(chunks[1..]) == rest + Concat(chunks);
    }
  }

  // ----- Well-formed replies

  predicate OneLine(s: string) { forall i | 0 <= i < |s| - 1 :: !(s[i] == '\r' && s[i + 1] == '\n') }

  /** A reply of RFC 5321: lines of code and hyphen, and a last line of the code alone or of code, space and text. */
  ghost predicate WellFormed(lines: seq<string>, digits: string) {
    && lines != [] && |digits| == 3
    && (forall i | 0 <= i < |lines| - 1 :: digits + "-" <= lines[i])
    && (digits + " " <= lines[|lines| - 1] || lines[|lines| - 1] == digits)
    && (forall i | 0 <= i < |lines| :: OneLine(lines[i] + "\r"))
  }

  lemma {:induction false} SplitLine(line: string, from: nat, rest: string)
    requires OneLine(line + "\r") && from <= |line|
    ensures SplitFrom(line + CRLF + rest, from) == [line] + Split(rest)
    decreases |line| - from
  {
    var s := line + CRLF + rest;
    if from == |line| {
      assert s[from] == '\r' && s[from + 1] == '\n' && s[..from] == line && s[from + 2..] == rest;
    } else {
      assert (line + "\r")[from] == s[from] && (line + "\r")[from + 1] == s[from + 1];
      SplitLine(line, from + 1, rest);
    }
  }

  lemma {:induction false} SplitLines(lines: seq<string>, rest: string)
    requires forall i | 0 <= i < |lines| :: OneLine(lines[i] + "\r")
    ensures Split(Terminated(lines) + rest) == lines + Split(rest)
    decreases |lines|
  {
    if lines == [] {
      assert "" + rest == rest && lines + Split(rest) == Split(rest);
    } else {
      var tail := Terminated(lines[1..]);
      SplitLine(lines[0], 0, tail + rest);
      Regroup(lines[0], tail, rest);
      hide SplitFrom, OneLine, Terminated;
      SplitLines(lines[1..], rest);
      assert [lines[0]] + (lines[1..] + Split(rest)) == lines + Split(rest);
    }
  }

  lemma Regroup(line: string, tail: string, rest: string)
    ensures line + CRLF + tail + rest == line + CRLF + (tail + rest)
  {
  }

  /**
    A complete reply whose last line has the space is found with its code and all its lines, and nothing
    of what follows it is taken.
   */
  lemma WellFormedReplyFound(lines: seq<string>, digits: string, code: int, rest: string, numbers: Numbers)
    requires WellFormed(lines, digits) && digits + " " <= lines[|lines| - 1]
    requires numbers.parse(digits) == Some(code) && numbers.write(code) == digits
    ensures Consume(Terminated(lines) + rest, numbers) == Some((Response(code, Join(lines, "\n")), rest))
  {
    hide Split, CompleteLines, Consume, Terminated, Join, FirstThree, OneLine, FinalLine;
    assert lines != [];
    CompleteLinesOf(lines, digits, rest);
    FirstDigits(lines, digits);
    FinalIsLast(lines, CompleteLines(rest), digits);
    hide WellFormed;
    TakeFront(lines, CompleteLines(rest));
    ConsumeFinds(Terminated(lines) + rest, |lines| - 1, code, numbers);
    DropPrefix(Terminated(lines), rest);
  }

  lemma TakeFront(a: seq<string>, b: seq<string>)
    requires a != []
    ensures (a + b)[0] == a[0] && (a + b)[..|a|] == a
  {
  }

  lemma DropPrefix(a: string, b: string)
    ensures |a| <= |a + b| && (a + b)[|a|..] == b
  {
  }

  lemma ConsumeFinds(buffer: string, index: nat, code: int, numbers: Numbers)
    requires index < |CompleteLines(buffer)|
    requires numbers.parse(FirstThree(CompleteLines(buffer)[0])) == Some(code)
    requires FinalLine(CompleteLines(buffer), numbers.write(code) + " ", 0) == Some(index)
    ensures var reply := CompleteLines(buffer)[..index + 1];
            |Terminated(reply)| <= |buffer|
            && Consume(buffer, numbers) == Some((Response(code, Join(reply, "\n")), buffer[|Terminated(reply)|..]))
  {
    hide Split, FinalLine;
    var reply := Split(buffer)[..index + 1];
    assert CompleteLines(buffer)[..index + 1] == reply;
    ConsumedFits(buffer, index + 1);
    JoinTerminates(reply);
  }

  lemma FirstDigits(lines: seq<string>, digits: string)
    requires WellFormed(lines, digits)
    ensures FirstThree(lines[0]) == digits
  {
    if |lines| > 1 { assert (digits + "-")[..3] == digits && lines[0][..3] == (digits + "-")[..3]; }
    else if digits + " " <= lines[0] { assert (digits + " ")[..3] == digits && lines[0][..3] == (digits + " ")[..3]; }
  }

  lemma FinalIsLast(lines: seq<string>, later: seq<string>, digits: string)
    requires WellFormed(lines, digits) && digits + " " <= lines[|lines| - 1]
    ensures FinalLine(lines + later, digits + " ", 0) == Some(|lines| - 1)
  {
    forall i | 0 <= i < |lines| - 1 ensures !(digits + " " <= (lines + later)[i]) { Hyphenated(lines[i], digits); }
    assert digits + " " <= (lines + later)[|lines| - 1];
  }

  lemma Hyphenated(line: string, digits: string)
    requires |digits| == 3 && digits + "-" <= line
    ensures !(digits + " " <= line)
  {
    assert line[3] == (digits + "-")[3] == '-' && (digits + " ")[3] == ' ';
  }

  /**
    The other form that RFC 5321 allows, the code alone, does not end a reply here: such a reply is found
    exactly when a later complete line has its code and a space, and it takes all lines up to that one.
   */
  lemma BareCodeRunsOn(lines: seq<string>, digits: string, code: int, rest: string, numbers: Numbers)
    requires EndsBare(lines, digits)
    requires numbers.parse(digits) == Some(code) && numbers.write(code) == digits
    ensures var later := CompleteLines(rest);
            var found := Consume(Terminated(lines) + rest, numbers);
            match FinalLine(later, digits + " ", 0)
            case None => found == None
            case Some(k) =>
              && found == Some((Response(code, Join(lines + later[..k + 1], "\n")), AfterLines(rest, later[..k + 1])))
              && rest == Terminated(later[..k + 1]) + AfterLines(rest, later[..k + 1])
  {
    hide EndsBare, AfterLines, Split, CompleteLines, Consume, Terminated, Join, FirstThree, FinalLine, NoneStarts;
    EndsBareLines(lines, digits, rest);
    FoundAfter(Terminated(lines) + rest, lines, CompleteLines(rest), code, numbers);
    var last := FinalLine(CompleteLines(rest), digits + " ", 0);
    if last.Some? {
      AfterFront(lines, CompleteLines(rest)[..last.value + 1], rest);
      LinesThenRest(rest, last.value + 1);
    }
  }

  lemma LinesThenRest(s: string, count: nat)
    requires 1 <= count <= |CompleteLines(s)|
    ensures var lines := CompleteLines(s)[..count]; s == Terminated(lines) + AfterLines(s, lines)
  {
    hide Split;
    var lines := Split(s)[..count];
    assert CompleteLines(s)[..count] == lines;
    ConsumedFits(s, count);
    JoinTerminates(lines);
  }

  /** What follows the lines in a text that starts with them. */
  function AfterLines(s: string, lines: seq<string>): string {
    if |Terminated(lines)| <= |s| then s[|Terminated(lines)|..] else ""
  }

  lemma AfterFront(front: seq<string>, more: seq<string>, rest: string)
    ensures AfterLines(Terminated(front) + rest, front + more) == AfterLines(rest, more)
  {
    TerminatedAppend(front, more);
  }

  ghost predicate EndsBare(lines: seq<string>, digits: string) {
    WellFormed(lines, digits) && lines[|lines| - 1] == digits
  }

  lemma EndsBareLines(lines: seq<string>, digits: string, rest: string)
    requires EndsBare(lines, digits)
    ensures lines != [] && FirstThree(lines[0]) == digits && NoneStarts(lines, digits + " ")
    ensures CompleteLines(Terminated(lines) + rest) == lines + CompleteLines(rest)
  {
    hide CompleteLines, Terminated, OneLine;
    CompleteLinesOf(lines, digits, rest);
    FirstDigits(lines, digits);
    forall i | 0 <= i < |lines| ensures !(digits + " " <= lines[i]) {
      if i < |lines| - 1 { Hyphenated(lines[i], digits); }
    }
  }

  predicate NoneStarts(lines: seq<string>, prefix: string) { forall i | 0 <= i < |lines| :: !(prefix <= lines[i]) }

  /** Lines without the final one are followed by others: the reply ends among those, if at all. */
  lemma FoundAfter(buffer: string, front: seq<string>, later: seq<string>, code: int, numbers: Numbers)
    requires front != [] && CompleteLines(buffer) == front + later
    requires numbers.parse(FirstThree(front[0])) == Some(code)
    requires NoneStarts(front, numbers.write(code) + " ")
    ensures match FinalLine(later, numbers.write(code) + " ", 0)
            case None => Consume(buffer, numbers) == None
            case Some(k) =>
              var reply := front + later[..k + 1];
              Consume(buffer, numbers) == Some((Response(code, Join(reply, "\n")), AfterLines(buffer, reply)))
  {
    hide Split, CompleteLines, Consume, Join, FirstThree, FinalLine, NoneStarts, AfterLines;
    TakeFront(front, later);
    FinalLineShifts(front, later, numbers.write(code) + " ");
    var last := FinalLine(later, numbers.write(code) + " ", 0);
    if last == None {
      ConsumeFindsNone(buffer, code, numbers);
    } else {
      TakePast(front, later, last.value);
      ReplyOf(buffer, |front| + last.value, code, numbers);
    }
  }

  lemma ReplyOf(buffer: string, index: nat, code: int, numbers: Numbers)
    requires index < |CompleteLines(buffer)|
    requires numbers.parse(FirstThree(CompleteLines(buffer)[0])) == Some(code)
    requires FinalLine(CompleteLines(buffer), numbers.write(code) + " ", 0) == Some(index)
    ensures var reply := CompleteLines(buffer)[..index + 1];
            Consume(buffer, numbers) == Some((Response(code, Join(reply, "\n")), AfterLines(buffer, reply)))
  {
    hide CompleteLines, Consume, FinalLine, Join;
    ConsumeFinds(buffer, index, code, numbers);
  }

  lemma TakePast(a: seq<string>, b: seq<string>, k: nat)
    requires k < |b|
    ensures |a| + k + 1 <= |a + b| && (a + b)[..|a| + k + 1] == a + b[..k + 1]
  {
  }

  lemma CompleteLinesOf(lines: seq<string>, digits: string, rest: string)
    requires WellFormed(lines, digits)
    ensures CompleteLines(Terminated(lines) + rest) == lines + CompleteLines(rest)
  {
    hide Split, Terminated, OneLine;
    SplitLines(lines, rest);
    CutLast(lines, Split(rest));
  }

  lemma CutLast(a: seq<string>, b: seq<string>)
    requires b != []
    ensures (a + b)[..|a + b| - 1] == a + b[..|b| - 1]
  {
  }

  lemma ConsumeFindsNone(buffer: string, code: int, numbers: Numbers)
    requires CompleteLines(buffer) != [] && numbers.parse(FirstThree(CompleteLines(buffer)[0])) == Some(code)
    requires FinalLine(CompleteLines(buffer), numbers.write(code) + " ", 0) == None
    ensures Consume(buffer, numbers) == None
  {
    hide Split, FinalLine;
  }

  lemma FinalLineShifts(a: seq<string>, b: seq<string>, prefix: string)
    requires NoneStarts(a, prefix)
    ensures FinalLine(a + b, prefix, 0)
         == match FinalLine(b, prefix, 0) case None => None case Some(k) => Some(|a| + k)
  {
    match FinalLine(b, prefix, 0)
    case None =>
      forall i | 0 <= i < |a + b| ensures !(prefix <= (a + b)[i]) { if i >= |a| { assert (a + b)[i] == b[i - |a|]; } }
    case Some(k) =>
      assert (a + b)[|a| + k] == b[k];
      forall i | 0 <= i < |a| + k ensures !(prefix <= (a + b)[i]) { if i >= |a| { assert (a + b)[i] == b[i - |a|]; } }
  }

  // ----- The client

  datatype Outcome = Accepted(response: Response) | Rejected(code: int, retryable: bool) | TimedOut

  /** The first replies of a stream, in order, and what is left after them. */
  ghost predicate Delivered(received: string, responses: seq<Response>, left: string, numbers: Numbers)
    decreases |responses|
  {
    if responses == [] then left == received
    else
      match Consume(received, numbers)
      case None => false
      case Some((response, rest)) => response == responses[0] && Delivered(rest, responses[1..], left, numbers)
  }

  lemma {:induction false} DeliveredExtends(
    received: string, responses: seq<Response>, left: string, x: string, numbers: Numbers)
    requires Delivered(received, responses, left, numbers)
    ensures Delivered(received + x, responses, left + x, numbers)
    decreases |responses|
  {
    hide Consume;
    if responses != [] {
      ReplyIsStable(received, x, numbers);
      DeliveredExtends(Consume(received, numbers).value.1, responses[1..], left, x, numbers);
    }
  }

  lemma {:induction false} DeliveredOneMore(received: string, responses: seq<Response>, left: string, numbers: Numbers)
    requires Delivered(received, responses, left, numbers) && Consume(left, numbers).Some?
    ensures Delivered(received, responses + [Consume(left, numbers).value.0], Consume(left, numbers).value.1, numbers)
    decreases |responses|
  {
    hide Consume;
    var last := Consume(left, numbers).value.0;
    if responses == [] {
      assert ([] + [last])[1..] == [];
    } else {
      DeliveredOneMore(Consume(received, numbers).value.1, responses[1..], left, numbers);
      assert (responses + [last])[1..] == responses[1..] + [last];
    }
  }

  /** What was delivered are the first replies of the whole stream. */
  lemma {:induction false} DeliveredIsPrefix(received: string, responses: seq<Response>, left: string, numbers: Numbers)
    requires Delivered(received, responses, left, numbers)
    ensures responses <= Drain(received, numbers).0
    ensures Drain(received, numbers) == (responses + Drain(left, numbers).0, Drain(left, numbers).1)
    decreases |responses|
  {
    hide Consume;
    if responses == [] {
      assert [] + Drain(left, numbers).0 == Drain(left, numbers).0;
    } else {
      var rest := Consume(received, numbers).value.1;
      DeliveredIsPrefix(rest, responses[1..], left, numbers);
      assert [responses[0]] + (responses[1..] + Drain(left, numbers).0) == responses + Drain(left, numbers).0;
    }
  }

  /** `received` and `responses` remember the text that arrived while a reply was awaited and every reply handed out. */
  class SmtpClient {
    var buffer: string
    const numbers: Numbers
    ghost var received: string
    ghost var responses: seq<Response>

    ghost predicate Valid()
      reads this
    {
      Delivered(received, responses, buffer, numbers)
    }

    constructor (numbers: Numbers)
      ensures Valid() && this.numbers == numbers && received == "" && responses == []
    {
      this.numbers := numbers;
      buffer, received, responses := "", "", [];
    }

    /** Hands out the first reply of the buffer, if there is one. */
    method TakeReply() returns (response: Option<Response>)
      requires Valid()
      modifies this`buffer, this`responses
      ensures Valid()
      ensures match Consume(old(buffer), numbers)
              case None => response == None && buffer == old(buffer) && responses == old(responses)
              case Some((first, rest)) =>
                response == Some(first) && buffer == rest && responses == old(responses) + [first]
    {
      hide Consume;
      match Consume(buffer, numbers)
      case None => response := None;
      case Some((first, rest)) =>
        DeliveredOneMore(received, responses, buffer, numbers);
        buffer, responses := rest, responses + [first];
        response := Some(first);
    }

    /**
      Waits for the next reply while `chunks` arrive; it hands out the next reply of the stream, and
      uses no more chunks than that reply needs.
     */
    method Expect(expectedCodes: set<int>, chunks: seq<string>) returns (outcome: Outcome, used: nat)
      requires Valid()
      modifies this`buffer, this`received, this`responses
      ensures Valid()
      ensures used <= |chunks| && received == old(received) + Concat(chunks[..used])
      ensures forall n | 0 <= n < used :: Consume(old(buffer) + Concat(chunks[..n]), numbers).None?
      ensures outcome.TimedOut?
          ==> used == |chunks| && responses == old(responses) && Consume(old(buffer) + Concat(chunks), numbers).None?
      ensures !outcome.TimedOut? ==>
                var next := Consume(old(buffer) + Concat(chunks[..used]), numbers);
                && next.Some? && responses == old(responses) + [next.value.0] && buffer == next.value.1
                && outcome == if next.value.0.code in expectedCodes then Accepted(next.value.0)
                              else Rejected(next.value.0.code, 400 <= next.value.0.code < 500)
    {
      hide Consume;
      used := 0;
      assert chunks[..0] == [] && buffer + "" == buffer && received + "" == received;
      var response := TakeReply();
      while response == None && used < |chunks|
        invariant used <= |chunks| && Valid()
        invariant received == old(received) + Concat(chunks[..used])
        invariant forall n | 0 <= n < used :: Consume(old(buffer) + Concat(chunks[..n]), numbers).None?
        invariant match response
                  case None =>
                    && buffer == old(buffer) + Concat(chunks[..used]) && responses == old(responses)
                    && Consume(buffer, numbers).None?
                  case Some(first) =>
                    && Consume(old(buffer) + Concat(chunks[..used]), numbers) == Some((first, buffer))
                    && responses == old(responses) + [first]
        decreases |chunks| - used
      {
        ConcatNext(chunks, used);
        assert old(buffer) + (Concat(chunks[..used]) + chunks[used]) == buffer + chunks[used];
        assert old(received) + (Concat(chunks[..used]) + chunks[used]) == received + chunks[used];
        DeliveredExtends(received, responses, buffer, chunks[used], numbers);
        buffer, received := buffer + chunks[used], received + chunks[used];
        used := used + 1;
        response := TakeReply();
      }
      assert chunks[..|chunks|] == chunks;
      match response
      case None => outcome := TimedOut;
      case Some(first) =>
        outcome :=
          if first.code in expectedCodes then Accepted(first)
          else Rejected(first.code, 400 <= first.code < 500);
    }
  }

  lemma {:induction false} ConcatNext(chunks: seq<string>, n: nat)
    requires n < |chunks|
    ensures Concat(chunks[..n + 1]) == Concat(chunks[..n]) + chunks[n]
  {
    if n == 0 {
      assert chunks[..1] == [chunks[0]] && chunks[..0] == [];
      assert chunks[..1][1..] == [] && chunks[0] + "" == "" + chunks[0];
    } else {
      ConcatNext(chunks[1..], n - 1);
      assert chunks[..n + 1][1..] == chunks[1..][..n] && chunks[..n][1..] == chunks[1..][..n - 1];
      assert chunks[0] + (Concat(chunks[1..][..n - 1]) + chunks[n])
          == chunks[0] + Concat(chunks[1..][..n - 1]) + chunks[n];
    }
  }
}
