/** The streaming request reader itself (src/http/request_reader.hpp, src/http/request_reader.cpp:179-433).

    Every method is proved to be the step of `ReaderModel` of the same name, so what is proved of whole runs of
    the model holds of the object. */
module RequestReading {
  import opened Text
  import opened Messages
  import opened LineReading
  import opened Framing
  import Parser = RequestParser
  import Model = ReaderModel

  type Answer = Option<Model.RequestResult>

  class RequestReader {
    const lines: LineReader
    var phase: Model.Phase
    var request: Request
    var failure: RequestError
    var headBytes: nat
    var bodyBytes: nat
    var chunkBytes: nat
    var fieldCount: nat

    /** How often `NextRequest` has been called. */
    ghost var calls: nat

    ghost function State(): Model.State
      reads this
    {
      Model.State(phase, request, failure, headBytes, bodyBytes, chunkBytes, fieldCount)
    }

    ghost predicate Valid()
      reads this, lines
    {
      && lines.Valid()
      && Model.Sound(State())
      && (failure == NoError && !Model.ReadsLines(phase) ==> lines.scanned == lines.begin)
      && (failure == NoError ==> lines.examined <= lines.Searched() + calls)
      && lines.examined <= lines.appended + calls
    }

    ghost function Unread(): string
      reads this, lines
      requires Valid()
    {
      lines.Unread()
    }

    constructor ()
      ensures Valid() && fresh(lines) && State() == Model.FRESH && Unread() == ""
      ensures calls == 0 && lines.appended == 0
    {
      lines := new LineReader();
      phase, request, failure := Model.RequestLine, BLANK_REQUEST, NoError;
      headBytes, bodyBytes, chunkBytes, fieldCount := 0, 0, 0, 0;
      calls := 0;
    }

    method ArmNextRequest()
      modifies this
      ensures State() == Model.Armed(old(State())) && calls == old(calls)
    {
      phase := Model.RequestLine;
      request := BLANK_REQUEST;
      headBytes := 0;
      bodyBytes := 0;
      fieldCount := 0;
    }

    method FinishRequest() returns (answer: Answer)
      modifies this
      ensures Model.Outcome(State(), answer) == Model.Finish(old(State())) && calls == old(calls)
    {
      var ready := request;
      ArmNextRequest();
      answer := Some(Model.Delivery(ready));
    }

    method Fail(error: RequestError) returns (answer: Answer)
      modifies this
      ensures Model.Outcome(State(), answer) == Model.Fail(old(State()), error) && calls == old(calls)
    {
      failure := error;
      answer := Some(Model.Failure(error, request.version));
    }

    method Refuse(error: RequestError) returns (answer: Answer)
      modifies this
      ensures Model.Outcome(State(), answer) == Model.Refuse(old(State()), error) && calls == old(calls)
    {
      phase := Model.Discard;
      answer := Some(Model.RequestResult(error, None, true, request.version));
    }

    method Append(bytes: string)
      requires Valid()
      modifies this, lines
      ensures Valid() && State() == old(State()) && calls == old(calls)
      ensures Unread() == old(Unread()) + bytes
      ensures lines.appended == old(lines.appended) + |bytes|
      ensures |lines.buffer| <= 2 * |old(Unread())| + |bytes|
    {
      lines.Append(bytes);
    }

    method HandleRequestLine(line: string) returns (answer: Answer)
      modifies this
      ensures Model.Outcome(State(), answer) == Model.HandleRequestLine(old(State()), line) && calls == old(calls)
    {
      var parsed := Parser.ParseRequestLine(line);
      match parsed {
        case Refused(error) =>
          match error {
            case Malformed => answer := Fail(RequestError.Malformed);
            case UnknownMethod => answer := Fail(RequestError.UnknownMethod);
            case UnsupportedVersion => answer := Fail(RequestError.UnsupportedVersion);
          }
        case Parsed(verb, target, version) =>
          request := request.(verb := verb, target := target, version := version);
          phase := Model.Headers;
          answer := None;
      }
    }

    method HandleFieldLine(line: string) returns (answer: Answer)
      modifies this
      ensures Model.Outcome(State(), answer) == Model.HandleFieldLine(old(State()), line) && calls == old(calls)
    {
      if line == "" {
        answer := CompleteHead();
        return;
      }
      fieldCount := fieldCount + 1;
      if fieldCount > MAX_FIELDS {
        answer := Fail(TooManyHeaders);
        return;
      }
      var field := Parser.ParseHeaderField(line);
      if field == None {
        answer := Fail(Malformed);
        return;
      }
      request := request.(headers := AddField(request.headers, field.value));
      answer := None;
    }

    method CompleteHead() returns (answer: Answer)
      modifies this
      ensures Model.Outcome(State(), answer) == Model.CompleteHead(old(State())) && calls == old(calls)
    {
      var hosts := |Values(request.headers, HOST)|;
      if hosts > 1 || (hosts == 0 && request.version == Http11) {
        answer := Fail(Malformed);
        return;
      }
      var body := MeasureBody(request.headers, request.version);
      match body {
        case Refused(error) => answer := Fail(error);
        case Chunked =>
          phase := Model.ChunkSize;
          answer := None;
        case Sized(bytes) =>
          bodyBytes := bytes;
          if bodyBytes > MAX_BODY_BYTES {
            answer := Refuse(BodyTooLarge);
          } else if bodyBytes == 0 {
            answer := FinishRequest();
          } else {
            phase := Model.Body;
            answer := None;
          }
      }
    }

    method HandleChunkSize(line: string) returns (answer: Answer)
      modifies this
      ensures Model.Outcome(State(), answer) == Model.HandleChunkSize(old(State()), line) && calls == old(calls)
    {
      var chunk := ParseChunkSize(line);
      match chunk {
        case Refused(error) => answer := Fail(error);
        case Sized(bytes) =>
          if bytes == 0 {
            phase := Model.Trailers;
            answer := None;
          } else if |request.body| + bytes > MAX_BODY_BYTES {
            answer := Fail(BodyTooLarge);
          } else {
            chunkBytes := bytes;
            phase := Model.ChunkData;
            answer := None;
          }
      }
    }

    method HandleTrailerLine(line: string) returns (answer: Answer)
      modifies this
      ensures Model.Outcome(State(), answer) == Model.HandleTrailerLine(old(State()), line) && calls == old(calls)
    {
      if line == "" {
        answer := FinishRequest();
        return;
      }
      fieldCount := fieldCount + 1;
      if fieldCount > MAX_FIELDS {
        answer := Fail(TooManyHeaders);
        return;
      }
      var field := Parser.ParseHeaderField(line);
      if field == None {
        answer := Fail(Malformed);
        return;
      }
      answer := None;
    }

    /** The ways the buffer may have been used between two calls, as the search bound needs them. */
    ghost predicate Bounded()
      reads this, lines
    {
      && (failure == NoError && !Model.ReadsLines(phase) ==> lines.scanned == lines.begin)
      && (failure == NoError ==> lines.examined <= lines.Searched() + calls)
      && lines.examined <= lines.appended + calls
    }

    method ReadBodyBytes() returns (answer: Answer)
      requires Valid() && failure == NoError && !Model.ReadsLines(phase)
      modifies this, lines
      ensures lines.Valid() && calls == old(calls) && lines.appended == old(lines.appended)
      ensures Model.Step(State(), lines.Unread(), answer) == Model.ReadBodyBytes(old(State()), old(Unread()))
      ensures Bounded()
      ensures old(lines.examined < lines.Searched() + calls) ==> lines.examined < lines.Searched() + calls
    {
      hide Model.HandleLine, Model.EndChunk;
      if phase == Model.Discard {
        var dropped := lines.Discard(bodyBytes);
        bodyBytes := bodyBytes - dropped;
        if bodyBytes > 0 {
          return Some(Model.NOTHING_YET);
        }
        ArmNextRequest();
        return None;
      }
      if phase == Model.Body {
        var body := lines.Take(bodyBytes);
        if body == None {
          return Some(Model.NOTHING_YET);
        }
        request := request.(body := body.value);
        answer := FinishRequest();
        return;
      }
      var chunk := lines.Take(chunkBytes + |CRLF|);
      if chunk == None {
        return Some(Model.NOTHING_YET);
      }
      answer := EndChunk(chunk.value);
    }

    /** A chunk with its CRLF, or a framing error. */
    method EndChunk(chunk: string) returns (answer: Answer)
      requires |chunk| == chunkBytes + |CRLF|
      modifies this
      ensures Model.Outcome(State(), answer) == Model.EndChunk(old(State()), chunk) && calls == old(calls)
    {
      if chunk[chunkBytes..] != CRLF {
        answer := Fail(Malformed);
        return;
      }
      request := request.(body := request.body + chunk[..chunkBytes]);
      phase := Model.ChunkSize;
      answer := None;
    }

    method HandleLine(line: string) returns (answer: Answer)
      requires Model.ReadsLines(phase)
      modifies this
      ensures Model.Outcome(State(), answer) == Model.HandleLine(old(State()), line) && calls == old(calls)
    {
      hide Model.HandleRequestLine, Model.HandleFieldLine, Model.HandleChunkSize, Model.HandleTrailerLine;
      if phase != Model.ChunkSize {
        headBytes := headBytes + |line| + |CRLF|;
        if headBytes > MAX_HEAD_BYTES {
          answer := Fail(HeadTooLarge);
          return;
        }
      }
      match phase {
        case RequestLine => answer := HandleRequestLine(line);
        case Headers => answer := HandleFieldLine(line);
        case ChunkSize => answer := HandleChunkSize(line);
        case Trailers => answer := HandleTrailerLine(line);
      }
    }

    /** A search that finds no line leaves the phase alone, and costs at most one position the next one repeats. */
    method ReadNextLine() returns (answer: Answer)
      requires Valid() && failure == NoError && Model.ReadsLines(phase)
      requires lines.examined < lines.Searched() + calls
      modifies this, lines
      ensures lines.Valid() && calls == old(calls) && lines.appended == old(lines.appended)
      ensures Model.Step(State(), lines.Unread(), answer) == Model.ReadNextLine(old(State()), old(Unread()))
      ensures Bounded()
      ensures answer == None ==> lines.examined < lines.Searched() + calls
    {
      hide Model.HandleLine;
      var line := lines.NextLine();
      match line {
        case LineTooLong => answer := Fail(Model.TooLongError(phase));
        case NothingYet => answer := Some(Model.NOTHING_YET);
        case Line(text) => answer := HandleLine(text);
      }
    }

    /** Implements `ReaderModel.NextRequest`, and accounts for every position examined. */
    method Turn() returns (answer: Answer)
      requires Valid() && failure == NoError
      requires lines.examined < lines.Searched() + calls
      modifies this, lines
      ensures Valid() && calls == old(calls) && lines.appended == old(lines.appended)
      ensures Model.Step(State(), Unread(), answer) == Model.OneStep(old(State()), old(Unread()))
      ensures answer == None ==> failure == NoError && |Unread()| < |old(Unread())|
      ensures answer == None ==> lines.examined < lines.Searched() + calls
    {
      ghost var step := Model.OneStep(State(), Unread());
      hide Model.ReadNextLine, Model.ReadBodyBytes;
      if Model.ReadsLines(phase) {
        answer := ReadNextLine();
      } else {
        answer := ReadBodyBytes();
      }
      assert step == Model.Step(State(), lines.Unread(), answer);
    }

    /** One call: the model's driver loop from the present state. The positions examined for terminators, over the
        life of the reader, never exceed the bytes appended plus one for each call. */
    method NextRequest() returns (result: Model.RequestResult)
      requires Valid()
      modifies this, lines
      ensures Valid() && calls == old(calls) + 1 && lines.appended == old(lines.appended)
      ensures (State(), Unread(), result) == Model.NextRequest(old(State()), old(Unread()))
      ensures lines.examined <= lines.appended + calls
    {
      calls := calls + 1;
      if failure != NoError {
        var answer := Fail(failure);
        return answer.value;
      }
      while true
        invariant Valid() && failure == NoError && calls == old(calls) + 1
        invariant lines.appended == old(lines.appended)
        invariant lines.examined < lines.Searched() + calls
        invariant Model.NextRequest(State(), Unread()) == Model.NextRequest(old(State()), old(Unread()))
        decreases |Unread()|
      {
        var answer := Turn();
        if answer.Some? {
          return answer.value;
        }
      }
    }
  }
}
