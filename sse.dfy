/** The server-sent-event reader inside `sendMessage` (public/chat.js): a
    text buffer that chunks are appended to and complete frames are cut off
    at blank lines, the `data:` lines of a frame, the `[DONE]` sentinel, and
    the two JSON reply shapes mapped to one text delta. */
module Sse {
  import opened JsStrings
  import Render

  const FrameBreak: string := "\n\n"
  const LineBreak: string := "\n"
  const DataPrefix: string := "data:"
  const DoneSentinel: string := "[DONE]"

  /** One element of a `choices` array: `content` is its `delta.content`,
      `None` when `delta` or `content` is missing. */
  datatype Choice = Choice(content: Option<string>)

  /** The outcome of `JSON.parse(data)` as far as the reader looks at it.
      `Invalid` stands for every payload whose handling throws (malformed
      JSON, or `null`, whose field read throws); any other value is seen
      through its `response` field and its `choices` array (`[]` when
      missing). */
  datatype Json = Invalid | Value(response: Option<string>, choices: seq<Choice>)

  /** A string field is truthy in JavaScript when present and non-empty. */
  predicate Truthy(o: Option<string>) {
    o.Some? && o.value != ""
  }

  /** The text a payload contributes: a truthy `response` wins, otherwise a
      truthy `choices[0].delta.content`, otherwise nothing. */
  function Delta(j: Json): (d: string)
    ensures d != "" <==> j.Value? && (Truthy(j.response) || (|j.choices| > 0 && Truthy(j.choices[0].content)))
    ensures j.Value? && Truthy(j.response) ==> Some(d) == j.response
    ensures j.Value? && !Truthy(j.response) && d != "" ==> Some(d) == j.choices[0].content
  {
    match j
    case Invalid => ""
    case Value(response, choices) =>
      if Truthy(response) then response.value
      else if |choices| > 0 && Truthy(choices[0].content) then choices[0].content.value
      else ""
  }

  /** The payload of a line: present only for lines starting with `data:`,
      which is removed before the rest is trimmed. */
  function Payload(line: string): Option<string> {
    if StartsWith(line, DataPrefix) then Some(Trim(line[|DataPrefix|..])) else None
  }

  /** Text gathered so far and whether `[DONE]` was seen. */
  datatype Scan = Scan(text: string, done: bool)

  /** One pass of the inner `for (const line of lines)` body. */
  function LineStep(s: Scan, line: string, parse: string -> Json): Scan {
    match Payload(line)
    case None => s
    case Some(p) =>
      if p == DoneSentinel then Scan(s.text, true)
      else Scan(s.text + Delta(parse(p)), s.done)
  }

  /** The lines of one frame, scanned in order; `[DONE]` ends the scan. */
  function ScanLines(lines: seq<string>, parse: string -> Json): Scan
    decreases |lines|
  {
    if lines == [] then Scan("", false)
    else
      var s := ScanLines(lines[..|lines| - 1], parse);
      if s.done then s else LineStep(s, lines[|lines| - 1], parse)
  }

  function ScanFrame(frame: string, parse: string -> Json): Scan {
    ScanLines(Split(frame, LineBreak), parse)
  }

  /** The frames cut from one chunk: every frame is scanned, also after a
      frame that held `[DONE]`. */
  function ScanFrames(frames: seq<string>, parse: string -> Json): Scan
    decreases |frames|
  {
    if frames == [] then Scan("", false)
    else
      var s := ScanFrames(frames[..|frames| - 1], parse);
      var f := ScanFrame(frames[|frames| - 1], parse);
      Scan(s.text + f.text, s.done || f.done)
  }

  /** The complete frames of a text: all pieces between blank lines but
      the last. */
  function Frames(s: string): seq<string> {
    var parts := Split(s, FrameBreak);
    parts[..|parts| - 1]
  }

  /** The unfinished last piece, kept as the new buffer. */
  function Rest(s: string): string {
    var parts := Split(s, FrameBreak);
    parts[|parts| - 1]
  }

  /** The state of the read loop: `responseText`, `buffer`, `doneReading`
      and how many chunks have been read. */
  datatype Reader = Reader(text: string, buffer: string, done: bool, read: nat)

  /** One pass of the `while (!doneReading)` body, for a chunk read. */
  function Feed(r: Reader, chunk: string, parse: string -> Json): Reader {
    var s := ScanFrames(Frames(r.buffer + chunk), parse);
    Reader(r.text + s.text, Rest(r.buffer + chunk), r.done || s.done, r.read + 1)
  }

  /** The read loop over a stream of chunks: a chunk is read only while no
      `[DONE]` has been seen. */
  function Run(chunks: seq<string>, parse: string -> Json): Reader
    decreases |chunks|
  {
    if chunks == [] then Reader("", "", false, 0)
    else
      var r := Run(chunks[..|chunks| - 1], parse);
      if r.done then r else Feed(r, chunks[|chunks| - 1], parse)
  }

  function Concat(chunks: seq<string>): string
    decreases |chunks|
  {
    if chunks == [] then "" else Concat(chunks[..|chunks| - 1]) + chunks[|chunks| - 1]
  }

  /** The complete frames of a whole text, scanned. */
  function Scanned(s: string, parse: string -> Json): Scan {
    ScanFrames(Frames(s), parse)
  }

  /** What the reply's `contentEl` shows once the text so far is `text`:
      `renderMarkdown` of all of it, or nothing when no delta came. */
  function Shown(text: string): string {
    if text == "" then "" else Render.RenderMarkdown(text)
  }

  /** The loop of `sendMessage` that reads the body: chunks arrive already
      decoded, and the result is `responseText`, `doneReading` and what
      the empty reply element shows after the last `renderMarkdown`. */
  method ReadStream(chunks: seq<string>, parse: string -> Json)
    returns (responseText: string, doneReading: bool, html: string)
    ensures responseText == Run(chunks, parse).text
    ensures doneReading == Run(chunks, parse).done
    ensures html == Shown(responseText)
  {
    responseText, doneReading, html := "", false, "";
    var buffer := "";
    var i := 0;
    while !doneReading && i < |chunks|
      invariant 0 <= i <= |chunks|
      invariant Run(chunks[..i], parse) == Reader(responseText, buffer, doneReading, i)
      invariant html == Shown(responseText)
      decreases |chunks| - i
    {
      ghost var r := Reader(responseText, buffer, doneReading, i);
      var parts := Split(buffer + chunks[i], FrameBreak);
      responseText, doneReading, html := ReadFrames(parts[..|parts| - 1], parse, responseText, html);
      buffer := parts[|parts| - 1];
      RunPrefixFeed(chunks, i, parse);
      assert Reader(responseText, buffer, doneReading, i + 1) == Feed(r, chunks[i], parse);
      i := i + 1;
    }
    if doneReading {
      RunPrefixDone(chunks, i, parse);
    } else {
      assert chunks[..i] == chunks;
    }
  }

  /** A chunk read after a prefix without `[DONE]` is fed to the reader. */
  lemma RunSnocFeed(pre: seq<string>, c: string, parse: string -> Json)
    requires !Run(pre, parse).done
    ensures Run(pre + [c], parse) == Feed(Run(pre, parse), c, parse)
  {
    assert (pre + [c])[..|pre|] == pre;
  }

  lemma RunPrefixFeed(chunks: seq<string>, i: nat, parse: string -> Json)
    requires i < |chunks| && !Run(chunks[..i], parse).done
    ensures Run(chunks[..i + 1], parse) == Feed(Run(chunks[..i], parse), chunks[i], parse)
  {
    assert chunks[..i + 1] == chunks[..i] + [chunks[i]];
    RunSnocFeed(chunks[..i], chunks[i], parse);
  }

  /** Once a prefix has met `[DONE]`, the rest of the stream is not read. */
  lemma RunPrefixDone(chunks: seq<string>, n: nat, parse: string -> Json)
    requires n <= |chunks| && Run(chunks[..n], parse).done
    ensures Run(chunks, parse) == Run(chunks[..n], parse)
  {
    DoneStopsReading(chunks[..n], chunks[n..], parse);
    assert chunks[..n] + chunks[n..] == chunks;
  }

  /** The `for (const part of parts)` loop over the complete frames of one
      chunk: the text gathered is appended to `responseText`, `doneReading`
      is set when some frame held `[DONE]`, and the reply element is
      re-rendered from the whole text whenever a delta was added. */
  method ReadFrames(frames: seq<string>, parse: string -> Json, text: string, html: string)
    returns (responseText: string, doneReading: bool, shown: string)
    ensures responseText == text + ScanFrames(frames, parse).text
    ensures doneReading == ScanFrames(frames, parse).done
    ensures shown == if responseText == text then html else Render.RenderMarkdown(responseText)
  {
    responseText, doneReading, shown := text, false, html;
    var j := 0;
    while j < |frames|
      invariant 0 <= j <= |frames|
      invariant responseText == text + ScanFrames(frames[..j], parse).text
      invariant doneReading == ScanFrames(frames[..j], parse).done
      invariant shown == if responseText == text then html else Render.RenderMarkdown(responseText)
    {
      ghost var acc := ScanFrames(frames[..j], parse).text;
      var sawDone;
      responseText, sawDone, shown := ReadFrame(frames[j], parse, responseText, shown);
      doneReading := doneReading || sawDone;
      ScanFramesPrefix(frames, j, parse);
      ConcatAssoc(text, acc, ScanFrame(frames[j], parse).text);
      j := j + 1;
    }
    assert frames[..|frames|] == frames;
  }

  /** The inner `for (const line of lines)` loop over one frame: the deltas
      of its `data:` lines are appended to `responseText` until a `[DONE]`
      payload breaks the loop, and after each non-empty delta the reply
      element is rendered again from all of `responseText`. */
  method ReadFrame(frame: string, parse: string -> Json, text: string, html: string)
    returns (responseText: string, sawDone: bool, shown: string)
    ensures responseText == text + ScanFrame(frame, parse).text
    ensures sawDone == ScanFrame(frame, parse).done
    ensures shown == if responseText == text then html else Render.RenderMarkdown(responseText)
  {
    var lines := Split(frame, LineBreak);
    responseText, sawDone, shown := text, false, html;
    var k := 0;
    while k < |lines|
      invariant 0 <= k <= |lines|
      invariant !ScanLines(lines[..k], parse).done
      invariant responseText == text + ScanLines(lines[..k], parse).text
      invariant !sawDone
      invariant shown == if responseText == text then html else Render.RenderMarkdown(responseText)
    {
      var line := lines[k];
      ghost var prev := ScanLines(lines[..k], parse);
      ScanLinesPrefix(lines, k, parse);
      if !StartsWith(line, DataPrefix) {
        k := k + 1;
        continue;
      }
      var data := Trim(line[|DataPrefix|..]);
      if data == DoneSentinel {
        sawDone := true;
        ScanLinesAppend(lines[..k + 1], lines[k + 1..], parse);
        assert lines[..k + 1] + lines[k + 1..] == lines;
        break;
      }
      var content := Delta(parse(data));
      if content != "" {
        responseText := responseText + content;
        shown := Render.RenderMarkdown(responseText);
      }
      ConcatAssoc(text, prev.text, content);
      k := k + 1;
    }
    assert lines[..|lines|] == lines;
  }

  lemma ConcatAssoc(a: string, b: string, c: string)
    ensures (a + b) + c == a + (b + c)
  {
  }

  // ---------------------------------------------------------------------
  // Lines of one frame

  lemma ScanLinesPrefix(lines: seq<string>, k: nat, parse: string -> Json)
    requires k < |lines|
    ensures ScanLines(lines[..k + 1], parse)
      == if ScanLines(lines[..k], parse).done then ScanLines(lines[..k], parse)
         else LineStep(ScanLines(lines[..k], parse), lines[k], parse)
  {
    assert lines[..k + 1][..k] == lines[..k];
  }

  /** Scanning is a homomorphism over the lines of a frame until `[DONE]`,
      which absorbs everything after it. */
  lemma {:induction false} ScanLinesAppend(a: seq<string>, b: seq<string>, parse: string -> Json)
    ensures ScanLines(a, parse).done ==> ScanLines(a + b, parse) == ScanLines(a, parse)
    ensures !ScanLines(a, parse).done ==>
      ScanLines(a + b, parse) == Scan(ScanLines(a, parse).text + ScanLines(b, parse).text, ScanLines(b, parse).done)
    decreases |b|
  {
    if b == [] {
      assert a + b == a;
    } else {
      var b', l := b[..|b| - 1], b[|b| - 1];
      assert (a + b)[..|a + b| - 1] == a + b';
      assert (a + b)[|a + b| - 1] == l;
      ScanLinesAppend(a, b', parse);
      var sa, sb := ScanLines(a, parse), ScanLines(b', parse);
      if !sa.done && !sb.done {
        LineStepShift(sa.text, sb, l, parse);
      }
    }
  }

  /** A line step only appends to the text it is given. */
  lemma LineStepShift(x: string, s: Scan, line: string, parse: string -> Json)
    ensures LineStep(Scan(x + s.text, s.done), line, parse)
      == Scan(x + LineStep(s, line, parse).text, LineStep(s, line, parse).done)
  {
    match Payload(line)
    case None =>
    case Some(p) =>
      if p != DoneSentinel {
        assert x + s.text + Delta(parse(p)) == x + (s.text + Delta(parse(p)));
      }
  }

  /** Only lines starting with `data:` contribute. */
  lemma {:induction false} OnlyDataLinesCount(lines: seq<string>, parse: string -> Json)
    requires forall i :: 0 <= i < |lines| ==> !StartsWith(lines[i], DataPrefix)
    ensures ScanLines(lines, parse) == Scan("", false)
    decreases |lines|
  {
    if lines != [] {
      OnlyDataLinesCount(lines[..|lines| - 1], parse);
    }
  }

  /** A line that is not a `data:` line can be dropped without effect. */
  lemma NonDataLineIgnored(a: seq<string>, line: string, b: seq<string>, parse: string -> Json)
    requires !StartsWith(line, DataPrefix)
    ensures ScanLines(a + [line] + b, parse) == ScanLines(a + b, parse)
  {
    assert (a + [line])[..|a|] == a;
    ScanLinesAppend(a + [line], b, parse);
    ScanLinesAppend(a, b, parse);
  }

  /** A payload that does not parse leaves the text as it is, and the
      following lines are still scanned. */
  lemma InvalidPayloadIgnored(a: seq<string>, line: string, b: seq<string>, parse: string -> Json)
    requires Payload(line).Some? && Payload(line).value != DoneSentinel
    requires parse(Payload(line).value).Invalid?
    ensures ScanLines(a + [line] + b, parse) == ScanLines(a + b, parse)
  {
    var s := ScanLines(a, parse);
    assert (a + [line])[..|a|] == a;
    assert Delta(parse(Payload(line).value)) == "";
    assert s.text + "" == s.text;
    assert ScanLines(a + [line], parse) == s;
    assert a + [line] + b == (a + [line]) + b;
    ScanLinesAppend(a + [line], b, parse);
    ScanLinesAppend(a, b, parse);
  }

  /** `[DONE]` contributes no text, and the lines after it in the frame are
      not looked at. */
  lemma DoneEndsFrame(a: seq<string>, line: string, b: seq<string>, parse: string -> Json)
    requires !ScanLines(a, parse).done
    requires Payload(line) == Some(DoneSentinel)
    ensures ScanLines(a + [line] + b, parse) == Scan(ScanLines(a, parse).text, true)
  {
    assert (a + [line])[..|a|] == a;
    ScanLinesAppend(a + [line], b, parse);
  }

  /** A `data:` line whose payload is JSON adds exactly its delta. */
  lemma DataLineAddsDelta(a: seq<string>, line: string, parse: string -> Json)
    requires !ScanLines(a, parse).done
    requires Payload(line).Some? && Payload(line).value != DoneSentinel
    ensures ScanLines(a + [line], parse)
      == Scan(ScanLines(a, parse).text + Delta(parse(Payload(line).value)), false)
  {
    assert (a + [line])[..|a|] == a;
  }

  // ---------------------------------------------------------------------
  // Frames of one chunk

  lemma ScanFramesPrefix(frames: seq<string>, j: nat, parse: string -> Json)
    requires j < |frames|
    ensures ScanFrames(frames[..j + 1], parse)
      == Scan(ScanFrames(frames[..j], parse).text + ScanFrame(frames[j], parse).text,
              ScanFrames(frames[..j], parse).done || ScanFrame(frames[j], parse).done)
  {
    assert frames[..j + 1][..j] == frames[..j];
  }

  /** Across frames the texts concatenate in order and `[DONE]` is sticky;
      a frame after a `[DONE]` frame is still scanned. */
  lemma {:induction false} ScanFramesAppend(a: seq<string>, b: seq<string>, parse: string -> Json)
    ensures ScanFrames(a + b, parse) == Scan(ScanFrames(a, parse).text + ScanFrames(b, parse).text,
                                             ScanFrames(a, parse).done || ScanFrames(b, parse).done)
    decreases |b|
  {
    if b == [] {
      assert a + b == a;
    } else {
      var b' := b[..|b| - 1];
      assert (a + b)[..|a + b| - 1] == a + b';
      assert (a + b)[|a + b| - 1] == b[|b| - 1];
      ScanFramesAppend(a, b', parse);
    }
  }

  /** Within one chunk, a frame holding `[DONE]` stops the reading of
      further chunks but not the frames that follow it. */
  lemma DoneFrameInChunk(r: Reader, chunk: string, a: seq<string>, f: string, b: seq<string>, parse: string -> Json)
    requires Frames(r.buffer + chunk) == a + [f] + b
    requires ScanFrame(f, parse).done
    ensures Feed(r, chunk, parse).done
    ensures Feed(r, chunk, parse).text
      == r.text + (ScanFrames(a, parse).text + ScanFrame(f, parse).text + ScanFrames(b, parse).text)
  {
    assert (a + [f])[..|a|] == a;
    assert ScanFrames(a + [f], parse)
      == Scan(ScanFrames(a, parse).text + ScanFrame(f, parse).text, true);
    ScanFramesAppend(a + [f], b, parse);
  }

  lemma {:induction false} JoinSnoc(p: seq<string>, sep: string)
    requires |p| >= 2
    ensures Join(p[..|p| - 1], sep) + sep + p[|p| - 1] == Join(p, sep)
    decreases |p|
  {
    if |p| > 2 {
      JoinSnoc(p[1..], sep);
      assert p[1..][..|p| - 2] == p[..|p| - 1][1..];
    }
  }

  /** What the loop keeps after a chunk: the frames, rejoined with blank
      lines and followed by the new buffer, give back the old buffer plus
      the chunk; without a frame the buffer is all of it; and the buffer
      never holds a blank line. */
  lemma FramesAndRest(s: string)
    ensures |Frames(s)| > 0 ==> Join(Frames(s), FrameBreak) + FrameBreak + Rest(s) == s
    ensures |Frames(s)| == 0 ==> Rest(s) == s
    ensures !Contains(Rest(s), FrameBreak)
  {
    var parts := Split(s, FrameBreak);
    JoinSplit(s, FrameBreak);
    SplitPiecesFree(s, FrameBreak);
    if |parts| >= 2 {
      JoinSnoc(parts, FrameBreak);
    }
  }

  /** Appending a chunk leaves the complete frames complete. */
  lemma FramesAppend(s: string, c: string)
    ensures Frames(s + c) == Frames(s) + Frames(Rest(s) + c)
  {
    var p := Split(s, FrameBreak);
    SplitAppend(s, c, FrameBreak);
    AppendLast(p[..|p| - 1], Split(p[|p| - 1] + c, FrameBreak));
  }

  /** Appending a chunk leaves as buffer what the old buffer with the chunk
      leaves. */
  lemma RestAppend(s: string, c: string)
    ensures Rest(s + c) == Rest(Rest(s) + c)
  {
    var p := Split(s, FrameBreak);
    SplitAppend(s, c, FrameBreak);
    AppendLast(p[..|p| - 1], Split(p[|p| - 1] + c, FrameBreak));
  }

  lemma AppendLast(a: seq<string>, q: seq<string>)
    requires |q| >= 1
    ensures (a + q)[..|a + q| - 1] == a + q[..|q| - 1]
    ensures (a + q)[|a + q| - 1] == q[|q| - 1]
  {
  }

  // ---------------------------------------------------------------------
  // The whole stream

  /** Once `[DONE]` was seen no further chunk is read. */
  lemma {:induction false} DoneStopsReading(chunks: seq<string>, more: seq<string>, parse: string -> Json)
    requires Run(chunks, parse).done
    ensures Run(chunks + more, parse) == Run(chunks, parse)
    decreases |more|
  {
    if more == [] {
      assert chunks + more == chunks;
    } else {
      assert (chunks + more)[..|chunks + more| - 1] == chunks + more[..|more| - 1];
      DoneStopsReading(chunks, more[..|more| - 1], parse);
    }
  }

  /** The reader sees exactly the complete frames of the concatenated
      chunks it read: its text and its `[DONE]` flag are those of the
      frames of that text, its buffer is that text's unfinished tail, and
      it stops before the last chunk only on `[DONE]`. */
  lemma {:induction false} RunMatchesConcatenation(chunks: seq<string>, parse: string -> Json)
    ensures Run(chunks, parse).read <= |chunks|
    ensures Run(chunks, parse).read < |chunks| ==> Run(chunks, parse).done
    ensures var s := Concat(chunks[..Run(chunks, parse).read]);
      Run(chunks, parse).text == Scanned(s, parse).text
      && Run(chunks, parse).done == Scanned(s, parse).done
      && Run(chunks, parse).buffer == Rest(s)
    decreases |chunks|
  {
    if chunks == [] {
      assert chunks[..0] == [];
      assert Split("", FrameBreak) == [""];
    } else {
      var init, c := chunks[..|chunks| - 1], chunks[|chunks| - 1];
      assert chunks == init + [c];
      RunMatchesConcatenation(init, parse);
      if Run(init, parse).done {
        ReadsConcatenationDone(init, c, parse);
      } else {
        ReadsConcatenationFeed(init, c, parse);
      }
    }
  }

  /** The contract of `RunMatchesConcatenation`, for one list of chunks. */
  predicate ReadsConcatenation(chunks: seq<string>, parse: string -> Json) {
    var r := Run(chunks, parse);
    r.read <= |chunks|
    && (r.read < |chunks| ==> r.done)
    && (var s := Concat(chunks[..r.read]);
        r.text == Scanned(s, parse).text && r.done == Scanned(s, parse).done && r.buffer == Rest(s))
  }

  lemma ReadsConcatenationDone(init: seq<string>, c: string, parse: string -> Json)
    requires ReadsConcatenation(init, parse) && Run(init, parse).done
    ensures ReadsConcatenation(init + [c], parse)
  {
    var chunks := init + [c];
    var r0 := Run(init, parse);
    assert chunks[..|init|] == init;
    assert Run(chunks, parse) == r0;
    assert init[..r0.read] == chunks[..r0.read];
  }

  lemma ReadsConcatenationFeed(init: seq<string>, c: string, parse: string -> Json)
    requires ReadsConcatenation(init, parse) && !Run(init, parse).done
    ensures ReadsConcatenation(init + [c], parse)
  {
    assert init[..|init|] == init;
    FeedWhole(init, c, Run(init, parse), parse);
    assert (init + [c])[..|init| + 1] == init + [c];
  }

  /** The reader reads a further chunk only while the frames of the text
      read so far hold no `[DONE]`. */
  lemma {:induction false} ReadsUntilFirstDone(chunks: seq<string>, parse: string -> Json)
    ensures Run(chunks, parse).read <= |chunks|
    ensures forall j :: 0 <= j < Run(chunks, parse).read ==> !Scanned(Concat(chunks[..j]), parse).done
    decreases |chunks|
  {
    if chunks != [] {
      var init, c := chunks[..|chunks| - 1], chunks[|chunks| - 1];
      assert chunks == init + [c];
      ReadsUntilFirstDone(init, parse);
      RunMatchesConcatenation(init, parse);
      ReadsUntilFirstDoneStep(init, c, parse);
    }
  }

  lemma ReadsUntilFirstDoneStep(init: seq<string>, c: string, parse: string -> Json)
    requires ReadsConcatenation(init, parse)
    requires forall j :: 0 <= j < Run(init, parse).read ==> !Scanned(Concat(init[..j]), parse).done
    ensures Run(init + [c], parse).read <= |init + [c]|
    ensures forall j :: 0 <= j < Run(init + [c], parse).read ==> !Scanned(Concat((init + [c])[..j]), parse).done
  {
    if Run(init, parse).done {
      RunSnocDone(init, c, parse);
      PrefixesKept(init, c, Run(init, parse).read, parse);
    } else {
      RunSnocFeed(init, c, parse);
      assert init[..|init|] == init;
      PrefixesKept(init, c, |init| + 1, parse);
    }
  }

  lemma RunSnocDone(pre: seq<string>, c: string, parse: string -> Json)
    requires Run(pre, parse).done
    ensures Run(pre + [c], parse) == Run(pre, parse)
  {
    assert (pre + [c])[..|pre|] == pre;
  }

  /** The prefixes of `init` are prefixes of `init + [c]`. */
  lemma PrefixesKept(init: seq<string>, c: string, n: nat, parse: string -> Json)
    requires n <= |init| + 1
    requires forall j :: 0 <= j < n ==> !Scanned(Concat(init[..j]), parse).done
    ensures forall j :: 0 <= j < n ==> !Scanned(Concat((init + [c])[..j]), parse).done
  {
    forall j | 0 <= j < n ensures (init + [c])[..j] == init[..j] {
    }
  }

  /** A chunk read after a text that held no `[DONE]`: the reader's state
      is that of the whole concatenation. */
  lemma FeedWhole(init: seq<string>, c: string, r0: Reader, parse: string -> Json)
    requires r0 == Run(init, parse) && !r0.done && r0.read == |init|
    requires r0.text == Scanned(Concat(init), parse).text && r0.buffer == Rest(Concat(init))
    requires !Scanned(Concat(init), parse).done
    ensures Run(init + [c], parse).read == |init| + 1
    ensures Run(init + [c], parse).text == Scanned(Concat(init + [c]), parse).text
    ensures Run(init + [c], parse).done == Scanned(Concat(init + [c]), parse).done
    ensures Run(init + [c], parse).buffer == Rest(Concat(init + [c]))
  {
    RunSnocFeed(init, c, parse);
    ConcatSnoc(init, c);
    FeedMatches(Concat(init), c, r0, parse);
  }

  lemma ConcatSnoc(chunks: seq<string>, c: string)
    ensures Concat(chunks + [c]) == Concat(chunks) + c
  {
    assert (chunks + [c])[..|chunks|] == chunks;
  }

  /** One chunk read: the frames completed by the chunk are scanned after
      those of the text before it. */
  lemma FeedMatches(s: string, c: string, r: Reader, parse: string -> Json)
    requires !r.done && r.text == Scanned(s, parse).text && r.done == Scanned(s, parse).done
    requires r.buffer == Rest(s)
    ensures Feed(r, c, parse).text == Scanned(s + c, parse).text
    ensures Feed(r, c, parse).done == Scanned(s + c, parse).done
    ensures Feed(r, c, parse).buffer == Rest(s + c)
  {
    FramesAppend(s, c);
    RestAppend(s, c);
    ScanFramesAppend(Frames(s), Frames(Rest(s) + c), parse);
  }

  /** How the stream is cut into chunks does not matter to a reader that
      never meets `[DONE]`. */
  lemma ChunkingIrrelevant(c1: seq<string>, c2: seq<string>, parse: string -> Json)
    requires Concat(c1) == Concat(c2)
    requires !Run(c1, parse).done && !Run(c2, parse).done
    ensures Run(c1, parse).text == Run(c2, parse).text
    ensures Run(c1, parse).buffer == Run(c2, parse).buffer
  {
    RunWhole(c1, parse);
    RunWhole(c2, parse);
  }

  /** A reader that met no `[DONE]` read every chunk, and its state is that
      of their whole concatenation. */
  lemma RunWhole(chunks: seq<string>, parse: string -> Json)
    requires !Run(chunks, parse).done
    ensures Run(chunks, parse).read == |chunks|
    ensures Run(chunks, parse).text == Scanned(Concat(chunks), parse).text
    ensures Run(chunks, parse).buffer == Rest(Concat(chunks))
  {
    RunMatchesConcatenation(chunks, parse);
    assert chunks[..|chunks|] == chunks;
  }

  /** The buffer never holds a blank line. */
  lemma RunBufferHasNoFrameBreak(chunks: seq<string>, parse: string -> Json)
    ensures !Contains(Run(chunks, parse).buffer, FrameBreak)
  {
    RunMatchesConcatenation(chunks, parse);
    FramesAndRest(Concat(chunks[..Run(chunks, parse).read]));
  }

  /** A last chunk that does not complete a frame is only buffered: when
      the stream then ends, that trailing frame is never scanned. */
  lemma UnterminatedTailIgnored(chunks: seq<string>, tail: string, parse: string -> Json)
    requires !Run(chunks, parse).done
    requires !Contains(Run(chunks, parse).buffer + tail, FrameBreak)
    ensures Run(chunks + [tail], parse).text == Run(chunks, parse).text
    ensures Run(chunks + [tail], parse).buffer == Run(chunks, parse).buffer + tail
    ensures !Run(chunks + [tail], parse).done
  {
    assert (chunks + [tail])[..|chunks|] == chunks;
    SplitNone(Run(chunks, parse).buffer + tail, FrameBreak);
  }
}
