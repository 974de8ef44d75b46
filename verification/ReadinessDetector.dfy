/**
 observeInternalBackendReady of app/electron/backendToken.ts: a listener that looks for the
 readiness marker on a line of its own in output that arrives in arbitrary chunks.
 */
module ReadinessDetector {
  import opened Common

  const MARKER := "HEADLAMP_BACKEND_READY"

  /** `line.replace(/\r$/, '')`. */
  function DropCarriageReturn(line: string): string {
    if line != "" && line[|line| - 1] == '\r' then line[..|line| - 1] else line
  }

  /** The newline-terminated lines of a text, without their newlines. */
  function CompleteLines(text: string): seq<string> {
    if text == "" then []
    else
      var front := text[..|text| - 1];
      if text[|text| - 1] == '\n' then CompleteLines(front) + [Unfinished(front)] else CompleteLines(front)
  }

  /** What follows the last newline. */
  function Unfinished(text: string): (rest: string)
    ensures |rest| <= |text|
  {
    if text == "" || text[|text| - 1] == '\n' then ""
    else Unfinished(text[..|text| - 1]) + [text[|text| - 1]]
  }

  /** Some of the lines is the marker. */
  predicate AnyMarker(lines: seq<string>, marker: string) {
    exists k :: 0 <= k < |lines| && DropCarriageReturn(lines[k]) == marker
  }

  /** Some newline-terminated line is the marker. */
  predicate Marked(text: string, marker: string) {
    AnyMarker(CompleteLines(text), marker)
  }

  function Concat(chunks: seq<string>): string {
    if chunks == [] then "" else Concat(chunks[..|chunks| - 1]) + chunks[|chunks| - 1]
  }

  /** Cutting a text anywhere and keeping the unfinished line loses nothing. */
  lemma {:induction false} CutAnywhere(a: string, b: string)
    ensures CompleteLines(a + b) == CompleteLines(a) + CompleteLines(Unfinished(a) + b)
    ensures Unfinished(a + b) == Unfinished(Unfinished(a) + b)
  {
    if b == "" {
      assert a + b == a && Unfinished(a) + b == Unfinished(a);
      UnfinishedHasNoLine(a);
    } else {
      var front, last := b[..|b| - 1], b[|b| - 1];
      CutAnywhere(a, front);
      assert (a + b)[..|a + b| - 1] == a + front;
      assert (Unfinished(a) + b)[..|Unfinished(a) + b| - 1] == Unfinished(a) + front;
    }
  }

  lemma {:induction false} UnfinishedHasNoLine(a: string)
    ensures CompleteLines(Unfinished(a)) == [] && Unfinished(Unfinished(a)) == Unfinished(a)
  {
    if a != "" && a[|a| - 1] != '\n' {
      UnfinishedHasNoLine(a[..|a| - 1]);
      assert Unfinished(a)[..|Unfinished(a)| - 1] == Unfinished(a[..|a| - 1]);
    }
  }

  lemma AnyMarkerConcat(a: seq<string>, b: seq<string>, marker: string)
    ensures AnyMarker(a + b, marker) <==> AnyMarker(a, marker) || AnyMarker(b, marker)
  {
    assert forall k :: 0 <= k < |a| ==> (a + b)[k] == a[k];
    assert forall k :: 0 <= k < |b| ==> (a + b)[|a| + k] == b[k];
  }

  lemma MarkedGrows(a: string, b: string, marker: string)
    requires Marked(a, marker)
    ensures Marked(a + b, marker)
  {
    CutAnywhere(a, b);
    AnyMarkerConcat(CompleteLines(a), CompleteLines(Unfinished(a) + b), marker);
  }

  /** Without an earlier marker only lines finished by the new chunk can be one. */
  lemma MarkedByChunk(a: string, b: string, output: string, marker: string)
    requires !Marked(a, marker) && output == Unfinished(a) + b
    ensures Marked(a + b, marker) <==> AnyMarker(CompleteLines(output), marker)
    ensures Unfinished(a + b) == Unfinished(output)
  {
    CutAnywhere(a, b);
    AnyMarkerConcat(CompleteLines(a), CompleteLines(output), marker);
  }

  class Observer {
    const marker: string
    var bufferedOutput: string
    var listening: bool
    var calls: nat
    ghost var seen: string

    /** While listening nothing seen so far holds the marker and the buffer is the unfinished line. */
    ghost predicate Valid()
      reads this
    {
      && (listening ==> bufferedOutput == Unfinished(seen) && !Marked(seen, marker) && calls == 0)
      && (!listening ==> calls <= 1)
    }

    constructor (marker: string)
      ensures Valid() && listening && seen == "" && calls == 0 && this.marker == marker
    {
      this.marker := marker;
      bufferedOutput, listening, calls, seen := "", true, 0, "";
    }

    /** stopObserving, also the function returned to the caller. */
    method StopObserving()
      requires Valid()
      modifies this
      ensures Valid() && !listening && calls == old(calls) && seen == old(seen)
    {
      listening := false;
    }

    /** handleOutput, delivered only while the listener is attached. */
    method HandleOutput(data: string)
      requires Valid() && listening
      modifies this
      ensures Valid() && seen == old(seen) + data
      ensures calls == (if Marked(seen, marker) then 1 else 0) && listening == !Marked(seen, marker)
    {
      var output := bufferedOutput + data;
      MarkedByChunk(seen, data, output, marker);
      seen := seen + data;
      bufferedOutput := Unfinished(output);
      var found := HasMarker(CompleteLines(output), marker);
      if found {
        listening := false;
        calls := calls + 1;
      }
    }
  }

  /** The loop of handleOutput over the finished lines. */
  method HasMarker(lines: seq<string>, marker: string) returns (found: bool)
    ensures found <==> AnyMarker(lines, marker)
  {
    for i := 0 to |lines|
      invariant forall j :: 0 <= j < i ==> DropCarriageReturn(lines[j]) != marker
    {
      if DropCarriageReturn(lines[i]) == marker {
        return true;
      }
    }
    return false;
  }

  /** Feed chunks until the listener detaches; report the chunk on which the callback fired. */
  method Observe(chunks: seq<string>) returns (firedAt: Option<nat>)
    ensures match firedAt
            case Some(k) =>
              && k < |chunks| && Marked(Concat(chunks[..k + 1]), "HEADLAMP_BACKEND_READY")
              && !Marked(Concat(chunks[..k]), "HEADLAMP_BACKEND_READY")
            case None => !Marked(Concat(chunks), "HEADLAMP_BACKEND_READY")
  {
    var marker := MARKER;
    var observer := new Observer(marker);
    for i := 0 to |chunks|
      invariant fresh(observer) && observer.Valid() && observer.listening && observer.marker == marker
      invariant observer.seen == Concat(chunks[..i])
    {
      assert chunks[..i + 1][..i] == chunks[..i];
      observer.HandleOutput(chunks[i]);
      if observer.calls > 0 {
        return Some(i);
      }
    }
    assert chunks[..|chunks|] == chunks;
    return None;
  }

  lemma {:induction false} ConcatSplit(chunks: seq<string>, k: nat)
    requires k <= |chunks|
    ensures Concat(chunks) == Concat(chunks[..k]) + Concat(chunks[k..])
  {
    if k == |chunks| {
      assert chunks[..k] == chunks;
    } else {
      var front := chunks[..|chunks| - 1];
      ConcatSplit(front, k);
      assert front[..k] == chunks[..k] && front[k..] == chunks[k..][..|chunks[k..]| - 1];
    }
  }

  /** Once the delivered text is marked it stays marked. */
  lemma MarkedStays(chunks: seq<string>, j: nat, k: nat, marker: string)
    requires j <= k <= |chunks| && Marked(Concat(chunks[..j]), marker)
    ensures Marked(Concat(chunks[..k]), marker)
  {
    ConcatSplit(chunks[..k], j);
    assert chunks[..k][..j] == chunks[..j];
    MarkedGrows(Concat(chunks[..j]), Concat(chunks[..k][j..]), marker);
  }

  /** The chunk on which the callback fires is determined, and exists only if the whole text is marked. */
  lemma FiresOnceAndOnlyIfMarked(chunks: seq<string>, j: nat, k: nat, marker: string)
    requires j < |chunks| && Marked(Concat(chunks[..j + 1]), marker) && !Marked(Concat(chunks[..j]), marker)
    requires k < |chunks| && Marked(Concat(chunks[..k + 1]), marker) && !Marked(Concat(chunks[..k]), marker)
    ensures j == k && Marked(Concat(chunks), marker)
  {
    if j < k { MarkedStays(chunks, j + 1, k, marker); }
    if k < j { MarkedStays(chunks, k + 1, j, marker); }
    MarkedStays(chunks, j + 1, |chunks|, marker);
    assert chunks[..|chunks|] == chunks;
  }

  /**
   Two ways of cutting one output: where one fires, the other has fired by the time it has
   delivered at least as much text.
   */
  lemma ChunkingDoesNotMatter(a: seq<string>, b: seq<string>, j: nat, k: nat, marker: string)
    requires Concat(a) == Concat(b) && j <= |a| && k <= |b|
    requires |Concat(a[..j])| <= |Concat(b[..k])| && Marked(Concat(a[..j]), marker)
    ensures Marked(Concat(b[..k]), marker)
  {
    ConcatSplit(a, j);
    ConcatSplit(b, k);
    var x, y := Concat(a[..j]), Concat(b[..k]);
    assert x == Concat(a)[..|x|] && y == Concat(a)[..|y|];
    assert y == x + y[|x|..];
    MarkedGrows(x, y[|x|..], marker);
  }

  // ----- The same thing said about positions ------------------------------------------------

  /** text[i..j] is a whole line, ended by the newline at j. */
  predicate LineAt(text: string, i: nat, j: nat) {
    && i <= j < |text| && text[j] == '\n'
    && (i == 0 || text[i - 1] == '\n')
    && forall k :: i <= k < j ==> text[k] != '\n'
  }

  lemma {:induction false} UnfinishedAt(text: string)
    ensures Unfinished(text) == text[|text| - |Unfinished(text)|..]
    ensures |Unfinished(text)| < |text| ==> text[|text| - |Unfinished(text)| - 1] == '\n'
    ensures forall k :: |text| - |Unfinished(text)| <= k < |text| ==> text[k] != '\n'
  {
    if text != "" && text[|text| - 1] != '\n' {
      UnfinishedAt(text[..|text| - 1]);
    }
  }

  ghost predicate MarkerLine(text: string, marker: string) {
    exists i: nat, j: nat :: LineAt(text, i, j) && DropCarriageReturn(text[i..j]) == marker
  }

  lemma {:induction false} MarkedAppend(front: string, c: char, marker: string)
    ensures Marked(front + [c], marker) <==>
            Marked(front, marker) || (c == '\n' && DropCarriageReturn(Unfinished(front)) == marker)
  {
    assert (front + [c])[..|front|] == front;
    AnyMarkerConcat(CompleteLines(front), [Unfinished(front)], marker);
    assert [Unfinished(front)][0] == Unfinished(front);
  }

  lemma EarlierLines(front: string, c: char, i: nat, j: nat)
    requires j < |front|
    ensures LineAt(front + [c], i, j) <==> LineAt(front, i, j)
    ensures i <= j ==> (front + [c])[i..j] == front[i..j]
  {
    assert forall k :: 0 <= k < |front| ==> (front + [c])[k] == front[k];
  }

  lemma LastLine(front: string, i: nat)
    ensures LineAt(front + ['\n'], i, |front|) <==> i == |front| - |Unfinished(front)|
    ensures (front + ['\n'])[|front| - |Unfinished(front)|..|front|] == Unfinished(front)
  {
    UnfinishedAt(front);
    var text, start := front + ['\n'], |front| - |Unfinished(front)|;
    assert forall k :: 0 <= k < |front| ==> text[k] == front[k];
    assert 0 < start ==> text[start - 1] == '\n';
    assert 0 < i <= |front| ==> text[i - 1] == front[i - 1];
  }

  lemma MarkerLineGrows(front: string, c: char, marker: string)
    ensures MarkerLine(front, marker) ==> MarkerLine(front + [c], marker)
    ensures c == '\n' && DropCarriageReturn(Unfinished(front)) == marker ==> MarkerLine(front + [c], marker)
  {
    if MarkerLine(front, marker) {
      var i: nat, j: nat :| LineAt(front, i, j) && DropCarriageReturn(front[i..j]) == marker;
      EarlierLines(front, c, i, j);
    }
    UnfinishedAt(front);
    LastLine(front, |front| - |Unfinished(front)|);
  }

  lemma {:induction false} MarkerLineAppend(front: string, c: char, marker: string)
    ensures MarkerLine(front + [c], marker) <==>
            MarkerLine(front, marker) || (c == '\n' && DropCarriageReturn(Unfinished(front)) == marker)
  {
    MarkerLineGrows(front, c, marker);
    if MarkerLine(front + [c], marker) {
      var i: nat, j: nat :| LineAt(front + [c], i, j) && DropCarriageReturn((front + [c])[i..j]) == marker;
      if j < |front| { EarlierLines(front, c, i, j); } else { LastLine(front, i); }
    }
  }

  /** The line is the marker, as it is or with one carriage return after it. */
  predicate IsMarker(line: string, marker: string) {
    line == marker + "\r" || (line == marker && !(marker != "" && marker[|marker| - 1] == '\r'))
  }

  lemma DropExactly(line: string, marker: string)
    ensures DropCarriageReturn(line) == marker <==> IsMarker(line, marker)
  {
    if line != "" && line[|line| - 1] == '\r' {
      assert line == line[..|line| - 1] + "\r";
    }
    if line == marker + "\r" {
      assert line[..|line| - 1] == marker;
    }
  }

  lemma {:induction false} MarkedHasLine(text: string, marker: string)
    ensures Marked(text, marker) <==> MarkerLine(text, marker)
  {
    if text != "" {
      var front, c := text[..|text| - 1], text[|text| - 1];
      assert text == front + [c];
      MarkedHasLine(front, marker);
      MarkedAppend(front, c, marker);
      MarkerLineAppend(front, c, marker);
    }
  }

  /** A text is marked exactly when somewhere in it the marker stands on a line of its own. */
  lemma MarkedMeansLine(text: string, marker: string)
    ensures Marked(text, marker) <==> exists i: nat, j: nat :: LineAt(text, i, j) && IsMarker(text[i..j], marker)
  {
    MarkedHasLine(text, marker);
    forall i: nat, j: nat | LineAt(text, i, j)
      ensures DropCarriageReturn(text[i..j]) == marker <==> IsMarker(text[i..j], marker)
    {
      DropExactly(text[i..j], marker);
    }
  }
}
