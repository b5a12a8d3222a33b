/** internal/rpm/spec/structural_spec.go: a spec file as a buffer of lines.

    The scanner drops one carriage return from the end of each line and refuses lines of 65536
    bytes or more; both matter for when reading and writing undo each other. */
module StructuralSpecs {
  import opened Wrappers
  import opened Strings

  /** bufio.MaxScanTokenSize: a line must end within a buffer of this many bytes. */
  const MAX_SCAN_TOKEN_SIZE: nat := 65536

  datatype OpenError = LineTooLong

  // ---------- What opening and serialising compute ----------

  function AfterLine(s: string): string
    requires s != ""
  {
    var n := FirstNewline(s);
    if n == |s| then "" else s[n + 1..]
  }

  /** The lines of a text without their newlines; a last line may lack its newline. */
  function Physical(text: string): seq<string>
    decreases |text|
  {
    if text == "" then [] else [text[..FirstNewline(text)]] + Physical(AfterLine(text))
  }

  function DropCR(line: string): string {
    if line != "" && line[|line| - 1] == '\r' then line[..|line| - 1] else line
  }

  function Stripped(lines: seq<string>): (stripped: seq<string>)
    ensures |stripped| == |lines| && forall i :: 0 <= i < |lines| ==> stripped[i] == DropCR(lines[i])
  {
    seq(|lines|, i requires 0 <= i < |lines| => DropCR(lines[i]))
  }

  ghost predicate Readable(text: string) {
    forall l :: l in Physical(text) ==> |l| < MAX_SCAN_TOKEN_SIZE
  }

  ghost function Opened(text: string): Option<seq<string>> {
    if Readable(text) then Some(Stripped(Physical(text))) else None
  }

  function Serialized(lines: seq<string>): string {
    if lines == [] then "" else lines[0] + "\n" + Serialized(lines[1..])
  }

  // ---------- The buffer ----------

  class StructuralSpec {
    var rawLines: seq<string>

    constructor (lines: seq<string>)
      ensures rawLines == lines
    {
      rawLines := lines;
    }

    method Serialize() returns (text: string)
      ensures text == Serialized(rawLines)
    {
      text := "";
      for i := 0 to |rawLines|
        invariant text == Serialized(rawLines[..i])
      {
        assert rawLines[..i + 1] == rawLines[..i] + [rawLines[i]];
        SerializedAppends(rawLines[..i], [rawLines[i]]);
        assert Serialized([rawLines[i]]) == rawLines[i] + "\n" + Serialized([]);
        text := text + (rawLines[i] + "\n");
      }
      assert rawLines[..|rawLines|] == rawLines;
    }

    method ReplaceLine(lineNumber: nat, replacement: string)
      requires lineNumber < |rawLines|
      modifies this
      ensures rawLines == old(rawLines[..lineNumber]) + [replacement] + old(rawLines[lineNumber + 1..])
      ensures AllClean(old(rawLines)) && Clean(replacement) ==> AllClean(rawLines)
    {
      rawLines := rawLines[lineNumber := replacement];
    }

    method RemoveLine(lineNumber: nat)
      requires lineNumber < |rawLines|
      modifies this
      ensures rawLines == old(rawLines[..lineNumber]) + old(rawLines[lineNumber + 1..])
      ensures AllClean(old(rawLines)) ==> AllClean(rawLines)
    {
      RemoveLines(lineNumber, lineNumber + 1);
    }

    method RemoveLines(start: nat, end: nat)
      requires start <= end <= |rawLines|
      modifies this
      ensures rawLines == old(rawLines[..start]) + old(rawLines[end..])
      ensures AllClean(old(rawLines)) ==> AllClean(rawLines)
    {
      rawLines := rawLines[..start] + rawLines[end..];
    }

    method InsertLinesAt(insertedLines: seq<string>, lineNumber: nat)
      requires lineNumber <= |rawLines|
      modifies this
      ensures rawLines == old(rawLines[..lineNumber]) + insertedLines + old(rawLines[lineNumber..])
      ensures AllClean(old(rawLines)) && AllClean(insertedLines) ==> AllClean(rawLines)
    {
      rawLines := rawLines[..lineNumber] + insertedLines + rawLines[lineNumber..];
    }
  }

  /** Reads line by line; an over-long line anywhere is an error. */
  method OpenStructuralSpec(text: string) returns (r: Result<StructuralSpec, OpenError>)
    ensures r.Success? <==> Readable(text)
    ensures r.Success? ==> fresh(r.value) && Some(r.value.rawLines) == Opened(text)
  {
    hide Physical, Stripped, AfterLine, DropCR;
    var lines: seq<string>, rest := [], text;
    ghost var raw: seq<string> := [];
    NothingRead(text);
    while rest != ""
      invariant Physical(text) == raw + Physical(rest)
      invariant lines == Stripped(raw)
      invariant forall l :: l in raw ==> |l| < MAX_SCAN_TOKEN_SIZE
      decreases |rest|
    {
      var end := FirstNewline(rest);
      NextLine(raw, rest);
      if end >= MAX_SCAN_TOKEN_SIZE {
        assert rest[..end] in Physical(text);
        return Failure(LineTooLong);
      }
      lines, raw := lines + [DropCR(rest[..end])], raw + [rest[..end]];
      rest := AfterLine(rest);
    }
    assert raw == Physical(text) by {
      NothingRead(text);
    }
    var spec := new StructuralSpec(lines);
    r := Success(spec);
  }

  lemma NothingRead(text: string)
    ensures Physical(text) == [] + Physical(text) && Stripped([]) == [] && Physical("") == []
  {
  }

  lemma NextLine(raw: seq<string>, rest: string)
    requires rest != ""
    ensures |AfterLine(rest)| < |rest|
    ensures rest[..FirstNewline(rest)] in Physical(rest)
    ensures raw + Physical(rest) == raw + [rest[..FirstNewline(rest)]] + Physical(AfterLine(rest))
    ensures Stripped(raw + [rest[..FirstNewline(rest)]]) == Stripped(raw) + [DropCR(rest[..FirstNewline(rest)])]
  {
    hide AfterLine, DropCR;
    AfterLineIsShorter(rest);
    var line, later := rest[..FirstNewline(rest)], Physical(AfterLine(rest));
    assert Physical(rest) == [line] + later;
    assert raw + ([line] + later) == raw + [line] + later;
    StrippedSnoc(raw, line);
  }

  lemma AfterLineIsShorter(rest: string)
    requires rest != ""
    ensures |AfterLine(rest)| < |rest|
  {
  }

  lemma StrippedSnoc(raw: seq<string>, line: string)
    ensures Stripped(raw + [line]) == Stripped(raw) + [DropCR(line)]
  {
    hide DropCR;
  }

  /** Inserting lines and removing the inserted range restores the buffer. */
  method InsertThenRemove(spec: StructuralSpec, insertedLines: seq<string>, lineNumber: nat)
    requires lineNumber <= |spec.rawLines|
    modifies spec
    ensures spec.rawLines == old(spec.rawLines)
  {
    spec.InsertLinesAt(insertedLines, lineNumber);
    assert spec.rawLines[..lineNumber] == old(spec.rawLines[..lineNumber]);
    assert spec.rawLines[lineNumber + |insertedLines|..] == old(spec.rawLines[lineNumber..]);
    spec.RemoveLines(lineNumber, lineNumber + |insertedLines|);
  }

  // ---------- Opening a serialised buffer ----------

  /** A line that survives being written and read again. */
  ghost predicate Clean(line: string) {
    '\n' !in line && DropCR(line) == line && |line| < MAX_SCAN_TOKEN_SIZE
  }

  ghost predicate AllClean(lines: seq<string>) {
    forall i :: 0 <= i < |lines| ==> Clean(lines[i])
  }

  lemma {:induction false} SerializedAppends(a: seq<string>, b: seq<string>)
    ensures Serialized(a + b) == Serialized(a) + Serialized(b)
  {
    if a == [] {
      assert a + b == b;
    } else {
      assert (a + b)[1..] == a[1..] + b;
      SerializedAppends(a[1..], b);
    }
  }

  lemma PhysicalStep(line: string, rest: string)
    requires '\n' !in line
    ensures Physical(line + "\n" + rest) == [line] + Physical(rest)
  {
    var s := line + "\n" + rest;
    FirstNewlineAt(line, rest);
    assert s[..|line|] == line && s[|line| + 1..] == rest;
  }

  lemma {:induction false} PhysicalOfSerialized(lines: seq<string>)
    requires forall i :: 0 <= i < |lines| ==> '\n' !in lines[i]
    ensures Physical(Serialized(lines)) == lines
  {
    if lines != [] {
      PhysicalStep(lines[0], Serialized(lines[1..]));
      PhysicalOfSerialized(lines[1..]);
    }
  }

  function CountNewlines(s: string): nat {
    if s == "" then 0 else (if s[0] == '\n' then 1 else 0) + CountNewlines(s[1..])
  }

  lemma {:induction false} CountNewlinesAppends(a: string, b: string)
    ensures CountNewlines(a + b) == CountNewlines(a) + CountNewlines(b)
  {
    if a == "" {
      assert a + b == b;
    } else {
      assert (a + b)[1..] == a[1..] + b;
      CountNewlinesAppends(a[1..], b);
    }
  }

  lemma {:induction false} CountNewlinesIsZero(s: string)
    ensures CountNewlines(s) == 0 <==> '\n' !in s
  {
    if s != "" {
      assert s == [s[0]] + s[1..];
      CountNewlinesIsZero(s[1..]);
    }
  }

  lemma CountNothing()
    ensures CountNewlines("") == 0
  {
  }

  /** A text with a newline at its end has one line for each newline. */
  lemma {:induction false} LinesAreNewlines(text: string)
    requires text != "" ==> text[|text| - 1] == '\n'
    ensures |Physical(text)| == CountNewlines(text)
    decreases |text|
  {
    hide CountNewlines, Physical, FirstNewline;
    CountNothing();
    NothingPhysical();
    if text != "" {
      var line, rest := FirstLine(text);
      PhysicalStep(line, rest);
      CountAfterLine(line, rest);
      assert line + ("\n" + rest) == line + "\n" + rest;
      LinesAreNewlines(rest);
    }
  }

  lemma NothingPhysical()
    ensures Physical("") == []
  {
  }

  lemma FirstLine(text: string) returns (line: string, rest: string)
    requires text != "" && text[|text| - 1] == '\n'
    ensures text == line + "\n" + rest && '\n' !in line
    ensures rest != "" ==> rest[|rest| - 1] == '\n'
  {
    hide FirstNewline;
    var n := FirstNewline(text);
    assert text[|text| - 1] in text;
    assert text == text[..|text|];
    line, rest := text[..n], text[n + 1..];
    assert text == line + "\n" + rest;
    assert rest != "" ==> rest[|rest| - 1] == text[|text| - 1];
  }

  lemma CountAfterLine(line: string, rest: string)
    requires '\n' !in line
    ensures CountNewlines(line + ("\n" + rest)) == 1 + CountNewlines(rest)
  {
    CountNewlinesAppends(line, "\n" + rest);
    CountNewlinesIsZero(line);
    assert ("\n" + rest)[1..] == rest;
  }

  lemma {:induction false} NewlinesOfSerialized(lines: seq<string>, i: nat)
    ensures CountNewlines(Serialized(lines)) >= |lines|
    ensures i < |lines| && '\n' in lines[i] ==> CountNewlines(Serialized(lines)) > |lines|
    ensures lines != [] ==> Serialized(lines) != "" && Serialized(lines)[|Serialized(lines)| - 1] == '\n'
  {
    if lines != [] {
      var tail := Serialized(lines[1..]);
      NewlinesOfSerialized(lines[1..], if i > 0 then i - 1 else 0);
      CountNewlinesAppends(lines[0] + "\n", tail);
      CountNewlinesAppends(lines[0], "\n");
      CountNewlinesIsZero(lines[0]);
      assert "\n"[1..] == "";
    }
  }

  /** Exactly the buffers of clean lines come back unchanged. */
  lemma RoundTripIff(lines: seq<string>)
    ensures Opened(Serialized(lines)) == Some(lines) <==> AllClean(lines)
  {
    var text := Serialized(lines);
    if i :| 0 <= i < |lines| && '\n' in lines[i] {
      NewlinesOfSerialized(lines, i);
      LinesAreNewlines(text);
      assert |Physical(text)| > |lines|;
    } else {
      PhysicalOfSerialized(lines);
      if AllClean(lines) {
        assert Stripped(lines) == lines;
      }
      if Opened(text) == Some(lines) {
        assert forall i :: 0 <= i < |lines| ==> lines[i] == Stripped(lines)[i];
        assert forall i :: 0 <= i < |lines| ==> lines[i] in lines;
      }
    }
  }

  // ---------- Serialising an opened text ----------

  /** Opening a text and serialising it again. */
  ghost function Normalized(text: string): string
    requires Readable(text)
  {
    Serialized(Opened(text).value)
  }

  lemma {:induction false} PhysicalIsNewlineFree(text: string)
    ensures forall i :: 0 <= i < |Physical(text)| ==> '\n' !in Physical(text)[i]
    decreases |text|
  {
    if text != "" {
      PhysicalIsNewlineFree(AfterLine(text));
    }
  }

  predicate EndsInTwoCRs(line: string) {
    |line| >= 2 && line[|line| - 1] == '\r' && line[|line| - 2] == '\r'
  }

  /** What is normalised can be read again, and its lines are the original ones less one CR each. */
  lemma LinesOfNormalized(text: string)
    requires Readable(text)
    ensures Readable(Normalized(text)) && Physical(Normalized(text)) == Stripped(Physical(text))
  {
    hide Physical, Stripped, Serialized;
    var raw := Physical(text);
    var once := Stripped(raw);
    PhysicalIsNewlineFree(text);
    PhysicalOfSerialized(once);
    forall l | l in once ensures |l| < MAX_SCAN_TOKEN_SIZE {
      var i :| 0 <= i < |once| && once[i] == l;
      assert raw[i] in raw;
    }
  }

  lemma StrippedTwice(raw: seq<string>)
    ensures Stripped(Stripped(raw)) == Stripped(raw) <==> forall i :: 0 <= i < |raw| ==> !EndsInTwoCRs(raw[i])
  {
    hide Stripped;
    var once := Stripped(raw);
    var twice := Stripped(once);
    forall i | 0 <= i < |raw| ensures twice[i] == once[i] <==> !EndsInTwoCRs(raw[i]) {
    }
    if forall i :: 0 <= i < |raw| ==> !EndsInTwoCRs(raw[i]) {
      assert twice == once;
    }
  }

  /** Normalising again changes nothing if and only if no line of the original text ends in two
      carriage returns: each pass drops one of them. */
  lemma IdempotentIff(text: string)
    requires Readable(text)
    ensures Readable(Normalized(text))
    ensures Normalized(Normalized(text)) == Normalized(text)
            <==> forall i :: 0 <= i < |Physical(text)| ==> !EndsInTwoCRs(Physical(text)[i])
  {
    hide Physical, Stripped, Serialized, EndsInTwoCRs;
    var once := Stripped(Physical(text));
    LinesOfNormalized(text);
    LinesOfNormalized(Normalized(text));
    assert Normalized(Normalized(text)) == Serialized(Stripped(once));
    assert Normalized(text) == Serialized(once);
    StrippedTwice(Physical(text));
  }

  /** A text on which serialising after opening is not idempotent. */
  lemma TwoCRsAreNotIdempotent()
    ensures var text := "%build\r\r\n"; Readable(text) && Normalized(text) == "%build\r\n"
                                        && Readable(Normalized(text)) && Normalized(Normalized(text)) == "%build\n"
  {
    hide Normalized, Readable, Physical;
    var twoCRs, oneCR := "%build\r\r", "%build\r";
    assert "%build\r\r\n" == twoCRs + "\n" + "" && "%build\r\n" == oneCR + "\n" + "";
    OneLine(twoCRs);
    OneLine(oneCR);
    assert DropCR(twoCRs) == oneCR by {
      assert twoCRs[..|twoCRs| - 1] == oneCR;
    }
    assert DropCR(oneCR) == "%build" by {
      assert oneCR[..|oneCR| - 1] == "%build";
    }
  }

  lemma OneLine(line: string)
    requires '\n' !in line && |line| < MAX_SCAN_TOKEN_SIZE
    ensures Readable(line + "\n" + "") && Normalized(line + "\n" + "") == DropCR(line) + "\n"
  {
    PhysicalStep(line, "");
    assert Physical("") == [];
    assert Physical(line + "\n" + "") == [line];
    assert Stripped([line]) == [DropCR(line)];
    var one := [DropCR(line)];
    assert one[1..] == [] && Serialized([]) == "";
    assert Serialized(one) == DropCR(line) + "\n" + "";
    assert DropCR(line) + "\n" + "" == DropCR(line) + "\n";
  }
}
