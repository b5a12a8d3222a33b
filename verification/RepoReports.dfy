/** internal/repo/repocompare/diff.go: the status summary of a report, joined into one string and
    searched again. */
module RepoReports {
  import opened Strings

  datatype Status = MissingFromRight | AddedInRight | ArchitecturesDiffer | ContentDifferent | ContentComparisonSkipped

  function StatusText(s: Status): string {
    match s
    case MissingFromRight => "missing-from-right"
    case AddedInRight => "added-in-right"
    case ArchitecturesDiffer => "architectures-differ"
    case ContentDifferent => "content-different"
    case ContentComparisonSkipped => "content-comparison-skipped"
  }

  function StatusTexts(statuses: seq<Status>): (texts: seq<string>)
    ensures |texts| == |statuses| && forall i :: 0 <= i < |statuses| ==> texts[i] == StatusText(statuses[i])
  {
    seq(|statuses|, i requires 0 <= i < |statuses| => StatusText(statuses[i]))
  }

  function JoinStatuses(statuses: seq<Status>): string {
    Join(StatusTexts(statuses), ", ")
  }

  datatype PackageReport = PackageReport(name: string, summary: string, leftNEVRs: string, rightNEVRs: string)

  /** PackageReport.hasStatus: looks for the status between separators in the joined summary. */
  predicate HasStatus(summary: string, status: Status) {
    Contains(", " + summary + ", ", ", " + StatusText(status) + ", ")
  }

  /** ", x1, x2, ..., xn, ": what a joined list looks like between separators. */
  function Wrapped(parts: seq<string>): string {
    if parts == [] then ", " else ", " + parts[0] + Wrapped(parts[1..])
  }

  lemma {:induction false} WrappedIsJoined(parts: seq<string>)
    requires parts != []
    ensures ", " + Join(parts, ", ") + ", " == Wrapped(parts)
  {
    if |parts| == 1 {
      assert Wrapped(parts[1..]) == ", ";
      assert ", " + parts[0] + ", " == ", " + parts[0] + Wrapped(parts[1..]);
    } else {
      WrappedIsJoined(parts[1..]);
      var rest := Join(parts[1..], ", ");
      assert ", " + (parts[0] + ", " + rest) + ", " == ", " + parts[0] + (", " + rest + ", ");
    }
  }

  lemma {:induction false} MemberIsFound(parts: seq<string>, i: nat)
    requires i < |parts|
    ensures Contains(Wrapped(parts), ", " + parts[i] + ", ")
  {
    var pattern := ", " + parts[i] + ", ";
    var head, tail := ", " + parts[0], Wrapped(parts[1..]);
    if i == 0 {
      WrappedStarts(parts[1..]);
      assert Wrapped(parts)[..|pattern|] == pattern;
      assert OccursAt(Wrapped(parts), pattern, 0);
    } else {
      MemberIsFound(parts[1..], i - 1);
      var j :| 0 <= j <= |tail| && OccursAt(tail, pattern, j);
      assert Wrapped(parts) == head + tail;
      assert Wrapped(parts)[|head| + j..|head| + j + |pattern|] == tail[j..j + |pattern|];
      assert OccursAt(Wrapped(parts), pattern, |head| + j);
    }
  }

  lemma WrappedStarts(parts: seq<string>)
    ensures ", " <= Wrapped(parts)
  {
  }

  lemma {:induction false} FoundIsMember(parts: seq<string>, s: string, i: int)
    requires ',' !in s && s != "" && forall p :: p in parts ==> ',' !in p
    requires OccursAt(Wrapped(parts), ", " + s + ", ", i)
    ensures s in parts
  {
    hide OccursAt;
    if parts == [] {
      TooShort(s, i);
    } else {
      WrappedStarts(parts[1..]);
      if i == 0 {
        FoundAtHead(parts[0], Wrapped(parts[1..]), s);
      } else {
        FoundInTail(parts[0], Wrapped(parts[1..]), s, i);
        FoundIsMember(parts[1..], s, i - |parts[0]| - 2);
      }
    }
  }

  lemma TooShort(s: string, i: int)
    ensures !OccursAt(", ", ", " + s + ", ", i)
  {
    assert |", " + s + ", "| > |", "|;
  }

  /** A list element in front: the first comma after it ends both it and the pattern's name. */
  lemma FoundAtHead(x: string, tail: string, s: string)
    requires ',' !in x && ',' !in s && ", " <= tail
    requires OccursAt(", " + x + tail, ", " + s + ", ", 0)
    ensures x == s
  {
    var text, pattern := ", " + x + tail, ", " + s + ", ";
    assert text[..|pattern|] == pattern;
    assert forall k :: 0 <= k < |x| ==> text[k + 2] == x[k];
    assert forall k :: 0 <= k < |s| ==> pattern[k + 2] == s[k];
    assert text[|x| + 2] == tail[0] == ',' && pattern[|s| + 2] == ',';
    SameFirstComma(x, s, text, pattern);
  }

  lemma SameFirstComma(x: string, s: string, text: string, pattern: string)
    requires |text| > |x| + 2 && |pattern| == |s| + 4 <= |text| && forall k :: 0 <= k < |pattern| ==> text[k] == pattern[k]
    requires ',' !in x && ',' !in s
    requires (forall k :: 0 <= k < |x| ==> text[k + 2] == x[k]) && text[|x| + 2] == ','
    requires (forall k :: 0 <= k < |s| ==> pattern[k + 2] == s[k]) && pattern[|s| + 2] == ','
    ensures x == s
  {
    if |x| < |s| {
      NotACommaAt(s, |x|);
    } else if |s| < |x| {
      NotACommaAt(x, |s|);
    }
    assert forall k :: 0 <= k < |x| ==> x[k] == text[k + 2] == pattern[k + 2] == s[k];
  }

  lemma NotACommaAt(s: string, k: nat)
    requires ',' !in s && k < |s|
    ensures s[k] != ','
  {
  }

  /** A pattern that starts later starts at a comma, so not before the separator after x. */
  lemma FoundInTail(x: string, tail: string, s: string, i: int)
    requires ',' !in x && i != 0
    requires OccursAt(", " + x + tail, ", " + s + ", ", i)
    ensures i >= |x| + 2 && OccursAt(tail, ", " + s + ", ", i - |x| - 2)
  {
    var text, pattern := ", " + x + tail, ", " + s + ", ";
    assert text[i] == text[i..i + |pattern|][0] == pattern[0] == ',';
    assert text[1] == ' ';
    assert forall k :: 2 <= k < |x| + 2 ==> text[k] == x[k - 2] && x[k - 2] in x;
    assert i >= |x| + 2;
    assert text[|x| + 2..] == tail;
    var j := i - |x| - 2;
    assert tail[j..j + |pattern|] == text[i..i + |pattern|];
  }

  lemma StatusTextsAreDistinct(s: Status, t: Status)
    ensures StatusText(s) == StatusText(t) <==> s == t
    ensures ',' !in StatusText(s) && StatusText(s) != ""
  {
    assert |StatusText(MissingFromRight)| == 18 && |StatusText(AddedInRight)| == 14 && |StatusText(ArchitecturesDiffer)| == 20
        && |StatusText(ContentDifferent)| == 17 && |StatusText(ContentComparisonSkipped)| == 26;
  }

  /** Searching the joined summary is the same as looking in the list of statuses. */
  lemma HasStatusIffListed(statuses: seq<Status>, status: Status)
    requires statuses != []
    ensures HasStatus(JoinStatuses(statuses), status) <==> status in statuses
  {
    hide Wrapped, Join, Contains, StatusText;
    var texts, text := StatusTexts(statuses), StatusText(status);
    WrappedIsJoined(texts);
    StatusTextsAreDistinct(status, status);
    forall p | p in texts ensures ',' !in p {
      var i :| 0 <= i < |texts| && texts[i] == p;
      StatusTextsAreDistinct(statuses[i], status);
    }
    if status in statuses {
      var i :| 0 <= i < |statuses| && statuses[i] == status;
      MemberIsFound(texts, i);
    }
    if HasStatus(JoinStatuses(statuses), status) {
      FoundMember(texts, text);
      var i :| 0 <= i < |texts| && texts[i] == text;
      StatusTextsAreDistinct(statuses[i], status);
    }
  }

  lemma FoundMember(parts: seq<string>, s: string)
    requires s != "" && ',' !in s && forall p :: p in parts ==> ',' !in p
    requires Contains(Wrapped(parts), ", " + s + ", ")
    ensures s in parts
  {
    var i :| OccursAt(Wrapped(parts), ", " + s + ", ", i);
    FoundIsMember(parts, s, i);
  }
}
