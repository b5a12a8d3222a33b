/** Go strings as sequences of chars, one char for each byte: byte order, sorting
    (sort.Strings), key enumeration (range over a map), joining and searching. */
module Strings {

  /** The byte-wise order Go's "<" uses on strings. */
  predicate Less(a: string, b: string) {
    b != [] && (a == [] || a[0] < b[0] || (a[0] == b[0] && Less(a[1..], b[1..])))
  }

  lemma {:induction false} LessIsAsymmetric(a: string, b: string)
    requires Less(a, b)
    ensures !Less(b, a) && a != b
  {
    if a != [] && a[0] == b[0] {
      LessIsAsymmetric(a[1..], b[1..]);
    }
  }

  lemma {:induction false} LessIsTransitive(a: string, b: string, c: string)
    requires Less(a, b) && Less(b, c)
    ensures Less(a, c)
  {
    if a != [] && a[0] == b[0] == c[0] {
      LessIsTransitive(a[1..], b[1..], c[1..]);
    }
  }

  lemma {:induction false} LessIsTotal(a: string, b: string)
    ensures Less(a, b) || a == b || Less(b, a)
  {
    if a != [] && b != [] && a[0] == b[0] {
      LessIsTotal(a[1..], b[1..]);
      assert a == [a[0]] + a[1..] && b == [b[0]] + b[1..];
    }
  }

  /** A common prefix does not affect the order. */
  lemma {:induction false} LessUnderPrefix(p: string, a: string, b: string)
    ensures Less(p + a, p + b) == Less(a, b)
  {
    if p == [] {
      assert p + a == a && p + b == b;
    } else {
      assert (p + a)[1..] == p[1..] + a && (p + b)[1..] == p[1..] + b;
      LessUnderPrefix(p[1..], a, b);
    }
  }

  ghost predicate Sorted(s: seq<string>) {
    forall i, j :: 0 <= i < j < |s| ==> !Less(s[j], s[i])
  }

  ghost predicate StrictlySorted(s: seq<string>) {
    forall i, j :: 0 <= i < j < |s| ==> Less(s[i], s[j])
  }

  ghost function Elements<T>(s: seq<T>): set<T> {
    set x | x in s
  }

  lemma ElementsSnoc<T>(s: seq<T>, x: T)
    ensures Elements(s + [x]) == Elements(s) + {x}
  {
  }

  ghost predicate NoDuplicates<T>(s: seq<T>) {
    forall i, j :: 0 <= i < j < |s| ==> s[i] != s[j]
  }

  function Insert(x: string, s: seq<string>): (r: seq<string>)
    requires Sorted(s)
    ensures Sorted(r) && multiset(r) == multiset{x} + multiset(s)
  {
    if s == [] then [x]
    else if !Less(s[0], x) then
      InsertFirst(x, s);
      [x] + s
    else
      var rest := Insert(x, s[1..]);
      InsertLater(x, s, rest);
      [s[0]] + rest
  }

  lemma InsertFirst(x: string, s: seq<string>)
    requires Sorted(s) && s != [] && !Less(s[0], x)
    ensures Sorted([x] + s)
  {
    forall j | 0 <= j < |s| ensures !Less(s[j], x) {
      if j > 0 {
        NotLessIsTransitive(s[j], s[0], x);
      }
    }
  }

  lemma InsertLater(x: string, s: seq<string>, rest: seq<string>)
    requires Sorted(s) && s != [] && Less(s[0], x) && Sorted(rest)
    requires multiset(rest) == multiset{x} + multiset(s[1..])
    ensures Sorted([s[0]] + rest)
    ensures multiset([s[0]] + rest) == multiset{x} + multiset(s)
  {
    assert s == [s[0]] + s[1..];
    forall j | 0 <= j < |rest| ensures !Less(rest[j], s[0]) {
      assert rest[j] in multiset(rest);
      if rest[j] == x {
        LessIsAsymmetric(s[0], x);
      } else {
        assert rest[j] in s[1..];
      }
    }
  }

  lemma NotLessIsTransitive(a: string, b: string, c: string)
    requires !Less(a, b) && !Less(b, c)
    ensures !Less(a, c)
  {
    LessIsTotal(a, b);
    LessIsTotal(b, c);
    if Less(a, c) {
      if a == b {
      } else {
        LessIsTransitive(b, a, c);
      }
    }
  }

  /** sort.Strings. */
  function SortStrings(s: seq<string>): (r: seq<string>)
    ensures Sorted(r) && multiset(r) == multiset(s)
  {
    if s == [] then []
    else
      assert s == [s[0]] + s[1..];
      Insert(s[0], SortStrings(s[1..]))
  }

  /** Sorting erases the order of its input: two sorted lists with the same elements are equal. */
  lemma {:induction false} SortedIsUnique(a: seq<string>, b: seq<string>)
    requires Sorted(a) && Sorted(b) && multiset(a) == multiset(b)
    ensures a == b
  {
    assert |a| == |multiset(a)| == |multiset(b)| == |b|;
    if a != [] {
      assert a[0] == b[0] by {
        assert a[0] in multiset(b) && b[0] in multiset(a);
        LessIsTotal(a[0], b[0]);
      }
      assert a == [a[0]] + a[1..] && b == [b[0]] + b[1..];
      assert multiset(a[1..]) == multiset(a) - multiset{a[0]};
      assert multiset(b[1..]) == multiset(b) - multiset{b[0]};
      SortedIsUnique(a[1..], b[1..]);
    }
  }

  /** The elements of a finite set in increasing order: what sorting the keys of a map yields. */
  ghost function Ascending(S: set<string>): (r: seq<string>)
    ensures Sorted(r) && multiset(r) == multiset(S)
  {
    if S == {} then []
    else
      var x :| x in S;
      Insert(x, Ascending(S - {x}))
  }

  lemma AscendingIsTheSortOf(S: set<string>, keys: seq<string>)
    requires multiset(keys) == multiset(S)
    ensures SortStrings(keys) == Ascending(S)
  {
    SortedIsUnique(SortStrings(keys), Ascending(S));
  }

  lemma AscendingProperties(S: set<string>)
    ensures StrictlySorted(Ascending(S)) && NoDuplicates(Ascending(S))
    ensures |Ascending(S)| == |S|
    ensures forall k :: k in S <==> k in Ascending(S)
  {
    var r := Ascending(S);
    forall k ensures k in S <==> k in r {
      assert k in multiset(S) <==> k in multiset(r);
    }
    assert |r| == |multiset(r)| == |multiset(S)|;
    MultisetSetNoDuplicates(S, r);
    forall i, j | 0 <= i < j < |r| ensures Less(r[i], r[j]) {
      LessIsTotal(r[i], r[j]);
    }
  }

  lemma MultisetSetNoDuplicates<T>(S: set<T>, r: seq<T>)
    requires multiset(r) == multiset(S)
    ensures NoDuplicates(r)
  {
    forall i, j | 0 <= i < j < |r| ensures r[i] != r[j] {
      if r[i] == r[j] {
        RepeatCounts(r, i, j);
      }
    }
  }

  lemma RepeatCounts<T>(r: seq<T>, i: nat, j: nat)
    requires i < j < |r| && r[i] == r[j]
    ensures multiset(r)[r[i]] >= 2
  {
    assert r == r[..j] + r[j..];
    assert r[i] in multiset(r[..j]) && r[j] in multiset(r[j..]);
  }

  lemma PermutationKeepsDistinct<T>(a: seq<T>, b: seq<T>)
    requires NoDuplicates(a) && multiset(a) == multiset(b)
    ensures NoDuplicates(b)
  {
    var S := set x | x in a;
    forall x ensures multiset(a)[x] == multiset(S)[x] {
      DistinctCountsOnce(a, x);
    }
    assert multiset(a) == multiset(S);
    MultisetSetNoDuplicates(S, b);
  }

  lemma {:induction false} DistinctCountsOnce<T>(a: seq<T>, x: T)
    requires NoDuplicates(a)
    ensures multiset(a)[x] == if x in a then 1 else 0
  {
    if a != [] {
      assert a == [a[0]] + a[1..];
      DistinctCountsOnce(a[1..], x);
    }
  }

  /** A list without repetitions, none of it seen before. */
  ghost predicate Fresh<T>(keys: seq<T>, seen: set<T>) {
    NoDuplicates(keys) && Elements(keys) !! seen
  }

  lemma FreshAppend<T>(a: seq<T>, b: seq<T>, seen: set<T>)
    ensures Fresh(a + b, seen) <==> Fresh(a, seen) && Fresh(b, seen + Elements(a))
    ensures Elements(a + b) == Elements(a) + Elements(b)
  {
    if Fresh(a + b, seen) {
      forall i, j | 0 <= i < j < |b| ensures b[i] != b[j] {
        assert (a + b)[|a| + i] == b[i] && (a + b)[|a| + j] == b[j];
      }
      forall i, j | 0 <= i < j < |a| ensures a[i] != a[j] {
        assert (a + b)[i] == a[i] && (a + b)[j] == a[j];
      }
      forall x | x in b ensures x !in seen + Elements(a) {
        var j :| 0 <= j < |b| && b[j] == x;
        assert (a + b)[|a| + j] == x;
        forall i | 0 <= i < |a| ensures a[i] != x {
          assert (a + b)[i] == a[i];
        }
      }
    }
    if Fresh(a, seen) && Fresh(b, seen + Elements(a)) {
      forall i, j | 0 <= i < j < |a + b| ensures (a + b)[i] != (a + b)[j] {
        if i < |a| <= j {
          assert a[i] in Elements(a) && b[j - |a|] in Elements(b);
        }
      }
    }
  }

  lemma NothingIsFresh<T>()
    ensures Fresh<T>([], {}) && Elements<T>([]) == {}
  {
  }

  lemma AlwaysFresh<T>(seen: set<T>)
    ensures Fresh([], seen) && Elements<T>([]) == {}
  {
  }

  lemma FreshFromNothing<T>(keys: seq<T>)
    ensures Fresh(keys, {}) <==> NoDuplicates(keys)
  {
  }

  /** "for key := range m": every key once, in an order the caller cannot rely on. */
  method CollectKeys(S: set<string>) returns (keys: seq<string>)
    ensures multiset(keys) == multiset(S)
  {
    keys := [];
    var rest := S;
    while rest != {}
      invariant rest <= S
      invariant multiset(keys) + multiset(rest) == multiset(S)
      decreases rest
    {
      var key :| key in rest;
      keys := keys + [key];
      rest := rest - {key};
    }
  }

  /** The position of the first newline, or the length when there is none. */
  function FirstNewline(s: string): (n: nat)
    ensures n <= |s| && '\n' !in s[..n]
    ensures n < |s| ==> s[n] == '\n'
  {
    if s == "" || s[0] == '\n' then 0
    else
      var n := 1 + FirstNewline(s[1..]);
      assert s[..n] == [s[0]] + s[1..][..n - 1];
      n
  }

  lemma {:induction false} FirstNewlineAt(line: string, rest: string)
    requires '\n' !in line
    ensures FirstNewline(line + "\n" + rest) == |line|
  {
    var s := line + "\n" + rest;
    if line != "" {
      assert s[1..] == line[1..] + "\n" + rest;
      FirstNewlineAt(line[1..], rest);
    }
  }

  /** strings.Contains. */
  predicate Contains(s: string, sub: string) {
    exists i :: 0 <= i <= |s| && OccursAt(s, sub, i)
  }

  predicate OccursAt(s: string, sub: string, i: int) {
    0 <= i <= |s| - |sub| && s[i..i + |sub|] == sub
  }

  predicate HasPrefix(s: string, p: string) {
    p <= s
  }

  predicate HasSuffix(s: string, p: string) {
    |p| <= |s| && s[|s| - |p|..] == p
  }

  /** strings.Join. */
  function Join(parts: seq<string>, sep: string): (joined: string)
    ensures parts == [] ==> joined == ""
  {
    if parts == [] then "" else if |parts| == 1 then parts[0] else parts[0] + sep + Join(parts[1..], sep)
  }

  /** strings.ToLower on ASCII letters. */
  function ToLower(s: string): (r: string)
    ensures |r| == |s|
  {
    if s == "" then "" else [if 'A' <= s[0] <= 'Z' then (s[0] as int + 32) as char else s[0]] + ToLower(s[1..])
  }

  /** The same character, or the two cases of one of the letters A (65) to Z (90), a (97) to z (122). */
  predicate SameLetter(c: char, d: char) {
    || c == d
    || (65 <= c as int <= 90 && d as int - c as int == 97 - 65)
    || (65 <= d as int <= 90 && c as int - d as int == 97 - 65)
  }

  /** strings.EqualFold on ASCII letters. */
  ghost predicate EqualFold(a: string, b: string) {
    |a| == |b| && forall i :: 0 <= i < |a| ==> SameLetter(a[i], b[i])
  }

  lemma {:induction false} ToLowerFolds(a: string, b: string)
    ensures ToLower(a) == ToLower(b) <==> EqualFold(a, b)
  {
    if a != "" && b != "" {
      var x, y := ToLower(a), ToLower(b);
      assert x == [x[0]] + x[1..] && y == [y[0]] + y[1..];
      assert x[1..] == ToLower(a[1..]) && y[1..] == ToLower(b[1..]);
      ToLowerFolds(a[1..], b[1..]);
      assert x[0] == y[0] <==> SameLetter(a[0], b[0]);
      FoldCons(a, b);
    }
  }

  lemma FoldCons(a: string, b: string)
    requires a != "" && b != ""
    ensures EqualFold(a, b) <==> SameLetter(a[0], b[0]) && EqualFold(a[1..], b[1..])
  {
    if SameLetter(a[0], b[0]) && EqualFold(a[1..], b[1..]) {
      forall i | 0 <= i < |a| ensures SameLetter(a[i], b[i]) {
        assert i > 0 ==> a[i] == a[1..][i - 1] && b[i] == b[1..][i - 1];
      }
    }
    if EqualFold(a, b) {
      assert forall i :: 0 <= i < |a| - 1 ==> a[1..][i] == a[i + 1] && b[1..][i] == b[i + 1];
    }
  }

  /** strings.TrimRight(s, "/"): the part of s before its final slashes. */
  function TrimSlashes(s: string): (r: string)
    ensures r <= s && (forall i :: |r| <= i < |s| ==> s[i] == '/')
    ensures r != "" ==> r[|r| - 1] != '/'
  {
    if s != "" && s[|s| - 1] == '/' then TrimSlashes(s[..|s| - 1]) else s
  }
}
