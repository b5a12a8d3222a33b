/** internal/tmt/component.go: the hardware block of a plan, flattened into "path value" constraints. */
module Hardware {
  import opened Wrappers
  import opened Strings
  import opened Decimal

  /** A decoded JSON value; a number comes with its "%v" rendering, and null stands for the types the
      source does not handle. */
  datatype Json =
    | Map(entries: map<string, Json>)
    | List(items: seq<Json>)
    | Text(text: string)
    | Number(rendered: string)
    | Bool(flag: bool)
    | Null
  {
    predicate Scalar() {
      Text? || Number? || Bool?
    }
  }

  datatype HardwareError = BooleanGroup(key: string) | NoKey | Unsupported(prefix: string)

  // ---------- Paths ----------

  datatype Step = Key(key: string) | Index(index: nat)

  /** nextPrefix: one step further down. */
  function Onto(prefix: string, step: Step): string {
    match step
    case Key(key) => if prefix != "" then prefix + "." + key else key
    case Index(index) => prefix + "[" + Itoa(index) + "]"
  }

  function Render(prefix: string, path: seq<Step>): string
    decreases path
  {
    if path == [] then prefix else Render(Onto(prefix, path[0]), path[1..])
  }

  function Child(v: Json, step: Step): Option<Json> {
    match step
    case Key(key) => if v.Map? && key in v.entries then Some(v.entries[key]) else None
    case Index(index) => if v.List? && index < |v.items| then Some(v.items[index]) else None
  }

  /** The value a path leads to. */
  function At(v: Json, path: seq<Step>): Option<Json>
    decreases path
  {
    if path == [] then Some(v)
    else
      var child := Child(v, path[0]);
      if child.None? then None else At(child.value, path[1..])
  }

  /** What makes flattening fail at a value with a given rendered path. */
  predicate Rejected(path: string, v: Json) {
    || (v.Map? && ("and" in v.entries || "or" in v.entries))
    || v.Null?
    || (v.Scalar() && path == "")
  }

  ghost predicate RejectedAt(prefix: string, v: Json, path: seq<Step>) {
    At(v, path).Some? && Rejected(Render(prefix, path), At(v, path).value)
  }

  // ---------- Leaves in canonical order ----------

  datatype Leaf = Leaf(path: seq<Step>, value: Json)

  lemma MapChildIsSmaller(v: Json, key: string)
    requires v.Map? && key in v.entries
    ensures v.entries[key] < v
  {
  }

  ghost function KeySteps(keys: seq<string>): (steps: seq<Step>)
    ensures |steps| == |keys| && forall i :: 0 <= i < |keys| ==> steps[i] == Key(keys[i])
  {
    seq(|keys|, i requires 0 <= i < |keys| => Key(keys[i]))
  }

  /** The steps out of a value, a map's in increasing order of keys. */
  ghost function Steps(v: Json): (steps: seq<Step>)
    ensures forall i :: 0 <= i < |steps| ==> Child(v, steps[i]).Some?
  {
    match v
    case Map(entries) =>
      KeysAreChildren(v);
      KeySteps(Ascending(entries.Keys))
    case List(items) => seq(|items|, i requires 0 <= i < |items| => Index(i))
    case _ => []
  }

  lemma KeysAreChildren(v: Json)
    requires v.Map?
    ensures forall i :: 0 <= i < |Ascending(v.entries.Keys)| ==> Child(v, Key(Ascending(v.entries.Keys)[i])).Some?
  {
    hide Ascending;
    AscendingProperties(v.entries.Keys);
  }

  ghost function Under(step: Step, leaves: seq<Leaf>): (r: seq<Leaf>)
    ensures |r| == |leaves| && forall i :: 0 <= i < |r| ==> r[i] == Leaf([step] + leaves[i].path, leaves[i].value)
  {
    seq(|leaves|, i requires 0 <= i < |leaves| => Leaf([step] + leaves[i].path, leaves[i].value))
  }

  ghost function Leaves(v: Json): seq<Leaf>
    decreases v, 1, 0
  {
    if v.Map? || v.List? then LeavesUnder(v, |Steps(v)|) else [Leaf([], v)]
  }

  ghost function LeavesUnder(v: Json, n: nat): seq<Leaf>
    requires n <= |Steps(v)|
    decreases v, 0, n
  {
    if n == 0 then []
    else
      var step := Steps(v)[n - 1];
      ChildIsSmaller(v, step);
      LeavesUnder(v, n - 1) + Under(step, Leaves(Child(v, step).value))
  }

  lemma ChildIsSmaller(v: Json, step: Step)
    requires Child(v, step).Some?
    ensures Child(v, step).value < v
  {
    match step
    case Key(key) => MapChildIsSmaller(v, key);
    case Index(_) =>
  }

  function ConstraintFor(path: string, v: Json): string {
    match v
    case Text(text) => path + " " + text
    case Number(rendered) => path + " = " + rendered
    case Bool(flag) => path + " = " + (if flag then "true" else "false")
    case _ => ""
  }

  ghost function Constraints(prefix: string, leaves: seq<Leaf>): (r: seq<string>)
    ensures |r| == |leaves|
    ensures forall i :: 0 <= i < |r| ==> r[i] == ConstraintFor(Render(prefix, leaves[i].path), leaves[i].value)
  {
    seq(|leaves|, i requires 0 <= i < |leaves| => ConstraintFor(Render(prefix, leaves[i].path), leaves[i].value))
  }

  /** Nothing is rejected below the first n steps. */
  ghost predicate NoneRejected(prefix: string, v: Json, n: nat) {
    n <= |Steps(v)| && forall j, path :: 0 <= j < n ==> !RejectedAt(prefix, v, [Steps(v)[j]] + path)
  }

  // ---------- Flattening ----------

  /** One constraint for each leaf, in canonical order; fails exactly when some value at some depth is
      rejected. */
  method FlattenHardwareConstraints(prefix: string, value: Json) returns (r: Result<seq<string>, HardwareError>)
    ensures r.Failure? <==> exists path :: RejectedAt(prefix, value, path)
    ensures r.Success? ==> r.value == Constraints(prefix, Leaves(value))
    decreases value
  {
    hide Ascending, SortStrings, Steps, Leaves, LeavesUnder, Constraints, RejectedAt, Render, At, Under, Itoa, Less, Sorted, NoneRejected;
    match value
    case Map(entries) =>
      var keys: seq<string> := [];
      var rest := entries.Keys;
      while rest != {}
        invariant rest <= entries.Keys && multiset(keys) + multiset(rest) == multiset(entries.Keys)
        invariant "and" !in entries.Keys - rest && "or" !in entries.Keys - rest
        decreases rest
      {
        var key :| key in rest;
        if key == "and" || key == "or" {
          RejectedHere(prefix, value);
          return Failure(BooleanGroup(key));
        }
        keys := keys + [key];
        rest := rest - {key};
      }
      MapSteps(value, keys);
      keys := SortStrings(keys);
      var constraints: seq<string> := [];
      NothingUnder(prefix, value);
      for i := 0 to |keys|
        invariant constraints == Constraints(prefix, LeavesUnder(value, i))
        invariant NoneRejected(prefix, value, i)
      {
        var key := keys[i];
        MapChildIsSmaller(value, key);
        var nextPrefix := if prefix != "" then prefix + "." + key else key;
        assert nextPrefix == Onto(prefix, Steps(value)[i]);
        var child := FlattenHardwareConstraints(nextPrefix, entries[key]);
        if child.Failure? {
          RejectedChild(prefix, value, i, nextPrefix, entries[key]);
          return Failure(child.error);
        }
        StepAccepted(prefix, value, i, nextPrefix, entries[key]);
        LeavesStep(prefix, value, i);
        constraints := constraints + child.value;
      }
      AllSteps(prefix, value);
      r := Success(constraints);
    case List(items) =>
      var constraints: seq<string> := [];
      ListSteps(value);
      NothingUnder(prefix, value);
      for i := 0 to |items|
        invariant constraints == Constraints(prefix, LeavesUnder(value, i))
        invariant NoneRejected(prefix, value, i)
      {
        var nextPrefix := prefix + "[" + Itoa(i) + "]";
        assert nextPrefix == Onto(prefix, Steps(value)[i]);
        var child := FlattenHardwareConstraints(nextPrefix, items[i]);
        if child.Failure? {
          RejectedChild(prefix, value, i, nextPrefix, items[i]);
          return Failure(child.error);
        }
        StepAccepted(prefix, value, i, nextPrefix, items[i]);
        LeavesStep(prefix, value, i);
        constraints := constraints + child.value;
      }
      AllSteps(prefix, value);
      r := Success(constraints);
    case Text(text) =>
      ScalarLeaf(prefix, value);
      if prefix == "" {
        return Failure(NoKey);
      }
      r := Success([prefix + " " + text]);
    case Number(rendered) =>
      ScalarLeaf(prefix, value);
      if prefix == "" {
        return Failure(NoKey);
      }
      r := Success([prefix + " = " + rendered]);
    case Bool(flag) =>
      ScalarLeaf(prefix, value);
      if prefix == "" {
        return Failure(NoKey);
      }
      r := Success([prefix + " = " + (if flag then "true" else "false")]);
    case Null =>
      RejectedHere(prefix, value);
      r := Failure(Unsupported(prefix));
  }

  lemma RejectedHere(prefix: string, v: Json)
    requires Rejected(prefix, v)
    ensures exists path :: RejectedAt(prefix, v, path)
  {
    assert RejectedAt(prefix, v, []);
  }

  lemma MapSteps(v: Json, keys: seq<string>)
    requires v.Map? && multiset(keys) == multiset(v.entries.Keys)
    ensures var sorted := SortStrings(keys);
            && |Steps(v)| == |sorted|
            && forall i :: 0 <= i < |sorted| ==> Steps(v)[i] == Key(sorted[i]) && sorted[i] in v.entries
  {
    hide Ascending, SortStrings;
    AscendingIsTheSortOf(v.entries.Keys, keys);
    AscendingProperties(v.entries.Keys);
  }

  lemma ListSteps(v: Json)
    requires v.List?
    ensures |Steps(v)| == |v.items| && forall i :: 0 <= i < |v.items| ==> Steps(v)[i] == Index(i)
  {
  }

  lemma NothingUnder(prefix: string, v: Json)
    ensures Constraints(prefix, LeavesUnder(v, 0)) == [] && NoneRejected(prefix, v, 0)
  {
  }

  lemma RejectedBelow(prefix: string, v: Json, i: nat)
    requires i < |Steps(v)|
    ensures var step := Steps(v)[i];
            && Child(v, step).Some?
            && forall path :: RejectedAt(prefix, v, [step] + path) <==> RejectedAt(Onto(prefix, step), Child(v, step).value, path)
  {
    hide Rejected, Onto, Child;
    var step := Steps(v)[i];
    forall path ensures RejectedAt(prefix, v, [step] + path) <==> RejectedAt(Onto(prefix, step), Child(v, step).value, path) {
      assert ([step] + path)[1..] == path;
    }
  }

  lemma RejectedChild(prefix: string, v: Json, i: nat, next: string, child: Json)
    requires i < |Steps(v)|
    requires next == Onto(prefix, Steps(v)[i]) && Some(child) == Child(v, Steps(v)[i])
    requires exists path :: RejectedAt(next, child, path)
    ensures exists path :: RejectedAt(prefix, v, path)
  {
    hide RejectedAt, Steps, Onto, Child;
    RejectedBelow(prefix, v, i);
    var path :| RejectedAt(next, child, path);
    assert RejectedAt(prefix, v, [Steps(v)[i]] + path);
  }

  lemma StepAccepted(prefix: string, v: Json, i: nat, next: string, child: Json)
    requires i < |Steps(v)| && NoneRejected(prefix, v, i)
    requires next == Onto(prefix, Steps(v)[i]) && Some(child) == Child(v, Steps(v)[i])
    requires !exists path :: RejectedAt(next, child, path)
    ensures NoneRejected(prefix, v, i + 1)
  {
    hide RejectedAt, Steps, Onto, Child;
    RejectedBelow(prefix, v, i);
  }

  lemma LeavesStep(prefix: string, v: Json, i: nat)
    requires i < |Steps(v)|
    ensures var step := Steps(v)[i];
            && Child(v, step).Some?
            && Constraints(prefix, LeavesUnder(v, i + 1))
               == Constraints(prefix, LeavesUnder(v, i)) + Constraints(Onto(prefix, step), Leaves(Child(v, step).value))
  {
    hide Onto, Child, Leaves, ConstraintFor;
    var step := Steps(v)[i];
    var leaves := Leaves(Child(v, step).value);
    forall k | 0 <= k < |leaves|
      ensures Render(prefix, Under(step, leaves)[k].path) == Render(Onto(prefix, step), leaves[k].path)
    {
      assert ([step] + leaves[k].path)[1..] == leaves[k].path;
    }
  }

  /** A container is rejected at itself or below one of its steps. */
  lemma AllSteps(prefix: string, v: Json)
    requires v.Map? || v.List?
    requires !Rejected(prefix, v)
    requires NoneRejected(prefix, v, |Steps(v)|)
    ensures forall path :: !RejectedAt(prefix, v, path)
    ensures Leaves(v) == LeavesUnder(v, |Steps(v)|)
  {
    hide Rejected, LeavesUnder;
    forall path ensures !RejectedAt(prefix, v, path) {
      if path != [] && Child(v, path[0]).Some? {
        StepsAreChildren(v, path[0]);
        var j :| 0 <= j < |Steps(v)| && Steps(v)[j] == path[0];
        assert path == [Steps(v)[j]] + path[1..];
      }
    }
  }

  lemma StepsAreChildren(v: Json, step: Step)
    ensures step in Steps(v) <==> Child(v, step).Some?
  {
    hide Ascending;
    if Child(v, step).Some? {
      match step
      case Key(key) =>
        AscendingProperties(v.entries.Keys);
        var keys := Ascending(v.entries.Keys);
        var i :| 0 <= i < |keys| && keys[i] == key;
        assert Steps(v)[i] == step;
      case Index(index) =>
        assert Steps(v)[index] == step;
    }
  }

  lemma ScalarLeaf(prefix: string, v: Json)
    requires v.Scalar()
    ensures (exists path :: RejectedAt(prefix, v, path)) <==> prefix == ""
    ensures Constraints(prefix, Leaves(v)) == [ConstraintFor(prefix, v)]
  {
    forall path ensures RejectedAt(prefix, v, path) <==> path == [] && prefix == "" {
    }
    assert RejectedAt(prefix, v, []) <==> prefix == "";
    assert Render(prefix, []) == prefix;
  }

  // ---------- What the leaves are ----------

  /** Byte order on keys, numeric order on indices, lexicographic along the path. */
  predicate StepLess(a: Step, b: Step) {
    (a.Key? && b.Key? && Less(a.key, b.key)) || (a.Index? && b.Index? && a.index < b.index)
  }

  predicate PathLess(p: seq<Step>, q: seq<Step>)
    decreases p
  {
    p != [] && q != [] && (StepLess(p[0], q[0]) || (p[0] == q[0] && PathLess(p[1..], q[1..])))
  }

  lemma {:induction false} PathLessIsAsymmetric(p: seq<Step>, q: seq<Step>)
    requires PathLess(p, q)
    ensures !PathLess(q, p) && p != q
    decreases p
  {
    if p[0].Key? && q[0].Key? && Less(p[0].key, q[0].key) {
      LessIsAsymmetric(p[0].key, q[0].key);
    } else if p[0] == q[0] {
      if p[0].Key? {
        LessIsIrreflexive(p[0].key);
      }
      PathLessIsAsymmetric(p[1..], q[1..]);
    }
  }

  lemma LessIsIrreflexive(s: string)
    ensures !Less(s, s)
  {
    if Less(s, s) {
      LessIsAsymmetric(s, s);
    }
  }

  ghost predicate InOrder(leaves: seq<Leaf>) {
    forall i, j :: 0 <= i < j < |leaves| ==> PathLess(leaves[i].path, leaves[j].path)
  }

  /** Whether v has the given leaf: a value that is neither a map nor a list. */
  predicate HasLeaf(v: Json, leaf: Leaf) {
    At(v, leaf.path) == Some(leaf.value) && !leaf.value.Map? && !leaf.value.List?
  }

  /** The leaves, each once, in strictly increasing order of their paths. */
  lemma {:induction false} LeavesAreTheLeaves(v: Json)
    ensures InOrder(Leaves(v)) && forall leaf :: leaf in Leaves(v) <==> HasLeaf(v, leaf)
    decreases v, 1, 0
  {
    hide Steps, LeavesUnder, InOrder, Child, StepLess;
    if v.Map? || v.List? {
      LeavesUnderAreLeaves(v, |Steps(v)|);
      forall leaf ensures leaf in Leaves(v) <==> HasLeaf(v, leaf) {
        if HasLeaf(v, leaf) {
          StepsAreChildren(v, leaf.path[0]);
        }
      }
    } else {
      SingleLeaf(v);
    }
  }

  lemma SingleLeaf(v: Json)
    requires !v.Map? && !v.List?
    ensures InOrder(Leaves(v)) && forall leaf :: leaf in Leaves(v) <==> HasLeaf(v, leaf)
  {
  }

  lemma {:induction false} LeavesUnderAreLeaves(v: Json, n: nat)
    requires n <= |Steps(v)| && (v.Map? || v.List?)
    ensures InOrder(LeavesUnder(v, n))
    ensures forall leaf :: leaf in LeavesUnder(v, n) <==> HasLeaf(v, leaf) && leaf.path != [] && leaf.path[0] in Steps(v)[..n]
    decreases v, 0, n
  {
    hide Steps, InOrder, Child, HasLeaf, Leaves, StepLess, PathLess;
    if n == 0 {
      NothingInOrder();
    } else {
      var step := Steps(v)[n - 1];
      ChildIsSmaller(v, step);
      var front, last := LeavesUnder(v, n - 1), Leaves(Child(v, step).value);
      LeavesUnderAreLeaves(v, n - 1);
      LeavesAreTheLeaves(Child(v, step).value);
      assert Steps(v)[..n] == Steps(v)[..n - 1] + [step];
      forall leaf ensures leaf in Under(step, last) <==> HasLeaf(v, leaf) && leaf.path != [] && leaf.path[0] == step {
        LeafUnder(v, step, last, leaf);
      }
      forall x | x in front ensures StepLess(x.path[0], step) {
        StepsIncrease(v, n - 1, x.path[0]);
      }
      AppendInOrder(front, step, last);
    }
  }

  lemma NothingInOrder()
    ensures InOrder([])
  {
  }

  lemma LeafUnder(v: Json, step: Step, leaves: seq<Leaf>, leaf: Leaf)
    requires Child(v, step).Some? && forall x :: x in leaves <==> HasLeaf(Child(v, step).value, x)
    ensures leaf in Under(step, leaves) <==> HasLeaf(v, leaf) && leaf.path != [] && leaf.path[0] == step
  {
    hide Child;
    if leaf in Under(step, leaves) {
      var i :| 0 <= i < |leaves| && Under(step, leaves)[i] == leaf;
      assert leaves[i] in leaves && leaf.path[1..] == leaves[i].path;
    }
    if HasLeaf(v, leaf) && leaf.path != [] && leaf.path[0] == step {
      var below := Leaf(leaf.path[1..], leaf.value);
      assert below in leaves;
      var i :| 0 <= i < |leaves| && leaves[i] == below;
      assert leaf.path == [step] + below.path;
      assert Under(step, leaves)[i] == leaf;
    }
  }

  lemma StepsIncrease(v: Json, n: nat, step: Step)
    requires n < |Steps(v)| && step in Steps(v)[..n]
    ensures StepLess(step, Steps(v)[n])
  {
    hide Ascending, Less;
    if v.Map? {
      AscendingProperties(v.entries.Keys);
    }
  }

  lemma AppendInOrder(front: seq<Leaf>, step: Step, leaves: seq<Leaf>)
    requires InOrder(front) && InOrder(leaves)
    requires forall x :: x in front ==> x.path != [] && StepLess(x.path[0], step)
    ensures InOrder(front + Under(step, leaves))
  {
    hide StepLess;
    var all := front + Under(step, leaves);
    forall i, j | 0 <= i < j < |all| ensures PathLess(all[i].path, all[j].path) {
      if j < |front| {
      } else {
        var y := leaves[j - |front|];
        assert all[j].path == [step] + y.path && all[j].path[1..] == y.path;
        if i < |front| {
          assert all[i] in front;
        } else {
          var x := leaves[i - |front|];
          assert all[i].path == [step] + x.path && all[i].path[1..] == x.path;
        }
      }
    }
  }

  // ---------- Rendered paths ----------

  predicate Special(c: char) {
    c == '.' || c == '[' || c == ']' || c == ' '
  }

  predicate Plain(s: string) {
    forall i :: 0 <= i < |s| ==> !Special(s[i])
  }

  /** A key that rendering keeps apart from its surroundings. */
  predicate CleanKey(key: string) {
    key != "" && Plain(key)
  }

  predicate CleanPath(path: seq<Step>) {
    forall step :: step in path && step.Key? ==> CleanKey(step.key)
  }

  /** The end of a constraint: nothing, or a space and a value. */
  predicate EndOrSpace(s: string) {
    s == "" || s[0] == ' '
  }

  /** A path rendered after a non-empty prefix and before x. */
  function Suffix(path: seq<Step>, x: string): string
    decreases path
  {
    if path == [] then x
    else
      match path[0]
      case Key(key) => "." + (key + Suffix(path[1..], x))
      case Index(index) => "[" + (Digits(index) + ("]" + Suffix(path[1..], x)))
  }

  lemma Regroup(a: string, b: string, c: string)
    ensures a + b + c == a + (b + c)
  {
  }

  lemma OntoThen(prefix: string, step: Step, rest: string)
    requires prefix != ""
    ensures Onto(prefix, step) + rest
         == prefix + (match step
                      case Key(key) => "." + (key + rest)
                      case Index(index) => "[" + (Digits(index) + ("]" + rest)))
  {
    hide Digits;
    match step
    case Key(key) =>
      Regroup(prefix + ".", key, rest);
      Regroup(prefix, ".", key + rest);
    case Index(index) =>
      Regroup(prefix + "[" + Digits(index), "]", rest);
      Regroup(prefix + "[", Digits(index), "]" + rest);
      Regroup(prefix, "[", Digits(index) + ("]" + rest));
  }

  lemma {:induction false} RenderIsSuffix(prefix: string, path: seq<Step>, x: string)
    requires prefix != ""
    ensures Render(prefix, path) + x == prefix + Suffix(path, x)
    decreases path
  {
    hide Digits, Itoa;
    if path != [] {
      OntoIsNonempty(prefix, path[0]);
      RenderIsSuffix(Onto(prefix, path[0]), path[1..], x);
      OntoThen(prefix, path[0], Suffix(path[1..], x));
    }
  }

  lemma OntoIsNonempty(prefix: string, step: Step)
    requires prefix != ""
    ensures Onto(prefix, step) != ""
  {
  }

  /** Nothing, or something that starts with a special character. */
  predicate Delimited(s: string) {
    s == "" || Special(s[0])
  }

  lemma DelimiterInside(a: string, x: string, b: string, y: string)
    requires Delimited(x) && a + x == b + y && |a| < |b|
    ensures !Plain(b)
  {
    hide Special;
    assert (a + x)[|a|] == x[0] && (b + y)[|a|] == b[|a|];
  }

  /** The plain part in front of a delimiter is determined. */
  lemma SplitAtSpecial(a: string, x: string, b: string, y: string)
    requires Plain(a) && Plain(b) && Delimited(x) && Delimited(y) && a + x == b + y
    ensures a == b && x == y
  {
    hide Plain, Delimited;
    if |a| < |b| {
      DelimiterInside(a, x, b, y);
    }
    if |b| < |a| {
      DelimiterInside(b, y, a, x);
    }
    assert a == (a + x)[..|a|] == (b + y)[..|b|] == b;
    assert x == (a + x)[|a|..] == (b + y)[|b|..] == y;
  }

  lemma SuffixStart(path: seq<Step>, x: string)
    requires EndOrSpace(x)
    ensures Delimited(Suffix(path, x))
    ensures path == [] ==> Suffix(path, x) == x
    ensures path != [] ==> Suffix(path, x) != "" && Suffix(path, x)[0] == if path[0].Key? then '.' else '['
  {
    hide Digits;
  }

  lemma DigitsArePlain(n: nat)
    ensures Plain(Digits(n))
  {
    hide Digits;
  }

  /** A clean path can be read back from its rendering, and so can what follows it. */
  lemma {:induction false} SuffixIsInjective(p: seq<Step>, x: string, q: seq<Step>, y: string)
    requires CleanPath(p) && CleanPath(q) && EndOrSpace(x) && EndOrSpace(y)
    requires Suffix(p, x) == Suffix(q, y)
    ensures p == q && x == y
    decreases p
  {
    hide Suffix, Special, Plain, Delimited, Digits, CleanPath;
    SuffixStart(p, x);
    SuffixStart(q, y);
    if p != [] && q != [] {
      FirstStepIsDetermined(p, x, q, y);
      SuffixIsInjective(p[1..], x, q[1..], y);
      assert p == [p[0]] + p[1..] && q == [q[0]] + q[1..];
    }
  }

  lemma FirstStepIsDetermined(p: seq<Step>, x: string, q: seq<Step>, y: string)
    requires CleanPath(p) && CleanPath(q) && EndOrSpace(x) && EndOrSpace(y) && p != [] && q != []
    requires Suffix(p, x) == Suffix(q, y) && p[0].Key? == q[0].Key?
    ensures p[0] == q[0] && Suffix(p[1..], x) == Suffix(q[1..], y)
    ensures CleanPath(p[1..]) && CleanPath(q[1..])
  {
    hide Special, Plain, Delimited, Digits;
    var s, t, ps, qs := Suffix(p, x), Suffix(q, y), Suffix(p[1..], x), Suffix(q[1..], y);
    assert p[0] in p && q[0] in q;
    SuffixStart(p[1..], x);
    SuffixStart(q[1..], y);
    if p[0].Key? {
      assert s[1..] == p[0].key + ps && t[1..] == q[0].key + qs;
      SplitAtSpecial(p[0].key, ps, q[0].key, qs);
    } else {
      assert s[1..] == Digits(p[0].index) + ("]" + ps) && t[1..] == Digits(q[0].index) + ("]" + qs);
      IndexIsDetermined(p[0].index, ps, q[0].index, qs);
    }
  }

  lemma IndexIsDetermined(m: nat, x: string, n: nat, y: string)
    requires Digits(m) + ("]" + x) == Digits(n) + ("]" + y)
    ensures m == n && x == y
  {
    hide Digits, Value;
    DigitsArePlain(m);
    DigitsArePlain(n);
    SplitAtSpecial(Digits(m), "]" + x, Digits(n), "]" + y);
    assert x == ("]" + x)[1..] && y == ("]" + y)[1..];
    ValueOfDigits(m);
    ValueOfDigits(n);
  }

  /** A path below a map: it starts with a key. */
  predicate UnderMap(path: seq<Step>) {
    path != [] && path[0].Key?
  }

  /** Rendering is injective on clean paths, even when a space and a value follow. */
  lemma RenderIsInjective(p: seq<Step>, x: string, q: seq<Step>, y: string)
    requires UnderMap(p) && UnderMap(q) && CleanPath(p) && CleanPath(q) && EndOrSpace(x) && EndOrSpace(y)
    requires Render("", p) + x == Render("", q) + y
    ensures p == q && x == y
  {
    hide Suffix, Special, Plain, Delimited, CleanPath, Render;
    RenderFromKey(p, x);
    RenderFromKey(q, y);
    SuffixStart(p[1..], x);
    SuffixStart(q[1..], y);
    SplitAtSpecial(p[0].key, Suffix(p[1..], x), q[0].key, Suffix(q[1..], y));
    SuffixIsInjective(p[1..], x, q[1..], y);
    assert p == [p[0]] + p[1..] && q == [q[0]] + q[1..];
  }

  lemma RenderFromKey(path: seq<Step>, x: string)
    requires UnderMap(path) && CleanPath(path)
    ensures Render("", path) + x == path[0].key + Suffix(path[1..], x)
    ensures CleanKey(path[0].key) && CleanPath(path[1..])
  {
    hide Suffix;
    assert path[0] in path;
    RenderIsSuffix(path[0].key, path[1..], x);
  }

  // ---------- Clean hardware blocks ----------

  /** Every key at any depth is clean. */
  ghost predicate Clean(v: Json) {
    forall path :: At(v, path).Some? ==> CleanPath(path)
  }

  lemma LeafPathUnderMap(v: Json, path: seq<Step>)
    requires v.Map? && At(v, path).Some? && path != []
    ensures UnderMap(path)
  {
  }

  /** The leaves of a clean block have pairwise distinct rendered paths, and so pairwise distinct
      constraints. */
  lemma CleanConstraintsAreDistinct(v: Json)
    requires v.Map? && Clean(v) && forall path :: !RejectedAt("", v, path)
    ensures NoDuplicates(Constraints("", Leaves(v)))
    ensures forall i, j :: 0 <= i < j < |Leaves(v)| ==>
              Render("", Leaves(v)[i].path) != Render("", Leaves(v)[j].path)
  {
    hide InOrder, Leaves, Render, Clean, Constraints, HasLeaf;
    LeavesAreTheLeaves(v);
    var leaves := Leaves(v);
    forall i, j | 0 <= i < j < |leaves|
      ensures Render("", leaves[i].path) != Render("", leaves[j].path)
      ensures Constraints("", leaves)[i] != Constraints("", leaves)[j]
    {
      LeafIsScalar(v, leaves[i]);
      LeafIsScalar(v, leaves[j]);
      InOrderIsDistinct(leaves, i, j);
      DistinctPaths(leaves[i], leaves[j]);
    }
  }

  lemma LeafIsScalar(v: Json, leaf: Leaf)
    requires v.Map? && Clean(v) && HasLeaf(v, leaf) && !RejectedAt("", v, leaf.path)
    ensures leaf.value.Scalar() && UnderMap(leaf.path) && CleanPath(leaf.path)
  {
    hide Render;
  }

  lemma InOrderIsDistinct(leaves: seq<Leaf>, i: nat, j: nat)
    requires InOrder(leaves) && i < j < |leaves|
    ensures leaves[i].path != leaves[j].path
  {
    PathLessIsAsymmetric(leaves[i].path, leaves[j].path);
  }

  function ValuePart(v: Json): string {
    match v
    case Text(text) => " " + text
    case Number(rendered) => " = " + rendered
    case Bool(flag) => " = " + (if flag then "true" else "false")
    case _ => ""
  }

  lemma ConstraintIsPathAndValue(path: string, v: Json)
    requires v.Scalar()
    ensures ConstraintFor(path, v) == path + ValuePart(v) && EndOrSpace(ValuePart(v))
  {
    match v
    case Text(text) => Regroup(path, " ", text);
    case Number(rendered) => Regroup(path, " = ", rendered);
    case Bool(flag) => Regroup(path, " = ", if flag then "true" else "false");
  }

  lemma DistinctPaths(a: Leaf, b: Leaf)
    requires a.value.Scalar() && b.value.Scalar() && a.path != b.path
    requires UnderMap(a.path) && UnderMap(b.path) && CleanPath(a.path) && CleanPath(b.path)
    ensures Render("", a.path) != Render("", b.path)
    ensures ConstraintFor(Render("", a.path), a.value) != ConstraintFor(Render("", b.path), b.value)
  {
    hide Render, CleanPath, ConstraintFor, ValuePart;
    var p, q := Render("", a.path), Render("", b.path);
    ConstraintIsPathAndValue(p, a.value);
    ConstraintIsPathAndValue(q, b.value);
    if p == q {
      assert p + "" == q + "";
      RenderIsInjective(a.path, "", b.path, "");
    }
    if p + ValuePart(a.value) == q + ValuePart(b.value) {
      RenderIsInjective(a.path, ValuePart(a.value), b.path, ValuePart(b.value));
    }
  }

  /** A boolean group or an unsupported value at some depth. */
  predicate Inexpressible(v: Json) {
    v.Null? || (v.Map? && ("and" in v.entries || "or" in v.entries))
  }

  /** In a clean block every leaf has a key, so only what the flat syntax cannot say is rejected. */
  lemma CleanRejection(v: Json, path: seq<Step>)
    requires v.Map? && Clean(v)
    ensures RejectedAt("", v, path) <==> At(v, path).Some? && Inexpressible(At(v, path).value)
  {
    hide Render, Clean, CleanPath;
    if At(v, path).Some? && path != [] {
      NonemptyRendering(v, path);
    }
  }

  lemma NonemptyRendering(v: Json, path: seq<Step>)
    requires v.Map? && Clean(v) && At(v, path).Some? && path != []
    ensures Render("", path) != ""
  {
    hide Render, Suffix, At;
    LeafPathUnderMap(v, path);
    RenderFromKey(path, "");
    assert Render("", path) + "" == Render("", path);
  }

  // ---------- Keys that are not clean ----------

  function Dotted(): Json {
    Map(map["a.b" := Text("1"), "a" := Map(map["b" := Text("1")])])
  }

  /** Keys with a dot render like nested keys: the block is accepted and one constraint comes twice. */
  lemma DottedKeysCollide()
    ensures forall path :: !RejectedAt("", Dotted(), path)
    ensures !NoDuplicates(Constraints("", Leaves(Dotted())))
  {
    hide Leaves, Constraints, InOrder, RejectedAt, Render, HasLeaf;
    forall path ensures !RejectedAt("", Dotted(), path) {
      DottedAccepted(path);
    }
    DottedLeaves();
    LeavesAreTheLeaves(Dotted());
    var one, other := Leaf([Key("a.b")], Text("1")), Leaf([Key("a"), Key("b")], Text("1"));
    SameConstraintTwice(Leaves(Dotted()), one, other);
  }

  lemma SameConstraintTwice(leaves: seq<Leaf>, one: Leaf, other: Leaf)
    requires one in leaves && other in leaves && one != other
    requires Render("", one.path) == Render("", other.path) && one.value == other.value
    ensures !NoDuplicates(Constraints("", leaves))
  {
    hide Render;
    var i :| 0 <= i < |leaves| && leaves[i] == one;
    var j :| 0 <= j < |leaves| && leaves[j] == other;
    assert Constraints("", leaves)[i] == Constraints("", leaves)[j];
  }

  lemma DottedLeaves()
    ensures var one, other := Leaf([Key("a.b")], Text("1")), Leaf([Key("a"), Key("b")], Text("1"));
            && one != other && HasLeaf(Dotted(), one) && HasLeaf(Dotted(), other)
            && Render("", one.path) == Render("", other.path)
  {
    var v := Dotted();
    assert "a" != "a.b" by {
      assert |"a"| == 1;
    }
    var path := [Key("a"), Key("b")];
    assert path[1..] == [Key("b")] && |path| != |[Key("a.b")]|;
    assert At(v, path) == At(Map(map["b" := Text("1")]), [Key("b")]) == At(Text("1"), []);
    assert Render("", path) == Render("a", [Key("b")]) == Render("a" + "." + "b", []);
    assert "a" + "." + "b" == "a.b";
    assert At(v, [Key("a.b")]) == At(Text("1"), []);
  }

  lemma DottedAccepted(path: seq<Step>)
    ensures !RejectedAt("", Dotted(), path)
  {
    hide Render;
    var inner := Map(map["b" := Text("1")]);
    DifferentKeys();
    if path != [] && At(Dotted(), path).Some? {
      assert path[0] == Key("a.b") || path[0] == Key("a");
      NoEmptyRendering(path);
      if path[0] == Key("a.b") {
        assert At(Dotted(), path) == At(Text("1"), path[1..]);
        OnlyText(path[1..]);
      } else {
        assert At(Dotted(), path) == At(inner, path[1..]);
        InnerAccepted(path[1..]);
      }
    }
  }

  lemma InnerAccepted(path: seq<Step>)
    requires At(Map(map["b" := Text("1")]), path).Some?
    ensures At(Map(map["b" := Text("1")]), path).value == if path == [] then Map(map["b" := Text("1")]) else Text("1")
  {
    if path != [] {
      assert path[0] == Key("b");
      assert At(Map(map["b" := Text("1")]), path) == At(Text("1"), path[1..]);
      OnlyText(path[1..]);
    }
  }

  lemma DifferentKeys()
    ensures "a.b" != "and" && "a.b" != "or" && "a" != "and" && "a" != "or" && "b" != "and" && "b" != "or"
  {
    assert "a.b"[1] == '.' && "and"[1] == 'n' && |"a"| == |"b"| == 1 && |"or"| == 2;
  }

  lemma OnlyText(path: seq<Step>)
    requires At(Text("1"), path).Some?
    ensures path == []
  {
  }

  lemma NoEmptyRendering(path: seq<Step>)
    requires path != [] && path[0].Key? && path[0].key != ""
    ensures Render("", path) != ""
  {
    hide Suffix;
    RenderIsSuffix(path[0].key, path[1..], "");
    assert Render("", path) + "" == Render("", path);
  }

  // ---------- Merging with the hard-coded firmware ----------

  const BOOT_METHOD := "boot.method "
  const UEFI := "boot.method = uefi"

  /** The constraints that are not about the boot method, in order. */
  function WithoutBootMethod(constraints: seq<string>): seq<string> {
    if constraints == [] then []
    else
      var last := constraints[|constraints| - 1];
      WithoutBootMethod(constraints[..|constraints| - 1]) + if HasPrefix(last, BOOT_METHOD) then [] else [last]
  }

  lemma {:induction false} NoBootMethodLeft(constraints: seq<string>)
    ensures forall c :: c in WithoutBootMethod(constraints) <==> c in constraints && !HasPrefix(c, BOOT_METHOD)
  {
    if constraints != [] {
      var front, last := constraints[..|constraints| - 1], constraints[|constraints| - 1];
      assert constraints == front + [last];
      NoBootMethodLeft(front);
    }
  }

  /** Exactly one argument is about the boot method, and it comes last; the other constraints keep their
      order. */
  method MergePlanHardwareArgs(hardware: map<string, Json>) returns (r: Result<seq<string>, HardwareError>)
    ensures r.Failure? <==> exists path :: RejectedAt("", Map(hardware), path)
    ensures r.Success? ==> r.value == WithoutBootMethod(Constraints("", Leaves(Map(hardware)))) + [UEFI]
    ensures r.Success? ==>
              forall i :: 0 <= i < |r.value| ==> (HasPrefix(r.value[i], BOOT_METHOD) <==> i == |r.value| - 1)
  {
    hide *;
    var constraints := FlattenHardwareConstraints("", Map(hardware));
    if constraints.Failure? {
      return Failure(constraints.error);
    }
    var args: seq<string> := [];
    NothingKept(constraints.value);
    for i := 0 to |constraints.value|
      invariant args == WithoutBootMethod(constraints.value[..i])
    {
      KeepStep(constraints.value, i);
      if HasPrefix(constraints.value[i], BOOT_METHOD) {
        continue;
      }
      args := args + [constraints.value[i]];
    }
    assert constraints.value[..|constraints.value|] == constraints.value;
    OnlyLastIsBootMethod(constraints.value);
    r := Success(args + [UEFI]);
  }

  lemma NothingKept(constraints: seq<string>)
    ensures WithoutBootMethod(constraints[..0]) == []
  {
  }

  lemma KeepStep(constraints: seq<string>, i: nat)
    requires i < |constraints|
    ensures WithoutBootMethod(constraints[..i + 1])
         == if HasPrefix(constraints[i], BOOT_METHOD) then WithoutBootMethod(constraints[..i])
            else WithoutBootMethod(constraints[..i]) + [constraints[i]]
  {
    hide HasPrefix;
    assert constraints[..i + 1][..i] == constraints[..i];
  }

  lemma OnlyLastIsBootMethod(constraints: seq<string>)
    ensures var args := WithoutBootMethod(constraints) + [UEFI];
            forall i :: 0 <= i < |args| ==> (HasPrefix(args[i], BOOT_METHOD) <==> i == |args| - 1)
  {
    hide HasPrefix, WithoutBootMethod;
    NoBootMethodLeft(constraints);
    UefiIsBootMethod();
    var kept := WithoutBootMethod(constraints);
    assert forall i :: 0 <= i < |kept| ==> kept[i] in kept;
  }

  lemma UefiIsBootMethod()
    ensures HasPrefix(UEFI, BOOT_METHOD)
  {
  }

  /** In a clean block, what is dropped is exactly the constraint on the path boot.method. */
  lemma OnlyBootMethodIsDropped(v: Json, leaf: Leaf)
    requires v.Map? && Clean(v) && HasLeaf(v, leaf) && !RejectedAt("", v, leaf.path)
    ensures HasPrefix(ConstraintFor(Render("", leaf.path), leaf.value), BOOT_METHOD)
       <==> leaf.path == [Key("boot"), Key("method")]
  {
    hide Render, ConstraintFor, Clean, CleanPath, At, ValuePart;
    LeafIsScalar(v, leaf);
    var boot := [Key("boot"), Key("method")];
    BootMethodPath();
    var p := Render("", leaf.path);
    ConstraintIsPathAndValue(p, leaf.value);
    ValuePartStarts(leaf.value);
    var constraint := p + ValuePart(leaf.value);
    if HasPrefix(constraint, BOOT_METHOD) {
      var rest := constraint[|BOOT_METHOD|..];
      assert constraint == Render("", boot) + (" " + rest) by {
        assert constraint == "boot.method" + " " + rest;
        Regroup("boot.method", " ", rest);
      }
      RenderIsInjective(leaf.path, ValuePart(leaf.value), boot, " " + rest);
    }
    if leaf.path == boot {
      assert constraint[..|BOOT_METHOD|] == BOOT_METHOD;
    }
  }

  lemma ValuePartStarts(v: Json)
    requires v.Scalar()
    ensures ValuePart(v) != "" && ValuePart(v)[0] == ' '
  {
  }

  lemma BootMethodPath()
    ensures Render("", [Key("boot"), Key("method")]) == "boot.method"
    ensures CleanPath([Key("boot"), Key("method")]) && UnderMap([Key("boot"), Key("method")])
  {
    var path := [Key("boot"), Key("method")];
    assert path[1..] == [Key("method")];
    assert Render("", path) == Render("boot", [Key("method")]) == Render("boot" + "." + "method", []);
    assert "boot" + "." + "method" == "boot.method";
  }
}
