/** BRIDGE packet profiles: greedy matching against ordered part rules. */
module Profiles {
  import opened Exprs

  datatype Count = ZeroOrMore | OneOrMore | AtMostOne | Required

  datatype Rule = Rule(kind: Symbol, count: Count)

  /** Ordered rules, or alternatives accepted one or more times in any order. */
  datatype Spec = Spec(id: Symbol, parts: seq<Rule>, oneOrMoreOf: seq<Symbol>)

  predicate CountOk(c: Count, n: nat) {
    match c
    case ZeroOrMore => true
    case OneOrMore => n > 0
    case AtMostOne => n <= 1
    case Required => n == 1
  }

  // ---- the language of a rule list ----------------------------------------------------

  predicate AllOf(kind: Symbol, body: seq<Symbol>) {
    forall k | k in body :: k == kind
  }

  /** The body splits into one block for each rule, in order. */
  ghost predicate InLanguage(rules: seq<Rule>, body: seq<Symbol>)
    decreases |rules|
  {
    if rules == [] then body == []
    else exists n :: 0 <= n <= |body| && Block(rules, body, n)
  }

  ghost predicate Block(rules: seq<Rule>, body: seq<Symbol>, n: nat)
    requires rules != [] && n <= |body|
    decreases |rules|, 0
  {
    AllOf(rules[0].kind, body[..n]) && CountOk(rules[0].count, n) && InLanguage(rules[1..], body[n..])
  }

  /** The length of the leading run of one kind. */
  function Run(kind: Symbol, body: seq<Symbol>): (n: nat)
    ensures n <= |body|
  {
    if body == [] || body[0] != kind then 0 else 1 + Run(kind, body[1..])
  }

  lemma {:induction false} RunIsMaximal(kind: Symbol, body: seq<Symbol>)
    ensures AllOf(kind, body[..Run(kind, body)])
    ensures Run(kind, body) < |body| ==> body[Run(kind, body)] != kind
  {
    var n := Run(kind, body);
    if n > 0 {
      RunIsMaximal(kind, body[1..]);
      assert body[..n] == [body[0]] + body[1..][..n - 1];
    }
  }

  /** Every rule takes all it can. */
  predicate Greedy(rules: seq<Rule>, body: seq<Symbol>) {
    if rules == [] then body == [] else
      var n := Run(rules[0].kind, body);
      CountOk(rules[0].count, n) && Greedy(rules[1..], body[n..])
  }

  predicate DistinctKinds(rules: seq<Rule>) {
    forall i, j | 0 <= i < j < |rules| :: rules[i].kind != rules[j].kind
  }

  predicate HasKind(rules: seq<Rule>, kind: Symbol) {
    exists r :: r in rules && r.kind == kind
  }

  /** A body of the language uses only the rules' kinds. */
  lemma {:induction false} KindsOfLanguage(rules: seq<Rule>, body: seq<Symbol>)
    requires InLanguage(rules, body)
    ensures forall k | k in body :: HasKind(rules, k)
    decreases |rules|
  {
    if rules != [] {
      var n :| 0 <= n <= |body| && Block(rules, body, n);
      KindsOfLanguage(rules[1..], body[n..]);
      forall k | k in body ensures HasKind(rules, k) {
        if k in body[..n] {
          assert rules[0] in rules && rules[0].kind == k;
        } else {
          assert body == body[..n] + body[n..];
          var r :| r in rules[1..] && r.kind == k;
          assert r in rules;
        }
      }
    }
  }

  /** A rule that needs a part gets one. */
  lemma {:induction false} NeededPartPresent(rules: seq<Rule>, body: seq<Symbol>, i: nat)
    requires InLanguage(rules, body) && i < |rules|
    requires rules[i].count.OneOrMore? || rules[i].count.Required?
    ensures rules[i].kind in body
    decreases |rules|
  {
    var n :| 0 <= n <= |body| && Block(rules, body, n);
    assert body == body[..n] + body[n..];
    if i == 0 {
      assert body[..n][0] in body[..n];
    } else {
      NeededPartPresent(rules[1..], body[n..], i - 1);
    }
  }

  lemma FirstBlock(rules: seq<Rule>, body: seq<Symbol>) returns (n: nat)
    requires rules != [] && InLanguage(rules, body)
    ensures n <= |body| && Block(rules, body, n)
  {
    n :| 0 <= n <= |body| && Block(rules, body, n);
  }

  // ---- when greedy matching is exact ---------------------------------------------------

  /** A rule that an empty block satisfies. */
  predicate Nullable(r: Rule) {
    r.count.ZeroOrMore? || r.count.AtMostOne?
  }

  /** A rule that takes a block of any positive length. */
  predicate Unlimited(r: Rule) {
    r.count.ZeroOrMore? || r.count.OneOrMore?
  }

  /**
    * Whatever of its kind comes up in `rest` before a rule that needs a part
    * can be left empty, and the rule itself can take everything.
    */
  predicate TakesAll(r: Rule, rest: seq<Rule>)
    decreases |rest|
  {
    rest == [] ||
    ((rest[0].kind == r.kind ==> Unlimited(r) && Nullable(rest[0])) && (Nullable(rest[0]) ==> TakesAll(r, rest[1..])))
  }

  /** Every rule that does not follow a rule of its own kind takes all of its kind. */
  predicate SeparatedAfter(before: Option<Symbol>, rules: seq<Rule>)
    decreases |rules|
  {
    rules == [] ||
    ((before == Some(rules[0].kind) || TakesAll(rules[0], rules[1..])) && SeparatedAfter(Some(rules[0].kind), rules[1..]))
  }

  predicate Separated(rules: seq<Rule>) {
    SeparatedAfter(None, rules)
  }

  lemma CountZero(r: Rule)
    ensures CountOk(r.count, 0) <==> Nullable(r)
    ensures CountOk(r.count, 1)
    ensures forall n: nat | n >= 2 :: CountOk(r.count, n) <==> Unlimited(r)
  {
  }

  lemma AllOfAt(kind: Symbol, body: seq<Symbol>, m: nat, i: nat)
    requires i < m <= |body| && AllOf(kind, body[..m])
    ensures body[i] == kind
  {
    assert body[..m][i] in body[..m];
  }

  lemma BlockWithinRun(kind: Symbol, body: seq<Symbol>, m: nat)
    requires m <= |body| && AllOf(kind, body[..m])
    ensures m <= Run(kind, body)
  {
    var n := Run(kind, body);
    hide AllOf;
    RunIsMaximal(kind, body);
    if n < m { AllOfAt(kind, body, m, n); }
  }

  lemma RunAfter(kind: Symbol, body: seq<Symbol>, m: nat)
    requires m <= Run(kind, body)
    ensures Run(kind, body[m..]) == Run(kind, body) - m
    decreases m
  {
    if m == 0 {
      assert body[0..] == body;
    } else {
      RunAfter(kind, body[1..], m - 1);
      assert body[1..][m - 1..] == body[m..];
    }
  }

  lemma EmptyBlock(rules: seq<Rule>, body: seq<Symbol>)
    requires rules != [] && Nullable(rules[0]) && InLanguage(rules[1..], body)
    ensures InLanguage(rules, body)
  {
    assert body[0..] == body;
    assert Block(rules, body, 0);
  }

  lemma OneBlock(rules: seq<Rule>, body: seq<Symbol>)
    requires rules != [] && InLanguage(rules[1..], body)
    ensures InLanguage(rules, [rules[0].kind] + body)
  {
    var longer := [rules[0].kind] + body;
    assert longer[1..] == body && longer[..1] == [rules[0].kind];
    assert Block(rules, longer, 1);
  }

  /** What greedy matching accepts is in the language, whatever the rules. */
  lemma {:induction false} GreedyIsSound(rules: seq<Rule>, body: seq<Symbol>)
    requires Greedy(rules, body)
    ensures InLanguage(rules, body)
    decreases |rules|
  {
    if rules != [] {
      var n := Run(rules[0].kind, body);
      RunIsMaximal(rules[0].kind, body);
      GreedyIsSound(rules[1..], body[n..]);
      assert Block(rules, body, n);
    }
  }

  /** Leading parts of a kind that a rule takes all of can be taken from the rules after it. */
  lemma {:induction false} Absorb(r: Rule, rest: seq<Rule>, body: seq<Symbol>)
    requires TakesAll(r, rest) && InLanguage(rest, body) && Run(r.kind, body) > 0
    ensures Unlimited(r) && InLanguage(rest, body[Run(r.kind, body)..])
    decreases |rest|
  {
    var n := Run(r.kind, body);
    var q := FirstBlock(rest, body);
    CountZero(rest[0]);
    if rest[0].kind == r.kind {
      BlockWithinRun(r.kind, body, q);
      RunAfter(r.kind, body, q);
      if q < n {
        Absorb(r, rest[1..], body[q..]);
        assert body[q..][n - q..] == body[n..];
      }
    } else {
      if q > 0 { AllOfAt(rest[0].kind, body, q, 0); }
      assert body[0..] == body;
      Absorb(r, rest[1..], body);
    }
    EmptyBlock(rest, body[n..]);
  }

  /** Separated rules refuse nothing of the language. */
  lemma {:induction false} GreedyIsComplete(before: Option<Symbol>, rules: seq<Rule>, body: seq<Symbol>)
    requires SeparatedAfter(before, rules) && InLanguage(rules, body)
    requires body != [] ==> before != Some(body[0])
    ensures Greedy(rules, body)
    decreases |rules|
  {
    if rules != [] {
      var kind, n := rules[0].kind, Run(rules[0].kind, body);
      var m := FirstBlock(rules, body);
      BlockWithinRun(kind, body, m);
      RunAfter(kind, body, m);
      RunIsMaximal(kind, body);
      CountZero(rules[0]);
      if m < n {
        Absorb(rules[0], rules[1..], body[m..]);
        assert body[m..][n - m..] == body[n..];
      }
      GreedyIsComplete(Some(kind), rules[1..], body[n..]);
    }
  }

  /** One part for each rule that needs one. */
  function Least(rules: seq<Rule>): seq<Symbol> {
    if rules == [] then []
    else if Nullable(rules[0]) then Least(rules[1..])
    else [rules[0].kind] + Least(rules[1..])
  }

  lemma {:induction false} LeastInLanguage(rules: seq<Rule>)
    ensures InLanguage(rules, Least(rules))
    decreases |rules|
  {
    if rules != [] {
      LeastInLanguage(rules[1..]);
      if Nullable(rules[0]) { EmptyBlock(rules, Least(rules)); } else { OneBlock(rules, Least(rules[1..])); }
    }
  }

  lemma {:induction false} LeastIsLeast(rules: seq<Rule>, body: seq<Symbol>)
    requires InLanguage(rules, body)
    ensures |Least(rules)| <= |body|
    decreases |rules|
  {
    if rules != [] {
      var n := FirstBlock(rules, body);
      CountZero(rules[0]);
      LeastIsLeast(rules[1..], body[n..]);
    }
  }

  /** A later rule that needs, or could take, what the first one would swallow. */
  lemma {:induction false} Swallowed(r: Rule, rest: seq<Rule>) returns (tail: seq<Symbol>)
    requires !TakesAll(r, rest)
    ensures InLanguage(rest, [r.kind] + tail) && (Unlimited(r) ==> |tail| < |Least(rest)|)
    decreases |rest|
  {
    if rest[0].kind == r.kind && !(Unlimited(r) && Nullable(rest[0])) {
      tail := Least(rest[1..]);
      LeastInLanguage(rest[1..]);
      OneBlock(rest, tail);
    } else {
      tail := Swallowed(r, rest[1..]);
      EmptyBlock(rest, [r.kind] + tail);
    }
  }

  lemma SwallowedIsRefused(rules: seq<Rule>) returns (body: seq<Symbol>)
    requires rules != [] && !TakesAll(rules[0], rules[1..])
    ensures InLanguage(rules, body) && !Greedy(rules, body) && body != [] && body[0] == rules[0].kind
  {
    var r := rules[0];
    var tail := Swallowed(r, rules[1..]);
    var rest := [r.kind] + tail;
    body := [r.kind] + rest;
    OneBlock(rules, rest);
    assert body[1..] == rest && rest[0] == r.kind;
    var n := Run(r.kind, body);
    assert n == 1 + Run(r.kind, rest) && Run(r.kind, rest) >= 1;
    CountZero(r);
    if Greedy(rules, body) {
      GreedyIsSound(rules[1..], body[n..]);
      LeastIsLeast(rules[1..], body[n..]);
    }
  }

  /** Rules that are not separated refuse some body of the language. */
  lemma {:induction false} Refused(before: Option<Rule>, rules: seq<Rule>) returns (body: seq<Symbol>)
    requires !SeparatedAfter(if before.None? then None else Some(before.value.kind), rules)
    requires before.Some? ==> TakesAll(before.value, rules)
    ensures InLanguage(rules, body) && !Greedy(rules, body) && body != []
    ensures before.Some? ==> body[0] != before.value.kind
    decreases |rules|
  {
    var r := rules[0];
    if before.Some? && before.value.kind == r.kind {
      body := Refused(before, rules[1..]);
      EmptyBlock(rules, body);
      assert Run(r.kind, body) == 0 && body[0..] == body;
    } else if !TakesAll(r, rules[1..]) {
      body := SwallowedIsRefused(rules);
    } else {
      var rest := Refused(Some(r), rules[1..]);
      OneBlock(rules, rest);
      body := [r.kind] + rest;
      assert body[1..] == rest && Run(r.kind, rest) == 0;
      assert Run(r.kind, body) == 1;
    }
  }

  /** The cursor loop accepts the language of the rules, on every body, exactly when the rules are separated. */
  lemma GreedyExactly(rules: seq<Rule>)
    ensures (forall body :: Greedy(rules, body) <==> InLanguage(rules, body)) <==> Separated(rules)
  {
    hide Greedy, InLanguage, SeparatedAfter;
    forall body ensures Greedy(rules, body) ==> InLanguage(rules, body) {
      if Greedy(rules, body) { GreedyIsSound(rules, body); }
    }
    if Separated(rules) {
      forall body ensures InLanguage(rules, body) ==> Greedy(rules, body) {
        if InLanguage(rules, body) { GreedyIsComplete(None, rules, body); }
      }
    } else {
      var body := Refused(None, rules);
    }
  }

  lemma {:induction false} OtherKindsTaken(r: Rule, rest: seq<Rule>)
    requires forall i | 0 <= i < |rest| :: rest[i].kind != r.kind
    ensures TakesAll(r, rest)
  {
    if rest != [] {
      assert forall i | 0 <= i < |rest[1..]| :: rest[1..][i] == rest[i + 1];
      OtherKindsTaken(r, rest[1..]);
    }
  }

  lemma {:induction false} DistinctIsSeparated(before: Option<Symbol>, rules: seq<Rule>)
    requires DistinctKinds(rules)
    ensures SeparatedAfter(before, rules)
    decreases |rules|
  {
    if rules != [] {
      assert forall i | 0 <= i < |rules[1..]| :: rules[1..][i] == rules[i + 1];
      OtherKindsTaken(rules[0], rules[1..]);
      DistinctIsSeparated(Some(rules[0].kind), rules[1..]);
    }
  }

  /** With distinct kinds the cursor loop accepts exactly the language of the rules. */
  lemma GreedyIsExact(rules: seq<Rule>, body: seq<Symbol>)
    requires DistinctKinds(rules)
    ensures Greedy(rules, body) <==> InLanguage(rules, body)
  {
    hide Greedy, InLanguage, DistinctKinds;
    DistinctIsSeparated(None, rules);
    GreedyExactly(rules);
  }

  lemma SeparatedOne(x: Rule, before: Option<Symbol>)
    ensures SeparatedAfter(before, [x])
  {
  }

  lemma SeparatedTwo(x: Rule, y: Rule, before: Option<Symbol>)
    ensures TakesAll(x, [y]) <==> (x.kind == y.kind ==> Unlimited(x) && Nullable(y))
    ensures SeparatedAfter(before, [x, y]) <==> before == Some(x.kind) || TakesAll(x, [y])
  {
    assert [x, y][1..] == [y] && [y][1..] == [];
    SeparatedOne(y, Some(x.kind));
  }

  lemma SeparatedThree(x: Rule, y: Rule, z: Rule)
    ensures Separated([x, y, z]) <==> TakesAll(x, [y, z]) && (x.kind == y.kind || TakesAll(y, [z]))
    ensures TakesAll(x, [y, z]) <==> (x.kind == y.kind ==> Unlimited(x) && Nullable(y)) && (Nullable(y) ==> TakesAll(x, [z]))
  {
    assert [x, y, z][1..] == [y, z] && [y, z][1..] == [z];
    SeparatedTwo(y, z, Some(x.kind));
  }

  /** Kinds may repeat in separated rules, and rules that are not separated repeat one. */
  lemma RepeatedKinds(a: Symbol, b: Symbol)
    requires a != b
    ensures Separated([Rule(a, OneOrMore), Rule(a, ZeroOrMore)]) && Separated([Rule(a, ZeroOrMore), Rule(b, Required), Rule(a, Required)])
    ensures !Separated([Rule(a, ZeroOrMore), Rule(a, Required)]) && !Separated([Rule(a, AtMostOne), Rule(b, AtMostOne), Rule(a, AtMostOne)])
  {
    hide SeparatedAfter, TakesAll;
    SeparatedTwo(Rule(a, OneOrMore), Rule(a, ZeroOrMore), None);
    SeparatedTwo(Rule(a, ZeroOrMore), Rule(a, Required), None);
    SeparatedTwo(Rule(b, Required), Rule(a, Required), None);
    SeparatedTwo(Rule(a, AtMostOne), Rule(a, AtMostOne), None);
    SeparatedThree(Rule(a, ZeroOrMore), Rule(b, Required), Rule(a, Required));
    SeparatedThree(Rule(a, AtMostOne), Rule(b, AtMostOne), Rule(a, AtMostOne));
  }

  // ---- specs --------------------------------------------------------------------------

  predicate Matches(s: Spec, body: seq<Symbol>) {
    if s.oneOrMoreOf != [] then body != [] && forall k | k in body :: k in s.oneOrMoreOf
    else Greedy(s.parts, body)
  }

  lemma RunStep(kind: Symbol, body: seq<Symbol>, cursor: nat)
    requires cursor <= |body|
    ensures Run(kind, body[cursor..]) ==
      if cursor < |body| && body[cursor] == kind then 1 + Run(kind, body[cursor + 1..]) else 0
  {
    if cursor < |body| { assert body[cursor..][1..] == body[cursor + 1..]; }
  }

  lemma RuleStep(rules: seq<Rule>, i: nat, body: seq<Symbol>, start: nat, count: nat)
    requires i < |rules| && start + count <= |body| && Run(rules[i].kind, body[start..]) == count
    ensures Greedy(rules[i..], body[start..]) <==>
      CountOk(rules[i].count, count) && Greedy(rules[i + 1..], body[start + count..])
  {
    assert body[start..][count..] == body[start + count..] && rules[i..][1..] == rules[i + 1..];
  }

  lemma NoRules(body: seq<Symbol>)
    ensures Greedy([], body) <==> body == []
  {
  }

  /** The cursor loop over rules and parts. */
  method MatchesPacket(s: Spec, body: seq<Symbol>) returns (ok: bool)
    ensures ok <==> Matches(s, body)
  {
    hide Greedy, Run, CountOk;
    if s.oneOrMoreOf != [] {
      return body != [] && forall k | k in body :: k in s.oneOrMoreOf;
    }
    var rules := s.parts;
    var cursor, i := 0, 0;
    assert rules[0..] == rules && body[0..] == body;
    while i < |rules|
      invariant 0 <= i <= |rules| && 0 <= cursor <= |body|
      invariant Greedy(rules, body) <==> Greedy(rules[i..], body[cursor..])
    {
      var kind, count := rules[i].kind, 0;
      ghost var start := cursor;
      while cursor < |body| && body[cursor] == kind
        invariant start <= cursor == start + count <= |body|
        invariant Run(kind, body[start..]) == count + Run(kind, body[cursor..])
      {
        RunStep(kind, body, cursor);
        count := count + 1;
        cursor := cursor + 1;
      }
      RunStep(kind, body, cursor);
      RuleStep(rules, i, body, start, count);
      if !CountOk(rules[i].count, count) { return false; }
      i := i + 1;
    }
    assert rules[i..] == [];
    NoRules(body[cursor..]);
    return cursor == |body|;
  }

  // ---- the standard book ------------------------------------------------------------------

  datatype Part = Given | Frame | Return | Call | Weave | Review | Vote | Patch | Evidence | Receipt | Attest

  function Name(p: Part): (r: bytes)
    ensures IsAscii(r)
  {
    match p
    case Given => [71, 105, 118, 101, 110]
    case Frame => [70, 114, 97, 109, 101]
    case Return => [82, 101, 116, 117, 114, 110]
    case Call => [67, 97, 108, 108]
    case Weave => [87, 101, 97, 118, 101]
    case Review => [82, 101, 118, 105, 101, 119]
    case Vote => [86, 111, 116, 101]
    case Patch => [80, 97, 116, 99, 104]
    case Evidence => [69, 118, 105, 100, 101, 110, 99, 101]
    case Receipt => [82, 101, 99, 101, 105, 112, 116]
    case Attest => [65, 116, 116, 101, 115, 116]
  }

  datatype Profile = Brief | Ask | Loom | Collab

  function Id(p: Profile): (r: bytes)
    ensures IsAscii(r)
  {
    match p
    case Brief => [66, 82, 73, 69, 70]
    case Ask => [65, 83, 75]
    case Loom => [76, 79, 79, 77]
    case Collab => [67, 79, 76, 76, 65, 66]
  }

  function BridgeName(): (r: bytes)
    ensures IsAscii(r)
  {
    [98, 114, 105, 100, 103, 101]
  }

  function Bridge(name: bytes): Symbol
    requires IsAscii(name)
  {
    AsciiIsUtf8(name);
    AsciiIsUtf8(BridgeName());
    Symbol(Some(BridgeName()), name)
  }

  /** The part kind of a name in the `bridge` namespace. */
  function Kind(p: Part): Symbol {
    Bridge(Name(p))
  }

  lemma KindsDiffer(p: Part, q: Part)
    requires p != q
    ensures Kind(p) != Kind(q)
  {
    assert Name(p) != Name(q);
  }

  function BriefSpec(): Spec {
    Spec(Bridge(Id(Brief)), [Rule(Kind(Given), ZeroOrMore), Rule(Kind(Frame), OneOrMore), Rule(Kind(Return), AtMostOne)], [])
  }

  function AskSpec(): Spec {
    Spec(Bridge(Id(Ask)),
      [Rule(Kind(Given), ZeroOrMore), Rule(Kind(Frame), ZeroOrMore), Rule(Kind(Part.Call), OneOrMore), Rule(Kind(Return), Required)], [])
  }

  function LoomSpec(): Spec {
    Spec(Bridge(Id(Loom)),
      [Rule(Kind(Given), ZeroOrMore), Rule(Kind(Frame), ZeroOrMore), Rule(Kind(Weave), OneOrMore), Rule(Kind(Return), Required)], [])
  }

  function CollabSpec(): Spec {
    Spec(Bridge(Id(Collab)), [], [Kind(Review), Kind(Vote), Kind(Patch), Kind(Evidence), Kind(Receipt), Kind(Attest)])
  }

  /** What a match of an ordered profile contains, and what it does not. */
  lemma OrderedMatch(s: Spec, body: seq<Symbol>, needed: nat)
    requires s.oneOrMoreOf == [] && DistinctKinds(s.parts) && Matches(s, body)
    requires needed < |s.parts| && (s.parts[needed].count.OneOrMore? || s.parts[needed].count.Required?)
    ensures s.parts[needed].kind in body && forall k | k in body :: HasKind(s.parts, k)
  {
    GreedyIsExact(s.parts, body);
    KindsOfLanguage(s.parts, body);
    NeededPartPresent(s.parts, body, needed);
  }

  lemma AllKindsDiffer()
    ensures forall p, q :: Kind(p) == Kind(q) ==> p == q
  {
    forall p, q | Kind(p) == Kind(q) ensures p == q {
      if p != q { KindsDiffer(p, q); }
    }
  }

  lemma NoOtherKind(rules: seq<Rule>, kind: Symbol, body: seq<Symbol>)
    requires forall k | k in body :: HasKind(rules, k)
    requires forall i | 0 <= i < |rules| :: rules[i].kind != kind
    ensures kind !in body
  {
  }

  lemma BriefKinds(body: seq<Symbol>)
    requires Matches(BriefSpec(), body)
    ensures Kind(Frame) in body && Kind(Part.Call) !in body && Kind(Weave) !in body
  {
    hide Greedy, Kind, Matches, HasKind, Bridge;
    AllKindsDiffer();
    OrderedMatch(BriefSpec(), body, 1);
    NoOtherKind(BriefSpec().parts, Kind(Part.Call), body);
    NoOtherKind(BriefSpec().parts, Kind(Weave), body);
  }

  lemma AskDistinct()
    ensures DistinctKinds(AskSpec().parts)
  {
    hide Kind, Bridge;
    AllKindsDiffer();
  }

  lemma AskKinds(body: seq<Symbol>)
    requires Matches(AskSpec(), body)
    ensures Kind(Part.Call) in body && Kind(Weave) !in body
  {
    hide Greedy, Kind, Matches, HasKind, Bridge, DistinctKinds;
    AllKindsDiffer();
    AskDistinct();
    OrderedMatch(AskSpec(), body, 2);
    NoOtherKind(AskSpec().parts, Kind(Weave), body);
  }

  lemma LoomKinds(body: seq<Symbol>)
    requires Matches(LoomSpec(), body)
    ensures Kind(Weave) in body
  {
    hide Greedy, Kind, Matches, HasKind, Bridge;
    AllKindsDiffer();
    OrderedMatch(LoomSpec(), body, 2);
  }

  lemma NotCollab(p: Part)
    requires p in {Frame, Part.Call, Weave}
    ensures Kind(p) !in CollabSpec().oneOrMoreOf
  {
    hide Kind, Bridge;
    KindsDiffer(p, Review);
    KindsDiffer(p, Vote);
    KindsDiffer(p, Patch);
    KindsDiffer(p, Evidence);
    KindsDiffer(p, Receipt);
    KindsDiffer(p, Attest);
  }

  lemma CollabKinds(body: seq<Symbol>)
    requires Matches(CollabSpec(), body)
    ensures Kind(Frame) !in body && Kind(Part.Call) !in body && Kind(Weave) !in body
  {
    hide Kind, Bridge;
    NotCollab(Frame);
    NotCollab(Part.Call);
    NotCollab(Weave);
  }

  function StandardBook(): seq<Spec> {
    [AskSpec(), BriefSpec(), CollabSpec(), LoomSpec()]
  }

  /** The ids of the specs a body matches, in book order. */
  method MatchingProfiles(book: seq<Spec>, body: seq<Symbol>) returns (ids: seq<Symbol>)
    ensures ids == Matching(book, body)
  {
    ids := [];
    var i := 0;
    assert book[0..] == book;
    while i < |book|
      invariant 0 <= i <= |book| && ids + Matching(book[i..], body) == Matching(book, body)
    {
      assert book[i..][1..] == book[i + 1..];
      var ok := MatchesPacket(book[i], body);
      if ok {
        Assoc(ids, [book[i].id], Matching(book[i + 1..], body));
        ids := ids + [book[i].id];
      }
      i := i + 1;
    }
    assert ids + [] == ids;
  }

  function Matching(book: seq<Spec>, body: seq<Symbol>): seq<Symbol> {
    if book == [] then []
    else if Matches(book[0], body) then [book[0].id] + Matching(book[1..], body)
    else Matching(book[1..], body)
  }

  /** No body matches two of the four standard profiles. */
  lemma StandardProfilesExclusive(body: seq<Symbol>)
    ensures |Matching(StandardBook(), body)| <= 1
    ensures forall i, j | 0 <= i < j < 4 :: !(Matches(StandardBook()[i], body) && Matches(StandardBook()[j], body))
  {
    hide Matches, Kind, BriefSpec, AskSpec, LoomSpec, CollabSpec;
    if Matches(BriefSpec(), body) { BriefKinds(body); }
    if Matches(AskSpec(), body) { AskKinds(body); }
    if Matches(LoomSpec(), body) { LoomKinds(body); }
    if Matches(CollabSpec(), body) { CollabKinds(body); }
    AtMostOneOfFour(AskSpec(), BriefSpec(), CollabSpec(), LoomSpec(), body);
  }

  lemma AtMostOneOfFour(a: Spec, b: Spec, c: Spec, d: Spec, body: seq<Symbol>)
    requires forall i, j | 0 <= i < j < 4 :: !(Matches([a, b, c, d][i], body) && Matches([a, b, c, d][j], body))
    ensures |Matching([a, b, c, d], body)| <= 1
  {
    hide Matches;
    assert [a, b, c, d][1..] == [b, c, d] && [b, c, d][1..] == [c, d] && [c, d][1..] == [d] && [d][1..] == [];
    assert !(Matches([a, b, c, d][0], body) && Matches([a, b, c, d][1], body));
    assert !(Matches([a, b, c, d][0], body) && Matches([a, b, c, d][2], body));
    assert !(Matches([a, b, c, d][0], body) && Matches([a, b, c, d][3], body));
    assert !(Matches([a, b, c, d][1], body) && Matches([a, b, c, d][2], body));
    assert !(Matches([a, b, c, d][1], body) && Matches([a, b, c, d][3], body));
    assert !(Matches([a, b, c, d][2], body) && Matches([a, b, c, d][3], body));
    assert |Matching([d], body)| == if Matches(d, body) then 1 else 0;
    assert |Matching([c, d], body)| == (if Matches(c, body) then 1 else 0) + (if Matches(d, body) then 1 else 0);
  }
}
