/** The languages of the four standard profiles, and the names they are written in. */
module StandardProfiles {
  import Order
  import opened Exprs
  import opened Profiles

  function Times(n: nat, kind: Symbol): (r: seq<Symbol>)
    ensures |r| == n
  {
    seq(n, i => kind)
  }

  /** Blocks of each rule's kind, of the lengths given. */
  function Spread(rules: seq<Rule>, ns: seq<nat>): seq<Symbol>
    requires |rules| == |ns|
  {
    if rules == [] then [] else Times(ns[0], rules[0].kind) + Spread(rules[1..], ns[1..])
  }

  predicate Allowed(r: Rule, n: nat) {
    match r.count
    case ZeroOrMore => true
    case OneOrMore => n >= 1
    case AtMostOne => n <= 1
    case Required => n == 1
  }

  predicate Counted(rules: seq<Rule>, ns: seq<nat>) {
    |ns| == |rules| && forall i | 0 <= i < |rules| :: Allowed(rules[i], ns[i])
  }

  lemma {:induction false} SpreadMatches(rules: seq<Rule>, ns: seq<nat>)
    requires Counted(rules, ns)
    ensures InLanguage(rules, Spread(rules, ns))
    decreases |rules|
  {
    if rules != [] {
      var body, n := Spread(rules, ns), ns[0];
      assert Counted(rules[1..], ns[1..]) by {
        assert forall i | 0 <= i < |rules[1..]| :: rules[1..][i] == rules[i + 1] && ns[1..][i] == ns[i + 1];
      }
      SpreadMatches(rules[1..], ns[1..]);
      assert body[..n] == Times(n, rules[0].kind) && body[n..] == Spread(rules[1..], ns[1..]);
      assert Profiles.Block(rules, body, n);
    }
  }

  lemma {:induction false} MatchesSpread(rules: seq<Rule>, body: seq<Symbol>) returns (ns: seq<nat>)
    requires InLanguage(rules, body)
    ensures Counted(rules, ns) && body == Spread(rules, ns)
    decreases |rules|
  {
    ns := [];
    if rules != [] {
      var n := FirstBlock(rules, body);
      var rest := MatchesSpread(rules[1..], body[n..]);
      ns := [n] + rest;
      assert ns[1..] == rest && body == body[..n] + body[n..];
      assert body[..n] == Times(n, rules[0].kind) by {
        forall i | 0 <= i < n ensures body[..n][i] == rules[0].kind { assert body[..n][i] in body[..n]; }
      }
      forall i | 0 < i < |rules| ensures rules[i] == rules[1..][i - 1] && ns[i] == rest[i - 1] {
      }
    }
  }

  lemma ThreeBlocks(a: Rule, b: Rule, c: Rule, ns: seq<nat>)
    requires |ns| == 3
    ensures Spread([a, b, c], ns) == Times(ns[0], a.kind) + (Times(ns[1], b.kind) + Times(ns[2], c.kind))
  {
    assert [a, b, c][1..] == [b, c] && [b, c][1..] == [c] && [c][1..] == [];
    assert Spread([c], ns[2..]) == Times(ns[2], c.kind) + [];
    assert ns[1..][1..] == ns[2..];
    assert Spread([b, c], ns[1..]) == Times(ns[1], b.kind) + Spread([c], ns[2..]);
  }

  lemma FourBlocks(a: Rule, b: Rule, c: Rule, d: Rule, ns: seq<nat>)
    requires |ns| == 4
    ensures Spread([a, b, c, d], ns) == Times(ns[0], a.kind) + (Times(ns[1], b.kind) + (Times(ns[2], c.kind) + Times(ns[3], d.kind)))
  {
    assert [a, b, c, d][1..] == [b, c, d];
    ThreeBlocks(b, c, d, ns[1..]);
  }

  ghost predicate IsBrief(body: seq<Symbol>, g: nat, f: nat, r: nat) {
    f >= 1 && r <= 1 && body == Times(g, Kind(Given)) + (Times(f, Kind(Frame)) + Times(r, Kind(Return)))
  }

  /** BRIEF: `Given* Frame+ Return?`. */
  lemma BriefLanguage(body: seq<Symbol>)
    ensures Matches(BriefSpec(), body) <==> exists g, f, r :: IsBrief(body, g, f, r)
  {
    hide Greedy, InLanguage, Kind, Spread, Bridge;
    var rules := BriefSpec().parts;
    BriefDistinct();
    GreedyIsExact(rules, body);
    if InLanguage(rules, body) {
      var ns := MatchesSpread(rules, body);
      ThreeBlocks(rules[0], rules[1], rules[2], ns);
      assert IsBrief(body, ns[0], ns[1], ns[2]);
    }
    if g, f, r :| IsBrief(body, g, f, r) {
      ThreeBlocks(rules[0], rules[1], rules[2], [g, f, r]);
      SpreadMatches(rules, [g, f, r]);
    }
  }

  lemma BriefDistinct()
    ensures DistinctKinds(BriefSpec().parts)
  {
    hide Kind, Bridge;
    AllKindsDiffer();
  }

  ghost predicate IsAsk(body: seq<Symbol>, call: Symbol, g: nat, f: nat, c: nat) {
    c >= 1 && body == Times(g, Kind(Given)) + (Times(f, Kind(Frame)) + (Times(c, call) + Times(1, Kind(Return))))
  }

  lemma AskShaped(rules: seq<Rule>, call: Symbol, body: seq<Symbol>)
    requires rules == [Rule(Kind(Given), ZeroOrMore), Rule(Kind(Frame), ZeroOrMore), Rule(call, OneOrMore), Rule(Kind(Return), Required)]
    requires DistinctKinds(rules)
    ensures Greedy(rules, body) <==> exists g, f, c :: IsAsk(body, call, g, f, c)
  {
    hide Greedy, InLanguage, Kind, Spread, Bridge, DistinctKinds;
    GreedyIsExact(rules, body);
    if InLanguage(rules, body) {
      var ns := MatchesSpread(rules, body);
      FourBlocks(rules[0], rules[1], rules[2], rules[3], ns);
      assert IsAsk(body, call, ns[0], ns[1], ns[2]);
    }
    if g, f, c :| IsAsk(body, call, g, f, c) {
      FourBlocks(rules[0], rules[1], rules[2], rules[3], [g, f, c, 1]);
      SpreadMatches(rules, [g, f, c, 1]);
    }
  }

  /** ASK: `Given* Frame* Call+ Return`. */
  lemma AskLanguage(body: seq<Symbol>)
    ensures Matches(AskSpec(), body) <==> exists g, f, c :: IsAsk(body, Kind(Part.Call), g, f, c)
  {
    hide Greedy, Kind, Bridge, DistinctKinds, IsAsk;
    AskDistinct();
    AskShaped(AskSpec().parts, Kind(Part.Call), body);
  }

  lemma LoomDistinct()
    ensures DistinctKinds(LoomSpec().parts)
  {
    hide Kind, Bridge;
    AllKindsDiffer();
  }

  /** LOOM: `Given* Frame* Weave+ Return`. */
  lemma LoomLanguage(body: seq<Symbol>)
    ensures Matches(LoomSpec(), body) <==> exists g, f, w :: IsAsk(body, Kind(Weave), g, f, w)
  {
    hide Greedy, Kind, Bridge, DistinctKinds, IsAsk;
    LoomDistinct();
    AskShaped(LoomSpec().parts, Kind(Weave), body);
  }

  /** COLLAB: any mixture, but not nothing, of six kinds. */
  lemma CollabLanguage(body: seq<Symbol>)
    ensures Matches(CollabSpec(), body) <==> body != [] && forall k | k in body ::
      k in {Kind(Review), Kind(Vote), Kind(Patch), Kind(Evidence), Kind(Receipt), Kind(Attest)}
  {
    hide Kind, Bridge;
  }

  function Letters(name: bytes): string {
    seq(|name|, i requires 0 <= i < |name| => name[i] as char)
  }

  /** Part kinds are these names in the `bridge` namespace. */
  lemma PartNames()
    ensures Letters(Name(Given)) == "Given" && Letters(Name(Frame)) == "Frame" && Letters(Name(Return)) == "Return"
    ensures Letters(Name(Part.Call)) == "Call" && Letters(Name(Weave)) == "Weave"
    ensures Letters(Name(Review)) == "Review" && Letters(Name(Vote)) == "Vote" && Letters(Name(Patch)) == "Patch"
  {
  }

  lemma OtherNames()
    ensures Letters(Name(Evidence)) == "Evidence" && Letters(Name(Receipt)) == "Receipt" && Letters(Name(Attest)) == "Attest"
    ensures Letters(Id(Brief)) == "BRIEF" && Letters(Id(Ask)) == "ASK" && Letters(Id(Loom)) == "LOOM" && Letters(Id(Collab)) == "COLLAB"
    ensures Letters(BridgeName()) == "bridge"
  {
  }

  /** Each spec has the id of its own profile, and names are in their namespace. */
  lemma StandardIds(p: Part)
    ensures Kind(p).namespace == Some(BridgeName()) && Kind(p).name == Name(p)
    ensures BriefSpec().id == Bridge(Id(Brief)) && AskSpec().id == Bridge(Id(Ask))
    ensures LoomSpec().id == Bridge(Id(Loom)) && CollabSpec().id == Bridge(Id(Collab))
  {
  }

  lemma BookIds(i: nat)
    requires i < 4
    ensures StandardBook()[i].id.name == Id([Ask, Brief, Collab, Loom][i])
  {
    hide Kind, Id;
  }

  lemma IdsOrdered(i: nat, j: nat)
    requires i < j < 4
    ensures var ids := [Id(Ask), Id(Brief), Id(Collab), Id(Loom)]; Order.Less(ids[i], ids[j])
  {
  }

  /** The book lists its specs in the byte order of their ids, as an ordered map does. */
  lemma BookOrdered(i: nat, j: nat)
    requires i < j < 4
    ensures Order.Less(StandardBook()[i].id.name, StandardBook()[j].id.name)
  {
    hide StandardBook, Id, Order.Less;
    BookIds(i);
    BookIds(j);
    IdsOrdered(i, j);
  }
}
