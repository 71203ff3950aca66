/** The emission scenarios of test/hub.js, worked out on the hub's specification. */
module HubScenarios {
  import opened Glob
  import Helpers
  import Unique
  import opened Hub

  /** Subscribing one well-formed message registers it and hands the subscriber back. */
  lemma SubscribeOne<S>(reg: Registry<S>, message: string, sub: S)
    requires IsMessageFormat(message)
    ensures SubscribeSpec(reg, Single(message), sub) == (Register(reg, message, sub), Success(sub))
  {
    assert [message][1..] == [] && [message][..1] == [message] && [message][..0] == [];
    assert ValidPrefixLength([message]) == 1;
    assert RegisterEach(reg, [message], sub) == Register(RegisterEach(reg, [], sub), message, sub);
  }

  /** A registry of two distinct well-formed patterns, one subscriber each. */
  lemma PairRegistryValid<S>(a: string, b: string, sa: S, sb: S)
    requires IsMessageFormat(a) && IsMessageFormat(b) && a != b
    ensures RegistryValid(Registry([a, b], map[a := [sa], b := [sb]]))
  {
    var reg := Registry([a, b], map[a := [sa], b := [sb]]);
    assert reg.subscribers.Keys == {a, b};
  }

  /** Subscribing one well-formed message that is not yet registered. */
  lemma SubscribeNew<S>(reg: Registry<S>, message: string, sub: S)
    requires IsMessageFormat(message) && message !in reg.subscribers
    ensures SubscribeSpec(reg, Single(message), sub).0 ==
      Registry(reg.patterns + [message], reg.subscribers[message := [sub]])
  {
    SubscribeOne(reg, message, sub);
  }

  /** `hub.subscribe('menu:*')` and then `hub.subscribe('menu:open', sub)` on a fresh hub. */
  lemma OverlappingRegistry<S>(sub: S)
    ensures var r1 := SubscribeSpec(Registry([], map[]), Single("menu:*"), sub).0;
      SubscribeSpec(r1, Single("menu:open"), sub).0 ==
        Registry(["menu:*", "menu:open"], map["menu:*" := [sub], "menu:open" := [sub]])
    ensures RegistryValid(Registry(["menu:*", "menu:open"], map["menu:*" := [sub], "menu:open" := [sub]]))
  {
    AcceptedMessageExamples();
    var r0: Registry<S> := Registry([], map[]);
    SubscribeNew(r0, "menu:*", sub);
    assert [] + ["menu:*"] == ["menu:*"];
    var r1 := Registry(["menu:*"], map["menu:*" := [sub]]);
    assert "menu:open" != "menu:*" by { assert "menu:open"[5] != "menu:*"[5]; }
    SubscribeNew(r1, "menu:open", sub);
    assert ["menu:*"] + ["menu:open"] == ["menu:*", "menu:open"];
    PairRegistryValid("menu:*", "menu:open", sub, sub);
  }

  lemma StarFreeMessages()
    ensures '*' !in "menu:open" && '*' !in "menu:close" && '*' !in "menu:click"
  {
  }

  /** An emission without `*` delivers to the recipients, in order. */
  lemma EmitStarFree<S, P>(reg: Registry<S>, message: string, payload: P)
    requires RegistryValid(reg) && '*' !in message
    ensures EmitSpec(reg, message, payload) == Success(Deliveries(Recipients(reg, message), message, payload))
  {
  }

  /** An emission without `*` that has no recipients delivers nothing. */
  lemma EmitToNoOne<S, P>(reg: Registry<S>, message: string, payload: P)
    requires RegistryValid(reg) && '*' !in message && Recipients(reg, message) == []
    ensures EmitSpec(reg, message, payload) == Success([])
  {
    EmitStarFree(reg, message, payload);
    assert Deliveries<S, P>([], message, payload) == [];
  }

  lemma SingleDelivery<S, P>(sub: S, message: string, payload: P)
    ensures Deliveries([sub], message, payload) == [Delivery(sub, message, payload)]
  {
  }

  /** The lists of two distinct keys gathered in order. */
  lemma GatherPair<S>(a: string, b: string, la: seq<S>, lb: seq<S>)
    requires a != b
    ensures Gather(map[a := la, b := lb], [a, b]) == la + lb
    ensures Gather(map[a := la, b := lb], [a]) == la
  {
    var m := map[a := la, b := lb];
    assert m[a] == la && m[b] == lb;
    assert [a, b][..1] == [a] && [a][..0] == [];
    assert Gather(m, [a]) == Gather(m, []) + la;
    assert [] + la == la;
  }

  lemma DedupRepeated<S>(x: S)
    ensures Unique.Dedup([x, x]) == [x] && Unique.Dedup([x]) == [x]
  {
    assert [x, x][..1] == [x] && [x][..0] == [];
  }

  /** Which registered patterns of a two-pattern registry match `m`. */
  lemma MatchingPair(a: string, b: string, m: string)
    ensures MatchingPatterns([a, b], m) ==
      (if Helpers.Matches(m, a) then [a] else []) + (if Helpers.Matches(m, b) then [b] else [])
  {
    assert [a, b][1..] == [b] && [b][1..] == [];
    var tail := if Helpers.Matches(m, b) then [b] else [];
    assert MatchingPatterns([b], m) == tail + MatchingPatterns([], m);
    assert tail + [] == tail;
  }

  /** Two patterns both matching `m`, the same subscriber under each: it is reached once. */
  lemma BothPatternsMatch<S>(a: string, b: string, sub: S, m: string)
    requires RegistryValid(Registry([a, b], map[a := [sub], b := [sub]]))
    requires a != b && Helpers.Matches(m, a) && Helpers.Matches(m, b)
    ensures Recipients(Registry([a, b], map[a := [sub], b := [sub]]), m) == [sub]
  {
    MatchingPair(a, b, m);
    GatherPair(a, b, [sub], [sub]);
    assert [sub] + [sub] == [sub, sub];
    DedupRepeated(sub);
  }

  /** Only the first of two patterns matches `m`: its subscriber alone is reached. */
  lemma FirstPatternMatches<S>(a: string, b: string, sa: S, sb: S, m: string)
    requires RegistryValid(Registry([a, b], map[a := [sa], b := [sb]]))
    requires a != b && Helpers.Matches(m, a) && !Helpers.Matches(m, b)
    ensures Recipients(Registry([a, b], map[a := [sa], b := [sb]]), m) == [sa]
  {
    MatchingPair(a, b, m);
    assert [a] + [] == [a];
    GatherPair(a, b, [sa], [sb]);
    DedupRepeated(sa);
  }

  /** Neither of two patterns matches `m`: no one is reached. */
  lemma NeitherPatternMatches<S>(a: string, b: string, sa: S, sb: S, m: string)
    requires RegistryValid(Registry([a, b], map[a := [sa], b := [sb]]))
    requires !Helpers.Matches(m, a) && !Helpers.Matches(m, b)
    ensures Recipients(Registry([a, b], map[a := [sa], b := [sb]]), m) == []
  {
    MatchingPair(a, b, m);
    assert MatchingPatterns([a, b], m) == [];
  }

  /** Which of `menu:*` and `menu:open` match `menu:open` and `menu:close`. */
  lemma OverlappingMatches()
    ensures Helpers.Matches("menu:open", "menu:*") && Helpers.Matches("menu:open", "menu:open")
    ensures Helpers.Matches("menu:close", "menu:*") && !Helpers.Matches("menu:close", "menu:open")
  {
    FillOneStar(WordRun, "menu:", "open", "");
    assert "menu:" + "open" + "" == "menu:open" && "menu:" + "*" + "" == "menu:*";
    FillOneStar(WordRun, "menu:", "close", "");
    assert "menu:" + "close" + "" == "menu:close";
    LiteralMatchesItself("menu:open", WordRun);
    LiteralMatchesExactly("menu:close", "menu:open", WordRun);
  }

  /** The distinct subscribers reached from `menu:*` and `menu:open`, one subscriber under both. */
  lemma OverlappingRecipients<S>(sub: S)
    ensures var reg := Registry(["menu:*", "menu:open"], map["menu:*" := [sub], "menu:open" := [sub]]);
      && RegistryValid(reg)
      && Recipients(reg, "menu:open") == [sub]
      && Recipients(reg, "menu:close") == [sub]
  {
    OverlappingRegistry(sub);
    OverlappingMatches();
    assert "menu:open" != "menu:*" by { assert "menu:open"[5] != "menu:*"[5]; }
    BothPatternsMatch("menu:*", "menu:open", sub, "menu:open");
    FirstPatternMatches("menu:*", "menu:open", sub, sub, "menu:close");
  }

  /** With one subscriber under both `menu:*` and `menu:open`, emitting `menu:open`
      reaches it once, and emitting `menu:close` reaches it once too: two calls in all. */
  lemma OverlappingPatternsDeliverOnce<S, P>(sub: S, open: P, close: P)
    ensures var reg := Registry(["menu:*", "menu:open"], map["menu:*" := [sub], "menu:open" := [sub]]);
      && RegistryValid(reg)
      && EmitSpec(reg, "menu:open", open) == Success([Delivery(sub, "menu:open", open)])
      && EmitSpec(reg, "menu:close", close) == Success([Delivery(sub, "menu:close", close)])
  {
    var reg := Registry(["menu:*", "menu:open"], map["menu:*" := [sub], "menu:open" := [sub]]);
    OverlappingRecipients(sub);
    StarFreeMessages();
    EmitStarFree(reg, "menu:open", open);
    EmitStarFree(reg, "menu:close", close);
    SingleDelivery(sub, "menu:open", open);
    SingleDelivery(sub, "menu:close", close);
  }

  /** Neither `menu:cl` nor `menu:close` matches `menu:click`. */
  lemma IsolatedMatches()
    ensures !Helpers.Matches("menu:click", "menu:cl") && !Helpers.Matches("menu:click", "menu:close")
  {
    LiteralMatchesExactly("menu:click", "menu:cl", WordRun);
    LiteralMatchesExactly("menu:click", "menu:close", WordRun);
  }

  /** `menu:cl` and `menu:close`, one subscriber each, form a valid registry. */
  lemma IsolatedRegistryValid<S>(sub1: S, sub2: S)
    ensures RegistryValid(Registry(["menu:cl", "menu:close"], map["menu:cl" := [sub1], "menu:close" := [sub2]]))
  {
    SegmentsFormMessage("menu", "cl");
    assert "menu" + ":" + "cl" == "menu:cl";
    SegmentsFormMessage("menu", "close");
    assert "menu" + ":" + "close" == "menu:close";
    assert "menu:cl" != "menu:close" by { assert |"menu:cl"| != |"menu:close"|; }
    PairRegistryValid("menu:cl", "menu:close", sub1, sub2);
  }

  /** Subscribers of `menu:cl` and `menu:close` receive nothing when `menu:click` is
      emitted: neither pattern matches it. */
  lemma NonMatchingPatternsReceiveNothing<S, P>(sub1: S, sub2: S, payload: P)
    ensures var reg := Registry(["menu:cl", "menu:close"], map["menu:cl" := [sub1], "menu:close" := [sub2]]);
      && RegistryValid(reg)
      && EmitSpec(reg, "menu:click", payload) == Success([])
  {
    var reg := Registry(["menu:cl", "menu:close"], map["menu:cl" := [sub1], "menu:close" := [sub2]]);
    IsolatedRegistryValid(sub1, sub2);
    IsolatedMatches();
    NeitherPatternMatches("menu:cl", "menu:close", sub1, sub2, "menu:click");
    StarFreeMessages();
    EmitToNoOne(reg, "menu:click", payload);
  }

  /** As written, the overlapping-patterns scenario of test/hub.js:212-226 delivers nothing:
      the first emission already throws. */
  lemma OverlappingPatternsAsWritten<S, P>(sub: S, open: P)
    ensures var reg := Registry(["menu:*", "menu:open"], map["menu:*" := [sub], "menu:open" := [sub]]);
      && RegistryValid(reg)
      && EmitAsWritten(reg, "menu:open", open) == Failure(UniqueIsNotAFunction)
  {
    OverlappingRegistry(sub);
    StarFreeMessages();
  }
}
