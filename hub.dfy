/** The hub of src/hub.js: a registry from message patterns to subscriber lists, with
    `subscribe`, `emit` and `unsubscribe`. Subscribers are opaque identities of type `S`
    compared by `==` (JavaScript's `===` on objects); payloads are opaque values. */
module Hub {
  import opened Glob
  import Unique
  import Helpers

  datatype Option<T> = None | Some(value: T)

  /** What the hub throws. */
  datatype HubError =
    | NotAMessageList                     // `messages` is neither a string nor an array
    | MalformedMessage(message: string)   // a message is not of the form <module>:<signal>
    | WildcardInEmission                  // an emitted message contains `*`
    | UniqueIsNotAFunction                // calling the `unique` that src/hub.js:3 imports

  datatype Result<T> = Success(value: T) | Failure(error: HubError)

  /** The `messages` argument of `subscribe`: one string, an array of strings, or any
      other JavaScript value (undefined, a plain object, ...). */
  datatype Messages = Single(message: string) | Many(messages: seq<string>) | Neither

  /** A lone string is treated as a one-element array; anything else that is not an
      array is refused. */
  function MessageList(messages: Messages): (r: Option<seq<string>>)
    ensures r.None? <==> messages.Neither?
    ensures messages.Single? ==> r.value == [messages.message]
  {
    match messages
    case Single(m) => Some([m])
    case Many(ms) => Some(ms)
    case Neither => None
  }

  // ---------------------------------------------------------------------------------
  // The subscription grammar  (\w+|\w*\*):(\w+|\w*\*), anchored at both ends

  /** `\w+` or `\w*\*`: non-empty, word characters throughout except that the last
      character may be a `*`. */
  predicate IsSegment(x: string): (r: bool)
    ensures r ==> ':' !in x
  {
    && |x| > 0
    && (forall i :: 0 <= i < |x| - 1 ==> IsWordChar(x[i]))
    && (IsWordChar(x[|x| - 1]) || x[|x| - 1] == '*')
  }

  /** Two segments separated by a colon. */
  predicate IsMessageFormat(s: string): (r: bool)
    ensures r ==> exists i :: 0 < i < |s| - 1 && s[i] == ':' && ':' !in s[..i] && ':' !in s[i + 1..]
  {
    exists i :: 0 <= i < |s| && s[i] == ':' && IsSegment(s[..i]) && IsSegment(s[i + 1..])
  }

  /** The same grammar read character by character: one colon with something on each
      side, and every other character a word character, except that a `*` may stand
      right before the colon and at the very end. */
  ghost predicate CharwiseFormat(s: string) {
    exists i :: CharwiseAt(s, i)
  }

  /** The charwise reading of one colon position. */
  ghost predicate CharwiseAt(s: string, i: int) {
    0 < i < |s| - 1 && s[i] == ':' &&
      forall j :: 0 <= j < |s| && j != i ==>
        IsWordChar(s[j]) || (s[j] == '*' && (j == i - 1 || j == |s| - 1))
  }

  lemma SegmentsAreCharwise(s: string, i: int)
    requires 0 <= i < |s| && s[i] == ':' && IsSegment(s[..i]) && IsSegment(s[i + 1..])
    ensures CharwiseAt(s, i)
  {
    var left, right := s[..i], s[i + 1..];
    forall j | 0 <= j < |s| && j != i
      ensures IsWordChar(s[j]) || (s[j] == '*' && (j == i - 1 || j == |s| - 1))
    {
      if j < i {
        assert s[j] == left[j];
      } else {
        assert s[j] == right[j - i - 1];
      }
    }
  }

  lemma CharwiseAreSegments(s: string, i: int)
    requires CharwiseAt(s, i)
    ensures IsSegment(s[..i]) && IsSegment(s[i + 1..])
  {
    var left, right := s[..i], s[i + 1..];
    forall k | 0 <= k < |left| - 1 ensures IsWordChar(left[k]) {
      assert left[k] == s[k];
    }
    assert left[|left| - 1] == s[i - 1];
    forall k | 0 <= k < |right| - 1 ensures IsWordChar(right[k]) {
      assert right[k] == s[i + 1 + k];
    }
    assert right[|right| - 1] == s[|s| - 1];
  }

  lemma FormatIsCharwise(s: string)
    ensures IsMessageFormat(s) <==> CharwiseFormat(s)
  {
    if IsMessageFormat(s) {
      var i :| 0 <= i < |s| && s[i] == ':' && IsSegment(s[..i]) && IsSegment(s[i + 1..]);
      SegmentsAreCharwise(s, i);
    }
    if CharwiseFormat(s) {
      var i :| CharwiseAt(s, i);
      CharwiseAreSegments(s, i);
    }
  }

  /** Two segments joined by a colon always pass. */
  lemma SegmentsFormMessage(module_: string, signal: string)
    requires IsSegment(module_) && IsSegment(signal)
    ensures IsMessageFormat(module_ + ":" + signal)
  {
    var s := module_ + ":" + signal;
    var i := |module_|;
    assert s[..i] == module_ && s[i] == ':' && s[i + 1..] == signal;
  }

  /** A `*` must be the last character of its segment: one followed by anything but
      the colon is refused. */
  lemma StarMustEndSegment(s: string, j: nat)
    requires j + 1 < |s| && s[j] == '*' && s[j + 1] != ':'
    ensures !IsMessageFormat(s)
  {
    FormatIsCharwise(s);
    forall i | 0 < i < |s| - 1 && s[i] == ':'
      ensures exists k :: 0 <= k < |s| && k != i && !(IsWordChar(s[k]) || (s[k] == '*' && (k == i - 1 || k == |s| - 1)))
    {
      assert j != i && j != i - 1 && j != |s| - 1;
    }
  }

  /** Without a colon there is no <module>:<signal> split. */
  lemma ColonIsRequired(s: string)
    requires ':' !in s
    ensures !IsMessageFormat(s)
  {
  }

  /** test/hub.js: messages that `subscribe` refuses. */
  lemma RejectedMessageExamples()
    ensures !IsMessageFormat("mod**:signal")
    ensures !IsMessageFormat("m*dule:signal")
    ensures !IsMessageFormat("module:s*gnal")
    ensures !IsMessageFormat("module:s**")
    ensures !IsMessageFormat("just a plain string")
    ensures !IsMessageFormat("message1")
  {
    StarMustEndSegment("mod**:signal", 3);
    StarMustEndSegment("m*dule:signal", 1);
    StarMustEndSegment("module:s*gnal", 8);
    StarMustEndSegment("module:s**", 8);
    ColonIsRequired("just a plain string");
    ColonIsRequired("message1");
  }

  /** test/hub.js: messages that `subscribe` accepts. */
  lemma AcceptedMessageExamples()
    ensures IsMessageFormat("menu:*") && IsMessageFormat("*:*") && IsMessageFormat("menu:open")
  {
    SegmentsFormMessage("menu", "*");
    assert "menu" + ":" + "*" == "menu:*";
    SegmentsFormMessage("*", "*");
    assert "*" + ":" + "*" == "*:*";
    SegmentsFormMessage("menu", "open");
    assert "menu" + ":" + "open" == "menu:open";
  }

  // ---------------------------------------------------------------------------------
  // The registry `_subscribers`

  /** `_subscribers` with the order in which `Object.keys` lists its keys (insertion
      order: a key holding `:` is never an array index). */
  datatype Registry<S> = Registry(patterns: seq<string>, subscribers: map<string, seq<S>>)

  /** Keys listed once each, exactly the map's keys; every key a well-formed message;
      every subscriber list non-empty and free of repeated identities. */
  ghost predicate RegistryValid<S>(r: Registry<S>) {
    && (forall i, j :: 0 <= i < j < |r.patterns| ==> r.patterns[i] != r.patterns[j])
    && (forall p :: p in r.subscribers <==> p in r.patterns)
    && (forall p :: p in r.subscribers ==>
          IsMessageFormat(p) && r.subscribers[p] != [] && Unique.Distinct(r.subscribers[p]))
  }

  /** One turn of the registration loop: append `sub` to the message's list unless it is
      already there, or create the list `[sub]`. */
  function Register<S(==)>(reg: Registry<S>, message: string, sub: S): (r: Registry<S>)
    ensures r.subscribers.Keys == reg.subscribers.Keys + {message}
    ensures sub in r.subscribers[message]
  {
    if message in reg.subscribers then
      if sub in reg.subscribers[message] then reg
      else Registry(reg.patterns, reg.subscribers[message := reg.subscribers[message] + [sub]])
    else
      Registry(reg.patterns + [message], reg.subscribers[message := [sub]])
  }

  /** The registration loop run over `msgs` in order. */
  function RegisterEach<S(==)>(reg: Registry<S>, msgs: seq<string>, sub: S): (r: Registry<S>)
    ensures r.subscribers.Keys == reg.subscribers.Keys + (set m | m in msgs)
    decreases |msgs|
  {
    if msgs == [] then reg
    else Register(RegisterEach(reg, msgs[..|msgs| - 1], sub), msgs[|msgs| - 1], sub)
  }

  /** How many leading messages pass the format check before the first one that fails. */
  function ValidPrefixLength(msgs: seq<string>): (k: nat)
    ensures k <= |msgs|
    ensures forall j :: 0 <= j < k ==> IsMessageFormat(msgs[j])
    ensures k < |msgs| ==> !IsMessageFormat(msgs[k])
  {
    if msgs == [] || !IsMessageFormat(msgs[0]) then 0
    else 1 + ValidPrefixLength(msgs[1..])
  }

  /** The registration loop one message further. */
  lemma RegisterEachStep<S>(reg: Registry<S>, msgs: seq<string>, i: nat, sub: S)
    requires i < |msgs|
    ensures RegisterEach(reg, msgs[..i + 1], sub) == Register(RegisterEach(reg, msgs[..i], sub), msgs[i], sub)
  {
    assert msgs[..i + 1][..i] == msgs[..i];
  }

  /** `subscribe`: the new registry and the outcome. The check runs inside the loop, so
      the messages before the first malformed one stay registered. */
  function SubscribeSpec<S(==)>(reg: Registry<S>, messages: Messages, sub: S): (r: (Registry<S>, Result<S>))
    ensures reg.subscribers.Keys <= r.0.subscribers.Keys
    ensures r.1.Success? ==> r.1.value == sub
  {
    match MessageList(messages)
    case None => (reg, Failure(NotAMessageList))
    case Some(msgs) =>
      var k := ValidPrefixLength(msgs);
      (RegisterEach(reg, msgs[..k], sub),
       if k < |msgs| then Failure(MalformedMessage(msgs[k])) else Success(sub))
  }

  lemma RegisterKeepsValid<S>(reg: Registry<S>, message: string, sub: S)
    requires RegistryValid(reg) && IsMessageFormat(message)
    ensures RegistryValid(Register(reg, message, sub))
  {
    var r := Register(reg, message, sub);
    if message in reg.subscribers && sub !in reg.subscribers[message] {
      var l := reg.subscribers[message] + [sub];
      assert Unique.Distinct(l) by {
        forall i, j | 0 <= i < j < |l| ensures l[i] != l[j] {
          if j == |l| - 1 { assert l[i] in reg.subscribers[message]; }
        }
      }
    }
    if message !in reg.subscribers {
      assert message !in reg.patterns;
      assert forall p :: p in r.patterns <==> p in reg.patterns || p == message;
    }
  }

  /** After one registration `sub` occurs exactly once under `message`; a new message
      gets the list `[sub]` and is appended to the key order, an existing list gets `sub`
      at its end unless it already holds it; all other entries are unchanged. */
  lemma RegisterEffect<S>(reg: Registry<S>, message: string, sub: S)
    requires RegistryValid(reg)
    ensures var r := Register(reg, message, sub);
      && message in r.subscribers
      && multiset(r.subscribers[message])[sub] == 1
      && (message !in reg.subscribers ==>
            r.subscribers[message] == [sub] && r.patterns == reg.patterns + [message])
      && (message in reg.subscribers ==> r.patterns == reg.patterns)
      && (message in reg.subscribers && sub !in reg.subscribers[message] ==>
            r.subscribers[message] == reg.subscribers[message] + [sub])
      && (message in reg.subscribers && sub in reg.subscribers[message] ==> r == reg)
      && (forall p :: p != message ==>
            (p in r.subscribers <==> p in reg.subscribers) &&
            (p in reg.subscribers ==> r.subscribers[p] == reg.subscribers[p]))
  {
    var r := Register(reg, message, sub);
    var l := r.subscribers[message];
    if message in reg.subscribers && sub !in reg.subscribers[message] {
      var old_ := reg.subscribers[message];
      assert l == old_ + [sub];
      assert multiset(l)[sub] == multiset(old_)[sub] + 1;
      assert multiset(old_)[sub] == 0;
    } else if message in reg.subscribers {
      Unique.DistinctOccursOnce(l, sub);
    }
  }

  /** Registering the same subscriber under the same message twice changes nothing the
      second time. */
  lemma RegisterIsIdempotent<S>(reg: Registry<S>, message: string, sub: S)
    ensures Register(Register(reg, message, sub), message, sub) == Register(reg, message, sub)
  {
  }

  lemma {:induction false} RegisterEachKeepsValid<S>(reg: Registry<S>, msgs: seq<string>, sub: S)
    requires RegistryValid(reg)
    requires forall j :: 0 <= j < |msgs| ==> IsMessageFormat(msgs[j])
    ensures RegistryValid(RegisterEach(reg, msgs, sub))
    decreases |msgs|
  {
    if msgs != [] {
      RegisterEachKeepsValid(reg, msgs[..|msgs| - 1], sub);
      RegisterKeepsValid(RegisterEach(reg, msgs[..|msgs| - 1], sub), msgs[|msgs| - 1], sub);
    }
  }

  /** Every registered message ends up holding `sub`. */
  lemma {:induction false} RegisterEachContains<S>(reg: Registry<S>, msgs: seq<string>, sub: S)
    ensures var r := RegisterEach(reg, msgs, sub);
      forall j :: 0 <= j < |msgs| ==> msgs[j] in r.subscribers && sub in r.subscribers[msgs[j]]
    decreases |msgs|
  {
    if msgs != [] {
      var front := msgs[..|msgs| - 1];
      RegisterEachContains(reg, front, sub);
      var r0 := RegisterEach(reg, front, sub);
      var r := RegisterEach(reg, msgs, sub);
      forall j | 0 <= j < |msgs| ensures msgs[j] in r.subscribers && sub in r.subscribers[msgs[j]] {
        if j < |msgs| - 1 {
          assert msgs[j] == front[j];
          assert msgs[j] in r0.subscribers && sub in r0.subscribers[msgs[j]];
        }
      }
    }
  }

  /** Entries for messages that were not registered are untouched. */
  lemma {:induction false} RegisterEachLeavesOthers<S>(reg: Registry<S>, msgs: seq<string>, sub: S, p: string)
    requires p !in msgs
    ensures var r := RegisterEach(reg, msgs, sub);
      (p in r.subscribers <==> p in reg.subscribers) &&
      (p in reg.subscribers ==> r.subscribers[p] == reg.subscribers[p])
    decreases |msgs|
  {
    if msgs != [] {
      var front := msgs[..|msgs| - 1];
      assert p != msgs[|msgs| - 1];
      RegisterEachLeavesOthers(reg, front, sub, p);
    }
  }

  /** When every message already holds `sub`, registering them again changes nothing. */
  lemma {:induction false} RegisterEachOfRegistered<S>(reg: Registry<S>, msgs: seq<string>, sub: S)
    requires forall j :: 0 <= j < |msgs| ==> msgs[j] in reg.subscribers && sub in reg.subscribers[msgs[j]]
    ensures RegisterEach(reg, msgs, sub) == reg
    decreases |msgs|
  {
    if msgs != [] {
      var front := msgs[..|msgs| - 1];
      forall j | 0 <= j < |front| ensures front[j] in reg.subscribers && sub in reg.subscribers[front[j]] {
        assert front[j] == msgs[j];
      }
      RegisterEachOfRegistered(reg, front, sub);
    }
  }

  /** The outcome of `subscribe`: it fails on an argument that is not a string or an
      array, leaving the registry alone; it fails on the first malformed message; and
      otherwise it returns the subscriber handle it was given. */
  lemma SubscribeOutcome<S>(reg: Registry<S>, messages: Messages, sub: S)
    ensures var (r, outcome) := SubscribeSpec(reg, messages, sub);
      && (messages.Neither? ==> r == reg && outcome == Failure(NotAMessageList))
      && (outcome.Success? <==>
            !messages.Neither? && forall m :: m in MessageList(messages).value ==> IsMessageFormat(m))
      && (outcome.Success? ==> outcome.value == sub)
      && (outcome.Failure? && !messages.Neither? ==>
            var msgs := MessageList(messages).value;
            exists k :: 0 <= k < |msgs| && outcome.error == MalformedMessage(msgs[k]) &&
              !IsMessageFormat(msgs[k]) && forall j :: 0 <= j < k ==> IsMessageFormat(msgs[j]))
  {
    if !messages.Neither? {
      var msgs := MessageList(messages).value;
      var k := ValidPrefixLength(msgs);
      if k < |msgs| {
        assert msgs[k] in msgs;
      }
    }
  }

  /** What `subscribe` does to the registry: it stays valid; each message before the
      first malformed one holds `sub` exactly once; every other entry is unchanged. */
  lemma SubscribeRegisters<S>(reg: Registry<S>, messages: Messages, sub: S)
    requires RegistryValid(reg) && !messages.Neither?
    ensures var r := SubscribeSpec(reg, messages, sub).0;
      var msgs := MessageList(messages).value;
      var k := ValidPrefixLength(msgs);
      && RegistryValid(r)
      && (forall j :: 0 <= j < k ==> msgs[j] in r.subscribers && multiset(r.subscribers[msgs[j]])[sub] == 1)
      && (forall p :: p !in msgs[..k] ==>
            (p in r.subscribers <==> p in reg.subscribers) &&
            (p in reg.subscribers ==> r.subscribers[p] == reg.subscribers[p]))
  {
    var msgs := MessageList(messages).value;
    var k := ValidPrefixLength(msgs);
    var done := msgs[..k];
    var r := RegisterEach(reg, done, sub);
    RegisterEachKeepsValid(reg, done, sub);
    RegisterEachContains(reg, done, sub);
    forall j | 0 <= j < k ensures msgs[j] in r.subscribers && multiset(r.subscribers[msgs[j]])[sub] == 1 {
      assert done[j] == msgs[j];
      Unique.DistinctOccursOnce(r.subscribers[msgs[j]], sub);
    }
    forall p | p !in done
      ensures (p in r.subscribers <==> p in reg.subscribers) &&
              (p in reg.subscribers ==> r.subscribers[p] == reg.subscribers[p])
    {
      RegisterEachLeavesOthers(reg, done, sub, p);
    }
  }

  /** Subscribing again with the same messages and the same handle leaves the registry
      as it is and gives the same outcome. */
  lemma SubscribeIsIdempotent<S>(reg: Registry<S>, messages: Messages, sub: S)
    ensures var (r, outcome) := SubscribeSpec(reg, messages, sub);
      SubscribeSpec(r, messages, sub) == (r, outcome)
  {
    if !messages.Neither? {
      var msgs := MessageList(messages).value;
      var done := msgs[..ValidPrefixLength(msgs)];
      RegisterEachContains(reg, done, sub);
      RegisterEachOfRegistered(RegisterEach(reg, done, sub), done, sub);
    }
  }

  /** A lone string behaves exactly like a one-element array. */
  lemma SubscribeStringAsList<S>(reg: Registry<S>, message: string, sub: S)
    ensures SubscribeSpec(reg, Single(message), sub) == SubscribeSpec(reg, Many([message]), sub)
  {
  }

  // ---------------------------------------------------------------------------------
  // Emission

  /** One call `receive(message, payload)` on a subscriber. */
  datatype Delivery<S, P> = Delivery(subscriber: S, message: string, payload: P)

  /** `Object.keys(_subscribers).filter(...)`: the registered patterns matching the
      message, in key order. */
  function MatchingPatterns(patterns: seq<string>, message: string): (r: seq<string>)
    ensures forall p :: p in r <==> p in patterns && Helpers.Matches(message, p)
  {
    if patterns == [] then []
    else
      assert forall p :: p in patterns <==> p == patterns[0] || p in patterns[1..];
      (if Helpers.Matches(message, patterns[0]) then [patterns[0]] else []) +
        MatchingPatterns(patterns[1..], message)
  }

  /** The subscriber lists of `keys` concatenated in order. */
  function Gather<S(==)>(subscribers: map<string, seq<S>>, keys: seq<string>): (r: seq<S>)
    requires forall k :: k in keys ==> k in subscribers
    ensures forall i :: 0 <= i < |r| ==> exists k :: k in keys && r[i] in subscribers[k]
    ensures forall k, j :: k in keys && 0 <= j < |subscribers[k]| ==> subscribers[k][j] in r
    decreases |keys|
  {
    if keys == [] then []
    else
      var front, last := keys[..|keys| - 1], keys[|keys| - 1];
      assert keys == front + [last];
      assert forall k :: k in front ==> k in keys;
      Gather(subscribers, front) + subscribers[last]
  }

  /** Each subscriber of `subs`, in order, receives the message with its payload. */
  function Deliveries<S, P>(subs: seq<S>, message: string, payload: P): (log: seq<Delivery<S, P>>)
    ensures |log| == |subs|
    ensures forall i :: 0 <= i < |subs| ==> Receives(log, subs[i])
    ensures forall k :: 0 <= k < |log| ==> log[k].subscriber in subs
    ensures forall k :: 0 <= k < |log| ==> log[k].message == message && log[k].payload == payload
  {
    var log := seq(|subs|, i requires 0 <= i < |subs| => Delivery(subs[i], message, payload));
    assert forall i :: 0 <= i < |subs| ==> log[i].subscriber == subs[i];
    log
  }

  /** `emit`: refused for a message holding `*`; otherwise one delivery per distinct
      subscriber of the matching patterns, in order of first appearance. */
  function EmitSpec<S(==), P>(reg: Registry<S>, message: string, payload: P): (r: Result<seq<Delivery<S, P>>>)
    requires RegistryValid(reg)
    ensures r.Failure? <==> '*' in message
    ensures r.Failure? ==> r.error == WildcardInEmission
    ensures r.Success? ==> forall k :: 0 <= k < |r.value| ==> r.value[k].message == message && r.value[k].payload == payload
  {
    if '*' in message then Failure(WildcardInEmission)
    else
      Success(Deliveries(Recipients(reg, message), message, payload))
  }

  /** The distinct subscribers of the patterns matching `message`, in order. */
  function Recipients<S(==)>(reg: Registry<S>, message: string): (r: seq<S>)
    requires RegistryValid(reg)
    ensures Unique.Distinct(r)
  {
    Unique.Dedup(Gather(reg.subscribers, MatchingPatterns(reg.patterns, message)))
  }

  /** `emit` as src/hub.js is written: `unique` is read from src/helpers.js, which does not
      export it, so the call at src/hub.js:55 throws a TypeError on every emission that
      gets past the wildcard check, before any delivery. */
  function EmitAsWritten<S(==), P>(reg: Registry<S>, message: string, payload: P): (r: Result<seq<Delivery<S, P>>>)
    ensures r.Failure?
  {
    if '*' in message then Failure(WildcardInEmission) else Failure(UniqueIsNotAFunction)
  }

  /** The discrepancy: as written no emission ever delivers, while with `unique` taken from
      src/utils/unique.js every star-free emission succeeds. */
  lemma EmitAsWrittenNeverDelivers<S, P>(reg: Registry<S>, message: string, payload: P)
    requires RegistryValid(reg) && '*' !in message
    ensures EmitAsWritten(reg, message, payload) == Failure(UniqueIsNotAFunction)
    ensures EmitSpec(reg, message, payload).Success?
  {
  }

  ghost predicate Receives<S, P>(log: seq<Delivery<S, P>>, s: S) {
    exists k :: 0 <= k < |log| && log[k].subscriber == s
  }

  /** `s` is registered under some pattern that matches `message`. */
  ghost predicate SubscribedFor<S>(reg: Registry<S>, message: string, s: S) {
    exists p :: p in reg.subscribers && Helpers.Matches(message, p) && s in reg.subscribers[p]
  }

  /** An emission with `*` in the message fails whatever the registry holds, so no one
      receives anything. */
  lemma EmitRefusesWildcards<S, P>(reg: Registry<S>, message: string, payload: P)
    requires RegistryValid(reg)
    ensures EmitSpec(reg, message, payload).Failure? <==> '*' in message
    ensures EmitSpec(reg, message, payload).Failure? ==>
      EmitSpec(reg, message, payload).error == WildcardInEmission
  {
  }

  /** A concrete emission reaches exactly the subscribers of the matching patterns, each
      exactly once, with the emitted message and payload. */
  lemma EmitDeliversToMatchingSubscribers<S, P>(reg: Registry<S>, message: string, payload: P)
    requires RegistryValid(reg) && '*' !in message
    ensures EmitSpec(reg, message, payload).Success?
    ensures var log := EmitSpec(reg, message, payload).value;
      && (forall k :: 0 <= k < |log| ==> log[k].message == message && log[k].payload == payload)
      && (forall j, k :: 0 <= j < k < |log| ==> log[j].subscriber != log[k].subscriber)
      && (forall s :: Receives(log, s) <==> SubscribedFor(reg, message, s))
  {
    var log := Deliveries(Recipients(reg, message), message, payload);
    assert EmitSpec(reg, message, payload) == Success(log);
    forall s ensures Receives(log, s) <==> SubscribedFor(reg, message, s) {
      DeliveredIffSubscribed(reg, message, payload, s);
    }
  }

  /** One subscriber at a time: it receives exactly when it is registered under a
      matching pattern. */
  lemma DeliveredIffSubscribed<S, P>(reg: Registry<S>, message: string, payload: P, s: S)
    requires RegistryValid(reg)
    ensures Receives(Deliveries(Recipients(reg, message), message, payload), s) <==> SubscribedFor(reg, message, s)
  {
    var d := Recipients(reg, message);
    var log := Deliveries(d, message, payload);
    if Receives(log, s) {
      var k :| 0 <= k < |log| && log[k].subscriber == s;
      assert s in d;
      GatheredIsSubscribed(reg, message, s);
    }
    if SubscribedFor(reg, message, s) {
      SubscribedIsGathered(reg, message, s);
      var k :| 0 <= k < |d| && d[k] == s;
      assert Receives(log, d[k]);
    }
  }

  lemma GatheredIsSubscribed<S>(reg: Registry<S>, message: string, s: S)
    requires RegistryValid(reg)
    requires s in Recipients(reg, message)
    ensures SubscribedFor(reg, message, s)
  {
    var matching := MatchingPatterns(reg.patterns, message);
    var gathered := Gather(reg.subscribers, matching);
    var d := Unique.Dedup(gathered);
    var k :| 0 <= k < |d| && d[k] == s;
    assert s in gathered;
    var i :| 0 <= i < |gathered| && gathered[i] == s;
    var p :| p in matching && gathered[i] in reg.subscribers[p];
    assert p in reg.patterns && Helpers.Matches(message, p);
  }

  lemma SubscribedIsGathered<S>(reg: Registry<S>, message: string, s: S)
    requires RegistryValid(reg) && SubscribedFor(reg, message, s)
    ensures s in Recipients(reg, message)
  {
    var matching := MatchingPatterns(reg.patterns, message);
    var gathered := Gather(reg.subscribers, matching);
    var p :| p in reg.subscribers && Helpers.Matches(message, p) && s in reg.subscribers[p];
    assert p in matching;
    var j :| 0 <= j < |reg.subscribers[p]| && reg.subscribers[p][j] == s;
    assert s in gathered;
    var i :| 0 <= i < |gathered| && gathered[i] == s;
  }

  /** The delivery loop of `emit`: `receive(message, payload)` on each subscriber in turn. */
  method DeliverAll<S, P>(subs: seq<S>, message: string, payload: P) returns (log: seq<Delivery<S, P>>)
    ensures log == Deliveries(subs, message, payload)
  {
    log := [];
    for i := 0 to |subs|
      invariant log == Deliveries(subs[..i], message, payload)
    {
      log := log + [Delivery(subs[i], message, payload)];
    }
    assert subs[..|subs|] == subs;
  }

  // ---------------------------------------------------------------------------------
  // The hub object

  class Hub<S(==)> {
    /** The keys of `_subscribers` in the order `Object.keys` gives them. */
    var patterns: seq<string>
    /** `_subscribers`: message pattern -> subscriber list. */
    var subscribers: map<string, seq<S>>

    function State(): (r: Registry<S>)
      reads this
    {
      Registry(patterns, subscribers)
    }

    ghost predicate Valid()
      reads this
    {
      RegistryValid(State())
    }

    /** `Hub()`: a hub with an empty registry of its own. */
    constructor ()
      ensures Valid() && State() == Registry([], map[])
    {
      patterns := [];
      subscribers := map[];
    }

    /** `hub.subscribe(messages, sub)`. */
    method Subscribe(messages: Messages, sub: S) returns (r: Result<S>)
      requires Valid()
      modifies this
      ensures Valid()
      ensures (State(), r) == SubscribeSpec(old(State()), messages, sub)
    {
      var msgs: seq<string>;
      match messages {
        case Single(m) => msgs := [m];
        case Many(ms) => msgs := ms;
        case Neither => return Failure(NotAMessageList);
      }
      var k := RegisterMessages(msgs, sub);
      if k < |msgs| {
        return Failure(MalformedMessage(msgs[k]));
      }
      return Success(sub);
    }

    /** The loop of `subscribe`: registers `sub` under each message in turn and stops at
        the first malformed one, whose position it returns (`|msgs|` when there is none). */
    method RegisterMessages(msgs: seq<string>, sub: S) returns (k: nat)
      requires Valid()
      modifies this
      ensures Valid()
      ensures k == ValidPrefixLength(msgs)
      ensures State() == RegisterEach(old(State()), msgs[..k], sub)
    {
      for i := 0 to |msgs|
        invariant Valid()
        invariant State() == RegisterEach(old(State()), msgs[..i], sub)
        invariant i <= ValidPrefixLength(msgs)
      {
        if !IsMessageFormat(msgs[i]) {
          return i;
        }
        RegisterEachStep(old(State()), msgs, i, sub);
        AddSubscriber(msgs[i], sub);
      }
      return |msgs|;
    }

    /** One pass of the registration loop for a well-formed message. */
    method AddSubscriber(message: string, sub: S)
      requires Valid() && IsMessageFormat(message)
      modifies this
      ensures Valid() && State() == Register(old(State()), message, sub)
    {
      RegisterKeepsValid(State(), message, sub);
      if message in subscribers {
        var subs := subscribers[message];
        if sub !in subs {
          subscribers := subscribers[message := subs + [sub]];
        }
      } else {
        subscribers := subscribers[message := [sub]];
        patterns := patterns + [message];
      }
    }

    /** `hub.emit(message, payload)`: the deliveries it makes, in order. */
    method Emit<P>(message: string, payload: P) returns (r: Result<seq<Delivery<S, P>>>)
      requires Valid()
      ensures r == EmitSpec(State(), message, payload)
    {
      var matchingPatterns := MatchingPatterns(patterns, message);
      if '*' in message {
        return Failure(WildcardInEmission);
      }
      var matchingSubs := GatherSubscribers(matchingPatterns);
      matchingSubs := Unique.Unique(matchingSubs);
      var log := DeliverAll(matchingSubs, message, payload);
      return Success(log);
    }

    /** The gathering loop of `emit`: the subscriber lists of `keys` concatenated. */
    method GatherSubscribers(keys: seq<string>) returns (subs: seq<S>)
      requires forall k :: k in keys ==> k in subscribers
      ensures subs == Gather(subscribers, keys)
    {
      subs := [];
      for i := 0 to |keys|
        invariant subs == Gather(subscribers, keys[..i])
      {
        assert keys[..i + 1][..i] == keys[..i];
        subs := subs + subscribers[keys[i]];
      }
      assert keys[..|keys|] == keys;
    }

    /** `hub.unsubscribe(messages, sub)`: its body is empty, so it changes nothing and
        throws nothing. */
    method Unsubscribe(messages: Messages, sub: S)
      requires Valid()
      ensures Valid() && State() == old(State())
    {
    }
  }
}
