/**
 * The asynchronous Redis context of hiredis: flags, two callback queues, two subscription tables and user callbacks
 * that may call back into the API.
 */
module AsyncRedis {
  type Name = string

  datatype Option<T> = None | Some(value: T)

  /** A pending regular command; id is its place in issue order, fn says whether a callback was given. */
  datatype Callback = Callback(id: nat, fn: bool)

  /** A table entry for a channel or pattern. */
  datatype Subscription = Subscription(fn: bool, pendingSubs: int, unsubscribeSent: bool)

  type Table = map<Name, Subscription>

  datatype Command =
    | Subscribe(pattern: bool, names: seq<Name>, fn: bool)
    | Unsubscribe(pattern: bool, names: seq<Name>)
    | Regular(fn: bool)

  /** One invocation of a user callback: of a command, a subscription, or the context. */
  datatype Note =
    | Answer(cb: Callback, reply: Option<Reply>)
    | Message(pattern: bool, name: Name, reply: Option<Reply>)
    | Pushed(pushed: Reply)
    | Connected(ok: bool)
    | Disconnected(ok: bool)

  /** What a user callback may do with the context it is handed. */
  datatype Action = Issue(command: Command) | Free | Disconnect

  // ---- replies ----

  /** Error replies; replies that are no array of three or more; such arrays; push messages. */
  datatype Form = ErrorForm | Short | Long | Push

  /** A reply as far as it is inspected: its first, second and third element. */
  datatype Reply = Reply(form: Form, word: string, name: Option<Name>, count: int)

  function Lower(c: char): char { if 'A' <= c <= 'Z' then (c as int + 32) as char else c }

  function LowerAll(s: string): (r: string)
    ensures |r| == |s|
  {
    seq(|s|, i requires 0 <= i < |s| => Lower(s[i]))
  }

  predicate PatternVariant(word: string) { |word| > 0 && Lower(word[0]) == 'p' }

  /** The word without the leading p of a pattern variant. */
  function Stem(word: string): string { LowerAll(if PatternVariant(word) then word[1..] else word) }

  /** strncasecmp over the whole of the first string. */
  predicate IsPrefix(s: string, word: string) { |s| <= |word| && s == word[..|s|] }

  /** redisIsSubscribeReply. */
  predicate IsSubscribeReply(r: Reply)
  {
    && |r.word| >= |"message"|
    && (IsPrefix(Stem(r.word), "subscribe") || IsPrefix(Stem(r.word), "message") || IsPrefix(Stem(r.word), "unsubscribe"))
  }

  predicate IsSpontaneousPush(r: Reply) { r.form == Push && !IsSubscribeReply(r) }

  /** Taken for a pub/sub message once no regular reply is expected. */
  predicate IsPubSub(r: Reply, supportsPush: bool) { (r.form == Long && !supportsPush) || r.form == Push }

  /** A server's acknowledgement of one SUBSCRIBE or PSUBSCRIBE argument. */
  predicate IsAck(r: Reply) { r.form in {Long, Push} && Stem(r.word) == "subscribe" }

  // ---- the subscription tables ----

  /**
   * Every unacknowledged subscription has an entry, and no entry counts fewer pending subscriptions than the server
   * still has to acknowledge.
   */
  ghost predicate Tracks(t: Table, unacked: multiset<Name>)
  {
    && (forall n :: n in unacked ==> n in t)
    && (forall n :: n in t ==> unacked[n] <= t[n].pendingSubs)
  }

  /** The counts agree exactly. */
  ghost predicate Counts(t: Table, unacked: multiset<Name>)
  {
    && (forall n :: n in unacked ==> n in t)
    && (forall n :: n in t ==> unacked[n] == t[n].pendingSubs)
  }

  /** The callback record for the next argument: its count is carried over from the last known name. */
  function Carried(t: Table, n: Name, carry: int): int { if n in t then t[n].pendingSubs + 1 else carry }

  /** The table after the arguments of one SUBSCRIBE. */
  function Subscribed(t: Table, names: seq<Name>, fn: bool, carry: int): Table
    decreases names
  {
    if names == [] then t
    else
      var c := Carried(t, names[0], carry);
      Subscribed(t[names[0] := Subscription(fn, c, false)], names[1..], fn, c)
  }

  /** No new name follows a name with other subscriptions pending. */
  predicate CarriesNothing(t: Table, names: seq<Name>, fn: bool, carry: int)
    decreases names
  {
    names == [] ||
    var c := Carried(t, names[0], carry);
    && (names[0] !in t ==> carry == 1)
    && CarriesNothing(t[names[0] := Subscription(fn, c, false)], names[1..], fn, c)
  }

  lemma AddName(unacked: multiset<Name>, names: seq<Name>)
    requires names != []
    ensures (unacked + multiset{names[0]}) + multiset(names[1..]) == unacked + multiset(names)
  {
    assert names == [names[0]] + names[1..];
  }

  lemma {:induction false} SubscribeTracks(t: Table, names: seq<Name>, fn: bool, carry: int, unacked: multiset<Name>)
    requires Tracks(t, unacked) && 1 <= carry
    ensures Tracks(Subscribed(t, names, fn, carry), unacked + multiset(names))
    ensures forall n :: n in t ==> n in Subscribed(t, names, fn, carry)
    decreases names
  {
    if names != [] {
      var c := Carried(t, names[0], carry);
      AddName(unacked, names);
      SubscribeTracks(t[names[0] := Subscription(fn, c, false)], names[1..], fn, c, unacked + multiset{names[0]});
    }
  }

  /** A surplus in one entry stays there: later arguments only raise counts. */
  lemma {:induction false} SurplusStays(t: Table, names: seq<Name>, fn: bool, carry: int, unacked: multiset<Name>, n: Name)
    requires Tracks(t, unacked) && 1 <= carry && n in t && unacked[n] < t[n].pendingSubs
    ensures !Counts(Subscribed(t, names, fn, carry), unacked + multiset(names))
    decreases names
  {
    if names != [] {
      var c := Carried(t, names[0], carry);
      AddName(unacked, names);
      SurplusStays(t[names[0] := Subscription(fn, c, false)], names[1..], fn, c, unacked + multiset{names[0]}, n);
    }
  }

  /** The counts stay exact if and only if no count was carried over to a new name. */
  lemma {:induction false} SubscribeCounts(t: Table, names: seq<Name>, fn: bool, carry: int, unacked: multiset<Name>)
    requires Counts(t, unacked) && 1 <= carry
    ensures Counts(Subscribed(t, names, fn, carry), unacked + multiset(names)) <==> CarriesNothing(t, names, fn, carry)
    decreases names
  {
    if names == [] {
      assert unacked + multiset(names) == unacked;
    } else {
      var c := Carried(t, names[0], carry);
      var t' := t[names[0] := Subscription(fn, c, false)];
      AddName(unacked, names);
      if names[0] in t || carry == 1 {
        SubscribeCounts(t', names[1..], fn, c, unacked + multiset{names[0]});
      } else {
        SurplusStays(t', names[1..], fn, c, unacked + multiset{names[0]}, names[0]);
      }
    }
  }

  /** SUBSCRIBE a b while one SUBSCRIBE a is pending records two pending subscriptions for b. */
  lemma CarriedCount()
    ensures var t := map["a" := Subscription(true, 1, false)];
            && Counts(t, multiset{"a"})
            && "b" in Subscribed(t, ["a", "b"], true, 1)
            && Subscribed(t, ["a", "b"], true, 1)["b"].pendingSubs == 2
  {
    var t := map["a" := Subscription(true, 1, false)];
    var t1 := t["a" := Subscription(true, 2, false)];
    var t2 := t1["b" := Subscription(true, 2, false)];
    assert ["a", "b"][1..] == ["b"];
    assert Subscribed(t1, ["b"], true, 2) == Subscribed(t2, [], true, 2);
  }

  /** One pending subscription less. */
  function Acked(t: Table, n: Name): Table
    requires n in t
  {
    t[n := t[n].(pendingSubs := t[n].pendingSubs - 1)]
  }

  /** An unsubscribed name goes away unless a newer subscription is pending. */
  function Dropped(t: Table, name: Option<Name>): Table
  {
    if name.Some? && name.value in t && t[name.value].pendingSubs == 0 then t - {name.value} else t
  }

  /** The names of one SUBSCRIBE get the new callback and no announced unsubscription; the other entries stay. */
  lemma {:induction false} SubscribeEnters(t: Table, names: seq<Name>, fn: bool, carry: int)
    ensures var t' := Subscribed(t, names, fn, carry);
            && (forall n :: n in t' <==> n in t || n in names)
            && (forall n :: n in names ==> t'[n].fn == fn && !t'[n].unsubscribeSent)
            && (forall n :: n in t && n !in names ==> t'[n] == t[n])
    decreases names
  {
    if names != [] {
      var c := Carried(t, names[0], carry);
      SubscribeEnters(t[names[0] := Subscription(fn, c, false)], names[1..], fn, c);
    }
  }

  /** Where the counts are exact, an acknowledgement keeps them exact. */
  lemma AckCounts(t: Table, unacked: multiset<Name>, n: Name)
    requires Counts(t, unacked) && n in unacked
    ensures Counts(Acked(t, n), unacked - multiset{n})
  {
  }

  /** Where the counts are exact, an unsubscribed name goes away exactly if no subscription is unacknowledged. */
  lemma DropCounts(t: Table, unacked: multiset<Name>, n: Name)
    requires Counts(t, unacked) && n in t
    ensures Counts(Dropped(t, Some(n)), unacked) && (n in Dropped(t, Some(n)) <==> n in unacked)
    ensures forall m :: m in t && m != n ==> m in Dropped(t, Some(n)) && Dropped(t, Some(n))[m] == t[m]
  {
  }

  /** The entries after an UNSUBSCRIBE of these names. */
  function Marked(t: Table, names: seq<Name>): Table
  {
    map n | n in t :: if n in names then t[n].(unsubscribeSent := true) else t[n]
  }

  function MarkedAll(t: Table): Table { map n | n in t :: t[n].(unsubscribeSent := true) }

  /** The entries among `names` that have a callback to run. */
  function WithCallback(t: Table, names: set<Name>): set<Name>
  {
    set n | n in names && n in t && t[n].fn
  }

  /** The names that were told and those still to be told, if they have a callback, are all that have one. */
  ghost predicate ToldOrRest(t: Table, told: seq<Name>, rest: set<Name>)
  {
    multiset(told) + multiset(WithCallback(t, rest)) == multiset(WithCallback(t, t.Keys))
  }

  lemma ToldOne(t: Table, told: seq<Name>, rest: set<Name>, n: Name)
    requires ToldOrRest(t, told, rest) && n in rest && rest <= t.Keys
    ensures ToldOrRest(t, told + if t[n].fn then [n] else [], rest - {n})
  {
    assert WithCallback(t, rest) == WithCallback(t, rest - {n}) + if t[n].fn then {n} else {};
  }

  /** The calls for a command: one if it has a callback. */
  function Calls(cb: Callback, reply: Option<Reply>): seq<Note> { if cb.fn then [Answer(cb, reply)] else [] }

  /** Null replies to commands, in order. */
  function Nulls(cbs: seq<Callback>): seq<Note> { if cbs == [] then [] else Calls(cbs[0], None) + Nulls(cbs[1..]) }

  /** Null replies to subscriptions. */
  function Partings(pattern: bool, names: seq<Name>): seq<Note>
  {
    if names == [] then [] else Partings(pattern, names[..|names| - 1]) + [Message(pattern, names[|names| - 1], None)]
  }

  ghost predicate ToldAll(t: Table, told: seq<Name>) { multiset(told) == multiset(WithCallback(t, t.Keys)) }

  /**
   * The callbacks that run when a context goes away: null replies to all waiting commands in order, to every
   * subscription with a callback once, and at most one call about the disconnect.
   */
  ghost predicate Farewell(gained: seq<Note>, waiting: seq<Callback>, channels: Table, patterns: Table, disconnects: bool, clean: bool)
  {
    exists c: seq<Name>, p: seq<Name>, last: seq<Note> :: FarewellParts(gained, waiting, channels, patterns, disconnects, clean, c, p, last)
  }

  ghost predicate FarewellParts(gained: seq<Note>, waiting: seq<Callback>, channels: Table, patterns: Table, disconnects: bool, clean: bool,
                                c: seq<Name>, p: seq<Name>, last: seq<Note>)
  {
    && ToldAll(channels, c) && ToldAll(patterns, p)
    && gained == Nulls(waiting) + Partings(false, c) + Partings(true, p) + last
    && (if disconnects then last == [Disconnected(true)] || (last == [Disconnected(false)] && !clean) else last == [])
  }

  /** Everything one after the other. */
  function Flat<T>(parts: seq<seq<T>>): seq<T> { if parts == [] then [] else Flat(parts[..|parts| - 1]) + parts[|parts| - 1] }

  lemma FlatSnoc<T>(parts: seq<seq<T>>, part: seq<T>)
    ensures Flat(parts + [part]) == Flat(parts) + part
  {
    assert (parts + [part])[..|parts|] == parts;
  }

  lemma FlatGrows<T>(a: seq<T>, b: seq<T>, c: seq<T>)
    ensures a + (b + c) == a + b + c
  {
  }

  /** How many of the replies are no spontaneous pushes. */
  function Regulars(arrived: seq<Reply>): nat
  {
    if arrived == [] then 0
    else Regulars(arrived[..|arrived| - 1]) + if IsSpontaneousPush(arrived[|arrived| - 1]) then 0 else 1
  }

  /** A reply answers one command and runs its callback, or is heard by the push handler or a subscription, or is lost. */
  predicate DoesOneThing(r: Reply, answered: seq<Callback>, heard: seq<Note>, hasPush: bool)
  {
    if IsSpontaneousPush(r) then answered == [] && heard == (if hasPush then [Pushed(r)] else [])
    else if answered != [] then |answered| == 1 && heard == Calls(answered[0], Some(r))
    else heard == [] || (r.name.Some? && heard == [Message(PatternVariant(r.word), r.name.value, Some(r))])
  }

  /** UNSUBSCRIBE without names means all entries. */
  function Announced(t: Table, names: seq<Name>): Table { if names == [] then MarkedAll(t) else Marked(t, names) }

  /** How many of the replies to an UNSUBSCRIBE belong to no entry that awaits one. */
  ghost function Ignored(t: Table, names: seq<Name>): int
  {
    if names == [] then (if forall n :: n in t ==> t[n].unsubscribeSent then 1 else 0)
    else |names| - |Awaited(t, names)|
  }

  /** The names whose unsubscription is announced for the first time. */
  function Awaited(t: Table, names: seq<Name>): set<Name>
  {
    set n | n in t && n in names && !t[n].unsubscribeSent
  }

  /** What the socket says about a connection attempt. */
  datatype Connect = Failed | InProgress | Completed | NoDelayFailed

  /** Everything that can happen to a context from outside. */
  datatype Event =
    | Call(action: Action)
    | Readable(outcome: Connect, readFailed: bool, arrived: seq<Reply>, parseFailed: bool)
    | Writable(outcome: Connect, writeFailed: bool, left: nat)
    | TimedOut(hasTimeout: bool, steps: nat)

  /** One SUBSCRIBE: every name is entered with a fresh record or one more pending subscription. */
  method SubscribeNames(t: Table, names: seq<Name>, fn: bool, ghost unacked: multiset<Name>) returns (t': Table)
    ensures t' == Subscribed(t, names, fn, 1)
    ensures Tracks(t, unacked) ==> Tracks(t', unacked + multiset(names))
  {
    t' := t;
    var carry, i := 1, 0;
    while i < |names|
      invariant 0 <= i <= |names|
      invariant Subscribed(t', names[i..], fn, carry) == Subscribed(t, names, fn, 1)
    {
      var n := names[i];
      if n in t' {
        carry := t'[n].pendingSubs + 1;
      }
      t' := t'[n := Subscription(fn, carry, false)];
      assert names[i..][1..] == names[i + 1..];
      i := i + 1;
    }
    if Tracks(t, unacked) {
      SubscribeTracks(t, names, fn, 1, unacked);
    }
  }

  lemma MarkNext(t: Table, names: seq<Name>, n: Name)
    ensures var m, more := Marked(t, names), names + [n];
            if n in m && !m[n].unsubscribeSent then
              Marked(t, more) == m[n := m[n].(unsubscribeSent := true)] && |Awaited(t, more)| == |Awaited(t, names)| + 1
            else Marked(t, more) == m && |Awaited(t, more)| == |Awaited(t, names)|
  {
    var m, more := Marked(t, names), names + [n];
    if n in m && !m[n].unsubscribeSent {
      assert Awaited(t, more) == Awaited(t, names) + {n};
    } else {
      assert Awaited(t, more) == Awaited(t, names);
    }
  }

  /** UNSUBSCRIBE with names: the first one per entry is awaited, every other reply is to be ignored. */
  method UnsubscribeNames(t: Table, names: seq<Name>) returns (t': Table, ignored: nat)
    ensures t' == Marked(t, names)
    ensures ignored + |Awaited(t, names)| == |names|
  {
    t', ignored := t, 0;
    assert Marked(t, names[..0]) == t;
    for i := 0 to |names|
      invariant t' == Marked(t, names[..i])
      invariant ignored + |Awaited(t, names[..i])| == i
    {
      var n := names[i];
      assert names[..i + 1] == names[..i] + [n];
      MarkNext(t, names[..i], n);
      if n in t' && !t'[n].unsubscribeSent {
        t' := t'[n := t'[n].(unsubscribeSent := true)];
      } else {
        ignored := ignored + 1;
      }
    }
    assert names[..|names|] == names;
  }

  /** UNSUBSCRIBE without names: all entries are awaited; with none there is one reply to ignore. */
  method UnsubscribeAll(t: Table) returns (t': Table, ignored: nat)
    ensures t' == MarkedAll(t)
    ensures ignored == if forall n :: n in t ==> t[n].unsubscribeSent then 1 else 0
  {
    t', ignored := t, 1;
    var rest := t.Keys;
    while rest != {}
      invariant rest <= t.Keys == t'.Keys
      invariant forall n :: n in t ==> t'[n] == if n in rest then t[n] else t[n].(unsubscribeSent := true)
      invariant ignored == if forall n :: n in t && n !in rest ==> t[n].unsubscribeSent then 1 else 0
      decreases |rest|
    {
      var n :| n in rest;
      rest := rest - {n};
      if !t'[n].unsubscribeSent {
        t' := t'[n := t'[n].(unsubscribeSent := true)];
        ignored := 0;
      }
    }
  }

  // ---- the context ----

  class AsyncContext {
    // configuration: which callbacks are set, and what each callback invocation does
    const hasConnect: bool
    const hasDisconnect: bool
    const hasPush: bool
    const behaviour: nat -> seq<Action>

    // the flags of the connection
    var connected: bool
    var disconnecting: bool
    var freeing: bool
    var inCallback: bool
    var subscribed: bool
    var supportsPush: bool
    var noAutoFree: bool
    var err: bool

    var obuf: nat
    var replies: seq<Callback>
    var subReplies: seq<Callback>
    var channels: Table
    var patterns: Table
    var pendingUnsubs: int
    var freed: bool
    var aborted: bool
    var turn: nat
    var serial: nat

    // what happened so far
    ghost var issued: seq<Callback>
    ghost var ran: seq<Callback>
    ghost var inFlight: seq<Callback>
    ghost var unackedChannels: multiset<Name>
    ghost var unackedPatterns: multiset<Name>
    ghost var honest: bool
    ghost var log: seq<Note>

    /**
     * The accepted regular commands are, in issue order: those whose callback has run, the one being run, and the
     * two queues.
     */
    ghost predicate QueuesValid()
      reads this`issued, this`ran, this`inFlight, this`replies, this`subReplies, this`serial
    {
      && issued == ran + inFlight + replies + subReplies
      && serial == |issued| && (forall i :: 0 <= i < |issued| ==> issued[i].id == i)
    }

    /** Outside subscribed mode there is nothing in the subscription part. */
    ghost predicate ModeValid()
      reads this`subscribed, this`subReplies, this`channels, this`patterns
    {
      !subscribed ==> subReplies == [] && channels == map[] && patterns == map[]
    }

    /** While the server acknowledged only what it was asked to, the tables track what it still has to acknowledge. */
    ghost predicate TablesValid()
      reads this`honest, this`channels, this`patterns, this`unackedChannels, this`unackedPatterns, this`aborted
    {
      && (honest ==> Tracks(channels, unackedChannels) && Tracks(patterns, unackedPatterns))
      && (aborted ==> !honest)
    }

    ghost predicate Valid()
      reads this
    {
      QueuesValid() && ModeValid() && TablesValid()
    }

    predicate Closing()
      reads this
    {
      freeing || disconnecting
    }

    /** Between events: alive, in no callback, and no callback half done. */
    ghost predicate Idle()
      reads this
    {
      Valid() && !freed && !inCallback && inFlight == []
    }

    /** What every event handler leaves behind: an idle context, or a freed one whose callbacks have all run. */
    ghost predicate Settled()
      reads this
    {
      Valid() && !inCallback && inFlight == [] && (freed ==> ran == issued)
    }

    /** Nothing that a closing context must not change has changed. */
    twostate predicate Frozen()
      reads this
    {
      && issued == old(issued) && replies == old(replies) && subReplies == old(subReplies)
      && channels == old(channels) && patterns == old(patterns) && subscribed == old(subscribed)
      && (old(freeing) ==> freeing) && (old(disconnecting) ==> disconnecting)
    }

    constructor (hasConnect: bool, hasDisconnect: bool, hasPush: bool, noAutoFree: bool, behaviour: nat -> seq<Action>)
      ensures Idle() && issued == [] && honest && !Closing() && !err && !aborted && !subscribed && this.noAutoFree == noAutoFree
      ensures log == [] && !connected && this.hasConnect == hasConnect && this.hasDisconnect == hasDisconnect && this.hasPush == hasPush
    {
      this.hasConnect, this.hasDisconnect, this.hasPush := hasConnect, hasDisconnect, hasPush;
      this.behaviour, this.noAutoFree := behaviour, noAutoFree;
      connected, disconnecting, freeing, inCallback, subscribed, supportsPush, err := false, false, false, false, false, false, false;
      freed, aborted := false, false;
      obuf, turn, serial, pendingUnsubs := 0, 0, 0, 0;
      replies, subReplies, channels, patterns := [], [], map[], map[];
      issued, ran, inFlight, unackedChannels, unackedPatterns, honest := [], [], [], multiset{}, multiset{}, true;
      log := [];
    }

    // ---- issuing commands ----

    /** __redisAsyncCommand. */
    method AsyncCommand(c: Command) returns (ok: bool)
      requires Valid() && !freed
      modifies this`obuf, this`replies, this`subReplies, this`channels, this`patterns, this`subscribed, this`pendingUnsubs
      modifies this`serial, this`issued, this`unackedChannels, this`unackedPatterns
      ensures Valid()
      ensures ok <==> !Closing() && (c.Unsubscribe? ==> old(subscribed))
      ensures !ok ==> Frozen()
      ensures ok && IsRegular(c) ==> issued == old(issued) + [Callback(|old(issued)|, c.fn)] && Waiting() == old(Waiting()) + [Callback(|old(issued)|, c.fn)]
      ensures !(ok && IsRegular(c)) ==> issued == old(issued) && Waiting() == old(Waiting())
      ensures old(subscribed) || !IsRegular(c) ==> replies == old(replies)
      ensures old(replies) <= replies
      ensures ok ==> obuf == old(obuf) + 1
      ensures ok && c.Subscribe? && c.names != [] ==>
                channels == (if c.pattern then old(channels) else Subscribed(old(channels), c.names, c.fn, 1))
                && patterns == (if c.pattern then Subscribed(old(patterns), c.names, c.fn, 1) else old(patterns))
      ensures ok && c.Unsubscribe? ==>
                channels == (if c.pattern then old(channels) else Announced(old(channels), c.names))
                && patterns == (if c.pattern then Announced(old(patterns), c.names) else old(patterns))
                && pendingUnsubs == old(pendingUnsubs) + Ignored(if c.pattern then old(patterns) else old(channels), c.names)
      ensures ok && IsRegular(c) ==> channels == old(channels) && patterns == old(patterns)
      ensures !c.Unsubscribe? ==> pendingUnsubs == old(pendingUnsubs)
      ensures subscribed <==> old(subscribed) || (ok && c.Subscribe? && c.names != [])
    {
      if disconnecting || freeing {
        return false;
      }
      ok := true;
      if c.Subscribe? && c.names != [] {
        IssueSubscribe(c.pattern, c.names, c.fn);
      } else if c.Unsubscribe? {
        if !subscribed {
          return false;
        }
        IssueUnsubscribe(c.pattern, c.names);
      } else {
        IssueRegular(c.fn);
      }
      obuf := obuf + 1;
    }

    method IssueSubscribe(pattern: bool, names: seq<Name>, fn: bool)
      requires Valid()
      modifies this`channels, this`patterns, this`subscribed, this`unackedChannels, this`unackedPatterns
      ensures Valid() && subscribed
      ensures channels == if pattern then old(channels) else Subscribed(old(channels), names, fn, 1)
      ensures patterns == if pattern then Subscribed(old(patterns), names, fn, 1) else old(patterns)
    {
      subscribed := true;
      if pattern {
        SubscribePatterns(names, fn);
      } else {
        SubscribeChannels(names, fn);
      }
    }

    method SubscribeChannels(names: seq<Name>, fn: bool)
      requires TablesValid()
      modifies this`channels, this`unackedChannels
      ensures TablesValid() && channels == Subscribed(old(channels), names, fn, 1)
      ensures unackedChannels == old(unackedChannels) + multiset(names)
    {
      channels := SubscribeNames(channels, names, fn, unackedChannels);
      unackedChannels := unackedChannels + multiset(names);
    }

    method SubscribePatterns(names: seq<Name>, fn: bool)
      requires TablesValid()
      modifies this`patterns, this`unackedPatterns
      ensures TablesValid() && patterns == Subscribed(old(patterns), names, fn, 1)
      ensures unackedPatterns == old(unackedPatterns) + multiset(names)
    {
      patterns := SubscribeNames(patterns, names, fn, unackedPatterns);
      unackedPatterns := unackedPatterns + multiset(names);
    }

    method IssueUnsubscribe(pattern: bool, names: seq<Name>)
      requires Valid() && subscribed
      modifies this`channels, this`patterns, this`pendingUnsubs
      ensures Valid()
      ensures channels == if pattern then old(channels) else Announced(old(channels), names)
      ensures patterns == if pattern then Announced(old(patterns), names) else old(patterns)
      ensures pendingUnsubs == old(pendingUnsubs) + Ignored(if pattern then old(patterns) else old(channels), names)
    {
      var t, ignored;
      if names != [] {
        t, ignored := UnsubscribeNames(if pattern then patterns else channels, names);
      } else {
        t, ignored := UnsubscribeAll(if pattern then patterns else channels);
      }
      if pattern {
        patterns := t;
      } else {
        channels := t;
      }
      pendingUnsubs := pendingUnsubs + ignored;
    }

    /** A regular command waits in the queue of the mode it was issued in. */
    method IssueRegular(fn: bool)
      requires Valid()
      modifies this`replies, this`subReplies, this`serial, this`issued
      ensures Valid()
      ensures issued == old(issued) + [Callback(|old(issued)|, fn)] && Waiting() == old(Waiting()) + [Callback(|old(issued)|, fn)]
      ensures old(replies) <= replies && if subscribed then replies == old(replies) else subReplies == old(subReplies)
    {
      var cb := Callback(serial, fn);
      serial := serial + 1;
      issued := issued + [cb];
      if subscribed {
        subReplies := subReplies + [cb];
      } else {
        replies := replies + [cb];
      }
    }

    // ---- user callbacks ----

    /** Only the closing flags moved, as happens to calls made from inside a callback. */
    twostate predicate OnlyClosing()
      reads this
    {
      && Frozen() && connected == old(connected) && inCallback == old(inCallback)
      && supportsPush == old(supportsPush) && err == old(err) && obuf == old(obuf)
      && pendingUnsubs == old(pendingUnsubs) && freed == old(freed) && aborted == old(aborted)
      && turn == old(turn) && serial == old(serial) && ran == old(ran) && inFlight == old(inFlight)
      && unackedChannels == old(unackedChannels) && unackedPatterns == old(unackedPatterns) && honest == old(honest)
      && log == old(log)
    }

    /** What running user code can do to the bookkeeping: add commands unless the context is closing. */
    twostate predicate Extended()
      reads this
    {
      && old(issued) <= issued && err == old(err) && connected == old(connected) && honest == old(honest)
      && aborted == old(aborted) && supportsPush == old(supportsPush)
      && (old(freeing) ==> freeing) && (old(disconnecting) ==> disconnecting)
      && (old(freeing) || old(disconnecting) ==> Frozen()) && old(replies) <= replies
    }

    /** The body of a callback: any number of calls on the context. */
    method UserCode()
      requires Valid() && !freed && inCallback
      modifies this
      ensures Valid() && !freed && inCallback && Extended() && ran == old(ran) && inFlight == old(inFlight) && log == old(log)
      ensures turn == old(turn) + 1
      decreases 0, 9
    {
      var actions := behaviour(turn);
      turn := turn + 1;
      for i := 0 to |actions|
        invariant Valid() && !freed && inCallback && Extended() && ran == old(ran) && inFlight == old(inFlight) && log == old(log)
        invariant turn == old(turn) + 1
      {
        Perform(actions[i]);
      }
    }

    method Perform(action: Action)
      requires Valid() && !freed && inCallback
      modifies this
      ensures Valid() && !freed && inCallback && Extended() && ran == old(ran) && inFlight == old(inFlight) && log == old(log)
      ensures turn == old(turn)
      decreases 0, 8
    {
      match action {
        case Issue(c) => var _ := AsyncCommand(c);
        case Free => AsyncFree();
        case Disconnect => AsyncDisconnect();
      }
    }

    /** A callback that is not tied to a regular command: push, connect, disconnect, subscription. */
    method RunUser(present: bool, ghost note: Note)
      requires Idle()
      modifies this
      ensures Idle() && Extended() && ran == old(ran) && log == old(log) + if present then [note] else []
      ensures turn == old(turn) + if present then 1 else 0
      decreases 1, 1
    {
      if present {
        log := log + [note];
        inCallback := true;
        UserCode();
        inCallback := false;
      }
    }

    /** __redisRunCallback for the regular command taken off its queue. */
    method RunCallback(cb: Callback, ghost reply: Option<Reply>)
      requires Valid() && !freed && !inCallback && inFlight == [cb]
      modifies this
      ensures Idle() && Extended() && ran == old(ran) + [cb] && log == old(log) + Calls(cb, reply)
      ensures turn == old(turn) + if cb.fn then 1 else 0
      decreases 1, 1
    {
      log := log + Calls(cb, reply);
      if cb.fn {
        inCallback := true;
        UserCode();
        inCallback := false;
      }
      NoteRun();
    }

    /** The command in flight has had its callback. */
    ghost method NoteRun()
      requires Valid() && |inFlight| == 1
      modifies this`ran, this`inFlight
      ensures Valid() && ran == old(ran) + old(inFlight) && inFlight == []
    {
      ran, inFlight := ran + inFlight, [];
    }

    /** __redisShiftCallback on the regular queue. */
    method ShiftReplies() returns (cb: Callback)
      requires Valid() && inFlight == [] && replies != []
      modifies this`replies, this`inFlight
      ensures Valid() && cb == old(replies[0]) && replies == old(replies[1..]) && inFlight == [cb]
    {
      cb := replies[0];
      replies, inFlight := replies[1..], [cb];
    }

    /** __redisShiftCallback on the queue of subscribed mode, which only moves when the other one is empty. */
    method ShiftSubReplies() returns (cb: Callback)
      requires Valid() && inFlight == [] && replies == [] && subReplies != []
      modifies this`subReplies, this`inFlight
      ensures Valid() && cb == old(subReplies[0]) && subReplies == old(subReplies[1..]) && inFlight == [cb]
    {
      cb := subReplies[0];
      subReplies, inFlight := subReplies[1..], [cb];
    }

    // ---- freeing and disconnecting ----

    /** __redisAsyncFree: every pending callback runs once more; nothing new can be issued meanwhile. */
    method FreeContext()
      requires Idle() && Closing()
      modifies this
      ensures freed && Valid() && ran == issued == old(issued) && replies == subReplies == [] && err == old(err) && honest == old(honest) && aborted == old(aborted)
      ensures !inCallback && inFlight == [] && (old(freeing) ==> freeing) && (old(disconnecting) ==> disconnecting)
      ensures Gone(old(freeing) || !old(err)) && connected == old(connected)
      decreases 1, 4
    {
      ghost var waiting, chans, pats, start := Waiting(), channels, patterns, log;
      Drain();
      var c := TellSubscribers(channels, false);
      var p := TellSubscribers(patterns, true);
      ghost var said := log;
      ghost var last := SayGoodbye();
      freed := true;
      Gained(start, Nulls(waiting), Partings(false, c), Partings(true, p), last, said, log);
      assert FarewellParts(log[|start|..], waiting, chans, pats, old(connected) && hasDisconnect, old(freeing) || !old(err), c, p, last);
    }

    /** The disconnect callback; freeing by the user counts as a clean disconnect. */
    method SayGoodbye() returns (ghost last: seq<Note>)
      requires Idle() && Closing()
      modifies this
      ensures Idle() && Closing() && Frozen() && ran == old(ran) && Still() && log == old(log) + last
      ensures last == if connected && hasDisconnect then [Disconnected(old(freeing) || !err)] else []
      decreases 1, 3
    {
      last := [];
      assert log + [] == log;
      if connected {
        last := if hasDisconnect then [Disconnected(freeing || !err)] else [];
        RunUser(hasDisconnect, Disconnected(freeing || !err));
      }
    }

    /** The two loops over the queues. */
    method Drain()
      requires Idle() && Closing()
      modifies this
      ensures Idle() && Closing() && ran == issued == old(issued) && replies == subReplies == [] && Still()
      ensures channels == old(channels) && patterns == old(patterns)
      ensures log == old(log) + Nulls(old(Waiting()))
      decreases 1, 3
    {
      DrainReplies(log + Nulls(Waiting()));
      DrainSubReplies(old(log) + Nulls(old(Waiting())));
    }

    method DrainReplies(ghost all: seq<Note>)
      requires Idle() && Closing() && log + Nulls(Waiting()) == all
      modifies this
      ensures Idle() && Closing() && issued == old(issued) && replies == [] && Still()
      ensures channels == old(channels) && patterns == old(patterns) && log + Nulls(subReplies) == all
      decreases 1, 2
    {
      while replies != []
        invariant Idle() && Closing() && issued == old(issued) && Still() && channels == old(channels) && patterns == old(patterns)
        invariant log + Nulls(Waiting()) == all
        decreases |replies|
      {
        NextNull(log, replies, subReplies);
        var cb := ShiftReplies();
        RunCallback(cb, None);
      }
      assert Waiting() == subReplies;
    }

    method DrainSubReplies(ghost all: seq<Note>)
      requires Idle() && Closing() && replies == [] && log + Nulls(subReplies) == all
      modifies this
      ensures Idle() && Closing() && ran == issued == old(issued) && replies == subReplies == [] && Still()
      ensures channels == old(channels) && patterns == old(patterns) && log == all
      decreases 1, 2
    {
      while subReplies != []
        invariant Idle() && Closing() && replies == [] && issued == old(issued) && Still() && channels == old(channels) && patterns == old(patterns)
        invariant log + Nulls(subReplies) == all
        decreases |subReplies|
      {
        NextNull(log, subReplies, []);
        var cb := ShiftSubReplies();
        RunCallback(cb, None);
      }
      NoNulls(log);
    }

    /** Freeing changes no more than this. */
    twostate predicate Still()
      reads this
    {
      && err == old(err) && honest == old(honest) && aborted == old(aborted) && connected == old(connected)
      && (old(freeing) ==> freeing) && (old(disconnecting) ==> disconnecting)
    }

    /** The null reply for every entry of a table, in the order the dictionary happens to have. */
    method TellSubscribers(t: Table, ghost pattern: bool) returns (ghost told: seq<Name>)
      requires Idle() && Closing()
      modifies this
      ensures Idle() && Closing() && Frozen() && ran == old(ran) && Still()
      ensures turn == old(turn) + |told| && ToldAll(t, told) && log == old(log) + Partings(pattern, told)
      decreases 1, 3
    {
      var rest := t.Keys;
      told := [];
      assert ToldOrRest(t, told, rest);
      while rest != {}
        invariant rest <= t.Keys && turn == old(turn) + |told| && log == old(log) + Partings(pattern, told)
        invariant ToldOrRest(t, told, rest)
        invariant Idle() && Closing() && Frozen() && ran == old(ran) && Still()
        decreases |rest|
      {
        var n :| n in rest;
        ToldOne(t, told, rest, n);
        rest := rest - {n};
        told := TellOne(t, n, pattern, told, old(log));
      }
    }

    /** The null reply for one of them. */
    method TellOne(t: Table, n: Name, ghost pattern: bool, ghost told: seq<Name>, ghost start: seq<Note>) returns (ghost told': seq<Name>)
      requires Idle() && Closing() && n in t && log == start + Partings(pattern, told)
      modifies this
      ensures Idle() && Closing() && Frozen() && ran == old(ran) && Still()
      ensures told' == (told + if t[n].fn then [n] else []) && turn == old(turn) + |told'| - |told|
      ensures log == start + Partings(pattern, told')
      decreases 1, 2
    {
      NextParting(start, pattern, told, n);
      told' := told + if t[n].fn then [n] else [];
      RunUser(t[n].fn, Message(pattern, n, None));
    }

    /** The callbacks that freeing the context runs have run. */
    twostate predicate Gone(clean: bool)
      reads this
    {
      old(log) <= log && Farewell(log[|old(log)|..], old(Waiting()), old(channels), old(patterns), old(connected) && hasDisconnect, clean)
    }

    twostate predicate GoneCleanly()
      reads this
    {
      Gone(true)
    }

    /** redisAsyncFree: at once, or by whoever runs the current callback. */
    method AsyncFree()
      requires Valid() && !freed && (inCallback || inFlight == [])
      modifies this
      ensures Valid() && freeing
      ensures old(inCallback) ==> OnlyClosing()
      ensures !old(inCallback) ==> freed && Settled() && issued == old(issued) && honest == old(honest) && aborted == old(aborted)
      ensures !old(inCallback) ==> GoneCleanly() && connected == old(connected)
      decreases if inCallback then 0 else 1, 5
    {
      freeing := true;
      if !inCallback {
        FreeContext();
      }
    }

    /** __redisAsyncDisconnect: a clean disconnect leaves no callback behind, an unclean one refuses new commands. */
    method DisconnectNow()
      requires Idle() && (err || (replies == [] && disconnecting))
      modifies this
      ensures Settled() && issued == old(issued) && honest == old(honest) && aborted == old(aborted) && disconnecting
      ensures freed <==> !old(noAutoFree)
      ensures !freed ==> ran == old(ran) && replies == old(replies) && noAutoFree
      ensures err == old(err) && connected == old(connected) && (old(replies) == [] ==> replies == [])
      ensures if freed then Gone(old(freeing) || !old(err)) else log == old(log)
      decreases 1, 5
    {
      if err {
        disconnecting := true;
      }
      if !noAutoFree {
        FreeContext();
      }
    }

    /** redisAsyncDisconnect. */
    method AsyncDisconnect()
      requires Valid() && !freed && (inCallback || inFlight == [])
      modifies this
      ensures Valid() && disconnecting
      ensures old(inCallback) ==> OnlyClosing()
      ensures !old(inCallback) ==> Settled() && issued == old(issued) && honest == old(honest) && aborted == old(aborted)
      ensures !old(inCallback) ==> (freed <==> old(replies) == [])
      ensures !old(inCallback) ==> if freed then Gone(old(freeing) || !old(err)) else log == old(log) && ran == old(ran) && replies == old(replies)
      ensures !old(inCallback) ==> connected == old(connected)
      decreases if inCallback then 0 else 1, 6
    {
      disconnecting := true;
      noAutoFree := false;
      if !inCallback && replies == [] {
        DisconnectNow();
      }
    }

    // ---- replies ----

    /** Keeps the account of acknowledgements; the server is honest while it acknowledges only what it was asked to. */
    ghost method Acknowledge(r: Reply)
      requires Valid()
      modifies this`honest, this`unackedChannels, this`unackedPatterns
      ensures Valid() && (honest ==> old(honest))
      ensures honest && IsAck(r) ==> r.name.Some? && Acknowledged(r)
    {
      if IsAck(r) {
        if r.name.None? {
          honest := false;
        } else if PatternVariant(r.word) {
          AcknowledgePattern(r.name.value);
        } else {
          AcknowledgeChannel(r.name.value);
        }
      }
    }

    ghost method AcknowledgeChannel(n: Name)
      requires Valid()
      modifies this`honest, this`unackedChannels
      ensures Valid() && (honest ==> old(honest))
      ensures honest ==> n in channels && unackedChannels[n] < channels[n].pendingSubs
    {
      if honest && n in unackedChannels {
        AckTracks(channels, unackedChannels, n);
      } else {
        honest := false;
      }
      unackedChannels := unackedChannels - multiset{n};
    }

    ghost method AcknowledgePattern(n: Name)
      requires Valid()
      modifies this`honest, this`unackedPatterns
      ensures Valid() && (honest ==> old(honest))
      ensures honest ==> n in patterns && unackedPatterns[n] < patterns[n].pendingSubs
    {
      if honest && n in unackedPatterns {
        AckTracks(patterns, unackedPatterns, n);
      } else {
        honest := false;
      }
      unackedPatterns := unackedPatterns - multiset{n};
    }

    /** The entry of an acknowledged subscription still counts it. */
    ghost predicate Acknowledged(r: Reply)
      requires r.name.Some?
      reads this`channels, this`patterns, this`unackedChannels, this`unackedPatterns
    {
      var n := r.name.value;
      if PatternVariant(r.word) then n in patterns && unackedPatterns[n] < patterns[n].pendingSubs
      else n in channels && unackedChannels[n] < channels[n].pendingSubs
    }

    /** A SUBSCRIBE acknowledgement: the entry must exist and counts one less. */
    method CountAck(pattern: bool, n: Name)
      requires Valid() && (if pattern then n in patterns else n in channels)
      requires honest ==> if pattern then unackedPatterns[n] < patterns[n].pendingSubs else unackedChannels[n] < channels[n].pendingSubs
      modifies this`channels, this`patterns
      ensures Valid()
      ensures channels == if pattern then old(channels) else Acked(old(channels), n)
      ensures patterns == if pattern then Acked(old(patterns), n) else old(patterns)
    {
      if pattern {
        patterns := Acked(patterns, n);
      } else {
        channels := Acked(channels, n);
      }
    }

    /** An UNSUBSCRIBE reply drops an entry no subscription is pending for. */
    method DropEntry(pattern: bool, name: Option<Name>)
      requires Valid()
      modifies this`channels, this`patterns, this`pendingUnsubs
      ensures Valid()
      ensures channels == if pattern then old(channels) else Dropped(old(channels), name)
      ensures patterns == if pattern then Dropped(old(patterns), name) else old(patterns)
      ensures pendingUnsubs == old(pendingUnsubs) - if name.None? || name.value !in old(if pattern then patterns else channels) then 1 else 0
    {
      var t := if pattern then patterns else channels;
      if name.None? || name.value !in t {
        pendingUnsubs := pendingUnsubs - 1;
      } else if t[name.value].pendingSubs == 0 {
        if pattern {
          patterns := Dropped(patterns, name);
        } else {
          channels := Dropped(channels, name);
        }
      }
    }

    /** No subscription is left, here or at the server, and none of its replies is to come. */
    predicate NothingSubscribed(count: int)
      reads this`channels, this`patterns, this`pendingUnsubs
    {
      count == 0 && channels == map[] && patterns == map[] && pendingUnsubs == 0
    }

    /** Back to normal mode once nothing is subscribed: the commands issued meanwhile keep their order. */
    method LeaveSubscribedMode(count: int)
      requires Valid() && replies == []
      modifies this`subscribed, this`replies, this`subReplies
      ensures Valid() && replies + subReplies == old(replies + subReplies)
      ensures if NothingSubscribed(count) then !subscribed && subReplies == [] else subscribed == old(subscribed) && replies == []
    {
      if count == 0 && |channels| == 0 && |patterns| == 0 && pendingUnsubs == 0 {
        subscribed := false;
        while subReplies != []
          invariant QueuesValid() && replies + subReplies == old(replies + subReplies) && !subscribed
          decreases |subReplies|
        {
          replies, subReplies := replies + [subReplies[0]], subReplies[1..];
        }
      }
    }

    /** The table a pub/sub message is about. */
    function TableOf(r: Reply): Table
      reads this`channels, this`patterns
    {
      if PatternVariant(r.word) then patterns else channels
    }

    /** The subscription of a pub/sub message has a callback. */
    predicate Listening(r: Reply)
      reads this`channels, this`patterns
    {
      r.name.Some? && r.name.value in TableOf(r) && TableOf(r)[r.name.value].fn
    }

    /** The assertion that an acknowledged subscription has an entry fails. */
    predicate Unexpected(r: Reply)
      reads this`channels, this`patterns
    {
      Stem(r.word) == "subscribe" && (r.name.None? || r.name.value !in TableOf(r))
    }

    /** What a pub/sub message leaves of its table: one pending subscription less, one entry less, or no change. */
    function TableAfter(r: Reply): Table
      reads this`channels, this`patterns
    {
      if Unexpected(r) then TableOf(r)
      else if Stem(r.word) == "subscribe" then Acked(TableOf(r), r.name.value)
      else if Stem(r.word) == "unsubscribe" then Dropped(TableOf(r), r.name)
      else TableOf(r)
    }

    /** __redisGetSubscribeCallback for a pub/sub message; says whether the subscription has a callback to run. */
    method PubSubMessage(r: Reply) returns (fn: bool)
      requires Valid() && replies == []
      requires honest && IsAck(r) ==> r.name.Some? && Acknowledged(r)
      requires IsPubSub(r, supportsPush)
      modifies this`channels, this`patterns, this`pendingUnsubs, this`subscribed, this`replies, this`subReplies, this`aborted
      ensures Valid() && replies + subReplies == old(replies + subReplies)
      ensures honest ==> aborted == old(aborted)
      ensures fn == old(Listening(r)) && (aborted <==> old(aborted) || old(Unexpected(r)))
      ensures TableOf(r) == old(TableAfter(r))
      ensures if PatternVariant(r.word) then channels == old(channels) else patterns == old(patterns)
      ensures pendingUnsubs == old(pendingUnsubs) - if Stem(r.word) == "unsubscribe" && (r.name.None? || r.name.value !in old(TableOf(r))) then 1 else 0
      ensures if Stem(r.word) == "unsubscribe" && NothingSubscribed(r.count) then !subscribed && subReplies == [] else subscribed == old(subscribed) && replies == []
    {
      var pattern := PatternVariant(r.word);
      var t := if pattern then patterns else channels;
      fn := r.name.Some? && r.name.value in t && t[r.name.value].fn;
      if Stem(r.word) == "subscribe" {
        // the assertion that the entry exists
        if r.name.None? || r.name.value !in t {
          aborted := true;
          return;
        }
        CountAck(pattern, r.name.value);
      } else if Stem(r.word) == "unsubscribe" {
        DropSubscription(pattern, r);
      }
    }

    /** An UNSUBSCRIBE reply: its entry may go, and with the last one the subscribed mode. */
    method DropSubscription(pattern: bool, r: Reply)
      requires Valid() && replies == []
      modifies this`channels, this`patterns, this`pendingUnsubs, this`subscribed, this`replies, this`subReplies
      ensures Valid() && replies + subReplies == old(replies + subReplies)
      ensures channels == if pattern then old(channels) else Dropped(old(channels), r.name)
      ensures patterns == if pattern then Dropped(old(patterns), r.name) else old(patterns)
      ensures pendingUnsubs == old(pendingUnsubs) - if r.name.None? || r.name.value !in old(if pattern then patterns else channels) then 1 else 0
      ensures if NothingSubscribed(r.count) then !subscribed && subReplies == [] else subscribed == old(subscribed) && replies == []
    {
      DropEntry(pattern, r.name);
      LeaveSubscribedMode(r.count);
    }

    /** The unanswered regular commands, in issue order. */
    ghost function Waiting(): seq<Callback>
      reads this`replies, this`subReplies
    {
      replies + subReplies
    }

    /**
     * Whether a reply goes to a regular command. Once the queue of normal mode is empty, arrays look like pub/sub
     * messages and errors look like a refused connection, whatever command they answer.
     */
    ghost predicate GoesToCommand(r: Reply)
      reads this`replies, this`supportsPush
    {
      !IsSpontaneousPush(r) && (replies != [] || !(IsPubSub(r, supportsPush) || r.form == ErrorForm))
    }

    /** The regular command a reply answers, if any: the oldest one. */
    ghost function Answered(r: Reply): seq<Callback>
      reads this
    {
      if GoesToCommand(r) && Waiting() != [] then [Waiting()[0]] else []
    }

    /** The user callback that a reply runs: of the push handler, of the command it answers, or of a subscription. */
    ghost function Heard(r: Reply): seq<Note>
      reads this
    {
      if IsSpontaneousPush(r) then (if hasPush then [Pushed(r)] else [])
      else if GoesToCommand(r) then (if Waiting() != [] then Calls(Waiting()[0], Some(r)) else [])
      else if r.form != ErrorForm && Listening(r) then [Message(PatternVariant(r.word), r.name.value, Some(r))]
      else []
    }

    /**
     * What one reply does: it answers what it has to and runs the callback that is to hear it, before anything else;
     * other commands of normal mode stay in the queue.
     */
    ghost predicate Handled(answered: seq<Callback>, heard: seq<Note>, others: seq<Callback>, issued0: seq<Callback>, ran0: seq<Callback>, log0: seq<Note>)
      reads this
    {
      && Settled() && issued0 <= issued
      && ran0 + answered <= ran && log0 + heard <= log
      && (!freed ==> ran == ran0 + answered && log == log0 + heard && others <= replies)
    }

    /** The commands of normal mode that a reply does not answer. */
    ghost function Others(r: Reply): seq<Callback>
      reads this`replies
    {
      if IsSpontaneousPush(r) || replies == [] then replies else replies[1..]
    }

    /** One turn of the loop in redisProcessCallbacks. */
    method Dispatch(r: Reply)
      requires Idle() && !aborted
      modifies this
      ensures Handled(old(Answered(r)), old(Heard(r)), old(Others(r)), old(issued), old(ran), old(log)) && (honest ==> old(honest))
      ensures r.form == ErrorForm && old(replies) == [] ==> err && disconnecting && (freed <==> !old(noAutoFree))
      decreases 1, 9
    {
      NotePush(r);
      Route(r);
    }

    /** Before a reply is looked at: push messages show that the server supports them. */
    method NotePush(r: Reply)
      requires Idle() && !aborted
      modifies this`supportsPush, this`honest, this`unackedChannels, this`unackedPatterns
      ensures Idle() && (honest ==> old(honest)) && (r.form == Push ==> supportsPush)
      ensures Answered(r) == old(Answered(r)) && Heard(r) == old(Heard(r))
      ensures honest && IsAck(r) ==> r.name.Some? && Acknowledged(r)
    {
      Acknowledge(r);
      if r.form == Push {
        supportsPush := true;
      }
    }

    method Route(r: Reply)
      requires Idle() && !aborted && (r.form == Push ==> supportsPush)
      requires honest && IsAck(r) ==> r.name.Some? && Acknowledged(r)
      modifies this
      ensures Handled(old(Answered(r)), old(Heard(r)), old(Others(r)), old(issued), old(ran), old(log)) && honest == old(honest)
      ensures r.form == ErrorForm && old(replies) == [] ==> err && disconnecting && (freed <==> !old(noAutoFree))
      decreases 1, 8
    {
      if IsSpontaneousPush(r) {
        RunUser(hasPush, Pushed(r));
      } else if replies != [] {
        var cb := ShiftReplies();
        Deliver(cb, r);
      } else if r.form == ErrorForm {
        err := true;
        DisconnectNow();
        assert old(ran) <= old(issued);
      } else if subscribed {
        DispatchSubscribed(r);
      }
    }

    /** A reply in subscribed mode with no regular command left from before it. */
    method DispatchSubscribed(r: Reply)
      requires Idle() && !aborted && subscribed && replies == [] && r.form != ErrorForm && !IsSpontaneousPush(r)
      requires honest && IsAck(r) ==> r.name.Some? && Acknowledged(r)
      modifies this
      ensures Handled(old(Answered(r)), old(Heard(r)), old(Others(r)), old(issued), old(ran), old(log)) && honest == old(honest)
      decreases 1, 7
    {
      if IsPubSub(r, supportsPush) {
        Publish(r);
      } else if subReplies != [] {
        var cb := ShiftSubReplies();
        Deliver(cb, r);
      }
    }

    /** A pub/sub message, and the callback of its subscription. */
    method Publish(r: Reply)
      requires Idle() && !aborted && replies == [] && IsPubSub(r, supportsPush)
      requires honest && IsAck(r) ==> r.name.Some? && Acknowledged(r)
      modifies this
      ensures Settled() && old(issued) <= issued && honest == old(honest) && old(ran) <= ran && (!freed ==> ran == old(ran))
      ensures var heard := if old(Listening(r)) then [Message(PatternVariant(r.word), r.name.value, Some(r))] else [];
              old(log) + heard <= log && (!freed ==> log == old(log) + heard)
      decreases 1, 6
    {
      var fn := PubSubMessage(r);
      if !aborted && fn {
        RunUser(true, Message(PatternVariant(r.word), r.name.value, Some(r)));
        FinishFree();
      }
    }

    /** Runs the callback of a regular command and then carries out a redisAsyncFree it asked for. */
    method Deliver(cb: Callback, ghost r: Reply)
      requires Valid() && !freed && !inCallback && inFlight == [cb] && !aborted
      modifies this
      ensures Settled() && old(issued) <= issued && honest == old(honest)
      ensures old(ran) + [cb] <= ran && (!freed ==> ran == old(ran) + [cb])
      ensures old(log) + Calls(cb, Some(r)) <= log && (!freed ==> log == old(log) + Calls(cb, Some(r)) && old(replies) <= replies)
      decreases 1, 6
    {
      RunCallback(cb, Some(r));
      if cb.fn {
        FinishFree();
      }
    }

    method FinishFree()
      requires Idle()
      modifies this
      ensures Settled() && issued == old(issued) && honest == old(honest) && aborted == old(aborted)
      ensures old(ran) <= ran && (!freed ==> ran == old(ran) && replies == old(replies))
      ensures old(log) <= log && (!freed ==> log == old(log))
      decreases 1, 5
    {
      if freeing {
        assert ran <= issued;
        FreeContext();
      }
    }

    // ---- events ----

    /**
     * The first `done` replies have been handled, one after the other: answered and heard say what each of them did, and
     * together that is what ran and log gained.
     */
    ghost predicate HandledAll(ran0: seq<Callback>, log0: seq<Note>, arrived: seq<Reply>, done: nat, answered: seq<seq<Callback>>, heard: seq<seq<Note>>)
      reads this`ran, this`log, this`freed
    {
      && done == |answered| == |heard| && done <= |arrived|
      && ran0 + Flat(answered) <= ran && (!freed ==> ran == ran0 + Flat(answered))
      && log0 + Flat(heard) <= log && (!freed ==> log == log0 + Flat(heard))
      && forall i :: 0 <= i < done ==> DoesOneThing(arrived[i], answered[i], heard[i], hasPush)
    }

    /** As long as no more replies than waiting commands arrive, the commands are answered in order. */
    ghost predicate AnsweredInOrder(ran0: seq<Callback>, waiting: seq<Callback>, arrived: seq<Reply>)
      reads this`ran, this`freed
    {
      Regulars(arrived) <= |waiting| ==>
        ran0 + waiting[..Regulars(arrived)] <= ran && (!freed ==> ran == ran0 + waiting[..Regulars(arrived)])
    }

    /** The other commands are still waiting. */
    ghost predicate OthersWait(waiting: seq<Callback>, arrived: seq<Reply>)
      reads this`replies
    {
      Regulars(arrived) <= |waiting| ==> waiting[Regulars(arrived)..] <= replies
    }

    /** The next reply. */
    method HandleNext(r: Reply, ghost before: seq<Reply>, ghost ran0: seq<Callback>, ghost log0: seq<Note>, ghost waiting: seq<Callback>,
                      ghost answered: seq<seq<Callback>>, ghost heard: seq<seq<Note>>)
      returns (ghost answered': seq<seq<Callback>>, ghost heard': seq<seq<Note>>)
      requires Idle() && !aborted && HandledAll(ran0, log0, before, |before|, answered, heard)
      requires AnsweredInOrder(ran0, waiting, before) && OthersWait(waiting, before)
      modifies this
      ensures Settled() && old(issued) <= issued && (honest ==> old(honest))
      ensures HandledAll(ran0, log0, before + [r], |before| + 1, answered', heard')
      ensures AnsweredInOrder(ran0, waiting, before + [r]) && (!freed ==> OthersWait(waiting, before + [r]))
      decreases 2, 0
    {
      ghost var a, h, was := Answered(r), Heard(r), ran;
      DoesOne(this, r);
      OneMoreRegular(before, r, waiting, ran0);
      if Regulars(before + [r]) <= |waiting| && !IsSpontaneousPush(r) {
        NextWaiting(waiting, Regulars(before), replies);
      }
      Dispatch(r);
      answered', heard' := answered + [a], heard + [h];
      FlatSnoc(answered, a);
      FlatSnoc(heard, h);
      FlatGrows(ran0, Flat(answered), a);
      FlatGrows(log0, Flat(heard), h);
    }

    /**
     * redisProcessCallbacks for the replies that have arrived; `failed` is a read or protocol error. Every reply up to
     * the first that frees or aborts is handled.
     */
    method ProcessCallbacks(arrived: seq<Reply>, failed: bool)
      returns (ghost done: nat, ghost answered: seq<seq<Callback>>, ghost heard: seq<seq<Note>>)
      requires Idle() && !aborted
      modifies this
      ensures Settled() && old(issued) <= issued && (honest ==> old(honest))
      ensures HandledAll(old(ran), old(log), arrived, done, answered, heard) && (done == |arrived| || freed || aborted)
      ensures AnsweredInOrder(old(ran), old(replies), arrived[..done])
      ensures failed && !freed && !aborted ==> err && disconnecting
      ensures !freed && !aborted && disconnecting && obuf == 0 && replies == [] ==> failed || noAutoFree
      decreases 2, 1
    {
      done, answered, heard := 0, [], [];
      var i := 0;
      assert arrived[..0] == [] && old(ran) + [] == ran && old(log) + [] == log;
      while i < |arrived|
        invariant 0 <= i == done <= |arrived| && Idle() && !aborted && old(issued) <= issued && (honest ==> old(honest))
        invariant HandledAll(old(ran), old(log), arrived[..i], i, answered, heard)
        invariant AnsweredInOrder(old(ran), old(replies), arrived[..i]) && OthersWait(old(replies), arrived[..i])
      {
        assert arrived[..i] + [arrived[i]] == arrived[..i + 1];
        answered, heard := HandleNext(arrived[i], arrived[..i], old(ran), old(log), old(replies), answered, heard);
        i, done := i + 1, i + 1;
        if freed || aborted {
          return;
        }
      }
      if failed {
        err := true;
        Leave();
      } else if disconnecting && obuf == 0 && replies == [] {
        Leave();
      }
    }

    /** __redisAsyncDisconnect after all replies. */
    method Leave()
      requires Idle() && (err || (replies == [] && disconnecting))
      modifies this
      ensures Settled() && issued == old(issued) && honest == old(honest) && aborted == old(aborted) && disconnecting && err == old(err)
      ensures old(ran) <= ran && old(log) <= log && (!freed ==> ran == old(ran) && log == old(log) && replies == old(replies) && noAutoFree)
      ensures (freed <==> !old(noAutoFree)) && connected == old(connected) && (old(replies) == [] ==> replies == [])
      decreases 2, 0
    {
      assert ran <= issued;
      DisconnectNow();
    }

    /** The call of the connect callback, if there is one. */
    ghost function ConnectNotes(ok: bool): seq<Note> { if hasConnect then [Connected(ok)] else [] }

    /** __redisAsyncHandleConnect: returns whether the caller may go on with the context. */
    method HandleConnect(outcome: Connect) returns (ok: bool)
      requires Idle() && !aborted && !connected
      modifies this
      ensures Settled() && old(issued) <= issued && honest == old(honest) && !aborted
      ensures ok ==> !freed
      ensures outcome == InProgress ==> ok && Frozen() && ran == old(ran) && log == old(log) && connected == old(connected)
      ensures outcome == Completed ==> connected && (ok <==> !freeing && !disconnecting) && old(log) + ConnectNotes(true) <= log
      ensures outcome == Completed && !freed ==> ran == old(ran) && log == old(log) + ConnectNotes(true) && old(replies) <= replies
      ensures outcome in {Failed, NoDelayFailed} ==> !ok && err && disconnecting && old(log) + ConnectNotes(false) <= log
      ensures old(ran) <= ran
      decreases 2, 1
    {
      if outcome == Failed || outcome == NoDelayFailed {
        err := true;
        RunUser(hasConnect, Connected(false));
        Leave();
        return false;
      }
      if outcome == InProgress {
        return true;
      }
      connected := true;
      RunUser(hasConnect, Connected(true));
      ok := !disconnecting && !freeing;
      assert ran <= issued;
      if disconnecting {
        AsyncDisconnect();
      } else if freeing {
        AsyncFree();
      }
    }

    /** redisAsyncHandleRead: connects if need be, and then handles all replies that have arrived. */
    method HandleRead(outcome: Connect, readFailed: bool, arrived: seq<Reply>, parseFailed: bool)
      returns (ghost done: nat, ghost answered: seq<seq<Callback>>, ghost heard: seq<seq<Note>>)
      requires Idle() && !aborted
      modifies this
      ensures Settled() && old(issued) <= issued && (honest ==> old(honest))
      ensures old(connected) ==> HandledAll(old(ran), old(log), arrived, done, answered, heard)
      ensures old(connected) && !readFailed ==> done == |arrived| || freed || aborted
      ensures old(connected) && !readFailed ==> AnsweredInOrder(old(ran), old(replies), arrived[..done])
      ensures old(connected) && readFailed ==> err && disconnecting
      ensures !old(connected) && outcome == Completed ==> HandledAll(old(ran), old(log) + ConnectNotes(true), arrived, done, answered, heard)
      ensures !old(connected) && outcome == Completed && !readFailed ==> done == |arrived| || freed || aborted || disconnecting || freeing
      ensures !old(connected) && outcome != Completed ==> done == 0 && (outcome == InProgress ==> Frozen() && log == old(log))
      decreases 2, 2
    {
      done, answered, heard := 0, [], [];
      if !connected {
        var ok := HandleConnect(outcome);
        NothingHandled(old(ran), old(log) + ConnectNotes(true));
        if !ok || !connected {
          return;
        }
      }
      NothingHandled(ran, log);
      if readFailed {
        err := true;
        Leave();
      } else {
        done, answered, heard := ProcessCallbacks(arrived, parseFailed);
      }
    }

    lemma NothingHandled(ran0: seq<Callback>, log0: seq<Note>)
      ensures ran0 + Flat([]) == ran0 && log0 + Flat([]) == log0
    {
    }

    /** redisAsyncHandleWrite; `left` is what the socket did not take. */
    method HandleWrite(outcome: Connect, writeFailed: bool, left: nat)
      requires Idle() && !aborted
      modifies this
      ensures Settled() && old(issued) <= issued && honest == old(honest)
      ensures old(connected) && writeFailed ==> err && disconnecting && (freed <==> !old(noAutoFree))
      ensures old(connected) && !writeFailed ==>
                obuf == (if left <= old(obuf) then left else old(obuf)) && Frozen() && ran == old(ran) && log == old(log) && freed == old(freed)
      ensures !old(connected) && outcome == Completed ==> connected && old(log) + ConnectNotes(true) <= log
      decreases 2, 2
    {
      if !connected {
        var ok := HandleConnect(outcome);
        if !ok || !connected {
          return;
        }
      }
      if writeFailed {
        err := true;
        Leave();
      } else if left <= obuf {
        obuf := left;
      }
    }

    /** There is something to time out. */
    predicate Overdue(hasTimeout: bool)
      reads this`connected, this`replies, this`subReplies
    {
      !connected || (hasTimeout && (replies != [] || subReplies != []))
    }

    /**
     * redisAsyncHandleTimeout. Callbacks may keep issuing commands here, so the loop over the queue is followed for
     * at most `steps` callbacks; `finished` says whether it came to its end. The commands in cbs get null replies.
     */
    method HandleTimeout(hasTimeout: bool, steps: nat) returns (finished: bool, ghost cbs: seq<Callback>)
      requires Idle() && !aborted
      modifies this
      ensures Settled() && old(issued) <= issued && honest == old(honest) && !aborted
      ensures !finished ==> !freed
      ensures !old(Overdue(hasTimeout)) ==> finished && Frozen() && ran == old(ran) && log == old(log) && freed == old(freed)
      ensures finished && old(Overdue(hasTimeout)) ==> err && disconnecting && replies == [] && issued == ran + subReplies
      ensures old(Overdue(hasTimeout)) ==>
                && old(ran) + cbs <= ran && (if old(connected) then old(log) else old(log) + ConnectNotes(false)) + Nulls(cbs) <= log
                && (steps >= |old(replies)| ==> old(replies) <= cbs)
      decreases 2, 2
    {
      cbs := [];
      if connected && ((replies == [] && subReplies == []) || !hasTimeout) {
        return true, [];
      }
      err := true;
      if !connected {
        RunUser(hasConnect, Connected(false));
      }
      cbs := RunPending(steps);
      if replies != [] {
        return false, cbs;
      }
      Leave();
      OnlySubRepliesLeft();
      finished := true;
    }

    lemma OnlySubRepliesLeft()
      requires QueuesValid() && inFlight == [] && replies == []
      ensures issued == ran + subReplies
    {
      assert ran + [] + [] == ran;
    }

    /** The loop over the regular queue. */
    method RunPending(steps: nat) returns (ghost cbs: seq<Callback>)
      requires Idle() && !aborted && err
      modifies this
      ensures Idle() && !aborted && err && old(issued) <= issued && honest == old(honest)
      ensures ran == old(ran) + cbs && log == old(log) + Nulls(cbs)
      ensures forall a :: a <= old(replies) && |a| <= steps ==> a <= cbs
      decreases 2, 1
    {
      var k := steps;
      cbs := [];
      NoNulls(log);
      while replies != [] && k > 0
        invariant Idle() && !aborted && err && old(issued) <= issued && honest == old(honest) && k + |cbs| == steps
        invariant ran == old(ran) + cbs && log == old(log) + Nulls(cbs) && old(replies) <= cbs + replies
        decreases k
      {
        NullsSnoc(old(log), cbs, replies[0]);
        assert cbs + replies == (cbs + [replies[0]]) + replies[1..];
        var cb := ShiftReplies();
        RunCallback(cb, None);
        cbs := cbs + [cb];
        k := k - 1;
      }
      assert replies == [] ==> cbs + replies == cbs;
      forall a | a <= old(replies) && |a| <= steps
        ensures a <= cbs
      {
        assert |a| <= |cbs| && a <= cbs + replies;
      }
    }

    /** One call from outside: the application between events, or the event loop. */
    method Step(event: Event) returns (finished: bool)
      requires Idle() && !aborted
      modifies this
      ensures Settled() && old(issued) <= issued && (honest ==> old(honest))
      ensures !finished ==> !freed
      ensures event == Call(Free) ==> freed
      ensures event == Call(Disconnect) ==> disconnecting && (freed <==> old(replies) == [])
      ensures event.Call? && event.action.Issue? && !old(Closing()) && IsRegular(event.action.command) ==>
                issued == old(issued) + [Callback(|old(issued)|, event.action.command.fn)]
      ensures event.Readable? && old(connected) && !event.readFailed && !freed && !aborted ==> AnsweredInOrder(old(ran), old(replies), event.arrived)
      ensures event.Writable? && old(connected) && event.writeFailed ==> err && disconnecting
      ensures event.TimedOut? && old(Overdue(event.hasTimeout)) && event.steps >= |old(replies)| ==> old(ran) + old(replies) <= ran
      decreases 2, 3
    {
      finished := true;
      match event {
        case Call(Issue(c)) =>
          var _ := AsyncCommand(c);
        case Call(Free) =>
          AsyncFree();
        case Call(Disconnect) =>
          AsyncDisconnect();
        case Readable(outcome, readFailed, arrived, parseFailed) =>
          var done, answered, heard := HandleRead(outcome, readFailed, arrived, parseFailed);
          assert done == |arrived| ==> arrived[..done] == arrived;
        case Writable(outcome, writeFailed, left) =>
          HandleWrite(outcome, writeFailed, left);
        case TimedOut(hasTimeout, steps) =>
          ghost var cbs;
          finished, cbs := HandleTimeout(hasTimeout, steps);
      }
    }

    /**
     * A whole run, for every sequence of events and every behaviour of the callbacks. Each accepted command's callback
     * runs at most once and in issue order; when the context is freed all of them have run; the context is freed
     * once and outside callbacks; and if the server acknowledged only what it was asked to, no assertion about an
     * acknowledgement fails. The run goes on until the context is freed or aborted, or a timeout does not come to its end.
     */
    method Run(events: seq<Event>) returns (ghost taken: nat, ghost finished: bool)
      requires Idle() && issued == [] && honest && !aborted
      modifies this
      ensures Valid() && !inCallback && inFlight == []
      ensures ran <= issued && forall i, j :: 0 <= i < j < |ran| ==> ran[i].id < ran[j].id
      ensures freed ==> ran == issued
      ensures honest ==> !aborted
      ensures channels != map[] || patterns != map[] || subReplies != [] ==> subscribed
      ensures taken <= |events| && (taken == |events| || freed || aborted || !finished)
      ensures forall k :: 0 <= k < taken && events[k] == Call(Free) ==> freed
    {
      var going := true;
      taken := 0;
      for k := 0 to |events|
        invariant Settled() && taken == k && (going || !freed)
        invariant forall m :: 0 <= m < k && events[m] == Call(Free) ==> freed
      {
        if freed || aborted || !going {
          break;
        }
        going := Step(events[k]);
        taken := k + 1;
      }
      finished := going;
      assert issued[..|ran|] == ran;
    }
  }

  /** Exactly which replies reach the oldest unanswered command. */
  lemma AnswersOldest(c: AsyncContext, r: Reply)
    requires c.Valid() && c.Waiting() != []
    ensures c.Answered(r) == [c.Waiting()[0]] <==>
              !IsSpontaneousPush(r) && (c.replies != [] || !(IsPubSub(r, c.supportsPush) || r.form == ErrorForm))
  {
  }

  method SubscribedContext(name: Name, behaviour: nat -> seq<Action>) returns (c: AsyncContext)
    ensures fresh(c) && c.Idle() && !c.Closing() && !c.aborted && !c.noAutoFree && c.subscribed
    ensures c.issued == c.replies == c.subReplies == []
  {
    c := new AsyncContext(false, false, false, false, behaviour);
    var _ := c.AsyncCommand(Subscribe(false, [name], true));
  }

  /** A context that subscribes to a channel and then issues a regular command. */
  method CommandWhileSubscribed(name: Name, behaviour: nat -> seq<Action>) returns (c: AsyncContext)
    ensures fresh(c) && c.Idle() && !c.aborted && !c.noAutoFree && c.replies == [] && c.subReplies == [Callback(0, true)]
  {
    c := SubscribedContext(name, behaviour);
    var _ := c.AsyncCommand(Regular(true));
    assert c.replies + c.subReplies == c.subReplies;
  }

  /**
   * If the reply to that command is an error, it answers nothing, and the connection is closed as if the server had
   * refused it.
   */
  method ErrorWhileSubscribed(name: Name, behaviour: nat -> seq<Action>)
    returns (c: AsyncContext, ghost waiting: seq<Callback>, ghost answered: seq<Callback>)
    ensures waiting == [Callback(0, true)] && answered == []
    ensures fresh(c) && c.freed && c.err && c.ran == c.issued
  {
    var error := Reply(ErrorForm, "", None, 0);
    c := CommandWhileSubscribed(name, behaviour);
    waiting, answered := c.Waiting(), c.Answered(error);
    c.Dispatch(error);
  }

  lemma DoesOne(c: AsyncContext, r: Reply)
    ensures DoesOneThing(r, c.Answered(r), c.Heard(r), c.hasPush)
  {
  }

  lemma OneMoreRegular(before: seq<Reply>, r: Reply, waiting: seq<Callback>, ran0: seq<Callback>)
    ensures Regulars(before + [r]) == Regulars(before) + if IsSpontaneousPush(r) then 0 else 1
  {
    assert (before + [r])[..|before|] == before;
  }

  lemma NextWaiting(waiting: seq<Callback>, m: nat, replies: seq<Callback>)
    requires m < |waiting| && waiting[m..] <= replies
    ensures replies != [] && replies[0] == waiting[m] && waiting[..m] + [waiting[m]] == waiting[..m + 1] && waiting[m + 1..] <= replies[1..]
  {
    assert waiting[m..][0] == waiting[m];
    assert waiting[m..][1..] == waiting[m + 1..];
  }

  lemma NullsSnoc(start: seq<Note>, cbs: seq<Callback>, cb: Callback)
    ensures start + Nulls(cbs) + Calls(cb, None) == start + Nulls(cbs + [cb])
    decreases cbs
  {
    if cbs == [] {
      assert [cb][1..] == [] && Nulls([cb]) == Calls(cb, None) + [];
    } else {
      assert (cbs + [cb])[0] == cbs[0] && (cbs + [cb])[1..] == cbs[1..] + [cb];
      NullsSnoc(start, cbs[1..], cb);
      NullsSnoc([], cbs[1..], cb);
      assert [] + Nulls(cbs[1..]) + Calls(cb, None) == Nulls(cbs[1..]) + Calls(cb, None);
      assert [] + Nulls(cbs[1..] + [cb]) == Nulls(cbs[1..] + [cb]);
      assert start + Nulls(cbs) + Calls(cb, None) == start + (Calls(cbs[0], None) + (Nulls(cbs[1..]) + Calls(cb, None)));
    }
  }

  lemma NoNulls(start: seq<Note>)
    ensures start + Nulls([]) == start
  {
  }

  lemma NextNull(start: seq<Note>, a: seq<Callback>, b: seq<Callback>)
    requires a != []
    ensures start + Nulls(a + b) == start + Calls(a[0], None) + Nulls(a[1..] + b)
    ensures start + Nulls(a) == start + Calls(a[0], None) + Nulls(a[1..])
  {
    assert (a + b)[0] == a[0] && (a + b)[1..] == a[1..] + b;
    assert start + (Calls(a[0], None) + Nulls(a[1..] + b)) == start + Calls(a[0], None) + Nulls(a[1..] + b);
    assert start + (Calls(a[0], None) + Nulls(a[1..])) == start + Calls(a[0], None) + Nulls(a[1..]);
  }

  lemma NextParting(start: seq<Note>, pattern: bool, told: seq<Name>, n: Name)
    ensures start + Partings(pattern, told) + [Message(pattern, n, None)] == start + Partings(pattern, told + [n])
    ensures start + Partings(pattern, told) + [] == start + Partings(pattern, told) && told + [] == told
  {
    assert (told + [n])[..|told|] == told;
    assert start + Partings(pattern, told) + [Message(pattern, n, None)] == start + (Partings(pattern, told) + [Message(pattern, n, None)]);
  }

  lemma Gained(start: seq<Note>, a: seq<Note>, b: seq<Note>, c: seq<Note>, d: seq<Note>, said: seq<Note>, log: seq<Note>)
    requires said == start + a + b + c && log == said + d
    ensures start <= log && log[|start|..] == a + b + c + d
  {
  }

  /** SUBSCRIBE without arguments is an ordinary command; it earns an error reply. */
  predicate IsRegular(c: Command) { c.Regular? || (c.Subscribe? && c.names == []) }

  lemma AckTracks(t: Table, unacked: multiset<Name>, n: Name)
    requires Tracks(t, unacked) && n in unacked
    ensures Tracks(t, unacked - multiset{n}) && n in t && (unacked - multiset{n})[n] < t[n].pendingSubs
  {
  }
}
