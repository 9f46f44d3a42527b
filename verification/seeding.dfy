/** `Handler::ready` and the developer list it seeds: a sequential state
    machine over the connection counter and `DEVELOPERS`, driven by ready
    events that each carry the result of the application-info lookup. */
module Seeding {
  import opened Wrappers
  import opened Text
  import opened Config
  import opened Registry
  import opened Dispatcher

  /** `CONNECT_COUNT` is a `usize`, 64 bits wide; `fetch_add` wraps. */
  const WORD: nat := 0x1_0000_0000_0000_0000

  /** The activity the bot shows: watching "<help". */
  const ACTIVITY: string := PREFIX + "help"

  datatype State = State(connectCount: U64, developers: seq<UserId>)

  /** At start-up nobody has connected and the developer list is empty. */
  const INITIAL: State := State(0, [])

  /** One ready event. The counter goes up by one, wrapping at 2^64; only
      when it was 0 before is the application's owner looked up, and the
      owner is appended to the developer list when that lookup succeeded
      (`owner` is its result). */
  function OnReady(s: State, owner: Option<UserId>): (t: State)
    ensures t.connectCount == (s.connectCount + 1) % WORD
    ensures s.connectCount != 0 ==> t.developers == s.developers
    ensures s.connectCount == 0 ==>
      t.developers == s.developers + (if owner.Some? then [owner.value] else [])
  {
    var seed := s.connectCount == 0 && owner.Some?;
    State((s.connectCount + 1) % WORD, if seed then s.developers + [owner.value] else s.developers)
  }

  /** A run of ready events, in order. */
  function Run(s: State, owners: seq<Option<UserId>>): State
    decreases |owners|
  {
    if |owners| == 0 then s else Run(OnReady(s, owners[0]), owners[1..])
  }

  /** The counter counts the events, modulo 2^64. */
  lemma {:induction false} RunCounts(s: State, owners: seq<Option<UserId>>)
    ensures Run(s, owners).connectCount == (s.connectCount + |owners|) % WORD
    decreases |owners|
  {
    if |owners| > 0 {
      RunCounts(OnReady(s, owners[0]), owners[1..]);
    }
  }

  /** While the counter does not come back round to 0, ready events leave
      the developer list alone. */
  lemma {:induction false} LaterReadiesKeepDevelopers(s: State, owners: seq<Option<UserId>>)
    requires s.connectCount > 0 && s.connectCount + |owners| <= WORD
    ensures Run(s, owners).developers == s.developers
    decreases |owners|
  {
    if |owners| > 0 {
      var t := OnReady(s, owners[0]);
      if |owners| > 1 {
        assert t.connectCount == s.connectCount + 1;
        LaterReadiesKeepDevelopers(t, owners[1..]);
      }
    }
  }

  /** Over fewer than 2^64 events from start-up the developer list is the
      first lookup's owner, or empty when that lookup failed: reconnecting
      never adds anybody. */
  lemma SeededOnce(owners: seq<Option<UserId>>)
    requires 0 < |owners| <= WORD
    ensures Run(INITIAL, owners).developers ==
      (if owners[0].Some? then [owners[0].value] else [])
  {
    var t := OnReady(INITIAL, owners[0]);
    assert t.connectCount == 1;
    LaterReadiesKeepDevelopers(t, owners[1..]);
  }

  /** If the first lookup fails the list stays empty, so every message that
      reaches a developer command is rejected. */
  lemma FailedFirstLookupLocksOut(owners: seq<Option<UserId>>, m: Message)
    requires 0 < |owners| <= WORD && owners[0].None?
    requires Eligible(m) && CommandToken(m.content).Some?
    requires var c := Lookup(COMMANDS, CommandToken(m.content).value); c.Some? && IsDeveloper(c.value)
    ensures Decide(m, COMMANDS, Run(INITIAL, owners).developers) == Reject
  {
    SeededOnce(owners);
    EmptyDevelopersRejectAll(m, COMMANDS);
  }

  /** After 2^64 - 1 further events the counter wraps to 0, and the next
      event looks the owner up again and may add them a second time. */
  lemma CounterWraps(developers: seq<UserId>, owner: UserId)
    ensures OnReady(State(WORD - 1, developers), Some(owner)) == State(0, developers)
    ensures OnReady(State(0, developers), Some(owner)).developers == developers + [owner]
  {
  }

  /** The activity text is the help command's invocation. */
  lemma ActivityNamesHelp()
    ensures StripPrefix(Lower(ACTIVITY), PREFIX).Some?
    ensures Lookup(COMMANDS, StripPrefix(Lower(ACTIVITY), PREFIX).value) == Some(HELP)
  {
    assert Lower(ACTIVITY) == "<help";
    assert StripPrefix("<help", PREFIX) == Some("help");
    LookupByKey();
  }
}
