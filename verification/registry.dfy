/** The command registry of `cmds`: each command's name, description,
    category, aliases and usages, the `COMMANDS` list in its fixed order, and
    the name-or-alias lookup the dispatcher and Help share. */
module Registry {
  import opened Wrappers
  import opened Text

  /** `CommandCategory`. */
  datatype Category = Developer | General | Utility

  /** `CommandCategory::to_string`, the `Debug` name of the variant. */
  function CategoryName(c: Category): (r: string)
    ensures r != "" && 'A' <= r[0] <= 'Z'
    ensures CategoryFromName(r) == Some(c)
  {
    match c
    case Developer => "Developer"
    case General => "General"
    case Utility => "Utility"
  }

  /** The category a `Debug` name stands for, if any; the partner of
      `CategoryName`. */
  function CategoryFromName(s: string): Option<Category> {
    if s == "Developer" then Some(Developer)
    else if s == "General" then Some(General)
    else if s == "Utility" then Some(Utility)
    else None
  }

  /** Different categories have different names. */
  lemma CategoryNameInjective(a: Category, b: Category)
    ensures CategoryName(a) == CategoryName(b) <==> a == b
  {
    assert CategoryFromName(CategoryName(a)) == Some(a);
    assert CategoryFromName(CategoryName(b)) == Some(b);
  }

  /** One command: the trait's `name`, `description` and `category`, with
      `aliases` and `usages` empty unless the command overrides them. Each
      usage is a list of argument labels. */
  datatype Command = Command(
    name: string,
    description: string,
    category: Category,
    aliases: seq<string> := [],
    usages: seq<seq<string>> := [])

  /** `is_developer`: the command belongs to the Developer category. */
  predicate IsDeveloper(c: Command)
    ensures IsDeveloper(c) <==> CategoryName(c.category) == "Developer"
  {
    c.category == Developer
  }

  const SHUTDOWN: Command := Command("shutdown", "Shuts the bot down", Developer)

  const HELP: Command := Command(
    "help",
    "Sends a list of the bot's commands or provides help for the specified command",
    General,
    usages := [["command name (optional)"]])

  const PING: Command := Command(
    "ping", "Sends the bot's current response latency", General, aliases := ["latency"])

  const UPTIME: Command := Command("uptime", "Sends the bot's current uptime", General)

  const WEATHER: Command := Command(
    "weather", "Sends the weather in the specified location", Utility, usages := [["location"]])

  /** `COMMANDS`, in registration order. */
  const COMMANDS: seq<Command> := [SHUTDOWN, HELP, PING, UPTIME, WEATHER]

  /** `c.name() == token || c.aliases().contains(&token)`. */
  predicate Matches(c: Command, token: string)
    ensures Matches(c, token) <==> token in Keys([c])
  {
    assert Keys([c]) == [c.name] + c.aliases + Keys([c][1..]);
    c.name == token || token in c.aliases
  }

  /** The position of the first command of `registry` that `token` names,
      by name or alias; `None` when no command matches. */
  function FirstMatch(registry: seq<Command>, token: string): (r: Option<nat>)
    ensures r.Some? ==> r.value < |registry| && Matches(registry[r.value], token)
    ensures r.Some? ==> forall j :: 0 <= j < r.value ==> !Matches(registry[j], token)
    ensures r.None? <==> forall j :: 0 <= j < |registry| ==> !Matches(registry[j], token)
    decreases |registry|
  {
    if |registry| == 0 then None
    else if Matches(registry[0], token) then Some(0)
    else
      match FirstMatch(registry[1..], token)
      case Some(i) =>
        assert forall j :: 1 <= j <= i ==> registry[j] == registry[1..][j - 1];
        Some(i + 1)
      case None =>
        assert forall j :: 1 <= j < |registry| ==> registry[j] == registry[1..][j - 1];
        None
  }

  /** The first command `token` names, as `.filter(..).collect()` followed
      by `.first()` selects it. */
  function Lookup(registry: seq<Command>, token: string): (r: Option<Command>)
    ensures r.Some? <==> exists j :: 0 <= j < |registry| && Matches(registry[j], token)
    ensures r.Some? ==> r.value in registry && Matches(r.value, token)
  {
    match FirstMatch(registry, token)
    case Some(i) => Some(registry[i])
    case None => None
  }

  /** Every name and alias that the registry answers to. */
  function Keys(registry: seq<Command>): seq<string>
    decreases |registry|
  {
    if |registry| == 0 then [] else [registry[0].name] + registry[0].aliases + Keys(registry[1..])
  }

  /** No two commands of `registry` share a name or alias, and no command
      lists its own name among its aliases. */
  predicate KeysDistinct(registry: seq<Command>) {
    var keys := Keys(registry);
    forall i, j :: 0 <= i < j < |keys| ==> keys[i] != keys[j]
  }

  /** With distinct keys, a token matches at most one command, so the first
      match is the only one. */
  lemma {:induction false} OnlyMatch(registry: seq<Command>, token: string, i: nat, j: nat)
    requires KeysDistinct(registry)
    requires i < |registry| && j < |registry|
    requires Matches(registry[i], token) && Matches(registry[j], token)
    ensures i == j
    decreases |registry|
  {
    var keys := Keys(registry);
    var head := [registry[0].name] + registry[0].aliases;
    assert keys == head + Keys(registry[1..]);
    KeysTailDistinct(registry);
    if i > 0 && j > 0 {
      OnlyMatch(registry[1..], token, i - 1, j - 1);
    } else if i == 0 && j > 0 {
      KeyOfLater(registry, token, j);
    } else if i > 0 && j == 0 {
      KeyOfLater(registry, token, i);
    }
  }

  lemma KeysTailDistinct(registry: seq<Command>)
    requires |registry| > 0 && KeysDistinct(registry)
    ensures KeysDistinct(registry[1..])
  {
    var head := [registry[0].name] + registry[0].aliases;
    var keys := Keys(registry);
    var tail := Keys(registry[1..]);
    assert keys == head + tail;
    forall a, b | 0 <= a < b < |tail|
      ensures tail[a] != tail[b]
    {
      assert tail[a] == keys[|head| + a] && tail[b] == keys[|head| + b];
    }
  }

  /** A later command's match is a key behind the first command's keys, so
      it cannot also match the first command. */
  lemma KeyOfLater(registry: seq<Command>, token: string, j: nat)
    requires KeysDistinct(registry) && 0 < j < |registry|
    requires Matches(registry[j], token)
    ensures !Matches(registry[0], token)
  {
    var head := [registry[0].name] + registry[0].aliases;
    var tail := Keys(registry[1..]);
    assert Keys(registry) == head + tail;
    MatchIsKey(registry[1..], token, j - 1);
    var b :| 0 <= b < |tail| && tail[b] == token;
    if Matches(registry[0], token) {
      assert token in head by {
        if registry[0].name != token {
          assert token in registry[0].aliases;
        }
      }
      var a :| 0 <= a < |head| && head[a] == token;
      assert Keys(registry)[a] == Keys(registry)[|head| + b];
      assert false;
    }
  }

  /** The token a command matches is one of the registry's keys. */
  lemma {:induction false} MatchIsKey(registry: seq<Command>, token: string, j: nat)
    requires j < |registry| && Matches(registry[j], token)
    ensures token in Keys(registry)
    decreases |registry|
  {
    var head := [registry[0].name] + registry[0].aliases;
    assert Keys(registry) == head + Keys(registry[1..]);
    if j == 0 {
      assert token in head;
    } else {
      MatchIsKey(registry[1..], token, j - 1);
    }
  }

  /** The registry's keys: the five names and ping's one alias. */
  lemma CommandKeys()
    ensures Keys(COMMANDS) == ["shutdown", "help", "ping", "latency", "uptime", "weather"]
  {
    assert COMMANDS[1..] == [HELP, PING, UPTIME, WEATHER];
    assert COMMANDS[2..] == [PING, UPTIME, WEATHER];
    assert COMMANDS[3..] == [UPTIME, WEATHER];
    assert COMMANDS[4..] == [WEATHER];
    assert COMMANDS[4..][1..] == [];
    assert Keys(COMMANDS[4..]) == ["weather"];
    assert Keys(COMMANDS[3..]) == ["uptime", "weather"];
    assert Keys(COMMANDS[2..]) == ["ping", "latency", "uptime", "weather"];
    assert Keys(COMMANDS[1..]) == ["help", "ping", "latency", "uptime", "weather"];
  }

  /** The registry's names and aliases are distinct and lower case, so each
      command is reached only through its own keys, whatever the case the
      user typed. */
  lemma CommandsWellFormed()
    ensures KeysDistinct(COMMANDS)
    ensures forall k :: k in Keys(COMMANDS) ==> IsLower(k)
  {
    CommandKeys();
  }

  /** Only `shutdown` is a developer command. */
  lemma OnlyShutdownIsDeveloper()
    ensures forall c :: c in COMMANDS ==> (IsDeveloper(c) <==> c == SHUTDOWN)
  {
  }

  /** With distinct keys, the command a token matches is the one lookup
      returns. */
  lemma LookupUnique(registry: seq<Command>, token: string, j: nat)
    requires KeysDistinct(registry) && j < |registry| && Matches(registry[j], token)
    ensures Lookup(registry, token) == Some(registry[j])
  {
    var i := FirstMatch(registry, token).value;
    OnlyMatch(registry, token, i, j);
  }

  /** Each key finds its command. */
  lemma LookupByKey()
    ensures Lookup(COMMANDS, "shutdown") == Some(SHUTDOWN)
    ensures Lookup(COMMANDS, "help") == Some(HELP)
    ensures Lookup(COMMANDS, "ping") == Some(PING)
    ensures Lookup(COMMANDS, "latency") == Some(PING)
    ensures Lookup(COMMANDS, "uptime") == Some(UPTIME)
    ensures Lookup(COMMANDS, "weather") == Some(WEATHER)
  {
    CommandsWellFormed();
    LookupUnique(COMMANDS, "shutdown", 0);
    LookupUnique(COMMANDS, "help", 1);
    LookupUnique(COMMANDS, "ping", 2);
    LookupUnique(COMMANDS, "latency", 2);
    LookupUnique(COMMANDS, "uptime", 3);
    LookupUnique(COMMANDS, "weather", 4);
  }

  /** Lookup finds a command exactly when the token is one of the keys. */
  lemma LookupIffKey(token: string)
    ensures Lookup(COMMANDS, token).Some? <==> token in Keys(COMMANDS)
  {
    CommandKeys();
    if token in Keys(COMMANDS) {
      assert Matches(COMMANDS[0], token) || Matches(COMMANDS[1], token) || Matches(COMMANDS[2], token)
        || Matches(COMMANDS[3], token) || Matches(COMMANDS[4], token);
    } else {
      forall j | 0 <= j < |COMMANDS|
        ensures !Matches(COMMANDS[j], token)
      {
        if Matches(COMMANDS[j], token) {
          MatchIsKey(COMMANDS, token, j);
        }
      }
    }
  }
}
