/** The pure part of the Help command (`general::HelpCommand::invoke`): the
    detail embed for one command, the not-found reply, and the grouped,
    sorted listing of every command. */
module Help {
  import opened Wrappers
  import opened Text
  import opened Config
  import opened Registry
  import opened Sorting

  /** What Help sends: the listing embed, the detail embed of one command,
      or the default reply for a query that names no command. The bot's
      avatar on the embeds is left out. */
  datatype HelpReply =
    | Listing(author: string, fields: seq<Field>)
    | Detail(author: string, description: string, fields: seq<Field>)
    | NotFound(reply: Reply)

  const NOT_FOUND: string := "No command has been found by the query!"

  /** The author line of the detail embed: the prefix and the command name,
      followed by " (developer-only)" exactly for developer commands. */
  function Title(c: Command): (t: string)
    ensures StartsWith(t, PREFIX + c.name)
    ensures |t| > |PREFIX + c.name| <==> IsDeveloper(c)
    ensures IsDeveloper(c) ==> t[|PREFIX + c.name|..] == " (developer-only)"
  {
    if IsDeveloper(c) then PREFIX + c.name + " (developer-only)" else PREFIX + c.name
  }

  /** `format!("<{}>", name)`: an argument name in angle brackets. */
  function Wrap(name: string): string {
    "<" + name + ">"
  }

  /** One usage line: the prefix, the command name, a space, then the
      usage's labels each wrapped in angle brackets, separated by spaces. */
  function UsageLine(name: string, labels: seq<string>): (line: string)
    ensures StartsWith(line, PREFIX + name + " ")
  {
    PREFIX + name + " " + Join(seq(|labels|, i requires 0 <= i < |labels| => Wrap(labels[i])), " ")
  }

  /** The usage lines of `c`, one per usage, in order. */
  function UsageLines(c: Command): (lines: seq<string>)
    ensures |lines| == |c.usages|
    ensures forall i :: 0 <= i < |lines| ==> StartsWith(lines[i], PREFIX + c.name + " ")
  {
    seq(|c.usages|, i requires 0 <= i < |c.usages| => UsageLine(c.name, c.usages[i]))
  }

  /** The fields of the detail embed: the category always; the aliases,
      sorted and joined with ", ", only when there are any; the usage lines
      joined with newlines only when there are any. */
  function DetailFields(c: Command): (fs: seq<Field>)
    ensures |fs| == 1 + (if |c.aliases| > 0 then 1 else 0) + (if |c.usages| > 0 then 1 else 0)
    ensures fs[0] == Field("Category", CategoryName(c.category), false)
    ensures |c.aliases| > 0 ==> fs[1] == Field("Aliases", Join(Sort(c.aliases), ", "), false)
    ensures |c.usages| > 0 ==> fs[|fs| - 1] == Field("Usages", Join(UsageLines(c), "\n"), false)
  {
    [Field("Category", CategoryName(c.category), false)]
    + (if |c.aliases| > 0 then [Field("Aliases", Join(Sort(c.aliases), ", "), false)] else [])
    + (if |c.usages| > 0 then [Field("Usages", Join(UsageLines(c), "\n"), false)] else [])
  }

  /** When no usage label holds a newline, splitting the Usages field at
      newlines gives back one line per usage. */
  lemma UsagesFieldSplits(c: Command)
    requires |c.usages| > 0
    requires forall i, j :: 0 <= i < |c.usages| && 0 <= j < |c.usages[i]| ==> '\n' !in c.usages[i][j]
    requires '\n' !in c.name
    ensures Split(Join(UsageLines(c), "\n"), '\n') == UsageLines(c)
  {
    var lines := UsageLines(c);
    forall i | 0 <= i < |lines|
      ensures '\n' !in lines[i]
    {
      var labels := c.usages[i];
      var wrapped := seq(|labels|, k requires 0 <= k < |labels| => Wrap(labels[k]));
      JoinAvoids(wrapped, " ", '\n');
    }
    SplitJoin(lines, '\n');
  }

  /** A join of parts and a separator that all avoid `c` avoids `c`. */
  lemma {:induction false} JoinAvoids(parts: seq<string>, sep: string, c: char)
    requires forall i :: 0 <= i < |parts| ==> c !in parts[i]
    requires c !in sep
    ensures c !in Join(parts, sep)
    decreases |parts|
  {
    if |parts| > 1 {
      JoinAvoids(parts[1..], sep, c);
    }
  }

  /** The names of some commands, in order. */
  function Names(cs: seq<Command>): (names: seq<string>)
    ensures |names| == |cs|
    ensures forall i :: 0 <= i < |cs| ==> names[i] == cs[i].name
  {
    seq(|cs|, i requires 0 <= i < |cs| => cs[i].name)
  }

  /** One section of the listing: a category and its command names. */
  datatype Section = Section(category: Category, names: seq<string>)

  function CategoryOf(c: Command): Category {
    c.category
  }

  function GroupName(g: Group<Category, Command>): string {
    CategoryName(g.key)
  }

  /** The runs of consecutive commands sharing a category, ordered by
      category name (stably), each with its names sorted. */
  function Sections(registry: seq<Command>): (ss: seq<Section>)
    ensures forall i, j :: 0 <= i < j < |ss| ==> LessEq(CategoryName(ss[i].category), CategoryName(ss[j].category))
    ensures forall i :: 0 <= i < |ss| ==> Sorted(ss[i].names) && |ss[i].names| > 0
    ensures forall i, n :: 0 <= i < |ss| && n in ss[i].names ==>
      exists c :: c in registry && c.name == n && c.category == ss[i].category
  {
    var runs := GroupRuns(registry, CategoryOf);
    var groups := SortBy(runs, GroupName);
    SortKeepsElements(runs, GroupName);
    SectionsOfGroups(groups);
    var ss := SectionsOf(groups);
    forall i, n | 0 <= i < |ss| && n in ss[i].names
      ensures exists c :: c in registry && c.name == n && c.category == ss[i].category
    {
      assert n in multiset(Names(groups[i].members));
      GroupMemberNamed(registry, runs, groups[i], n);
    }
    ss
  }

  /** A name in one of the category runs belongs to a registered command of
      that run's category. */
  lemma {:induction false} GroupMemberNamed(registry: seq<Command>, runs: seq<Group<Category, Command>>,
                         g: Group<Category, Command>, n: string)
    requires Flatten(runs) == registry
    requires forall i :: 0 <= i < |runs| ==> Uniform(runs[i], CategoryOf)
    requires g in runs && n in Names(g.members)
    ensures exists c :: c in registry && c.name == n && c.category == g.key
  {
    var i :| 0 <= i < |runs| && runs[i] == g;
    var j :| 0 <= j < |g.members| && Names(g.members)[j] == n;
    MemberInFlatten(runs, i, j);
    assert CategoryOf(g.members[j]) == g.key;
  }

  /** Each group as a section with its names sorted. */
  function SectionsOf(groups: seq<Group<Category, Command>>): (ss: seq<Section>)
    ensures |ss| == |groups|
  {
    seq(|groups|, i requires 0 <= i < |groups| => Section(groups[i].key, Sort(Names(groups[i].members))))
  }

  /** The sections keep the groups' categories and order, hold each group's
      names sorted, and are non-empty when the groups are. */
  lemma SectionsOfGroups(groups: seq<Group<Category, Command>>)
    requires forall i :: 0 <= i < |groups| ==> |groups[i].members| > 0
    ensures var ss := SectionsOf(groups);
      forall i :: 0 <= i < |ss| ==>
        ss[i].category == groups[i].key && multiset(ss[i].names) == multiset(Names(groups[i].members)) &&
        Sorted(ss[i].names) && |ss[i].names| > 0
  {
  }

  /** The names of all sections, in order. */
  function AllNames(ss: seq<Section>): seq<string> {
    if |ss| == 0 then [] else ss[0].names + AllNames(ss[1..])
  }

  lemma NamesConcat(a: seq<Command>, b: seq<Command>)
    ensures Names(a + b) == Names(a) + Names(b)
  {
  }

  lemma {:induction false} SectionsOfNames(groups: seq<Group<Category, Command>>)
    ensures multiset(AllNames(SectionsOf(groups))) == multiset(Names(Flatten(groups)))
    decreases |groups|
  {
    if |groups| > 0 {
      var ss := SectionsOf(groups);
      assert ss[1..] == SectionsOf(groups[1..]);
      SectionsOfNames(groups[1..]);
      FlattenCons(groups[0], groups[1..]);
      assert groups == [groups[0]] + groups[1..];
      NamesConcat(groups[0].members, Flatten(groups[1..]));
    }
  }

  /** The listing names every registered command, each as often as it is
      registered: its names are a permutation of the registry's. */
  lemma ListingCoversRegistry(registry: seq<Command>)
    ensures multiset(AllNames(Sections(registry))) == multiset(Names(registry))
  {
    var runs := GroupRuns(registry, CategoryOf);
    var groups := SortBy(runs, GroupName);
    SectionsOfNames(groups);
    FlattenSortBy(runs, GroupName);
    NamesMultiset(Flatten(groups), Flatten(runs));
  }

  /** Names of the same commands, in any order, form the same multiset. */
  lemma {:induction false} NamesMultiset(a: seq<Command>, b: seq<Command>)
    requires multiset(a) == multiset(b)
    ensures multiset(Names(a)) == multiset(Names(b))
    decreases |a|
  {
    if |a| == 0 {
      assert |b| == |multiset(b)| == 0;
    } else {
      assert a[0] in multiset(b);
      var i :| 0 <= i < |b| && b[i] == a[0];
      MultisetRemove(a, b, i);
      NamesMultiset(a[1..], b[..i] + b[i + 1..]);
      assert a == [a[0]] + a[1..];
      assert b == b[..i] + [a[0]] + b[i + 1..];
      NamesStep(a[0], a[1..], b[..i], b[i + 1..]);
    }
  }

  /** Moving one command within a list keeps the multiset of names. */
  lemma NamesStep(x: Command, rest: seq<Command>, pre: seq<Command>, post: seq<Command>)
    requires multiset(Names(rest)) == multiset(Names(pre + post))
    ensures multiset(Names([x] + rest)) == multiset(Names(pre + [x] + post))
  {
    NamesConcat([x], rest);
    NamesConcat(pre + [x], post);
    NamesConcat(pre, [x]);
    NamesConcat(pre, post);
    var n := Names([x]);
    calc {
      multiset(Names([x] + rest));
      multiset(n) + multiset(Names(rest));
      multiset(n) + multiset(Names(pre)) + multiset(Names(post));
      multiset(Names(pre + [x] + post));
    }
  }

  /** The listing's fields: "<Category> Commands" with the section's names
      joined by ", ". */
  function ListingFields(ss: seq<Section>): (fs: seq<Field>)
    ensures |fs| == |ss|
    ensures forall i :: 0 <= i < |ss| ==>
      fs[i] == Field(CategoryName(ss[i].category) + " Commands", Join(ss[i].names, ", "), false)
  {
    seq(|ss|, i requires 0 <= i < |ss| => Field(CategoryName(ss[i].category) + " Commands", Join(ss[i].names, ", "), false))
  }

  /** Help on the argument list `args`, given the bot's name from
      `get_current_user` or that call's error. With an argument, its
      lower-cased form is looked up by name or alias: no match gives the
      not-found reply, a match the detail embed. Without one, the listing
      of every registered command. The user fetch is made only when an
      embed is to be sent, and its failure is the command's error. */
  function HelpCommand(registry: seq<Command>, args: seq<string>, bot: Result<string>): (r: Result<HelpReply>)
    ensures |args| > 0 && Lookup(registry, Lower(args[0])).None? ==>
      r == Ok(NotFound(Reply(NOT_FOUND, Failure)))
    ensures r.Err? <==> bot.Err? && (|args| == 0 || Lookup(registry, Lower(args[0])).Some?)
    ensures r.Err? ==> r.error == bot.error
    ensures |args| > 0 && bot.Ok? && Lookup(registry, Lower(args[0])).Some? ==> r.Ok? && r.value.Detail?
    ensures r.Ok? && r.value.Detail? ==> (|args| > 0 &&
      var c := Lookup(registry, Lower(args[0])).value;
      r.value == Detail(Title(c), c.description, DetailFields(c)))
    ensures |args| == 0 && bot.Ok? ==>
      r == Ok(Listing(bot.value + " Help", ListingFields(Sections(registry))))
  {
    if |args| > 0 then
      match Lookup(registry, Lower(args[0]))
      case None => Ok(NotFound(Reply(NOT_FOUND, Failure)))
      case Some(c) =>
        if bot.Err? then Err(bot.error)
        else Ok(Detail(Title(c), c.description, DetailFields(c)))
    else if bot.Err? then Err(bot.error)
    else Ok(Listing(bot.value + " Help", ListingFields(Sections(registry))))
  }

  /** Only the first argument matters, and its case does not. */
  lemma HelpReadsFirstArgumentOnly(registry: seq<Command>, args: seq<string>, bot: Result<string>)
    requires |args| > 0
    ensures HelpCommand(registry, args, bot) == HelpCommand(registry, [args[0]], bot)
    ensures HelpCommand(registry, args, bot) == HelpCommand(registry, [Lower(args[0])], bot)
  {
    LowerIdempotent(args[0]);
  }

  /** The listing of the registry: shutdown under Developer; help, ping and
      uptime under General; weather under Utility. */
  lemma CommandSections()
    ensures Sections(COMMANDS) ==
      [Section(Developer, ["shutdown"]), Section(General, ["help", "ping", "uptime"]), Section(Utility, ["weather"])]
  {
    var runs := GroupRuns(COMMANDS, CategoryOf);
    CommandRuns();
    RunsInNameOrder(runs);
    SortByOfSorted(runs, GroupName);
    RunSections(runs);
  }

  lemma RunsInNameOrder(runs: seq<Group<Category, Command>>)
    requires runs == [Group(Developer, [SHUTDOWN]), Group(General, [HELP, PING, UPTIME]), Group(Utility, [WEATHER])]
    ensures SortedBy(runs, GroupName)
  {
    assert LessEq("Developer", "General") && LessEq("General", "Utility") && LessEq("Developer", "Utility");
  }

  lemma RunSections(runs: seq<Group<Category, Command>>)
    requires runs == [Group(Developer, [SHUTDOWN]), Group(General, [HELP, PING, UPTIME]), Group(Utility, [WEATHER])]
    ensures SectionsOf(runs) ==
      [Section(Developer, ["shutdown"]), Section(General, ["help", "ping", "uptime"]), Section(Utility, ["weather"])]
  {
    DeveloperSection(runs);
    GeneralSection(runs);
    UtilitySection(runs);
    ThreeSections(SectionsOf(runs));
  }

  lemma ThreeSections(ss: seq<Section>)
    requires |ss| == 3
    requires ss[0] == Section(Developer, ["shutdown"])
    requires ss[1] == Section(General, ["help", "ping", "uptime"])
    requires ss[2] == Section(Utility, ["weather"])
    ensures ss == [Section(Developer, ["shutdown"]), Section(General, ["help", "ping", "uptime"]), Section(Utility, ["weather"])]
  {
  }

  lemma DeveloperSection(runs: seq<Group<Category, Command>>)
    requires runs == [Group(Developer, [SHUTDOWN]), Group(General, [HELP, PING, UPTIME]), Group(Utility, [WEATHER])]
    ensures SectionsOf(runs)[0] == Section(Developer, ["shutdown"])
  {
    DeveloperNames(runs[0].members);
  }

  lemma GeneralSection(runs: seq<Group<Category, Command>>)
    requires runs == [Group(Developer, [SHUTDOWN]), Group(General, [HELP, PING, UPTIME]), Group(Utility, [WEATHER])]
    ensures SectionsOf(runs)[1] == Section(General, ["help", "ping", "uptime"])
  {
    GeneralNames(runs[1].members);
  }

  lemma UtilitySection(runs: seq<Group<Category, Command>>)
    requires runs == [Group(Developer, [SHUTDOWN]), Group(General, [HELP, PING, UPTIME]), Group(Utility, [WEATHER])]
    ensures SectionsOf(runs)[2] == Section(Utility, ["weather"])
  {
    UtilityNames(runs[2].members);
  }

  lemma DeveloperNames(cs: seq<Command>)
    requires cs == [SHUTDOWN]
    ensures Sort(Names(cs)) == ["shutdown"]
  {
    SortedNames(cs, ["shutdown"]);
  }

  lemma GeneralNames(cs: seq<Command>)
    requires cs == [HELP, PING, UPTIME]
    ensures Sort(Names(cs)) == ["help", "ping", "uptime"]
  {
    SortedNames(cs, ["help", "ping", "uptime"]);
  }

  lemma UtilityNames(cs: seq<Command>)
    requires cs == [WEATHER]
    ensures Sort(Names(cs)) == ["weather"]
  {
    SortedNames(cs, ["weather"]);
  }

  /** Commands listed in name order keep their order in a section. */
  lemma SortedNames(cs: seq<Command>, names: seq<string>)
    requires Names(cs) == names
    requires forall i, j :: 0 <= i < j < |names| ==> LessEq(names[i], names[j])
    ensures Sort(Names(cs)) == names
  {
    SortOfSorted(names);
  }

  lemma CommandRuns()
    ensures GroupRuns(COMMANDS, CategoryOf) ==
      [Group(Developer, [SHUTDOWN]), Group(General, [HELP, PING, UPTIME]), Group(Utility, [WEATHER])]
  {
    assert [WEATHER][1..] == [];
    assert GroupRuns([WEATHER], CategoryOf) == [Group(Utility, [WEATHER])];
    assert [UPTIME, WEATHER][1..] == [WEATHER];
    assert GroupRuns([UPTIME, WEATHER], CategoryOf) == [Group(General, [UPTIME]), Group(Utility, [WEATHER])];
    assert [PING, UPTIME, WEATHER][1..] == [UPTIME, WEATHER];
    assert [PING] + [UPTIME] == [PING, UPTIME];
    assert GroupRuns([PING, UPTIME, WEATHER], CategoryOf) == [Group(General, [PING, UPTIME]), Group(Utility, [WEATHER])];
    assert [HELP, PING, UPTIME, WEATHER][1..] == [PING, UPTIME, WEATHER];
    assert [HELP] + [PING, UPTIME] == [HELP, PING, UPTIME];
    assert GroupRuns([HELP, PING, UPTIME, WEATHER], CategoryOf) == [Group(General, [HELP, PING, UPTIME]), Group(Utility, [WEATHER])];
    assert COMMANDS[1..] == [HELP, PING, UPTIME, WEATHER];
  }

  /** The listing's fields for the registry. */
  lemma CommandListing(botName: string)
    ensures HelpCommand(COMMANDS, [], Ok(botName)) == Ok(Listing(botName + " Help", [
      Field("Developer Commands", "shutdown", false),
      Field("General Commands", "help, ping, uptime", false),
      Field("Utility Commands", "weather", false)]))
  {
    CommandSections();
    ListingOfSections(Sections(COMMANDS));
  }

  lemma ListingOfSections(ss: seq<Section>)
    requires ss == [Section(Developer, ["shutdown"]), Section(General, ["help", "ping", "uptime"]), Section(Utility, ["weather"])]
    ensures ListingFields(ss) == [
      Field("Developer Commands", "shutdown", false),
      Field("General Commands", "help, ping, uptime", false),
      Field("Utility Commands", "weather", false)]
  {
    var fs := ListingFields(ss);
    SectionField(ss[0], "Developer Commands", "shutdown");
    SectionField(ss[1], "General Commands", "help, ping, uptime");
    SectionField(ss[2], "Utility Commands", "weather");
    assert fs == [fs[0], fs[1], fs[2]];
  }

  /** The field of one of the registry's three sections. */
  lemma SectionField(s: Section, name: string, value: string)
    requires
      (s == Section(Developer, ["shutdown"]) && name == "Developer Commands" && value == "shutdown") ||
      (s == Section(General, ["help", "ping", "uptime"]) && name == "General Commands" && value == "help, ping, uptime") ||
      (s == Section(Utility, ["weather"]) && name == "Utility Commands" && value == "weather")
    ensures CategoryName(s.category) + " Commands" == name && Join(s.names, ", ") == value
  {
    if s.category == General {
      Join3("help", "ping", "uptime", ", ");
      assert "help" + ", " + "ping" + ", " + "uptime" == "help, ping, uptime";
    }
  }

  /** Help for ping, asked for by name or alias in any letter case: the
      title, the description, the category and the one alias. */
  lemma PingDetail(args: seq<string>, botName: string)
    requires |args| > 0 && (Lower(args[0]) == "ping" || Lower(args[0]) == "latency")
    ensures HelpCommand(COMMANDS, args, Ok(botName)) == Ok(Detail(
      "<ping", "Sends the bot's current response latency",
      [Field("Category", "General", false), Field("Aliases", "latency", false)]))
  {
    LookupByKey();
    PingFields();
  }

  lemma PingFields()
    ensures Title(PING) == "<ping"
    ensures DetailFields(PING) == [Field("Category", "General", false), Field("Aliases", "latency", false)]
  {
    SortOfSorted(PING.aliases);
  }

  /** Help for shutdown: marked developer-only, with only its category. */
  lemma ShutdownDetail(args: seq<string>, botName: string)
    requires |args| > 0 && Lower(args[0]) == "shutdown"
    ensures HelpCommand(COMMANDS, args, Ok(botName)) == Ok(Detail(
      "<shutdown (developer-only)", "Shuts the bot down", [Field("Category", "Developer", false)]))
  {
    LookupByKey();
    ShutdownFields();
  }

  lemma ShutdownFields()
    ensures Title(SHUTDOWN) == "<shutdown (developer-only)"
    ensures DetailFields(SHUTDOWN) == [Field("Category", "Developer", false)]
  {
  }

  /** Help for help: its one usage line. */
  lemma HelpDetail(args: seq<string>, botName: string)
    requires |args| > 0 && Lower(args[0]) == "help"
    ensures HelpCommand(COMMANDS, args, Ok(botName)) == Ok(Detail(
      "<help", "Sends a list of the bot's commands or provides help for the specified command",
      [Field("Category", "General", false), Field("Usages", "<help <command name (optional)>", false)]))
  {
    LookupByKey();
    HelpFields();
  }

  lemma HelpFields()
    ensures Title(HELP) == "<help"
    ensures DetailFields(HELP) ==
      [Field("Category", "General", false), Field("Usages", "<help <command name (optional)>", false)]
  {
    HelpUsageLine("help", "command name (optional)");
    assert UsageLines(HELP) == [UsageLine("help", ["command name (optional)"])];
    assert Join(["<help <command name (optional)>"], "\n") == "<help <command name (optional)>";
  }

  /** A usage of one label is the prefix, the name, a space and the
      bracketed label. */
  lemma OneLabelUsage(name: string, arg: string)
    ensures UsageLine(name, [arg]) == PREFIX + name + " <" + arg + ">"
  {
    var wrapped := seq(1, i requires 0 <= i < 1 => Wrap([arg][i]));
    assert wrapped == [Wrap(arg)];
  }

  lemma HelpUsageLine(name: string, arg: string)
    requires name == "help" && arg == "command name (optional)"
    ensures UsageLine(name, [arg]) == "<help <command name (optional)>"
  {
    OneLabelUsage(name, arg);
    assert PREFIX + name + " <" == "<help <";
    assert "<help <" + arg + ">" == "<help <command name (optional)>";
  }

  /** A query gets the not-found reply exactly when its lower-cased form is
      none of the registry's names and aliases, whatever the bot lookup
      does. */
  lemma UnknownQuery(args: seq<string>, bot: Result<string>)
    requires |args| > 0
    ensures HelpCommand(COMMANDS, args, bot) == Ok(NotFound(Reply(NOT_FOUND, Failure))) <==>
      Lower(args[0]) !in ["shutdown", "help", "ping", "latency", "uptime", "weather"]
  {
    CommandKeys();
    LookupIffKey(Lower(args[0]));
  }
}
