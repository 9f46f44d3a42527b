/** `Handler::message`: which messages are commands, which command they
    name, whether the author may run it, what arguments it gets, and the
    reply sent when it fails. Sending replies and running commands are
    Discord calls; the decision is returned as a value and a command's
    result is an input. */
module Dispatcher {
  import opened Wrappers
  import opened Text
  import opened Config
  import opened Strings
  import opened Registry

  const NO_PERMISSION: string := "You do not have permissions to execute the command!"

  /** The limit the handler passes to `strip_str` for an error reply. */
  const REPLY_LIMIT: nat := 2000

  /** The parts of an incoming message the handler looks at. */
  datatype Message = Message(
    content: string,
    authorIsBot: bool,
    inGuild: bool,
    isRegular: bool,
    authorId: UserId)

  /** What the handler does with a message: nothing, the permission
      rejection, or running `command` with `args`. */
  datatype Decision = Ignore | Reject | Invoke(command: Command, args: seq<string>)

  /** A message is considered only when it starts with the prefix, comes
      from a person rather than a bot, in a guild, and is an ordinary
      message. */
  predicate Eligible(m: Message)
    ensures Eligible(m) ==> |m.content| > 0 && m.content[0] == '<' && !m.authorIsBot
  {
    StartsWith(m.content, PREFIX) && !m.authorIsBot && m.inGuild && m.isRegular
  }

  /** `s.strip_prefix(p)`. */
  function StripPrefix(s: string, p: string): (r: Option<string>)
    ensures r.Some? <==> StartsWith(s, p)
    ensures r.Some? ==> p + r.value == s
  {
    if StartsWith(s, p) then
      assert p + s[|p|..] == s;
      Some(s[|p|..])
    else None
  }

  /** The command token: the first space-separated token, lower-cased, with
      the prefix taken off. */
  function CommandToken(content: string): (r: Option<string>)
    ensures r.Some? <==> StartsWith(Lower(Split(content, ' ')[0]), PREFIX)
    ensures r.Some? ==> PREFIX + r.value == Lower(Split(content, ' ')[0]) && IsLower(r.value)
  {
    var t := StripPrefix(Lower(Split(content, ' ')[0]), PREFIX);
    if t.Some? then
      assert forall i :: 0 <= i < |t.value| ==> t.value[i] == Lower(Split(content, ' ')[0])[i + |PREFIX|];
      t
    else t
  }

  /** The handler's decision for message `m` against `registry` and the
      developer list. */
  function Decide(m: Message, registry: seq<Command>, developers: seq<UserId>): (d: Decision)
    ensures !Eligible(m) ==> d == Ignore
    ensures d.Reject? <==>
      Eligible(m) && CommandToken(m.content).Some? &&
      var c := Lookup(registry, CommandToken(m.content).value);
      c.Some? && IsDeveloper(c.value) && m.authorId !in developers
    ensures d.Invoke? ==>
      Eligible(m) && CommandToken(m.content).Some? &&
      Lookup(registry, CommandToken(m.content).value) == Some(d.command) &&
      (IsDeveloper(d.command) ==> m.authorId in developers) &&
      d.args == Split(m.content, ' ')[1..]
  {
    if !Eligible(m) then Ignore
    else
      match CommandToken(m.content)
      case None => Ignore
      case Some(token) =>
        match Lookup(registry, token)
        case None => Ignore
        case Some(c) =>
          if IsDeveloper(c) && m.authorId !in developers then Reject
          else Invoke(c, Split(m.content, ' ')[1..])
  }

  /** Every eligible message naming a registered command is rejected or
      run: a decision of `Ignore` means the message was ineligible or named
      nothing. */
  lemma IgnoreIff(m: Message, registry: seq<Command>, developers: seq<UserId>)
    ensures Decide(m, registry, developers) == Ignore <==>
      !Eligible(m) || CommandToken(m.content).None? ||
      Lookup(registry, CommandToken(m.content).value).None?
  {
  }

  /** The command's arguments are the message's remaining tokens, verbatim
      and in order: putting the first token back in front and joining with
      spaces gives the message text. */
  lemma ArgumentsRebuildContent(m: Message, registry: seq<Command>, developers: seq<UserId>)
    requires Decide(m, registry, developers).Invoke?
    ensures Join([Split(m.content, ' ')[0]] + Decide(m, registry, developers).args, " ") == m.content
  {
    var tokens := Split(m.content, ' ');
    assert [tokens[0]] + tokens[1..] == tokens;
    JoinSplit(m.content, ' ');
    assert [' '] == " ";
  }

  /** Commands outside the Developer category are never rejected, whoever
      sends them. */
  lemma NonDeveloperNeverRejected(m: Message, registry: seq<Command>, developers: seq<UserId>)
    requires Eligible(m) && CommandToken(m.content).Some?
    requires var c := Lookup(registry, CommandToken(m.content).value); c.Some? && !IsDeveloper(c.value)
    ensures Decide(m, registry, developers) == Invoke(Lookup(registry, CommandToken(m.content).value).value, Split(m.content, ' ')[1..])
  {
  }

  /** The command name is matched whatever its case, and the arguments keep
      theirs: a message whose first token differs only in case from another's
      is decided for the same command with its own arguments. */
  lemma CaseInsensitive(m: Message, registry: seq<Command>, developers: seq<UserId>, first: string, rest: string)
    requires ' ' !in first
    requires m.content == first + " " + rest
    requires Eligible(m) && Eligible(m.(content := Lower(first) + " " + rest))
    ensures var d := Decide(m, registry, developers);
      var e := Decide(m.(content := Lower(first) + " " + rest), registry, developers);
      d.Invoke? == e.Invoke? && d.Reject? == e.Reject? &&
      (d.Invoke? ==> d.command == e.command && d.args == e.args && d.args == Split(rest, ' '))
  {
    var lowered := Lower(first);
    assert ' ' !in lowered;
    FirstTokenOf(first, rest);
    FirstTokenOf(lowered, rest);
    LowerIdempotent(first);
  }

  /** The same for a message that is a single token, such as "<PING": it
      is decided as its lower-cased form, with no arguments. */
  lemma CaseInsensitiveSingle(m: Message, registry: seq<Command>, developers: seq<UserId>, first: string)
    requires ' ' !in first
    requires m.content == first
    requires Eligible(m) && Eligible(m.(content := Lower(first)))
    ensures var d := Decide(m, registry, developers);
      var e := Decide(m.(content := Lower(first)), registry, developers);
      d.Invoke? == e.Invoke? && d.Reject? == e.Reject? &&
      (d.Invoke? ==> d.command == e.command && d.args == e.args == [])
  {
    var lowered := Lower(first);
    assert ' ' !in lowered;
    OnlyToken(first);
    OnlyToken(lowered);
    LowerIdempotent(first);
  }

  /** A text without spaces is one token. */
  lemma OnlyToken(first: string)
    requires ' ' !in first
    ensures Split(first, ' ') == [first]
  {
    SplitGlued(first, "", ' ');
    assert first + "" == first;
  }

  /** The tokens of `first + " " + rest` are `first` and then the tokens of
      `rest`, when `first` has no space. */
  lemma FirstTokenOf(first: string, rest: string)
    requires ' ' !in first
    ensures Split(first + " " + rest, ' ') == [first] + Split(rest, ' ')
  {
    SplitGlued(first, " " + rest, ' ');
    assert (" " + rest)[1..] == rest;
    assert first + " " + rest == first + (" " + rest);
    assert first + "" == first;
  }

  /** An empty command token names none of the bot's commands, so a message
      that is just the prefix, or the prefix followed by a space, is
      ignored. */
  lemma EmptyTokenIgnored(m: Message, developers: seq<UserId>)
    requires Split(m.content, ' ')[0] == PREFIX
    ensures Decide(m, COMMANDS, developers) == Ignore
  {
    LowerFixesLower(PREFIX);
    assert PREFIX[|PREFIX|..] == "";
    LookupIffKey("");
    CommandKeys();
  }

  /** Only `shutdown` can be rejected, and only for authors missing from
      the developer list. */
  lemma OnlyShutdownRejected(m: Message, developers: seq<UserId>)
    requires Decide(m, COMMANDS, developers) == Reject
    ensures Lookup(COMMANDS, CommandToken(m.content).value) == Some(SHUTDOWN)
    ensures m.authorId !in developers
  {
    OnlyShutdownIsDeveloper();
  }

  /** With an empty developer list, every developer command is rejected. */
  lemma EmptyDevelopersRejectAll(m: Message, registry: seq<Command>)
    requires Eligible(m) && CommandToken(m.content).Some?
    requires var c := Lookup(registry, CommandToken(m.content).value); c.Some? && IsDeveloper(c.value)
    ensures Decide(m, registry, []) == Reject
  {
  }

  /** The replies the handler sends for a decision, given the command's
      result when it was run (`None` for success, `Some(e)` for an error
      whose text is `e`): one failure reply for a rejection, one failure
      reply with the error cut to the reply limit for a failed command, and
      none otherwise. */
  function Replies(d: Decision, result: Option<string>): (rs: seq<Reply>)
    ensures |rs| <= 1
    ensures d.Reject? ==> rs == [Reply(NO_PERMISSION, Failure)]
    ensures d.Invoke? && result.Some? ==>
      |rs| == 1 && rs[0].embedType == Failure && rs[0].description == StripStr(result.value, REPLY_LIMIT, true).value
    ensures |rs| == 1 <==> d.Reject? || (d.Invoke? && result.Some?)
  {
    match d
    case Ignore => []
    case Reject => [Reply(NO_PERMISSION, Failure)]
    case Invoke(_, _) =>
      match result
      case None => []
      case Some(e) =>
        match StripStr(e, REPLY_LIMIT, true)
        case Some(text) => [Reply(text, Failure)]
        case None =>
          assert false;
          []
  }

  /** An ASCII error text comes back unchanged when it is shorter than the
      limit less the ellipsis, and cut to exactly the limit, ending in
      "...", when it is longer than the limit; for such long text the
      reply agrees with the intended truncation. */
  lemma ErrorReplyText(c: Command, args: seq<string>, e: string)
    requires IsAscii(e)
    ensures |e| < REPLY_LIMIT - 3 ==> Replies(Invoke(c, args), Some(e)) == [Reply(e, Failure)]
    ensures |e| > REPLY_LIMIT ==>
      Replies(Invoke(c, args), Some(e)) == [Reply(Truncate(e, REPLY_LIMIT).value, Failure)] &&
      |Replies(Invoke(c, args), Some(e))[0].description| == REPLY_LIMIT
  {
    StripStrAscii(e, REPLY_LIMIT);
    if |e| > REPLY_LIMIT {
      TruncateAgreesWhenTooLong(e, REPLY_LIMIT);
    }
  }
}
