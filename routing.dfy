/** How the Snake client routes an inbound interaction (`_dispatch_interaction`)
    or message (`_dispatch_msg_commands`) to a registered handler. Handlers,
    hooks and events are not run here: routing yields the sequence of effects
    the client performs, in order. */
module Routing {
  import opened Base
  import opened Events
  import opened Context
  import opened Commands
  import opened Mention

  datatype Effect =
    | LogUnknownCommand(commandId: string)
    | RunCommand(scope: Scope, name: string)
    | RunAutocomplete(scope: Scope, name: string, option: string)
    | RunComponentCallback(customId: string)
    | RunMessageCommand(name: string)
    | CommandErrorHook          // on_command_error
    | AutocompleteErrorHook     // on_autocomplete_error
    | ComponentErrorHook        // on_component_error
    | AfterCommandHook          // on_command
    | AfterAutocompleteHook     // on_autocomplete
    | AfterComponentHook        // on_component
    | DispatchEvent(event: string)

  /** `try: run except: errorHook finally: afterHook`; `fails` says whether the
      handler raised. */
  function Guarded(run: Effect, errorHook: Effect, afterHook: Effect, fails: bool): (r: seq<Effect>)
    ensures |r| >= 2 && r[0] == run && r[|r| - 1] == afterHook
    ensures errorHook in r <==> fails || errorHook == run || errorHook == afterHook
  {
    [run] + (if fails then [errorHook] else []) + [afterHook]
  }

  datatype RouteError =
    | NotImplemented(kind: int)      // NotImplementedError: unknown interaction type
    | UnknownInvokedName(name: string) // KeyError: the invoked name is not registered in the scope
    | BadOptions(error: ContextError)  // raised while building the context

  /** The effects of calling an application command or its autocomplete callback. */
  function RunCommandOrAutocomplete(scope: Scope, cmd: InteractionCommand, ctx: Ctx, fails: bool): (r: seq<Effect>)
    requires ctx.CommandCtx?
    ensures |r| >= 2
    // a focused option routes to the autocomplete callback, never to the command
    ensures ctx.focused.Some? && ctx.focused.value != "" ==>
      r[|r| - 1] == AfterAutocompleteHook && RunCommand(scope, ctx.invokedName) !in r
    ensures !(ctx.focused.Some? && ctx.focused.value != "") ==>
      r == Guarded(RunCommand(scope, ctx.invokedName), CommandErrorHook, AfterCommandHook, fails)
    // a registered callback runs in place of the command, guarded by the autocomplete hooks
    ensures ctx.focused.Some? && ctx.focused.value != "" && ctx.focused.value in cmd.autocompletes ==>
      r == Guarded(RunAutocomplete(scope, ctx.invokedName, ctx.focused.value),
                   AutocompleteErrorHook, AfterAutocompleteHook, fails)
    // an option without a registered callback fails inside the guard
    ensures ctx.focused.Some? && ctx.focused.value != "" && ctx.focused.value !in cmd.autocompletes ==>
      r == [AutocompleteErrorHook, AfterAutocompleteHook]
  {
    if ctx.focused.Some? && ctx.focused.value != "" then
      if ctx.focused.value in cmd.autocompletes then
        Guarded(RunAutocomplete(scope, ctx.invokedName, ctx.focused.value), AutocompleteErrorHook, AfterAutocompleteHook, fails)
      else
        [AutocompleteErrorHook, AfterAutocompleteHook]
    else
      Guarded(RunCommand(scope, ctx.invokedName), CommandErrorHook, AfterCommandHook, fails)
  }

  /** The guarded component callback, when one is registered for the custom id. */
  function ComponentCallback(use: ComponentUse, callbacks: map<string, ComponentCommand>, fails: bool): (r: seq<Effect>)
    ensures DispatchEvent("button") !in r && DispatchEvent("select") !in r
    ensures RunComponentCallback(use.customId) in r <==> use.customId in callbacks
    ensures AfterComponentHook in r <==> use.customId in callbacks
    ensures ComponentErrorHook in r <==> use.customId in callbacks && fails
  {
    if use.customId in callbacks
    then Guarded(RunComponentCallback(use.customId), ComponentErrorHook, AfterComponentHook, fails)
    else []
  }

  /** The Button or Select event a component of that type adds. */
  function ComponentKindEvents(use: ComponentUse): (r: seq<Effect>)
    ensures RunComponentCallback(use.customId) !in r && AfterComponentHook !in r && ComponentErrorHook !in r
    ensures DispatchEvent("button") in r <==> use.componentType == BUTTON
    ensures DispatchEvent("select") in r <==> use.componentType == SELECT
  {
    (if use.componentType == BUTTON then [DispatchEvent("button")] else [])
    + (if use.componentType == SELECT then [DispatchEvent("select")] else [])
  }

  /** The effects of a component interaction, given its context. */
  function ComponentEffects(use: ComponentUse, callbacks: map<string, ComponentCommand>, fails: bool): (r: seq<Effect>)
    ensures |r| >= 1 && r[0] == DispatchEvent("component")
    ensures RunComponentCallback(use.customId) in r <==> use.customId in callbacks
    ensures AfterComponentHook in r <==> use.customId in callbacks
    ensures ComponentErrorHook in r <==> use.customId in callbacks && fails
    ensures DispatchEvent("button") in r <==> use.componentType == BUTTON
    ensures DispatchEvent("select") in r <==> use.componentType == SELECT
  {
    [DispatchEvent("component")] + (ComponentCallback(use, callbacks, fails) + ComponentKindEvents(use))
  }

  /** The guarded callback comes straight after the component event, before
      the Button or Select event. */
  lemma ComponentCallbackFirst(use: ComponentUse, callbacks: map<string, ComponentCommand>, fails: bool)
    requires use.customId in callbacks
    ensures var g := Guarded(RunComponentCallback(use.customId), ComponentErrorHook, AfterComponentHook, fails);
      var r := ComponentEffects(use, callbacks, fails);
      |r| >= 1 + |g| && r[1..1 + |g|] == g
  {
    HeadThenPrefix(DispatchEvent("component"), ComponentCallback(use, callbacks, fails), ComponentKindEvents(use));
  }

  /** After a head element, `a` sits at positions 1 to `|a|` of `[x] + (a + b)`. */
  lemma HeadThenPrefix<T>(x: T, a: seq<T>, b: seq<T>)
    ensures ([x] + (a + b))[1..1 + |a|] == a
  {
    assert ([x] + (a + b))[1..] == a + b;
  }

  predicate IsCommandKind(kind: int) {
    kind == PING || kind == APPLICATION_COMMAND || kind == AUTOCOMPLETE
  }

  /** `_dispatch_interaction`. `scopes` is `_interaction_scopes`, `fails` says
      whether the handler that runs raises. */
  method DispatchInteraction(
    p: Interaction, scopes: map<string, Scope>, interactions: Table, cmds: seq<InteractionCommand>,
    callbacks: map<string, ComponentCommand>, cache: Cache, fails: bool)
    returns (r: Result<seq<Effect>, RouteError>)
    requires TableValid(interactions, cmds)
    ensures p.kind !in {PING, APPLICATION_COMMAND, AUTOCOMPLETE, MESSAGE_COMPONENT} ==> r == Err(NotImplemented(p.kind))
    // a command id whose scope is unknown is only logged: no handler runs
    ensures IsCommandKind(p.kind) && !(p.commandId in scopes && scopes[p.commandId] in interactions.m) ==>
      r == Ok([LogUnknownCommand(p.commandId)])
    ensures IsCommandKind(p.kind) && p.commandId in scopes && scopes[p.commandId] in interactions.m ==>
      var scope := scopes[p.commandId];
      match Invoke(p.name, p.options)
      case Err(e) => r == Err(BadOptions(e))
      case Ok(inv) =>
        if inv.name !in interactions.m[scope].m then r == Err(UnknownInvokedName(inv.name))
        else
          && r.Ok? && |r.value| >= 2
          && var focused := LastFocused(inv.options);
          && var cmd := cmds[interactions.m[scope].m[inv.name]];
          && (focused.Some? && focused.value != "" ==>
                r.value[|r.value| - 1] == AfterAutocompleteHook && RunCommand(scope, inv.name) !in r.value)
          && (focused.Some? && focused.value != "" && focused.value in cmd.autocompletes ==>
                r.value == Guarded(RunAutocomplete(scope, inv.name, focused.value),
                                   AutocompleteErrorHook, AfterAutocompleteHook, fails))
          && (focused.Some? && focused.value != "" && focused.value !in cmd.autocompletes ==>
                r.value == [AutocompleteErrorHook, AfterAutocompleteHook])
          && (!(focused.Some? && focused.value != "") ==>
                r.value == Guarded(RunCommand(scope, inv.name), CommandErrorHook, AfterCommandHook, fails))
    ensures p.kind == MESSAGE_COMPONENT ==> r == Ok(ComponentEffects(p.component, callbacks, fails))
  {
    if IsCommandKind(p.kind) {
      if p.commandId in scopes && scopes[p.commandId] in interactions.m {
        var scope := scopes[p.commandId];
        var ctx := GetContext(p, cache);
        match ctx {
          case Err(e) =>
            return Err(BadOptions(e));
          case Ok(c) =>
            if c.invokedName !in interactions.m[scope].m {
              return Err(UnknownInvokedName(c.invokedName));
            }
            var cmd := cmds[interactions.m[scope].m[c.invokedName]];
            return Ok(RunCommandOrAutocomplete(scope, cmd, c, fails));
        }
      }
      return Ok([LogUnknownCommand(p.commandId)]);
    } else if p.kind == MESSAGE_COMPONENT {
      var ctx := GetContext(p, cache);
      return Ok(ComponentEffects(ctx.value.use, callbacks, fails));
    }
    return Err(NotImplemented(p.kind));
  }

  // ---- Message commands ----

  /** What `get_prefix` returned: the mention sentinel, or a literal prefix. */
  datatype MessagePrefix = MentionPrefix | Literal(text: string)

  datatype Message = Message(authorIsBot: bool, content: string)

  datatype MessageOutcome = Ignored | Invoked(name: string, prefix: string, effects: seq<Effect>)

  /** The prefix in force for a message: a literal prefix as it is, the mention
      sentinel replaced by the leading mention of the bot (with its space), or
      nothing when the message does not start with one. */
  function EffectivePrefix(prefix: MessagePrefix, content: string, botId: nat): (r: Option<string>)
    ensures prefix.Literal? ==> r == Some(prefix.text)
    ensures prefix.MentionPrefix? && r.Some? ==>
      r.value <= content && |r.value| >= 1 && IsSpace(r.value[|r.value| - 1]) &&
      (r.value == Tag(false, botId) + [r.value[|r.value| - 1]] || r.value == Tag(true, botId) + [r.value[|r.value| - 1]])
  {
    match prefix
    case MentionPrefix => ExactMention(content, botId)
    case Literal(text) => Some(text)
  }

  /** `_dispatch_msg_commands`. `firstWord` is `get_first_word`; `fails` says
      whether the command raises. */
  function DispatchMessage(
    msg: Message, prefix: MessagePrefix, botId: nat, commands: map<string, MessageCommand>,
    firstWord: string -> string, fails: bool): (r: MessageOutcome)
    // messages from bots are never commands
    ensures msg.authorIsBot ==> r == Ignored
    // only a registered, enabled command runs, named by the first word after the prefix
    ensures r.Invoked? ==>
      && !msg.authorIsBot
      && EffectivePrefix(prefix, msg.content, botId) == Some(r.prefix)
      && r.prefix <= msg.content
      && r.name == firstWord(msg.content[|r.prefix|..])
      && r.name in commands && commands[r.name].enabled
      && r.effects == Guarded(RunMessageCommand(r.name), CommandErrorHook, AfterCommandHook, fails)
    // and every such command does run
    ensures !msg.authorIsBot && EffectivePrefix(prefix, msg.content, botId).Some? ==>
      var p := EffectivePrefix(prefix, msg.content, botId).value;
      p <= msg.content && firstWord(msg.content[|p|..]) in commands && commands[firstWord(msg.content[|p|..])].enabled
      ==> r.Invoked?
  {
    if msg.authorIsBot then Ignored
    else match EffectivePrefix(prefix, msg.content, botId)
      case None => Ignored
      case Some(p) =>
        if !(p <= msg.content) then Ignored
        else
          var name := firstWord(msg.content[|p|..]);
          if name in commands && commands[name].enabled then
            Invoked(name, p, Guarded(RunMessageCommand(name), CommandErrorHook, AfterCommandHook, fails))
          else Ignored
  }

  /** With the mention prefix, a message addressed to the user whose id is the
      bot's id without its last digit runs no command. */
  lemma OtherUserMentionIgnored(botId: nat, w: char, rest: string, commands: map<string, MessageCommand>,
    firstWord: string -> string, fails: bool)
    requires botId >= 10
    ensures DispatchMessage(Message(false, "<@" + Digits(botId / 10) + ">" + [w] + rest), MentionPrefix,
      botId, commands, firstWord, fails) == Ignored
  {
    StemMentionNotTag(botId, w, rest);
  }
}
