/** `get_context` for interaction payloads: the invoked command name, built by
    walking sub-command and sub-command-group options, and the keyword
    arguments, each option value resolved against the entity cache. */
module Context {
  import opened Base
  import opened Events

  /** An option value as the payload carries it. Snowflake-bearing values are `Id`. */
  datatype RawValue = Absent | Id(id: Snowflake) | Text(text: string) | Number(n: int) | Flag(b: bool)

  /** One entry of an interaction's `options` list; `options` is the nested list
      of a sub-command or group, `None` when the key is missing. */
  datatype Opt = Opt(name: string, kind: int, value: RawValue, focused: bool, options: Option<seq<Opt>>)

  /** A cached entity. */
  datatype Entity = Member(guildId: Snowflake, userId: Snowflake) | User(id: Snowflake) | Channel(id: Snowflake) | Role(id: Snowflake)

  /** The cache maps `get_context` reads; members are keyed by (guild id, user id). */
  datatype Cache = Cache(
    members: map<(Snowflake, Snowflake), Entity>,
    users: map<Snowflake, Entity>,
    channels: map<Snowflake, Entity>,
    roles: map<Snowflake, Entity>)

  /** A keyword argument: the raw value or the cached entity it resolved to. */
  datatype Arg = Raw(value: RawValue) | Cached(entity: Entity)

  datatype ContextError =
    | GroupWithoutOptions   // KeyError: a sub-command group without `options`
    | GroupWithoutCommand   // StopIteration: a group with no SUB_COMMAND inside

  /** The invoked name and the options left as arguments. */
  datatype Invocation = Invocation(name: string, options: seq<Opt>)

  /** The first SUB_COMMAND among `opts`: `next(x for x in opts if x["type"] == SUB_COMMAND)`. */
  function FirstSubCommand(opts: seq<Opt>): (r: Option<nat>)
    ensures r.Some? ==> r.value < |opts| && opts[r.value].kind == SUB_COMMAND
    ensures r.Some? ==> forall i :: 0 <= i < r.value ==> opts[i].kind != SUB_COMMAND
    ensures r.None? ==> forall i :: 0 <= i < |opts| ==> opts[i].kind != SUB_COMMAND
  {
    if opts == [] then None
    else if opts[0].kind == SUB_COMMAND then Some(0)
    else match FirstSubCommand(opts[1..])
      case None => None
      case Some(i) => Some(i + 1)
  }

  /** The invoked name of a command called `name` with top-level `options`. */
  function Invoke(name: string, options: Option<seq<Opt>>): (r: Result<Invocation, ContextError>)
    // without options, or with plain ones, the command name is the invoked name
    ensures (options.None? || options.value == [] ||
             options.value[0].kind !in {SUB_COMMAND, SUB_COMMAND_GROUP}) ==>
            r == Ok(Invocation(name, options.GetOr([])))
    // a sub-command adds its name and hands over its own options
    ensures options.Some? && options.value != [] && options.value[0].kind == SUB_COMMAND ==>
            r == Ok(Invocation(name + " " + options.value[0].name, options.value[0].options.GetOr([])))
    // a group adds its name and that of its first SUB_COMMAND, but hands over
    // the options of its first option, whatever its kind
    ensures options.Some? && options.value != [] && options.value[0].kind == SUB_COMMAND_GROUP ==>
            var g := options.value[0];
            match r
            case Err(e) =>
              (e == GroupWithoutOptions <==> g.options.None?) &&
              (e == GroupWithoutCommand <==> g.options.Some? && FirstSubCommand(g.options.value).None?)
            case Ok(inv) =>
              g.options.Some? && FirstSubCommand(g.options.value).Some? &&
              inv.name == name + " " + g.name + " " + g.options.value[FirstSubCommand(g.options.value).value].name &&
              inv.options == g.options.value[0].options.GetOr([])
  {
    match options
    case None => Ok(Invocation(name, []))
    case Some(opts) =>
      if opts == [] then Ok(Invocation(name, []))
      else if opts[0].kind == SUB_COMMAND then
        Ok(Invocation(name + " " + opts[0].name, opts[0].options.GetOr([])))
      else if opts[0].kind == SUB_COMMAND_GROUP then
        match opts[0].options
        case None => Err(GroupWithoutOptions)
        case Some(inner) =>
          match FirstSubCommand(inner)
          case None => Err(GroupWithoutCommand)
          case Some(i) => Ok(Invocation(name + " " + opts[0].name + " " + inner[i].name, inner[0].options.GetOr([])))
      else Ok(Invocation(name, opts))
  }

  /** The invoked name always begins with the command's own name. */
  lemma InvokedNameExtendsCommandName(name: string, options: Option<seq<Opt>>)
    requires Invoke(name, options).Ok?
    ensures |Invoke(name, options).value.name| >= |name|
    ensures Invoke(name, options).value.name[..|name|] == name
  {
  }

  // ---- Option resolution ----

  /** `data.get("guild_id", 0)` */
  function GuildKey(guildId: Option<Snowflake>): Snowflake {
    guildId.GetOr(0)
  }

  /** USER: the member of the interaction's guild, else the user, else the raw value. */
  function ResolveUser(guild: Snowflake, v: RawValue, cache: Cache): (r: Arg)
    ensures r.Raw? ==> r.value == v
    ensures r.Cached? <==> v.Id? && ((guild, v.id) in cache.members || v.id in cache.users)
    ensures v.Id? && (guild, v.id) in cache.members ==> r == Cached(cache.members[(guild, v.id)])
  {
    if v.Id? && (guild, v.id) in cache.members then Cached(cache.members[(guild, v.id)])
    else if v.Id? && v.id in cache.users then Cached(cache.users[v.id])
    else Raw(v)
  }

  /** CHANNEL and ROLE: their own cache, else the raw value. */
  function ResolveIn(m: map<Snowflake, Entity>, v: RawValue): (r: Arg)
    ensures r.Raw? ==> r.value == v
    ensures r.Cached? <==> v.Id? && v.id in m
    ensures r.Cached? ==> r.entity == m[v.id]
  {
    if v.Id? && v.id in m then Cached(m[v.id]) else Raw(v)
  }

  /** MENTIONABLE as written: the member cache is looked up with the bare id,
      which is never one of its (guild id, user id) keys, so the lookup always
      misses; then the user cache, then the role cache, else the raw value. */
  function ResolveMentionableAsWritten(v: RawValue, cache: Cache): (r: Arg)
    ensures r.Raw? ==> r.value == v
    ensures r.Cached? <==> v.Id? && (v.id in cache.users || v.id in cache.roles)
  {
    if v.Id? && v.id in cache.users then Cached(cache.users[v.id])
    else if v.Id? && v.id in cache.roles then Cached(cache.roles[v.id])
    else Raw(v)
  }

  /** MENTIONABLE with the member looked up under the interaction's guild, as
      the USER case does: member, else user, else role, else the raw value. */
  function ResolveMentionable(guild: Snowflake, v: RawValue, cache: Cache): (r: Arg)
    ensures r.Raw? ==> r.value == v
    ensures r.Cached? <==> v.Id? && ((guild, v.id) in cache.members || v.id in cache.users || v.id in cache.roles)
    ensures v.Id? && (guild, v.id) in cache.members ==> r == Cached(cache.members[(guild, v.id)])
    // a user or member always wins over a role with the same id
    ensures v.Id? && ((guild, v.id) in cache.members || v.id in cache.users) ==> r == ResolveUser(guild, v, cache)
  {
    match ResolveUser(guild, v, cache)
    case Cached(u) => Cached(u)
    case Raw(_) => ResolveIn(cache.roles, v)
  }

  /** A mentionable member: with the bare-id lookup the argument is the user
      object, not the member of the guild the interaction came from. */
  lemma MentionableMemberMissedAsWritten(guild: Snowflake, id: Snowflake, cache: Cache)
    requires (guild, id) in cache.members && id in cache.users
    ensures ResolveMentionableAsWritten(Id(id), cache) == Cached(cache.users[id])
    ensures ResolveMentionable(guild, Id(id), cache) == Cached(cache.members[(guild, id)])
  {
  }

  /** The value an option contributes to the keyword arguments. */
  function Resolve(guild: Snowflake, o: Opt, cache: Cache): (r: Arg)
    // resolution never fails: anything not found in the cache stays raw
    ensures r.Raw? ==> r.value == o.value
    ensures o.kind !in {USER, CHANNEL, ROLE, MENTIONABLE} ==> r == Raw(o.value)
    ensures o.kind == USER ==> r == ResolveUser(guild, o.value, cache)
    ensures o.kind == CHANNEL ==> r == ResolveIn(cache.channels, o.value)
    ensures o.kind == ROLE ==> r == ResolveIn(cache.roles, o.value)
    ensures o.kind == MENTIONABLE ==> r == ResolveMentionable(guild, o.value, cache)
  {
    if o.kind == USER then ResolveUser(guild, o.value, cache)
    else if o.kind == CHANNEL then ResolveIn(cache.channels, o.value)
    else if o.kind == ROLE then ResolveIn(cache.roles, o.value)
    else if o.kind == MENTIONABLE then ResolveMentionable(guild, o.value, cache)
    else Raw(o.value)
  }

  /** A USER option whose id is cached only as a user resolves to that user;
      one cached nowhere resolves to its raw id. */
  lemma UserFallbacks(guild: Snowflake, o: Opt, cache: Cache)
    requires o.kind == USER && o.value.Id? && (guild, o.value.id) !in cache.members
    ensures o.value.id in cache.users ==> Resolve(guild, o, cache) == Cached(cache.users[o.value.id])
    ensures o.value.id !in cache.users ==> Resolve(guild, o, cache) == Raw(o.value)
  {
  }

  // ---- Keyword arguments ----

  function LowerChar(c: char): char {
    if 'A' <= c <= 'Z' then (c as int + 32) as char else c
  }

  /** `str.lower()` on ASCII letters. */
  function Lower(s: string): (r: string)
    ensures |r| == |s|
    ensures forall i :: 0 <= i < |s| ==> r[i] == LowerChar(s[i])
  {
    seq(|s|, i requires 0 <= i < |s| => LowerChar(s[i]))
  }

  /** The keyword names of `opts`, one per option. */
  function Keys(opts: seq<Opt>): (r: seq<string>)
    ensures |r| == |opts|
    ensures forall i :: 0 <= i < |opts| ==> r[i] == Lower(opts[i].name)
  {
    seq(|opts|, i requires 0 <= i < |opts| => Lower(opts[i].name))
  }

  /** The name of the last focused option, if any. */
  function LastFocused(opts: seq<Opt>): Option<string> {
    if opts == [] then None
    else if opts[|opts| - 1].focused then Some(opts[|opts| - 1].name)
    else LastFocused(opts[..|opts| - 1])
  }

  lemma {:induction false} LastFocusedSpec(opts: seq<Opt>)
    ensures LastFocused(opts).None? <==> forall i :: 0 <= i < |opts| ==> !opts[i].focused
    ensures LastFocused(opts).Some? ==>
      exists i :: 0 <= i < |opts| && opts[i].focused && opts[i].name == LastFocused(opts).value &&
        forall j :: i < j < |opts| ==> !opts[j].focused
  {
    if opts != [] && !opts[|opts| - 1].focused {
      var init := opts[..|opts| - 1];
      LastFocusedSpec(init);
      if LastFocused(init).Some? {
        var i :| 0 <= i < |init| && init[i].focused && init[i].name == LastFocused(init).value &&
          forall j :: i < j < |init| ==> !init[j].focused;
        assert opts[i] == init[i];
      }
    }
  }

  /** The last focused option among one more option. */
  lemma LastFocusedStep(opts: seq<Opt>, i: nat)
    requires i < |opts|
    ensures LastFocused(opts[..i + 1]) == if opts[i].focused then Some(opts[i].name) else LastFocused(opts[..i])
  {
    assert opts[..i + 1][..i] == opts[..i];
  }

  /** `j` is the last option whose keyword name is that of option `j`. */
  ghost predicate LastOfKey(opts: seq<Opt>, j: nat)
    requires j < |opts|
  {
    forall l :: j < l < |opts| ==> Lower(opts[l].name) != Lower(opts[j].name)
  }

  /** The loop of `get_context` that fills `kwargs` and `focussed_option`. */
  method BuildArguments(guild: Snowflake, opts: seq<Opt>, cache: Cache)
    returns (kwargs: ODict<string, Arg>, focused: Option<string>)
    ensures kwargs.Valid()
    // one keyword per distinct lowercased name, in order of first appearance
    ensures kwargs.keys == Dedup(Keys(opts))
    // a repeated name keeps the value of its last option
    ensures forall j :: 0 <= j < |opts| && LastOfKey(opts, j) ==>
      Lower(opts[j].name) in kwargs.m && kwargs.m[Lower(opts[j].name)] == Resolve(guild, opts[j], cache)
    ensures focused == LastFocused(opts)
  {
    kwargs := EmptyDict();
    focused := None;
    ghost var keys, vals := Keys(opts), ResolvedAll(guild, opts, cache);
    var i := 0;
    while i < |opts|
      invariant 0 <= i <= |opts|
      invariant Filled(keys, vals, i, kwargs)
      invariant focused == LastFocused(opts[..i])
    {
      var o := opts[i];
      var value := Resolve(guild, o, cache);
      if o.focused {
        focused := Some(o.name);
      }
      FilledStep(keys, vals, i, kwargs);
      LastFocusedStep(opts, i);
      kwargs := kwargs.Put(Lower(o.name), value);
      i := i + 1;
    }
    FilledAll(guild, opts, cache, kwargs);
    assert opts[..i] == opts;
  }

  /** Once every option is in, the dict has the keyword order and values
      `BuildArguments` promises. */
  lemma FilledAll(guild: Snowflake, opts: seq<Opt>, cache: Cache, d: ODict<string, Arg>)
    requires Filled(Keys(opts), ResolvedAll(guild, opts, cache), |opts|, d)
    ensures d.Valid() && d.keys == Dedup(Keys(opts))
    ensures forall j :: 0 <= j < |opts| && LastOfKey(opts, j) ==>
      Lower(opts[j].name) in d.m && d.m[Lower(opts[j].name)] == Resolve(guild, opts[j], cache)
  {
    assert Keys(opts)[..|opts|] == Keys(opts);
  }

  /** Every option's resolved value, one per option. */
  function ResolvedAll(guild: Snowflake, opts: seq<Opt>, cache: Cache): (r: seq<Arg>)
    ensures |r| == |opts|
    ensures forall i :: 0 <= i < |opts| ==> r[i] == Resolve(guild, opts[i], cache)
  {
    seq(|opts|, i requires 0 <= i < |opts| => Resolve(guild, opts[i], cache))
  }

  /** A dict filled with `d[keys[j]] = vals[j]` for the first `i` positions:
      one key per distinct key so far, in order of first appearance, each
      holding the value of its last position so far. */
  ghost predicate Filled(keys: seq<string>, vals: seq<Arg>, i: nat, d: ODict<string, Arg>)
    requires i <= |keys| == |vals|
  {
    && d.Valid()
    && d.keys == Dedup(keys[..i])
    && forall j :: 0 <= j < i && (forall l :: j < l < i ==> keys[l] != keys[j]) ==>
         keys[j] in d.m && d.m[keys[j]] == vals[j]
  }

  lemma FilledStep(keys: seq<string>, vals: seq<Arg>, i: nat, d: ODict<string, Arg>)
    requires i < |keys| == |vals| && Filled(keys, vals, i, d)
    ensures Filled(keys, vals, i + 1, d.Put(keys[i], vals[i]))
  {
    FilledKeysStep(keys, i, d, vals[i]);
    FilledValuesStep(keys, vals, i, d);
  }

  /** The key order after one more `d[keys[i]] = v`. */
  lemma FilledKeysStep(keys: seq<string>, i: nat, d: ODict<string, Arg>, v: Arg)
    requires i < |keys| && d.Valid() && d.keys == Dedup(keys[..i])
    ensures d.Put(keys[i], v).keys == Dedup(keys[..i + 1])
  {
    DedupStep(keys, i);
    DedupSpec(keys[..i]);
    assert keys[i] in d.m <==> keys[i] in Dedup(keys[..i]);
  }

  /** The values after one more `d[keys[i]] = vals[i]`: the new key holds the
      new value, the others keep theirs. */
  lemma FilledValuesStep(keys: seq<string>, vals: seq<Arg>, i: nat, d: ODict<string, Arg>)
    requires i < |keys| == |vals| && d.Valid()
    requires forall j :: 0 <= j < i && (forall l :: j < l < i ==> keys[l] != keys[j]) ==>
      keys[j] in d.m && d.m[keys[j]] == vals[j]
    ensures var next := d.Put(keys[i], vals[i]);
      forall j :: 0 <= j < i + 1 && (forall l :: j < l < i + 1 ==> keys[l] != keys[j]) ==>
        keys[j] in next.m && next.m[keys[j]] == vals[j]
  {
    var next := d.Put(keys[i], vals[i]);
    forall j | 0 <= j < i + 1 && (forall l :: j < l < i + 1 ==> keys[l] != keys[j])
      ensures keys[j] in next.m && next.m[keys[j]] == vals[j]
    {
      if j < i {
        assert keys[i] != keys[j];
      }
    }
  }

  // ---- The context of an interaction ----

  /** An interaction payload: its type, the command id and name, the options,
      the guild it came from, and for components the component's context. */
  datatype Interaction = Interaction(
    kind: int,
    commandId: string,
    name: string,
    options: Option<seq<Opt>>,
    guildId: Option<Snowflake>,
    component: ComponentUse)

  /** The context object `get_context` returns for an interaction. */
  datatype Ctx =
    | CommandCtx(autocomplete: bool, invokedName: string, kwargs: ODict<string, Arg>, args: seq<Arg>, focused: Option<string>)
    | ComponentCtx(use: ComponentUse)

  /** `get_context(data, interaction=True)`. */
  method GetContext(p: Interaction, cache: Cache) returns (r: Result<Ctx, ContextError>)
    ensures p.kind == MESSAGE_COMPONENT ==> r == Ok(ComponentCtx(p.component))
    ensures p.kind != MESSAGE_COMPONENT ==>
      match Invoke(p.name, p.options)
      case Err(e) => r == Err(e)
      case Ok(inv) =>
        && r.Ok? && r.value.CommandCtx?
        && r.value.autocomplete == (p.kind == AUTOCOMPLETE)
        && r.value.invokedName == inv.name
        && r.value.kwargs.Valid()
        && r.value.kwargs.keys == Dedup(Keys(inv.options))
        && (forall j :: 0 <= j < |inv.options| && LastOfKey(inv.options, j) ==>
              Lower(inv.options[j].name) in r.value.kwargs.m &&
              r.value.kwargs.m[Lower(inv.options[j].name)] == Resolve(GuildKey(p.guildId), inv.options[j], cache))
        // `args` are the keyword values in insertion order
        && r.value.args == r.value.kwargs.Values()
        && r.value.focused == LastFocused(inv.options)
  {
    if p.kind == MESSAGE_COMPONENT {
      return Ok(ComponentCtx(p.component));
    }
    match Invoke(p.name, p.options) {
      case Err(e) =>
        return Err(e);
      case Ok(inv) =>
        var kwargs, focused := BuildArguments(GuildKey(p.guildId), inv.options, cache);
        return Ok(CommandCtx(p.kind == AUTOCOMPLETE, inv.name, kwargs, kwargs.Values(), focused));
    }
  }
}
