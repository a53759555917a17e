/** The pieces of `synchronise_interactions` that decide what to send: which
    local commands to post for a scope and whether to post at all, which
    registered names take the id of a posted command, how permission batches
    accumulate, and which remote commands are left unmatched. */
module Sync {
  import opened Base
  import opened Commands

  /** An option of a remote command as the HTTP API returns it. */
  datatype RemoteOption = RemoteOption(name: string, kind: int, options: seq<RemoteOption>)

  /** A remote application command: its id, name, guild (absent: global) and options. */
  datatype RemoteCmd = RemoteCmd(id: string, name: string, guildId: Option<Snowflake>, options: seq<RemoteOption>)

  /** The answer to an HTTP call: refused with 403, or a list of commands
      (empty for calls that return none). */
  datatype Response = Forbidden | Listed(cmds: seq<RemoteCmd>)

  /** An entry of a permission batch: a command id and all of the command's permissions. */
  datatype PermEntry = PermEntry(cmdId: Option<string>, permissions: seq<Permission>)

  /** The HTTP calls the client makes while caching and synchronising. */
  datatype HttpCall =
    | GetCommands(scope: Scope)
    | PostCommands(scope: Scope, names: seq<string>)
    | EditPermissions(guild: Snowflake, entries: seq<PermEntry>)
    | DeleteCommand(scope: Scope, id: string)

  /** The remote command whose id is `cmdId`, the first one if several are. */
  function FindById(remote: seq<RemoteCmd>, cmdId: Option<string>): (r: Option<RemoteCmd>)
    ensures r.None? <==> forall i :: 0 <= i < |remote| ==> cmdId != Some(remote[i].id)
    ensures r.Some? ==> r.value in remote && cmdId == Some(r.value.id)
  {
    if remote == [] then None
    else if cmdId == Some(remote[0].id) then Some(remote[0])
    else
      var r := FindById(remote[1..], cmdId);
      assert forall i :: 1 <= i < |remote| ==> remote[i] == remote[1..][i - 1];
      r
  }

  /** The top-level names of a scope's local commands; a command's JSON entry
      is the one of its top-level name. */
  function Names(locals: seq<InteractionCommand>): (r: seq<string>)
    ensures |r| == |locals| && forall i :: 0 <= i < |locals| ==> r[i] == locals[i].name
  {
    seq(|locals|, i requires 0 <= i < |locals| => locals[i].name)
  }

  /** The remote counterpart, by id, of each local command. */
  function Matches(locals: seq<InteractionCommand>, remote: seq<RemoteCmd>): (r: seq<Option<RemoteCmd>>)
    ensures |r| == |locals| && forall i :: 0 <= i < |locals| ==> r[i] == FindById(remote, locals[i].cmdId)
  {
    seq(|locals|, i requires 0 <= i < |locals| => FindById(remote, locals[i].cmdId))
  }

  /** Some of the first `n` local commands needs syncing. */
  predicate AnyNeedsSync(locals: seq<InteractionCommand>, remote: seq<RemoteCmd>,
    syncNeeded: (string, Option<RemoteCmd>) -> bool, n: nat)
    requires n <= |locals|
  {
    n > 0 && (AnyNeedsSync(locals, remote, syncNeeded, n - 1) || syncNeeded(locals[n - 1].name, FindById(remote, locals[n - 1].cmdId)))
  }

  lemma {:induction false} AnyNeedsSyncSpec(locals: seq<InteractionCommand>, remote: seq<RemoteCmd>,
    syncNeeded: (string, Option<RemoteCmd>) -> bool, n: nat)
    requires n <= |locals|
    ensures AnyNeedsSync(locals, remote, syncNeeded, n) <==>
      exists i :: 0 <= i < n && syncNeeded(locals[i].name, FindById(remote, locals[i].cmdId))
  {
    if n > 0 {
      AnyNeedsSyncSpec(locals, remote, syncNeeded, n - 1);
    }
  }

  /** The first loop over a scope's commands: the JSON entries to post (each
      once), the remote commands matched (each once, "no match" included),
      and whether any command needs syncing. `syncNeeded` is `sync_needed`. */
  method ScopeNeedsSync(locals: seq<InteractionCommand>, remote: seq<RemoteCmd>,
    syncNeeded: (string, Option<RemoteCmd>) -> bool)
    returns (toSync: seq<string>, found: seq<Option<RemoteCmd>>, need: bool)
    ensures toSync == Dedup(Names(locals))
    ensures found == Dedup(Matches(locals, remote))
    ensures need <==> exists i :: 0 <= i < |locals| && syncNeeded(locals[i].name, FindById(remote, locals[i].cmdId))
  {
    toSync, found, need := [], [], false;
    var i := 0;
    while i < |locals|
      invariant 0 <= i <= |locals|
      invariant toSync == Dedup(Names(locals)[..i])
      invariant found == Dedup(Matches(locals, remote)[..i])
      invariant need == AnyNeedsSync(locals, remote, syncNeeded, i)
    {
      var remoteCmd := FindById(remote, locals[i].cmdId);
      var name := locals[i].name;
      DedupStep(Names(locals), i);
      DedupStep(Matches(locals, remote), i);
      toSync := AddNew(toSync, name);
      found := AddNew(found, remoteCmd);
      if syncNeeded(name, remoteCmd) {
        need := true;
      }
      i := i + 1;
    }
    assert Names(locals)[..i] == Names(locals);
    assert Matches(locals, remote)[..i] == Matches(locals, remote);
    AnyNeedsSyncSpec(locals, remote, syncNeeded, i);
  }

  // ---- Which registered names take a posted command's id ----

  function Join(a: string, b: string): string {
    a + " " + b
  }

  /** `k` is `parent sub` for a SUB_COMMAND option, or `parent group sub` for
      an option of a SUB_COMMAND_GROUP option. */
  ghost predicate JoinedKey(parent: string, opts: seq<RemoteOption>, k: string) {
    exists i :: 0 <= i < |opts| && JoinedKeyOf(parent, opts[i], k)
  }

  ghost predicate JoinedKeyOf(parent: string, o: RemoteOption, k: string) {
    || (o.kind == SUB_COMMAND && k == Join(parent, o.name))
    || (o.kind == SUB_COMMAND_GROUP && exists j :: 0 <= j < |o.options| && k == Join(Join(parent, o.name), o.options[j].name))
  }

  /** The registered keys among `prefix sub` for every option `sub`. */
  function GroupKeys(prefix: string, opts: seq<RemoteOption>, registered: set<string>): (r: seq<string>)
    ensures forall k :: k in r <==> k in registered && exists j :: 0 <= j < |opts| && k == Join(prefix, opts[j].name)
  {
    if opts == [] then []
    else
      var rest := GroupKeys(prefix, opts[1..], registered);
      assert forall j :: 1 <= j < |opts| ==> opts[j] == opts[1..][j - 1];
      var k := Join(prefix, opts[0].name);
      (if k in registered then [k] else []) + rest
  }

  /** The registered keys the sub-command options of a posted command name. */
  function SubKeys(parent: string, opts: seq<RemoteOption>, registered: set<string>): seq<string> {
    if opts == [] then []
    else
      var sc := opts[0];
      var here :=
        if sc.kind == SUB_COMMAND then (if Join(parent, sc.name) in registered then [Join(parent, sc.name)] else [])
        else if sc.kind == SUB_COMMAND_GROUP then GroupKeys(Join(parent, sc.name), sc.options, registered)
        else [];
      here + SubKeys(parent, opts[1..], registered)
  }

  /** The keys whose command takes the id of posted command `d`: its own name
      when that is registered, otherwise the registered sub-command keys. */
  function UpdatedKeys(d: RemoteCmd, registered: set<string>): (r: seq<string>)
    ensures d.name in registered ==> r == [d.name]
  {
    if d.name in registered then [d.name] else SubKeys(d.name, d.options, registered)
  }

  /** The sub-command keys are exactly the registered joined keys. */
  lemma {:induction false} SubKeysSpec(parent: string, opts: seq<RemoteOption>, registered: set<string>)
    ensures forall k :: k in SubKeys(parent, opts, registered) <==> k in registered && JoinedKey(parent, opts, k)
  {
    if opts != [] {
      SubKeysSpec(parent, opts[1..], registered);
      forall k
        ensures JoinedKey(parent, opts, k) <==> JoinedKeyOf(parent, opts[0], k) || JoinedKey(parent, opts[1..], k)
      {
        if JoinedKey(parent, opts, k) {
          var i :| 0 <= i < |opts| && JoinedKeyOf(parent, opts[i], k);
          if i > 0 {
            assert opts[1..][i - 1] == opts[i];
          }
        }
        if JoinedKey(parent, opts[1..], k) {
          var i :| 0 <= i < |opts[1..]| && JoinedKeyOf(parent, opts[1..][i], k);
          assert opts[i + 1] == opts[1..][i];
        }
      }
    }
  }

  /** Every key a posted command updates is registered and is the command's
      name or one of its joined sub-command keys; every registered joined key
      is updated when the name itself is not registered. */
  lemma UpdatedKeysSpec(d: RemoteCmd, registered: set<string>)
    ensures forall k :: k in UpdatedKeys(d, registered) ==> k in registered && (k == d.name || JoinedKey(d.name, d.options, k))
    ensures d.name !in registered ==>
      forall k :: k in registered && JoinedKey(d.name, d.options, k) ==> k in UpdatedKeys(d, registered)
  {
    SubKeysSpec(d.name, d.options, registered);
  }

  // ---- Permission batches ----

  /** The entries one command adds: one per declared permission, under that
      permission's guild, each carrying all of the command's permissions. */
  function CmdPerms(c: InteractionCommand): (r: seq<(Snowflake, PermEntry)>)
    ensures |r| == |c.permissions|
    ensures forall i :: 0 <= i < |r| ==> r[i] == (c.permissions[i].guildId, PermEntry(c.cmdId, c.permissions))
  {
    seq(|c.permissions|, i requires 0 <= i < |c.permissions| => (c.permissions[i].guildId, PermEntry(c.cmdId, c.permissions)))
  }

  /** The entries a scope's commands add, in order. */
  function AllPerms(locals: seq<InteractionCommand>): seq<(Snowflake, PermEntry)> {
    if locals == [] then [] else AllPerms(locals[..|locals| - 1]) + CmdPerms(locals[|locals| - 1])
  }

  /** `guild_perms[g].append(e)`, creating the list if needed. */
  function AddPerm(d: ODict<Snowflake, seq<PermEntry>>, g: Snowflake, e: PermEntry): (r: ODict<Snowflake, seq<PermEntry>>)
    requires d.Valid()
    ensures r.Valid() && r.keys == AddNew(d.keys, g)
  {
    d.Put(g, d.GetOr(g, []) + [e])
  }

  /** All of `pairs` appended in order. */
  function AddAll(d: ODict<Snowflake, seq<PermEntry>>, pairs: seq<(Snowflake, PermEntry)>): (r: ODict<Snowflake, seq<PermEntry>>)
    requires d.Valid()
    ensures r.Valid()
  {
    if pairs == [] then d
    else AddPerm(AddAll(d, pairs[..|pairs| - 1]), pairs[|pairs| - 1].0, pairs[|pairs| - 1].1)
  }

  /** The entries of `pairs` for guild `g`, in order. */
  function EntriesFor(pairs: seq<(Snowflake, PermEntry)>, g: Snowflake): seq<PermEntry> {
    if pairs == [] then []
    else EntriesFor(pairs[..|pairs| - 1], g) + (if pairs[|pairs| - 1].0 == g then [pairs[|pairs| - 1].1] else [])
  }

  function Guilds(pairs: seq<(Snowflake, PermEntry)>): (r: seq<Snowflake>)
    ensures |r| == |pairs| && forall i :: 0 <= i < |pairs| ==> r[i] == pairs[i].0
  {
    seq(|pairs|, i requires 0 <= i < |pairs| => pairs[i].0)
  }

  /** Appending keeps every earlier entry: each guild's list grows by exactly
      its new entries. */
  lemma {:induction false} AddAllEntries(d: ODict<Snowflake, seq<PermEntry>>, pairs: seq<(Snowflake, PermEntry)>)
    requires d.Valid()
    ensures forall g :: AddAll(d, pairs).GetOr(g, []) == d.GetOr(g, []) + EntriesFor(pairs, g)
  {
    if pairs != [] {
      AddAllEntries(d, pairs[..|pairs| - 1]);
    }
  }

  /** New guilds come after the old ones, in order of first appearance. */
  lemma {:induction false} AddAllKeys(d: ODict<Snowflake, seq<PermEntry>>, pairs: seq<(Snowflake, PermEntry)>)
    requires d.Valid()
    ensures AddAll(d, pairs).keys == Dedup<Snowflake>(d.keys + Guilds(pairs))
  {
    if pairs == [] {
      assert d.keys + Guilds(pairs) == d.keys;
      DedupOfDistinct<Snowflake>(d.keys);
    } else {
      var n := |pairs| - 1;
      AddAllKeys(d, pairs[..n]);
      var g := pairs[n].0;
      var before := d.keys + Guilds(pairs[..n]);
      calc {
        AddAll(d, pairs).keys;
        AddNew(AddAll(d, pairs[..n]).keys, g);
        AddNew(Dedup<Snowflake>(before), g);
        { DedupSnoc<Snowflake>(before, g); }
        Dedup<Snowflake>(before + [g]);
        { assert before + [g] == d.keys + Guilds(pairs); }
        Dedup<Snowflake>(d.keys + Guilds(pairs));
      }
    }
  }

  /** The permission loop of one scope: every command with permissions adds,
      for each of its permissions, an entry under that permission's guild. */
  method GatherPerms(d: ODict<Snowflake, seq<PermEntry>>, locals: seq<InteractionCommand>)
    returns (r: ODict<Snowflake, seq<PermEntry>>)
    requires d.Valid()
    ensures r == AddAll(d, AllPerms(locals))
  {
    r := d;
    var i := 0;
    while i < |locals|
      invariant 0 <= i <= |locals|
      invariant r == AddAll(d, AllPerms(locals[..i]))
    {
      var c := locals[i];
      ghost var pre := AllPerms(locals[..i]);
      var j := 0;
      AddAllStep(d, pre, CmdPerms(c), 0);
      while j < |c.permissions|
        invariant 0 <= j <= |c.permissions|
        invariant r == AddAll(d, pre + CmdPerms(c)[..j])
      {
        AddAllStep(d, pre, CmdPerms(c), j);
        r := AddPerm(r, c.permissions[j].guildId, PermEntry(c.cmdId, c.permissions));
        j := j + 1;
      }
      AllPermsStep(locals, i);
      i := i + 1;
    }
    assert locals[..i] == locals;
  }

  /** One entry more of the permission loop. */
  lemma AddAllStep(d: ODict<Snowflake, seq<PermEntry>>, pre: seq<(Snowflake, PermEntry)>, ps: seq<(Snowflake, PermEntry)>, j: nat)
    requires d.Valid() && j <= |ps|
    ensures pre + ps[..0] == pre && ps[..|ps|] == ps
    ensures j < |ps| ==> AddAll(d, pre + ps[..j + 1]) == AddPerm(AddAll(d, pre + ps[..j]), ps[j].0, ps[j].1)
  {
    assert pre + ps[..0] == pre;
    if j < |ps| {
      var all := pre + ps[..j + 1];
      assert all[..|all| - 1] == pre + ps[..j];
      assert all[|all| - 1] == ps[j];
      AddAllLast(d, all);
    }
  }

  lemma AddAllLast(d: ODict<Snowflake, seq<PermEntry>>, pairs: seq<(Snowflake, PermEntry)>)
    requires d.Valid() && pairs != []
    ensures AddAll(d, pairs) == AddPerm(AddAll(d, pairs[..|pairs| - 1]), pairs[|pairs| - 1].0, pairs[|pairs| - 1].1)
  {
  }

  /** One command more of the permission loop. */
  lemma AllPermsStep(locals: seq<InteractionCommand>, i: nat)
    requires i < |locals|
    ensures AllPerms(locals[..i + 1]) == AllPerms(locals[..i]) + CmdPerms(locals[i])
  {
    assert locals[..i + 1][..i] == locals[..i];
  }

  /** The remote commands no local command matched, in remote order. */
  function Unfound(remote: seq<RemoteCmd>, found: seq<Option<RemoteCmd>>): (r: seq<RemoteCmd>)
    ensures forall c :: c in r <==> c in remote && Some(c) !in found
  {
    if remote == [] then []
    else
      var rest := Unfound(remote[1..], found);
      assert forall c :: c in remote <==> c == remote[0] || c in remote[1..];
      (if Some(remote[0]) in found then [] else [remote[0]]) + rest
  }

  /** `cmd.get("guild_id", GLOBAL_SCOPE)`: the scope a remote command is deleted from. */
  function HomeScope(c: RemoteCmd): Scope {
    match c.guildId
    case Some(g) => Guild(g)
    case None => Global
  }
}
