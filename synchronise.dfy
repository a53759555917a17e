/** `synchronise_interactions`: after caching, each scope the bot is in is
    fetched, its commands are posted when any of them needs syncing, the
    permission batches gathered so far are sent, and (when enabled) remote
    commands no local command matched are deleted; a refused call raises
    `InteractionMissingAccess` for the scope being synchronised. */
module Synchronise {
  import opened Base
  import opened Commands
  import opened Sync
  import opened Caching

  /** `guild_perms`: guild -> the permission entries to send there, in the
      order the guilds first got an entry. */
  type Perms = ODict<Snowflake, seq<PermEntry>>

  /** The outcome of synchronising: the `InteractionMissingAccess` raised, if
      any, the state reached, the permission batches and the calls made. */
  datatype Synced = Synced(error: Option<Scope>, cache: Cache, perms: Perms, calls: seq<HttpCall>)

  /** The commands at positions `idxs`, in order. */
  function Locals(cmds: seq<InteractionCommand>, idxs: seq<nat>): (r: seq<InteractionCommand>)
    requires forall j :: 0 <= j < |idxs| ==> idxs[j] < |cmds|
    ensures |r| == |idxs| && forall j :: 0 <= j < |idxs| ==> r[j] == cmds[idxs[j]]
  {
    seq(|idxs|, j requires 0 <= j < |idxs| => cmds[idxs[j]])
  }

  /** `interactions.get(s, {}).values()`: the commands registered in `s`. */
  function ScopeLocals(t: Table, cmds: seq<InteractionCommand>, s: Scope): (r: seq<InteractionCommand>)
    requires TableValid(t, cmds)
    ensures |r| == |Positions(t, s)|
  {
    PositionsInRange(t, cmds, s);
    Locals(cmds, Positions(t, s))
  }

  /** One batch edit per guild of `perms`, in its key order. */
  function Edits(perms: Perms): (r: seq<HttpCall>)
    requires perms.Valid()
    ensures |r| == |perms.keys|
    ensures forall i :: 0 <= i < |r| ==> r[i] == EditPermissions(perms.keys[i], perms.m[perms.keys[i]])
  {
    seq(|perms.keys|, i requires 0 <= i < |perms.keys| => EditPermissions(perms.keys[i], perms.m[perms.keys[i]]))
  }

  /** One deletion per unused remote command, from the scope it lives in. */
  function Deletes(unused: seq<RemoteCmd>): (r: seq<HttpCall>)
    ensures |r| == |unused|
    ensures forall i :: 0 <= i < |r| ==> r[i] == DeleteCommand(HomeScope(unused[i]), unused[i].id)
  {
    seq(|unused|, i requires 0 <= i < |unused| => DeleteCommand(HomeScope(unused[i]), unused[i].id))
  }

  /** Some local command needs syncing against the listing. */
  predicate NeedsSync(locals: seq<InteractionCommand>, remote: seq<RemoteCmd>, syncNeeded: (string, Option<RemoteCmd>) -> bool) {
    exists i :: 0 <= i < |locals| && syncNeeded(locals[i].name, FindById(remote, locals[i].cmdId))
  }

  /** The calls made after the post: the permission batches, then the
      deletions of unmatched remote commands when those are enabled. */
  function AfterPost(perms: Perms, remote: seq<RemoteCmd>, found: seq<Option<RemoteCmd>>, deleteUnused: bool): seq<HttpCall>
    requires perms.Valid()
  {
    Edits(perms) + (if deleteUnused then Deletes(Unfound(remote, found)) else [])
  }

  /** The calls that stop at the first refusal, after `pre`; the scope
      fails when one of them is refused. The batches are a local of the
      whole run, so a failed scope carries them as they were before it. */
  function Finish(s: Scope, c: Cache, before: Perms, after: Perms, pre: seq<HttpCall>, rest: seq<HttpCall>, respond: HttpCall -> Response): Synced {
    var failed := FirstForbidden(rest, respond) < |rest|;
    Synced(if failed then Some(s) else None, c, if failed then before else after, pre + Sent(rest, respond))
  }

  /** The commands after the post, if one was made. */
  function AfterPostIds(c: Cache, t: Table, s: Scope, need: bool, answer: Response): (r: Cache)
    requires TableValid(t, c.cmds)
    ensures SameButIds(c.cmds, r.cmds)
  {
    if need && answer.Listed? then ApplyPosted(c, t.GetOr(s, EmptyDict()), s, answer.cmds) else c
  }

  /** One iteration of the loop over the scopes: the listing is fetched
      first; the scope fails exactly when one of its calls is refused, and
      then the refused call is the last one made and the error names the
      scope. The scope's commands are posted exactly when the listing arrives
      and one of them needs syncing, and then as their distinct top-level
      names. */
  function SyncScope(c: Cache, perms: Perms, t: Table, s: Scope, respond: HttpCall -> Response,
    syncNeeded: (string, Option<RemoteCmd>) -> bool, deleteUnused: bool): (r: Synced)
    requires TableValid(t, c.cmds) && perms.Valid()
    ensures SameButIds(c.cmds, r.cache.cmds) && r.perms.Valid()
    ensures |r.calls| > 0 && r.calls[0] == GetCommands(s)
    ensures StopsAtRefusal(r, respond) && (r.error.Some? ==> r.error == Some(s))
  {
    match respond(GetCommands(s))
    case Forbidden => Synced(Some(s), c, perms, [GetCommands(s)])
    case Listed(remote) => SyncListed(c, perms, t, s, remote, respond, syncNeeded, deleteUnused)
  }

  /** The rest of an iteration once the scope's listing `remote` arrived:
      the post when needed, then the permission batches and deletions, all
      stopping at the first refusal. A refused post leaves the commands as
      they were and the batches unsent. */
  function SyncListed(c: Cache, perms: Perms, t: Table, s: Scope, remote: seq<RemoteCmd>, respond: HttpCall -> Response,
    syncNeeded: (string, Option<RemoteCmd>) -> bool, deleteUnused: bool): (r: Synced)
    requires TableValid(t, c.cmds) && perms.Valid()
    requires respond(GetCommands(s)) == Listed(remote)
    ensures SameButIds(c.cmds, r.cache.cmds) && r.perms.Valid()
    ensures |r.calls| > 0 && r.calls[0] == GetCommands(s)
    ensures StopsAtRefusal(r, respond) && (r.error.Some? ==> r.error == Some(s))
  {
    var locals := ScopeLocals(t, c.cmds, s);
    var need := NeedsSync(locals, remote, syncNeeded);
    var post := PostCommands(s, Dedup(Names(locals)));
    if need && respond(post).Forbidden? then Synced(Some(s), c, perms, [GetCommands(s), post])
    else SyncPosted(c, perms, t, s, remote, locals, need, post, respond, deleteUnused)
  }

  /** The rest of an iteration once the post, if needed, was accepted: the
      calls made so far, then the permission batches and deletions. */
  function SyncPosted(c: Cache, perms: Perms, t: Table, s: Scope, remote: seq<RemoteCmd>, locals: seq<InteractionCommand>,
    need: bool, post: HttpCall, respond: HttpCall -> Response, deleteUnused: bool): (r: Synced)
    requires TableValid(t, c.cmds) && perms.Valid()
    requires !respond(GetCommands(s)).Forbidden? && (need ==> !respond(post).Forbidden?)
    ensures SameButIds(c.cmds, r.cache.cmds) && r.perms.Valid()
    ensures |r.calls| > 0 && r.calls[0] == GetCommands(s)
    ensures StopsAtRefusal(r, respond) && (r.error.Some? ==> r.error == Some(s))
  {
    var st := PostStage(c, perms, t, s, remote, locals, need, respond(post), deleteUnused);
    var pre := [GetCommands(s)] + (if need then [post] else []);
    FinishCalls(s, st.cache, perms, st.perms, pre, st.rest, respond);
    Finish(s, st.cache, perms, st.perms, pre, st.rest, respond)
  }

  /** What follows the post decision: the commands once the post's answer is
      applied, the permission batches with the scope's entries added, and
      the calls to make after the post. */
  datatype Stage = Stage(cache: Cache, perms: Perms, rest: seq<HttpCall>)

  function PostStage(c: Cache, perms: Perms, t: Table, s: Scope, remote: seq<RemoteCmd>, locals: seq<InteractionCommand>,
    need: bool, answer: Response, deleteUnused: bool): (r: Stage)
    requires TableValid(t, c.cmds) && perms.Valid()
    ensures SameButIds(c.cmds, r.cache.cmds) && r.perms.Valid()
    ensures TableValid(t, r.cache.cmds)
    ensures forall call :: call in r.rest ==> call.EditPermissions? || call.DeleteCommand?
  {
    var c' := AfterPostIds(c, t, s, need, answer);
    TableValidSameButIds(t, c.cmds, c'.cmds);
    var perms' := AddAll(perms, AllPerms(ScopeLocals(t, c'.cmds, s)));
    Stage(c', perms', AfterPost(perms', remote, Dedup(Matches(locals, remote)), deleteUnused))
  }

  /** The loop over the scopes, which stops at the first error. */
  function SyncAll(c: Cache, perms: Perms, t: Table, scopes: seq<Scope>, respond: HttpCall -> Response,
    syncNeeded: (string, Option<RemoteCmd>) -> bool, deleteUnused: bool): (r: Synced)
    requires TableValid(t, c.cmds) && perms.Valid()
    ensures SameButIds(c.cmds, r.cache.cmds) && r.perms.Valid()
    decreases |scopes|
  {
    if scopes == [] then Synced(None, c, perms, [])
    else
      var first := SyncScope(c, perms, t, scopes[0], respond, syncNeeded, deleteUnused);
      if first.error.Some? then first
      else
        TableValidSameButIds(t, c.cmds, first.cache.cmds);
        var rest := SyncAll(first.cache, first.perms, t, scopes[1..], respond, syncNeeded, deleteUnused);
        SameButIdsTrans(c.cmds, first.cache.cmds, rest.cache.cmds);
        rest.(calls := first.calls + rest.calls)
  }

  /** `cmd_scopes`: the bot's guilds, in the order given, then the global scope. */
  function SyncScopes(guildOrder: seq<Snowflake>): (r: seq<Scope>)
    ensures |r| == |guildOrder| + 1 && r[|guildOrder|] == Global
    ensures forall i :: 0 <= i < |guildOrder| ==> r[i] == Guild(guildOrder[i])
  {
    seq(|guildOrder|, i requires 0 <= i < |guildOrder| => Guild(guildOrder[i])) + [Global]
  }

  /** `synchronise_interactions`: cache first (an error there propagates),
      then synchronise every scope with an empty `guild_perms`. */
  function SynchroniseAll(c: Cache, t: Table, guildOrder: seq<Snowflake>, botScopes: seq<Scope>,
    respond: HttpCall -> Response, syncNeeded: (string, Option<RemoteCmd>) -> bool, deleteUnused: bool): (r: Synced)
    requires TableValid(t, c.cmds)
    ensures SameButIds(c.cmds, r.cache.cmds)
  {
    var cached := CacheAll(c, t, botScopes, respond);
    if cached.error.Some? then Synced(cached.error, cached.cache, EmptyDict(), cached.calls)
    else
      TableValidSameButIds(t, c.cmds, cached.cache.cmds);
      var r := SyncAll(cached.cache, EmptyDict(), t, SyncScopes(guildOrder), respond, syncNeeded, deleteUnused);
      SameButIdsTrans(c.cmds, cached.cache.cmds, r.cache.cmds);
      r.(calls := cached.calls + r.calls)
  }

  // ---- The loops ----

  /** One iteration of the loop of `synchronise_interactions`. */
  method SynchroniseScope(c: Cache, perms: Perms, t: Table, s: Scope, respond: HttpCall -> Response,
    syncNeeded: (string, Option<RemoteCmd>) -> bool, deleteUnused: bool) returns (r: Synced)
    requires TableValid(t, c.cmds) && perms.Valid()
    ensures r == SyncScope(c, perms, t, s, respond, syncNeeded, deleteUnused)
  {
    match respond(GetCommands(s)) {
      case Forbidden =>
        return Synced(Some(s), c, perms, [GetCommands(s)]);
      case Listed(remote) =>
        r := SynchroniseListed(c, perms, t, s, remote, respond, syncNeeded, deleteUnused);
    }
  }

  /** The iteration once the listing arrived: the loop over the scope's
      commands, then the post when one needs syncing. */
  method SynchroniseListed(c: Cache, perms: Perms, t: Table, s: Scope, remote: seq<RemoteCmd>, respond: HttpCall -> Response,
    syncNeeded: (string, Option<RemoteCmd>) -> bool, deleteUnused: bool) returns (r: Synced)
    requires TableValid(t, c.cmds) && perms.Valid()
    requires respond(GetCommands(s)) == Listed(remote)
    ensures r == SyncListed(c, perms, t, s, remote, respond, syncNeeded, deleteUnused)
  {
    var locals := ScopeLocals(t, c.cmds, s);
    var toSync, found, need := ScopeNeedsSync(locals, remote, syncNeeded);
    var post := PostCommands(s, toSync);
    SyncListedCases(c, perms, t, s, remote, respond, syncNeeded, deleteUnused);
    if need && respond(post).Forbidden? {
      return Synced(Some(s), c, perms, [GetCommands(s), post]);
    }
    r := SynchronisePosted(c, perms, t, s, remote, locals, found, need, post, respond, deleteUnused);
  }

  lemma SyncListedCases(c: Cache, perms: Perms, t: Table, s: Scope, remote: seq<RemoteCmd>, respond: HttpCall -> Response,
    syncNeeded: (string, Option<RemoteCmd>) -> bool, deleteUnused: bool)
    requires TableValid(t, c.cmds) && perms.Valid()
    requires respond(GetCommands(s)) == Listed(remote)
    ensures var locals := ScopeLocals(t, c.cmds, s);
      var need := NeedsSync(locals, remote, syncNeeded);
      var post := PostCommands(s, Dedup(Names(locals)));
      SyncListed(c, perms, t, s, remote, respond, syncNeeded, deleteUnused) ==
        if need && respond(post).Forbidden? then Synced(Some(s), c, perms, [GetCommands(s), post])
        else SyncPosted(c, perms, t, s, remote, locals, need, post, respond, deleteUnused)
  {
  }

  /** The iteration after an accepted post, or no post: the post's answer
      applied, the loop gathering the batches, then the batches and
      deletions sent until one is refused. */
  method SynchronisePosted(c: Cache, perms: Perms, t: Table, s: Scope, remote: seq<RemoteCmd>, locals: seq<InteractionCommand>,
    found: seq<Option<RemoteCmd>>, need: bool, post: HttpCall, respond: HttpCall -> Response, deleteUnused: bool) returns (r: Synced)
    requires TableValid(t, c.cmds) && perms.Valid()
    requires !respond(GetCommands(s)).Forbidden? && (need ==> !respond(post).Forbidden?)
    requires found == Dedup(Matches(locals, remote))
    ensures r == SyncPosted(c, perms, t, s, remote, locals, need, post, respond, deleteUnused)
  {
    var cache := c;
    if need && respond(post).Listed? {
      cache := ApplyPostedLoop(c, t.GetOr(s, EmptyDict()), s, respond(post).cmds);
    }
    TableValidSameButIds(t, c.cmds, cache.cmds);
    var perms' := GatherPerms(perms, ScopeLocals(t, cache.cmds, s));
    var planned := Edits(perms') + (if deleteUnused then Deletes(Unfound(remote, found)) else []);
    var ok, made := SendAll(planned, respond);
    var pre := [GetCommands(s)] + (if need then [post] else []);
    r := Synced(if ok then None else Some(s), cache, if ok then perms' else perms, pre + made);
    PostStageParts(c, perms, t, s, remote, locals, need, respond(post), deleteUnused);
    FinishOf(s, cache, perms, perms', pre, planned, respond, ok, made);
    SyncPostedFinish(c, perms, t, s, remote, locals, need, post, respond, deleteUnused);
  }

  lemma SyncPostedFinish(c: Cache, perms: Perms, t: Table, s: Scope, remote: seq<RemoteCmd>, locals: seq<InteractionCommand>,
    need: bool, post: HttpCall, respond: HttpCall -> Response, deleteUnused: bool)
    requires TableValid(t, c.cmds) && perms.Valid()
    requires !respond(GetCommands(s)).Forbidden? && (need ==> !respond(post).Forbidden?)
    ensures var st := PostStage(c, perms, t, s, remote, locals, need, respond(post), deleteUnused);
      SyncPosted(c, perms, t, s, remote, locals, need, post, respond, deleteUnused) ==
        Finish(s, st.cache, perms, st.perms, [GetCommands(s)] + (if need then [post] else []), st.rest, respond)
  {
  }

  lemma PostStageParts(c: Cache, perms: Perms, t: Table, s: Scope, remote: seq<RemoteCmd>, locals: seq<InteractionCommand>,
    need: bool, answer: Response, deleteUnused: bool)
    requires TableValid(t, c.cmds) && perms.Valid()
    ensures var st := PostStage(c, perms, t, s, remote, locals, need, answer, deleteUnused);
      && st.cache == AfterPostIds(c, t, s, need, answer)
      && TableValid(t, st.cache.cmds)
      && st.perms == AddAll(perms, AllPerms(ScopeLocals(t, st.cache.cmds, s)))
      && st.rest == AfterPost(st.perms, remote, Dedup(Matches(locals, remote)), deleteUnused)
  {
  }

  /** What `SendAll` reports, in terms of `Finish`. */
  lemma FinishOf(s: Scope, c: Cache, before: Perms, after: Perms, pre: seq<HttpCall>, rest: seq<HttpCall>, respond: HttpCall -> Response,
    ok: bool, made: seq<HttpCall>)
    requires made == Sent(rest, respond)
    requires ok <==> forall j :: 0 <= j < |rest| ==> !respond(rest[j]).Forbidden?
    ensures Finish(s, c, before, after, pre, rest, respond) == Synced(if ok then None else Some(s), c, if ok then after else before, pre + made)
  {
  }

  /** `r` with `calls` made before it. */
  function Later(calls: seq<HttpCall>, r: Synced): Synced {
    r.(calls := calls + r.calls)
  }

  lemma LaterNothing(r: Synced)
    ensures Later([], r) == r
  {
    assert [] + r.calls == r.calls;
  }

  lemma LaterLater(a: seq<HttpCall>, b: seq<HttpCall>, r: Synced)
    ensures Later(a, Later(b, r)) == Later(a + b, r)
  {
    assert a + (b + r.calls) == (a + b) + r.calls;
  }

  /** The loop over the scopes, one scope at a time. */
  lemma SyncAllFirst(c: Cache, perms: Perms, t: Table, scopes: seq<Scope>, respond: HttpCall -> Response,
    syncNeeded: (string, Option<RemoteCmd>) -> bool, deleteUnused: bool)
    requires TableValid(t, c.cmds) && perms.Valid() && scopes != []
    ensures var first := SyncScope(c, perms, t, scopes[0], respond, syncNeeded, deleteUnused);
      && TableValid(t, first.cache.cmds) && first.perms.Valid()
      && SyncAll(c, perms, t, scopes, respond, syncNeeded, deleteUnused) ==
           if first.error.Some? then first
           else Later(first.calls, SyncAll(first.cache, first.perms, t, scopes[1..], respond, syncNeeded, deleteUnused))
  {
    var first := SyncScope(c, perms, t, scopes[0], respond, syncNeeded, deleteUnused);
    TableValidSameButIds(t, c.cmds, first.cache.cmds);
  }

  /** The loop over `cmd_scopes`. */
  method SynchroniseScopes(c: Cache, perms: Perms, t: Table, scopes: seq<Scope>, respond: HttpCall -> Response,
    syncNeeded: (string, Option<RemoteCmd>) -> bool, deleteUnused: bool) returns (r: Synced)
    requires TableValid(t, c.cmds) && perms.Valid()
    ensures r == SyncAll(c, perms, t, scopes, respond, syncNeeded, deleteUnused)
  {
    var cache, batches, calls := c, perms, [];
    var i := 0;
    assert scopes[0..] == scopes;
    LaterNothing(SyncAll(c, perms, t, scopes, respond, syncNeeded, deleteUnused));
    while i < |scopes|
      invariant 0 <= i <= |scopes|
      invariant TableValid(t, cache.cmds) && batches.Valid()
      invariant SyncAll(c, perms, t, scopes, respond, syncNeeded, deleteUnused) ==
        Later(calls, SyncAll(cache, batches, t, scopes[i..], respond, syncNeeded, deleteUnused))
    {
      assert scopes[i..][0] == scopes[i] && scopes[i..][1..] == scopes[i + 1..];
      SyncAllFirst(cache, batches, t, scopes[i..], respond, syncNeeded, deleteUnused);
      var first := SynchroniseScope(cache, batches, t, scopes[i], respond, syncNeeded, deleteUnused);
      if first.error.Some? {
        return Later(calls, first);
      }
      LaterLater(calls, first.calls, SyncAll(first.cache, first.perms, t, scopes[i + 1..], respond, syncNeeded, deleteUnused));
      cache, batches, calls := first.cache, first.perms, calls + first.calls;
      i := i + 1;
    }
    assert scopes[i..] == [];
    assert calls + [] == calls;
    return Synced(None, cache, batches, calls);
  }

  /** `synchronise_interactions` on the values of the client's state. */
  method SynchroniseLoops(c: Cache, t: Table, guildOrder: seq<Snowflake>, botScopes: seq<Scope>,
    respond: HttpCall -> Response, syncNeeded: (string, Option<RemoteCmd>) -> bool, deleteUnused: bool) returns (r: Synced)
    requires TableValid(t, c.cmds)
    ensures r == SynchroniseAll(c, t, guildOrder, botScopes, respond, syncNeeded, deleteUnused)
  {
    var cached := CacheLoops(c, t, botScopes, respond);
    if cached.error.Some? {
      return Synced(cached.error, cached.cache, EmptyDict(), cached.calls);
    }
    TableValidSameButIds(t, c.cmds, cached.cache.cmds);
    r := SynchroniseScopes(cached.cache, EmptyDict(), t, SyncScopes(guildOrder), respond, syncNeeded, deleteUnused);
    r := Later(cached.calls, r);
  }

  // ---- Properties ----

  /** The posts among `calls`, in order. */
  function Posts(calls: seq<HttpCall>): seq<HttpCall> {
    if calls == [] then [] else (if calls[0].PostCommands? then [calls[0]] else []) + Posts(calls[1..])
  }

  lemma {:induction false} PostsAppend(a: seq<HttpCall>, b: seq<HttpCall>)
    ensures Posts(a + b) == Posts(a) + Posts(b)
  {
    if a != [] {
      assert (a + b)[1..] == a[1..] + b;
      PostsAppend(a[1..], b);
    } else {
      assert a + b == b;
    }
  }

  lemma {:induction false} PostsNone(calls: seq<HttpCall>)
    requires forall j :: 0 <= j < |calls| ==> !calls[j].PostCommands?
    ensures Posts(calls) == []
  {
    if calls != [] {
      PostsNone(calls[1..]);
    }
  }

  /** Calls that post nothing make no post, whichever of them are made. */
  lemma PostsNoneSent(rest: seq<HttpCall>, respond: HttpCall -> Response)
    requires forall call :: call in rest ==> call.EditPermissions? || call.DeleteCommand?
    ensures Posts(Sent(rest, respond)) == []
  {
    var made := Sent(rest, respond);
    assert forall j :: 0 <= j < |made| ==> made[j] == rest[j] && rest[j] in rest;
    PostsNone(made);
  }

  /** The calls that stop at the first refusal, made after accepted ones,
      are all accepted exactly when none of the planned calls is refused;
      otherwise the last call made is the refused one and names the scope. */
  lemma {:induction false} FinishCalls(s: Scope, c: Cache, before: Perms, after: Perms, pre: seq<HttpCall>, rest: seq<HttpCall>, respond: HttpCall -> Response)
    requires forall j :: 0 <= j < |pre| ==> !respond(pre[j]).Forbidden?
    ensures var r := Finish(s, c, before, after, pre, rest, respond);
      && r.calls[..|pre|] == pre
      && (forall call :: call in r.calls ==> call in pre || call in rest)
      && StopsAtRefusal(r, respond) && (r.error.Some? ==> r.error == Some(s))
      && (r.error.None? ==> r.calls == pre + rest)
  {
    var k := FirstForbidden(rest, respond);
    var calls := pre + Sent(rest, respond);
    assert calls[..|pre|] == pre;
    assert forall j :: |pre| <= j < |calls| ==> calls[j] == rest[j - |pre|];
    forall call | call in calls
      ensures call in pre || call in rest
    {
      var j :| 0 <= j < |calls| && calls[j] == call;
      if j >= |pre| {
        assert calls[j] == rest[j - |pre|];
      }
    }
    if k < |rest| {
      assert calls[|calls| - 1] == rest[k];
    }
  }


  /** No local command's id leads to remote command `d`. */
  ghost predicate Unmatched(locals: seq<InteractionCommand>, remote: seq<RemoteCmd>, d: RemoteCmd) {
    forall i :: 0 <= i < |locals| ==> FindById(remote, locals[i].cmdId) != Some(d)
  }

  /** After the post, each guild's batch holds what it held before followed
      by one entry per permission of the scope's commands for that guild,
      with the commands' ids as they are after the post; and every batch is
      among the calls planned. */
  lemma StageBatches(c: Cache, perms: Perms, t: Table, s: Scope, remote: seq<RemoteCmd>, locals: seq<InteractionCommand>,
    need: bool, answer: Response, deleteUnused: bool)
    requires TableValid(t, c.cmds) && perms.Valid()
    ensures var st := PostStage(c, perms, t, s, remote, locals, need, answer, deleteUnused);
      && (forall g :: st.perms.GetOr(g, []) == perms.GetOr(g, []) + EntriesFor(AllPerms(ScopeLocals(t, st.cache.cmds, s)), g))
      && (forall g :: perms.GetOr(g, []) <= st.perms.GetOr(g, []))
      && (forall g :: g in st.perms.m ==> EditPermissions(g, st.perms.m[g]) in st.rest)
  {
    var st := PostStage(c, perms, t, s, remote, locals, need, answer, deleteUnused);
    AddAllEntries(perms, AllPerms(ScopeLocals(t, st.cache.cmds, s)));
    var edits := Edits(st.perms);
    forall g | g in st.perms.m
      ensures EditPermissions(g, st.perms.m[g]) in st.rest
    {
      var i :| 0 <= i < |st.perms.keys| && st.perms.keys[i] == g;
      assert st.rest[i] == edits[i];
    }
  }

  /** `call` deletes a remote command of the listing that no local command matched. */
  ghost predicate DeletesUnmatched(locals: seq<InteractionCommand>, remote: seq<RemoteCmd>, call: HttpCall) {
    exists d :: d in remote && Unmatched(locals, remote, d) && call == DeleteCommand(HomeScope(d), d.id)
  }

  /** The deletions planned for a listing are exactly those of the remote
      commands no local command matched, each from its own scope. */
  lemma DeletesOfUnfound(locals: seq<InteractionCommand>, remote: seq<RemoteCmd>)
    ensures var dels := Deletes(Unfound(remote, Dedup(Matches(locals, remote))));
      && (forall call :: call in dels ==> DeletesUnmatched(locals, remote, call))
      && (forall d :: d in remote && Unmatched(locals, remote, d) ==> DeleteCommand(HomeScope(d), d.id) in dels)
  {
    var found := Dedup(Matches(locals, remote));
    DedupSpec(Matches(locals, remote));
    var unused := Unfound(remote, found);
    var dels := Deletes(unused);
    forall d
      ensures Some(d) in found <==> !Unmatched(locals, remote, d)
    {
      if !Unmatched(locals, remote, d) {
        var i :| 0 <= i < |locals| && FindById(remote, locals[i].cmdId) == Some(d);
        assert Matches(locals, remote)[i] == Some(d);
      }
    }
    forall call | call in dels
      ensures DeletesUnmatched(locals, remote, call)
    {
      var i :| 0 <= i < |dels| && dels[i] == call;
      assert unused[i] in unused;
    }
    forall d | d in remote && Unmatched(locals, remote, d)
      ensures DeleteCommand(HomeScope(d), d.id) in dels
    {
      var i :| 0 <= i < |unused| && unused[i] == d;
      assert dels[i] == DeleteCommand(HomeScope(d), d.id);
    }
  }

  /** Deletions are planned only when enabled, and then exactly for the
      remote commands no local command matched. */
  lemma StageDeletes(c: Cache, perms: Perms, t: Table, s: Scope, remote: seq<RemoteCmd>, locals: seq<InteractionCommand>,
    need: bool, answer: Response, deleteUnused: bool)
    requires TableValid(t, c.cmds) && perms.Valid()
    ensures var st := PostStage(c, perms, t, s, remote, locals, need, answer, deleteUnused);
      && (forall call :: call in st.rest && call.DeleteCommand? ==> deleteUnused && DeletesUnmatched(locals, remote, call))
      && (deleteUnused ==> forall d :: d in remote && Unmatched(locals, remote, d) ==> DeleteCommand(HomeScope(d), d.id) in st.rest)
  {
    var st := PostStage(c, perms, t, s, remote, locals, need, answer, deleteUnused);
    var edits := Edits(st.perms);
    var dels := Deletes(Unfound(remote, Dedup(Matches(locals, remote))));
    DeletesOfUnfound(locals, remote);
    assert st.rest == edits + (if deleteUnused then dels else []);
    assert forall call :: call in edits ==> call.EditPermissions?;
  }

  /** Over one scope the batches only grow, and a scope that succeeds has
      sent every batch gathered so far, those of earlier scopes included. */
  lemma SyncScopeBatches(c: Cache, perms: Perms, t: Table, s: Scope, respond: HttpCall -> Response,
    syncNeeded: (string, Option<RemoteCmd>) -> bool, deleteUnused: bool)
    requires TableValid(t, c.cmds) && perms.Valid()
    ensures var r := SyncScope(c, perms, t, s, respond, syncNeeded, deleteUnused);
      && (forall g :: perms.GetOr(g, []) <= r.perms.GetOr(g, []))
      && (r.error.None? ==> forall g :: g in r.perms.m ==> EditPermissions(g, r.perms.m[g]) in r.calls)
  {
    match respond(GetCommands(s))
    case Forbidden =>
    case Listed(remote) =>
      SyncListedBatches(c, perms, t, s, remote, respond, syncNeeded, deleteUnused);
  }

  lemma SyncListedBatches(c: Cache, perms: Perms, t: Table, s: Scope, remote: seq<RemoteCmd>, respond: HttpCall -> Response,
    syncNeeded: (string, Option<RemoteCmd>) -> bool, deleteUnused: bool)
    requires TableValid(t, c.cmds) && perms.Valid()
    requires respond(GetCommands(s)) == Listed(remote)
    ensures var r := SyncListed(c, perms, t, s, remote, respond, syncNeeded, deleteUnused);
      && (forall g :: perms.GetOr(g, []) <= r.perms.GetOr(g, []))
      && (r.error.None? ==> forall g :: g in r.perms.m ==> EditPermissions(g, r.perms.m[g]) in r.calls)
  {
    var locals := ScopeLocals(t, c.cmds, s);
    var need := NeedsSync(locals, remote, syncNeeded);
    var post := PostCommands(s, Dedup(Names(locals)));
    if !(need && respond(post).Forbidden?) {
      SyncPostedBatches(c, perms, t, s, remote, locals, need, post, respond, deleteUnused);
    }
  }

  lemma SyncPostedBatches(c: Cache, perms: Perms, t: Table, s: Scope, remote: seq<RemoteCmd>, locals: seq<InteractionCommand>,
    need: bool, post: HttpCall, respond: HttpCall -> Response, deleteUnused: bool)
    requires TableValid(t, c.cmds) && perms.Valid()
    requires !respond(GetCommands(s)).Forbidden? && (need ==> !respond(post).Forbidden?)
    ensures var r := SyncPosted(c, perms, t, s, remote, locals, need, post, respond, deleteUnused);
      && (forall g :: perms.GetOr(g, []) <= r.perms.GetOr(g, []))
      && (r.error.None? ==> forall g :: g in r.perms.m ==> EditPermissions(g, r.perms.m[g]) in r.calls)
  {
    var st := PostStage(c, perms, t, s, remote, locals, need, respond(post), deleteUnused);
    StageBatches(c, perms, t, s, remote, locals, need, respond(post), deleteUnused);
    FinishBatches(s, st.cache, perms, st.perms, [GetCommands(s)] + (if need then [post] else []), st.rest, respond);
  }

  lemma FinishBatches(s: Scope, c: Cache, before: Perms, after: Perms, pre: seq<HttpCall>, rest: seq<HttpCall>, respond: HttpCall -> Response)
    requires forall g :: before.GetOr(g, []) <= after.GetOr(g, [])
    requires forall g :: g in after.m ==> EditPermissions(g, after.m[g]) in rest
    ensures var r := Finish(s, c, before, after, pre, rest, respond);
      && (forall g :: before.GetOr(g, []) <= r.perms.GetOr(g, []))
      && (r.error.None? ==> forall g :: g in r.perms.m ==> EditPermissions(g, r.perms.m[g]) in r.calls)
  {
    var k := FirstForbidden(rest, respond);
    if k == |rest| {
      assert Finish(s, c, before, after, pre, rest, respond).calls == pre + rest;
    }
  }

  /** A scope whose listing arrived deletes only when deletion is enabled,
      and only remote commands of its listing that no local command matched;
      when it succeeds with deletion enabled it deletes every such command. */
  lemma SyncListedDeletes(c: Cache, perms: Perms, t: Table, s: Scope, remote: seq<RemoteCmd>, respond: HttpCall -> Response,
    syncNeeded: (string, Option<RemoteCmd>) -> bool, deleteUnused: bool)
    requires TableValid(t, c.cmds) && perms.Valid()
    requires respond(GetCommands(s)) == Listed(remote)
    ensures var r := SyncListed(c, perms, t, s, remote, respond, syncNeeded, deleteUnused);
      var locals := ScopeLocals(t, c.cmds, s);
      && (forall call :: call in r.calls && call.DeleteCommand? ==> deleteUnused && DeletesUnmatched(locals, remote, call))
      && (r.error.None? && deleteUnused ==>
            forall d :: d in remote && Unmatched(locals, remote, d) ==> DeleteCommand(HomeScope(d), d.id) in r.calls)
  {
    var locals := ScopeLocals(t, c.cmds, s);
    var need := NeedsSync(locals, remote, syncNeeded);
    var post := PostCommands(s, Dedup(Names(locals)));
    if !(need && respond(post).Forbidden?) {
      SyncPostedDeletes(c, perms, t, s, remote, locals, need, post, respond, deleteUnused);
    }
  }

  lemma SyncPostedDeletes(c: Cache, perms: Perms, t: Table, s: Scope, remote: seq<RemoteCmd>, locals: seq<InteractionCommand>,
    need: bool, post: HttpCall, respond: HttpCall -> Response, deleteUnused: bool)
    requires TableValid(t, c.cmds) && perms.Valid()
    requires !respond(GetCommands(s)).Forbidden? && (need ==> !respond(post).Forbidden?)
    requires post.PostCommands?
    ensures var r := SyncPosted(c, perms, t, s, remote, locals, need, post, respond, deleteUnused);
      && (forall call :: call in r.calls && call.DeleteCommand? ==> deleteUnused && DeletesUnmatched(locals, remote, call))
      && (r.error.None? && deleteUnused ==>
            forall d :: d in remote && Unmatched(locals, remote, d) ==> DeleteCommand(HomeScope(d), d.id) in r.calls)
  {
    var r := SyncPosted(c, perms, t, s, remote, locals, need, post, respond, deleteUnused);
    var st := PostStage(c, perms, t, s, remote, locals, need, respond(post), deleteUnused);
    var pre := [GetCommands(s)] + (if need then [post] else []);
    assert forall j :: 0 <= j < |pre| ==> !respond(pre[j]).Forbidden? && !pre[j].DeleteCommand?;
    assert forall call :: call in pre ==> !call.DeleteCommand?;
    SyncPostedFinish(c, perms, t, s, remote, locals, need, post, respond, deleteUnused);
    assert r == Finish(s, st.cache, perms, st.perms, pre, st.rest, respond);
    FinishCalls(s, st.cache, perms, st.perms, pre, st.rest, respond);
    StageDeletes(c, perms, t, s, remote, locals, need, respond(post), deleteUnused);
    FinishedDeletes(r, pre, st.rest, locals, remote, deleteUnused);
  }

  /** The deletions of a finished scope are those planned, all of them when
      it succeeded, as the calls before the plan delete nothing. */
  lemma FinishedDeletes(r: Synced, pre: seq<HttpCall>, rest: seq<HttpCall>, locals: seq<InteractionCommand>, remote: seq<RemoteCmd>,
    deleteUnused: bool)
    requires forall call :: call in r.calls ==> call in pre || call in rest
    requires r.error.None? ==> r.calls == pre + rest
    requires forall call :: call in pre ==> !call.DeleteCommand?
    requires forall call :: call in rest && call.DeleteCommand? ==> deleteUnused && DeletesUnmatched(locals, remote, call)
    requires deleteUnused ==> forall d :: d in remote && Unmatched(locals, remote, d) ==> DeleteCommand(HomeScope(d), d.id) in rest
    ensures forall call :: call in r.calls && call.DeleteCommand? ==> deleteUnused && DeletesUnmatched(locals, remote, call)
    ensures r.error.None? && deleteUnused ==>
      forall d :: d in remote && Unmatched(locals, remote, d) ==> DeleteCommand(HomeScope(d), d.id) in r.calls
  {
  }

  /** A scope's commands are posted exactly when its listing arrives and one
      of its commands needs syncing, and then once, as their distinct
      top-level names. */
  lemma SyncScopePosts(c: Cache, perms: Perms, t: Table, s: Scope, respond: HttpCall -> Response,
    syncNeeded: (string, Option<RemoteCmd>) -> bool, deleteUnused: bool)
    requires TableValid(t, c.cmds) && perms.Valid()
    ensures var locals := ScopeLocals(t, c.cmds, s);
      Posts(SyncScope(c, perms, t, s, respond, syncNeeded, deleteUnused).calls) ==
        if respond(GetCommands(s)).Listed? && NeedsSync(locals, respond(GetCommands(s)).cmds, syncNeeded)
        then [PostCommands(s, Dedup(Names(locals)))] else []
  {
    match respond(GetCommands(s))
    case Forbidden =>
      assert Posts([GetCommands(s)]) == Posts([GetCommands(s)][1..]);
    case Listed(remote) =>
      SyncListedPosts(c, perms, t, s, remote, respond, syncNeeded, deleteUnused);
  }

  lemma SyncListedPosts(c: Cache, perms: Perms, t: Table, s: Scope, remote: seq<RemoteCmd>, respond: HttpCall -> Response,
    syncNeeded: (string, Option<RemoteCmd>) -> bool, deleteUnused: bool)
    requires TableValid(t, c.cmds) && perms.Valid()
    requires respond(GetCommands(s)) == Listed(remote)
    ensures var locals := ScopeLocals(t, c.cmds, s);
      Posts(SyncListed(c, perms, t, s, remote, respond, syncNeeded, deleteUnused).calls) ==
        if NeedsSync(locals, remote, syncNeeded) then [PostCommands(s, Dedup(Names(locals)))] else []
  {
    var locals := ScopeLocals(t, c.cmds, s);
    var need := NeedsSync(locals, remote, syncNeeded);
    var post := PostCommands(s, Dedup(Names(locals)));
    SyncListedCases(c, perms, t, s, remote, respond, syncNeeded, deleteUnused);
    if need && respond(post).Forbidden? {
      PostsOfFetchAndPost(GetCommands(s), post);
    } else {
      SyncPostedPosts(c, perms, t, s, remote, locals, need, post, respond, deleteUnused);
    }
  }

  lemma PostsOfFetchAndPost(get: HttpCall, post: HttpCall)
    requires get.GetCommands? && post.PostCommands?
    ensures Posts([get, post]) == [post]
  {
    assert [get, post][1..] == [post];
    assert Posts([post]) == [post] + Posts([post][1..]);
  }

  lemma SyncPostedPosts(c: Cache, perms: Perms, t: Table, s: Scope, remote: seq<RemoteCmd>, locals: seq<InteractionCommand>,
    need: bool, post: HttpCall, respond: HttpCall -> Response, deleteUnused: bool)
    requires TableValid(t, c.cmds) && perms.Valid()
    requires !respond(GetCommands(s)).Forbidden? && (need ==> !respond(post).Forbidden?)
    requires post.PostCommands?
    ensures Posts(SyncPosted(c, perms, t, s, remote, locals, need, post, respond, deleteUnused).calls) == if need then [post] else []
  {
    var st := PostStage(c, perms, t, s, remote, locals, need, respond(post), deleteUnused);
    var pre := [GetCommands(s)] + (if need then [post] else []);
    PostsNoneSent(st.rest, respond);
    PostsAppend(pre, Sent(st.rest, respond));
    PostsAppend([GetCommands(s)], if need then [post] else []);
    if need {
      assert Posts([post]) == [post] + Posts([post][1..]);
    }
  }

  /** A run fails exactly when one of its calls is refused, and then the
      refused call is the last one made. */
  ghost predicate StopsAtRefusal(r: Synced, respond: HttpCall -> Response) {
    && (r.error.None? <==> forall j :: 0 <= j < |r.calls| ==> !respond(r.calls[j]).Forbidden?)
    && (r.error.Some? ==> EndsRefused(r.calls, respond))
  }

  /** A successful scope followed by the rest of the run. */
  lemma StopsAtRefusalAppend(first: Synced, rest: Synced, respond: HttpCall -> Response)
    requires StopsAtRefusal(first, respond) && first.error.None? && StopsAtRefusal(rest, respond)
    ensures StopsAtRefusal(rest.(calls := first.calls + rest.calls), respond)
  {
    var calls := first.calls + rest.calls;
    assert forall j :: 0 <= j < |first.calls| ==> calls[j] == first.calls[j];
    assert forall j :: |first.calls| <= j < |calls| ==> calls[j] == rest.calls[j - |first.calls|];
    if rest.error.Some? {
      assert calls[|calls| - 1] == rest.calls[|rest.calls| - 1];
    }
  }

  /** The scopes are synchronised in order until one fails: the run fails
      exactly when a call is refused, the refused call is then the last one
      made and the error names one of the scopes; a run that succeeds has
      fetched every scope's listing. */
  lemma {:induction false} SyncAllCalls(c: Cache, perms: Perms, t: Table, scopes: seq<Scope>, respond: HttpCall -> Response,
    syncNeeded: (string, Option<RemoteCmd>) -> bool, deleteUnused: bool)
    requires TableValid(t, c.cmds) && perms.Valid()
    ensures var r := SyncAll(c, perms, t, scopes, respond, syncNeeded, deleteUnused);
      && StopsAtRefusal(r, respond)
      && (r.error.Some? ==> r.error.value in scopes)
      && (r.error.None? ==> forall s :: s in scopes ==> GetCommands(s) in r.calls)
    decreases |scopes|
  {
    if scopes != [] {
      var first := SyncScope(c, perms, t, scopes[0], respond, syncNeeded, deleteUnused);
      if first.error.None? {
        TableValidSameButIds(t, c.cmds, first.cache.cmds);
        var rest := SyncAll(first.cache, first.perms, t, scopes[1..], respond, syncNeeded, deleteUnused);
        SyncAllCalls(first.cache, first.perms, t, scopes[1..], respond, syncNeeded, deleteUnused);
        StopsAtRefusalAppend(first, rest, respond);
        if rest.error.None? {
          forall s | s in scopes
            ensures GetCommands(s) in first.calls + rest.calls
          {
            if s != scopes[0] {
              assert s in scopes[1..];
            }
          }
        }
      }
    }
  }

  /** A failed caching run ends with the refused fetch of a registered scope. */
  lemma CacheAllFails(c: Cache, t: Table, botScopes: seq<Scope>, respond: HttpCall -> Response)
    requires TableValid(t, c.cmds)
    ensures var r := CacheAll(c, t, botScopes, respond);
      r.error.Some? ==> EndsRefused(r.calls, respond) && r.error.value in t.keys
  {
    CacheAllCalls(c, t, botScopes, respond);
    var gets := Gets(t.keys);
    var k := FirstForbidden(gets, respond);
    SentLast(gets, respond);
    if k < |t.keys| {
      var r := CacheAll(c, t, botScopes, respond);
      assert r.calls == Sent(gets, respond);
      assert t.keys[k] in t.keys;
    }
  }

  /** Calls made before a run keep its last call last and add nothing
      refused when they were all accepted. */
  lemma PrependCalls(pre: seq<HttpCall>, r: Synced, scopes: seq<Scope>, respond: HttpCall -> Response)
    requires StopsAtRefusal(r, respond) && (r.error.Some? ==> r.error.value in scopes)
    requires r.error.None? ==> forall s :: s in scopes ==> GetCommands(s) in r.calls
    ensures var r' := Later(pre, r);
      && pre <= r'.calls
      && (r'.error.Some? ==> EndsRefused(r'.calls, respond) && r'.error.value in scopes)
      && (r'.error.None? ==> forall s :: s in scopes ==> GetCommands(s) in r'.calls)
  {
    var calls := pre + r.calls;
    assert calls[..|pre|] == pre;
    if r.error.Some? {
      assert calls[|calls| - 1] == r.calls[|r.calls| - 1];
    }
  }

  /** `synchronise_interactions` caches first; it fails only when a
      registered scope's fetch while caching, or a call while synchronising,
      is refused, and then the last call made is the refused one and the
      error names a registered scope or one of the synchronised scopes. A
      run that succeeds has fetched the listing of every guild of the bot
      and of the global scope. */
  lemma SynchroniseCalls(c: Cache, t: Table, guildOrder: seq<Snowflake>, botScopes: seq<Scope>,
    respond: HttpCall -> Response, syncNeeded: (string, Option<RemoteCmd>) -> bool, deleteUnused: bool)
    requires TableValid(t, c.cmds)
    ensures var r := SynchroniseAll(c, t, guildOrder, botScopes, respond, syncNeeded, deleteUnused);
      && CacheAll(c, t, botScopes, respond).calls <= r.calls
      && (r.error.Some? ==>
            && EndsRefused(r.calls, respond)
            && (r.error.value in t.keys || r.error.value in SyncScopes(guildOrder)))
      && (r.error.None? ==> forall s :: s in SyncScopes(guildOrder) ==> GetCommands(s) in r.calls)
  {
    var cached := CacheAll(c, t, botScopes, respond);
    var scopes := SyncScopes(guildOrder);
    CacheAllFails(c, t, botScopes, respond);
    SynchroniseAllCases(c, t, guildOrder, botScopes, respond, syncNeeded, deleteUnused);
    var rest := SyncAll(cached.cache, EmptyDict(), t, scopes, respond, syncNeeded, deleteUnused);
    SyncAllCalls(cached.cache, EmptyDict(), t, scopes, respond, syncNeeded, deleteUnused);
    SynchroniseOutcome(cached, rest, t.keys, scopes, respond,
      SynchroniseAll(c, t, guildOrder, botScopes, respond, syncNeeded, deleteUnused));
  }

  /** The outcome of caching followed, when it succeeded, by the loop over
      the scopes. */
  lemma SynchroniseOutcome(cached: Cached, rest: Synced, keys: seq<Scope>, scopes: seq<Scope>, respond: HttpCall -> Response,
    r: Synced)
    requires cached.error.Some? ==>
      EndsRefused(cached.calls, respond) && cached.error.value in keys
    requires StopsAtRefusal(rest, respond) && (rest.error.Some? ==> rest.error.value in scopes)
    requires rest.error.None? ==> forall s :: s in scopes ==> GetCommands(s) in rest.calls
    requires r == if cached.error.Some? then Synced(cached.error, cached.cache, EmptyDict(), cached.calls) else Later(cached.calls, rest)
    ensures && cached.calls <= r.calls
      && (r.error.Some? ==>
            && EndsRefused(r.calls, respond)
            && (r.error.value in keys || r.error.value in scopes))
      && (r.error.None? ==> forall s :: s in scopes ==> GetCommands(s) in r.calls)
  {
    if cached.error.None? {
      PrependCalls(cached.calls, rest, scopes, respond);
    }
  }

  lemma SynchroniseAllCases(c: Cache, t: Table, guildOrder: seq<Snowflake>, botScopes: seq<Scope>,
    respond: HttpCall -> Response, syncNeeded: (string, Option<RemoteCmd>) -> bool, deleteUnused: bool)
    requires TableValid(t, c.cmds)
    ensures var cached := CacheAll(c, t, botScopes, respond);
      && TableValid(t, cached.cache.cmds)
      && SynchroniseAll(c, t, guildOrder, botScopes, respond, syncNeeded, deleteUnused) ==
           if cached.error.Some? then Synced(cached.error, cached.cache, EmptyDict(), cached.calls)
           else Later(cached.calls, SyncAll(cached.cache, EmptyDict(), t, SyncScopes(guildOrder), respond, syncNeeded, deleteUnused))
  {
    TableValidSameButIds(t, c.cmds, CacheAll(c, t, botScopes, respond).cache.cmds);
  }
}
