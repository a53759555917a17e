/** What `_cache_interactions` and `synchronise_interactions` do to the
    client's state: which local commands take a remote id, which ids are
    filed under which scope, and when a refused call stops the work. */
module Caching {
  import opened Base
  import opened Commands
  import opened Sync

  /** The state these operations change: `_interaction_scopes` and the
      command objects (their `cmd_id`). */
  datatype Cache = Cache(scopes: map<string, Scope>, cmds: seq<InteractionCommand>)

  /** `b` is `a` with at most the remote ids of commands changed. */
  ghost predicate SameButIds(a: seq<InteractionCommand>, b: seq<InteractionCommand>) {
    |a| == |b| && forall i :: 0 <= i < |a| ==> b[i].(cmdId := a[i].cmdId) == a[i]
  }

  lemma SameButIdsTrans(a: seq<InteractionCommand>, b: seq<InteractionCommand>, c: seq<InteractionCommand>)
    requires SameButIds(a, b) && SameButIds(b, c)
    ensures SameButIds(a, c)
  {
    forall i | 0 <= i < |a|
      ensures c[i].(cmdId := a[i].cmdId) == a[i]
    {
      assert c[i].(cmdId := b[i].cmdId) == b[i];
    }
  }

  /** Learning remote ids keeps the table valid. */
  lemma TableValidSameButIds(t: Table, a: seq<InteractionCommand>, b: seq<InteractionCommand>)
    requires TableValid(t, a) && SameButIds(a, b)
    ensures TableValid(t, b)
  {
    forall i | 0 <= i < |a|
      ensures b[i].resolvedName == a[i].resolvedName
    {
      assert b[i].(cmdId := a[i].cmdId) == a[i];
    }
    TableValidArena(t, a, b);
  }

  /** `cmds[i].cmd_id = id` */
  function SetId(cmds: seq<InteractionCommand>, i: nat, id: string): (r: seq<InteractionCommand>)
    requires i < |cmds|
    ensures SameButIds(cmds, r)
  {
    cmds[i := cmds[i].(cmdId := Some(id))]
  }

  // ---- Caching one registered scope ----

  /** The position of the last remote command named `name`; -1 if none is. */
  function LastNamed(remote: seq<RemoteCmd>, name: string): (r: int)
    ensures -1 <= r < |remote|
    ensures r >= 0 ==> remote[r].name == name
    ensures forall j :: r < j < |remote| ==> remote[j].name != name
  {
    if remote == [] then -1
    else if remote[|remote| - 1].name == name then |remote| - 1
    else
      var r := LastNamed(remote[..|remote| - 1], name);
      assert forall j :: 0 <= j < |remote| - 1 ==> remote[..|remote| - 1][j] == remote[j];
      r
  }

  /** `{cmd_data["name"]: cmd_data for cmd_data in remote}.get(name)`: a later
      command with the same name replaces an earlier one, so this is the last
      remote command with that name. */
  function ByName(remote: seq<RemoteCmd>, name: string): (r: Option<RemoteCmd>)
    ensures r.None? <==> forall i :: 0 <= i < |remote| ==> remote[i].name != name
    ensures r.Some? ==> r.value.name == name && r.value in remote
  {
    var i := LastNamed(remote, name);
    if i < 0 then None else Some(remote[i])
  }

  /** One command of a registered scope: if the remote lists its name, it
      takes that command's id and the id is filed under the scope. */
  function CacheCmd(c: Cache, s: Scope, i: nat, remote: seq<RemoteCmd>): (r: Cache)
    requires i < |c.cmds|
    ensures SameButIds(c.cmds, r.cmds)
  {
    match ByName(remote, c.cmds[i].name)
    case None => c
    case Some(d) => Cache(c.scopes[d.id := s], SetId(c.cmds, i, d.id))
  }

  /** The loop over a registered scope's commands, `idxs` being the
      positions the scope's table leads to, in order. */
  function CacheScope(c: Cache, s: Scope, idxs: seq<nat>, remote: seq<RemoteCmd>): (r: Cache)
    requires forall j :: 0 <= j < |idxs| ==> idxs[j] < |c.cmds|
    ensures SameButIds(c.cmds, r.cmds)
  {
    if idxs == [] then c
    else
      var prev := CacheScope(c, s, idxs[..|idxs| - 1], remote);
      var r := CacheCmd(prev, s, idxs[|idxs| - 1], remote);
      SameButIdsTrans(c.cmds, prev.cmds, r.cmds);
      r
  }

  /** The id a command named `name` takes from the listing, if any. */
  function IdFor(remote: seq<RemoteCmd>, name: string): Option<string> {
    match ByName(remote, name)
    case None => None
    case Some(d) => Some(d.id)
  }

  /** Some command at one of `idxs` takes `id` from the listing. */
  ghost predicate Takes(cmds: seq<InteractionCommand>, idxs: seq<nat>, remote: seq<RemoteCmd>, id: string) {
    exists j :: 0 <= j < |idxs| && idxs[j] < |cmds| && IdFor(remote, cmds[idxs[j]].name) == Some(id)
  }

  /** After caching a registered scope, each of its commands whose name the
      remote lists carries the id of the last remote command of that name,
      and every other command is unchanged. */
  lemma {:induction false} CacheScopeCmds(c: Cache, s: Scope, idxs: seq<nat>, remote: seq<RemoteCmd>)
    requires forall j :: 0 <= j < |idxs| ==> idxs[j] < |c.cmds|
    ensures forall i :: 0 <= i < |c.cmds| ==>
      CacheScope(c, s, idxs, remote).cmds[i] ==
        if i in idxs && IdFor(remote, c.cmds[i].name).Some? then c.cmds[i].(cmdId := IdFor(remote, c.cmds[i].name))
        else c.cmds[i]
  {
    if idxs != [] {
      var n := |idxs| - 1;
      var pre := idxs[..n];
      CacheScopeCmds(c, s, pre, remote);
      var prev := CacheScope(c, s, pre, remote);
      var i0 := idxs[n];
      assert prev.cmds[i0].name == c.cmds[i0].name by {
        assert prev.cmds[i0].(cmdId := c.cmds[i0].cmdId) == c.cmds[i0];
      }
      assert forall i :: i in idxs <==> i in pre || i == i0 by {
        assert idxs == pre + [i0];
      }
    }
  }

  /** Caching a registered scope files exactly the ids its commands take
      under the scope, and keeps every other entry. */
  lemma {:induction false} CacheScopeIds(c: Cache, s: Scope, idxs: seq<nat>, remote: seq<RemoteCmd>)
    requires forall j :: 0 <= j < |idxs| ==> idxs[j] < |c.cmds|
    ensures var r := CacheScope(c, s, idxs, remote);
      && (forall id :: id in r.scopes <==> id in c.scopes || Takes(c.cmds, idxs, remote, id))
      && (forall id :: id in r.scopes ==> r.scopes[id] == if Takes(c.cmds, idxs, remote, id) then s else c.scopes[id])
  {
    if idxs != [] {
      var n := |idxs| - 1;
      var pre := idxs[..n];
      CacheScopeIds(c, s, pre, remote);
      var prev := CacheScope(c, s, pre, remote);
      var i0 := idxs[n];
      assert prev.cmds[i0].name == c.cmds[i0].name by {
        assert prev.cmds[i0].(cmdId := c.cmds[i0].cmdId) == c.cmds[i0];
      }
      var r := CacheScope(c, s, idxs, remote);
      assert r == CacheCmd(prev, s, i0, remote);
      TakesStep(c.cmds, idxs, remote);
      match ByName(remote, c.cmds[i0].name)
      case None =>
        assert r.scopes == prev.scopes;
      case Some(d) =>
        assert r.scopes == prev.scopes[d.id := s];
    }
  }

  lemma TakesStep(cmds: seq<InteractionCommand>, idxs: seq<nat>, remote: seq<RemoteCmd>)
    requires idxs != [] && forall j :: 0 <= j < |idxs| ==> idxs[j] < |cmds|
    ensures forall id :: Takes(cmds, idxs, remote, id) <==>
      Takes(cmds, idxs[..|idxs| - 1], remote, id) || IdFor(remote, cmds[idxs[|idxs| - 1]].name) == Some(id)
  {
    var n := |idxs| - 1;
    var pre := idxs[..n];
    forall id
      ensures Takes(cmds, idxs, remote, id) <==> Takes(cmds, pre, remote, id) || IdFor(remote, cmds[idxs[n]].name) == Some(id)
    {
      if Takes(cmds, idxs, remote, id) {
        var j :| 0 <= j < |idxs| && idxs[j] < |cmds| && IdFor(remote, cmds[idxs[j]].name) == Some(id);
        if j < n {
          assert pre[j] == idxs[j];
        }
      }
      if Takes(cmds, pre, remote, id) {
        var j :| 0 <= j < |pre| && pre[j] < |cmds| && IdFor(remote, cmds[pre[j]].name) == Some(id);
        assert idxs[j] == pre[j];
      }
    }
  }

  // ---- Caching the scopes nothing is registered in ----

  /** Every id of the listing filed under `s`. */
  function FileAll(m: map<string, Scope>, s: Scope, remote: seq<RemoteCmd>): (r: map<string, Scope>)
    ensures forall id :: id in r <==> id in m || exists i :: 0 <= i < |remote| && remote[i].id == id
    ensures forall id :: id in r ==> r[id] == if exists i :: 0 <= i < |remote| && remote[i].id == id then s else m[id]
  {
    if remote == [] then m
    else
      var prev := FileAll(m, s, remote[..|remote| - 1]);
      assert forall i :: 0 <= i < |remote| - 1 ==> remote[..|remote| - 1][i] == remote[i];
      prev[remote[|remote| - 1].id := s]
  }

  // ---- Calls that stop at the first refusal ----

  /** The position of the first call the remote refuses; `|calls|` if none is. */
  function FirstForbidden(calls: seq<HttpCall>, respond: HttpCall -> Response): (k: nat)
    ensures k <= |calls|
    ensures forall j :: 0 <= j < k ==> !respond(calls[j]).Forbidden?
    ensures k < |calls| ==> respond(calls[k]).Forbidden?
  {
    if calls == [] then 0
    else if respond(calls[0]).Forbidden? then 0
    else
      var k := FirstForbidden(calls[1..], respond);
      assert forall j :: 1 <= j < |calls| ==> calls[j] == calls[1..][j - 1];
      1 + k
  }

  /** The calls made from `calls`: up to and including the first refused one. */
  function Sent(calls: seq<HttpCall>, respond: HttpCall -> Response): (r: seq<HttpCall>)
    ensures r <= calls
    ensures forall j :: 0 <= j < |r| - 1 ==> !respond(r[j]).Forbidden?
    ensures r != calls ==> |r| > 0 && respond(r[|r| - 1]).Forbidden?
  {
    var k := FirstForbidden(calls, respond);
    if k < |calls| then calls[..k + 1] else calls
  }

  /** The last call made was refused. */
  ghost predicate EndsRefused(calls: seq<HttpCall>, respond: HttpCall -> Response) {
    |calls| > 0 && respond(calls[|calls| - 1]).Forbidden?
  }

  /** A refused call is the last one sent. */
  lemma SentLast(calls: seq<HttpCall>, respond: HttpCall -> Response)
    ensures var k := FirstForbidden(calls, respond);
      k < |calls| ==> |Sent(calls, respond)| == k + 1 && Sent(calls, respond)[k] == calls[k]
  {
  }

  /** Makes the calls in order and stops at the first the remote refuses. */
  method SendAll(calls: seq<HttpCall>, respond: HttpCall -> Response) returns (ok: bool, made: seq<HttpCall>)
    ensures made == Sent(calls, respond)
    ensures ok <==> forall j :: 0 <= j < |calls| ==> !respond(calls[j]).Forbidden?
  {
    made := [];
    var i := 0;
    while i < |calls|
      invariant 0 <= i <= |calls| && i <= FirstForbidden(calls, respond)
      invariant made == calls[..i]
    {
      made := made + [calls[i]];
      if respond(calls[i]).Forbidden? {
        assert FirstForbidden(calls, respond) == i;
        return false, made;
      }
      i := i + 1;
    }
    assert made == calls;
    return true, made;
  }

  /** `get_interaction_element` for each scope, in order. */
  function Gets(scopes: seq<Scope>): (r: seq<HttpCall>)
    ensures |r| == |scopes| && forall i :: 0 <= i < |scopes| ==> r[i] == GetCommands(scopes[i])
  {
    seq(|scopes|, i requires 0 <= i < |scopes| => GetCommands(scopes[i]))
  }

  /** The outcome of caching: the `InteractionMissingAccess` raised, if any,
      the state reached and the calls made. */
  datatype Cached = Cached(error: Option<Scope>, cache: Cache, calls: seq<HttpCall>)

  /** The commands of scope `s` of the table, in insertion order. */
  function Positions(t: Table, s: Scope): (r: seq<nat>)
    requires t.Valid() && forall s' :: s' in t.m ==> t.m[s'].Valid()
    ensures s !in t.m ==> r == []
    ensures s in t.m ==> r == t.m[s].Values()
  {
    if s in t.m then t.m[s].Values() else []
  }

  lemma PositionsInRange(t: Table, cmds: seq<InteractionCommand>, s: Scope)
    requires TableValid(t, cmds)
    ensures forall j :: 0 <= j < |Positions(t, s)| ==> Positions(t, s)[j] < |cmds|
  {
  }

  /** The first loop of `_cache_interactions`, over the registered scopes
      `keys`: the listing of each is fetched and cached; a refused fetch
      raises `InteractionMissingAccess` for that scope and ends the loop. */
  function CacheRegistered(c: Cache, t: Table, keys: seq<Scope>, respond: HttpCall -> Response): (r: Cached)
    requires TableValid(t, c.cmds)
    ensures SameButIds(c.cmds, r.cache.cmds)
    decreases |keys|
  {
    if keys == [] then Cached(None, c, [])
    else
      var s := keys[0];
      match respond(GetCommands(s))
      case Forbidden => Cached(Some(s), c, [GetCommands(s)])
      case Listed(remote) =>
        PositionsInRange(t, c.cmds, s);
        var c' := CacheScope(c, s, Positions(t, s), remote);
        TableValidSameButIds(t, c.cmds, c'.cmds);
        var rest := CacheRegistered(c', t, keys[1..], respond);
        SameButIdsTrans(c.cmds, c'.cmds, rest.cache.cmds);
        rest.(calls := [GetCommands(s)] + rest.calls)
  }

  /** Caching the registered scopes fetches them in order until one is
      refused, and fails exactly when one is, naming the first refused. */
  lemma {:induction false} CacheRegisteredCalls(c: Cache, t: Table, keys: seq<Scope>, respond: HttpCall -> Response)
    requires TableValid(t, c.cmds)
    ensures var r := CacheRegistered(c, t, keys, respond);
      var k := FirstForbidden(Gets(keys), respond);
      && r.calls == Sent(Gets(keys), respond)
      && r.error == if k < |keys| then Some(keys[k]) else None
    decreases |keys|
  {
    if keys != [] {
      var s := keys[0];
      assert Gets(keys) == [GetCommands(s)] + Gets(keys[1..]);
      match respond(GetCommands(s))
      case Forbidden =>
      case Listed(remote) =>
        PositionsInRange(t, c.cmds, s);
        var c' := CacheScope(c, s, Positions(t, s), remote);
        TableValidSameButIds(t, c.cmds, c'.cmds);
        CacheRegisteredCalls(c', t, keys[1..], respond);
        assert Gets(keys)[1..] == Gets(keys[1..]);
    }
  }

  /** The second loop of `_cache_interactions`, over the scopes the bot is in
      where nothing is registered: each listing's ids are filed under its
      scope; a refused fetch skips the scope. */
  function CacheUnregistered(m: map<string, Scope>, t: Table, botScopes: seq<Scope>, respond: HttpCall -> Response)
    : (r: (map<string, Scope>, seq<HttpCall>))
    ensures forall id :: id in m ==> id in r.0
    decreases |botScopes|
  {
    if botScopes == [] then (m, [])
    else
      var s := botScopes[0];
      if s in t.m then CacheUnregistered(m, t, botScopes[1..], respond)
      else
        var m' := match respond(GetCommands(s)) case Forbidden => m case Listed(remote) => FileAll(m, s, remote);
        var rest := CacheUnregistered(m', t, botScopes[1..], respond);
        (rest.0, [GetCommands(s)] + rest.1)
  }

  /** The bot scopes without registered commands, in order. */
  function Unregistered(t: Table, botScopes: seq<Scope>): (r: seq<Scope>)
    ensures forall s :: s in r <==> s in botScopes && s !in t.m
  {
    if botScopes == [] then []
    else
      var rest := Unregistered(t, botScopes[1..]);
      assert forall s :: s in botScopes <==> s == botScopes[0] || s in botScopes[1..];
      (if botScopes[0] in t.m then [] else [botScopes[0]]) + rest
  }

  /** Every unregistered bot scope is fetched once, in order, refused or not. */
  lemma {:induction false} CacheUnregisteredCalls(m: map<string, Scope>, t: Table, botScopes: seq<Scope>, respond: HttpCall -> Response)
    ensures CacheUnregistered(m, t, botScopes, respond).1 == Gets(Unregistered(t, botScopes))
    decreases |botScopes|
  {
    if botScopes != [] {
      var s := botScopes[0];
      var m' := if s in t.m then m else match respond(GetCommands(s)) case Forbidden => m case Listed(remote) => FileAll(m, s, remote);
      CacheUnregisteredCalls(m', t, botScopes[1..], respond);
      var rest := Unregistered(t, botScopes[1..]);
      assert CacheUnregistered(m, t, botScopes, respond).1 ==
        (if s in t.m then [] else [GetCommands(s)]) + CacheUnregistered(m', t, botScopes[1..], respond).1;
      assert Unregistered(t, botScopes) == (if s in t.m then [] else [s]) + rest;
      GetsCons(if s in t.m then [] else [s], rest);
      assert Gets(if s in t.m then [] else [s]) == if s in t.m then [] else [GetCommands(s)];
    }
  }

  lemma GetsCons(first: seq<Scope>, rest: seq<Scope>)
    ensures Gets(first + rest) == Gets(first) + Gets(rest)
  {
  }

  /** Every id a listing of an unregistered bot scope carries ends up filed. */
  lemma {:induction false} CacheUnregisteredIds(m: map<string, Scope>, t: Table, botScopes: seq<Scope>, respond: HttpCall -> Response)
    ensures forall i, d ::
      (0 <= i < |botScopes| && botScopes[i] !in t.m && respond(GetCommands(botScopes[i])).Listed? &&
       d in respond(GetCommands(botScopes[i])).cmds)
      ==> d.id in CacheUnregistered(m, t, botScopes, respond).0
    decreases |botScopes|
  {
    if botScopes != [] {
      var s := botScopes[0];
      var m' := if s in t.m then m else match respond(GetCommands(s)) case Forbidden => m case Listed(remote) => FileAll(m, s, remote);
      CacheUnregisteredIds(m', t, botScopes[1..], respond);
      assert forall i :: 1 <= i < |botScopes| ==> botScopes[i] == botScopes[1..][i - 1];
      if s !in t.m && respond(GetCommands(s)).Listed? {
        var remote := respond(GetCommands(s)).cmds;
        forall d | d in remote
          ensures d.id in m'
        {
          var i :| 0 <= i < |remote| && remote[i] == d;
        }
      }
    }
  }

  /** Both loops of `_cache_interactions`; the second runs only when the
      first raised nothing. */
  function CacheAll(c: Cache, t: Table, botScopes: seq<Scope>, respond: HttpCall -> Response): (r: Cached)
    requires TableValid(t, c.cmds)
    ensures SameButIds(c.cmds, r.cache.cmds)
  {
    var reg := CacheRegistered(c, t, t.keys, respond);
    if reg.error.Some? then reg
    else
      var un := CacheUnregistered(reg.cache.scopes, t, botScopes, respond);
      Cached(None, Cache(un.0, reg.cache.cmds), reg.calls + un.1)
  }

  /** Caching fetches the registered scopes in order until one is refused,
      which is then the error; only when none is, it goes on to fetch every
      unregistered bot scope. */
  lemma CacheAllCalls(c: Cache, t: Table, botScopes: seq<Scope>, respond: HttpCall -> Response)
    requires TableValid(t, c.cmds)
    ensures var r := CacheAll(c, t, botScopes, respond);
      var k := FirstForbidden(Gets(t.keys), respond);
      && r.error == (if k < |t.keys| then Some(t.keys[k]) else None)
      && r.calls == Sent(Gets(t.keys), respond) + (if k < |t.keys| then [] else Gets(Unregistered(t, botScopes)))
  {
    CacheRegisteredCalls(c, t, t.keys, respond);
    var reg := CacheRegistered(c, t, t.keys, respond);
    CacheUnregisteredCalls(reg.cache.scopes, t, botScopes, respond);
  }

  /** Caching fetches the listings of registered scopes and of the bot's
      scopes, and nothing else. */
  lemma CacheAllFetches(c: Cache, t: Table, botScopes: seq<Scope>, respond: HttpCall -> Response)
    requires TableValid(t, c.cmds)
    ensures forall call :: call in CacheAll(c, t, botScopes, respond).calls ==>
      exists s :: (s in t.keys || s in botScopes) && call == GetCommands(s)
  {
    CacheAllCalls(c, t, botScopes, respond);
    var k := FirstForbidden(Gets(t.keys), respond);
    var r := CacheAll(c, t, botScopes, respond);
    FetchesOf(r.calls, Gets(t.keys), respond, t.keys, Unregistered(t, botScopes), k < |t.keys|, botScopes);
  }

  /** Every call of a sent prefix of fetches, followed maybe by more
      fetches, fetches one of the scopes named. */
  lemma FetchesOf(calls: seq<HttpCall>, gets: seq<HttpCall>, respond: HttpCall -> Response, keys: seq<Scope>, more: seq<Scope>,
    stop: bool, botScopes: seq<Scope>)
    requires gets == Gets(keys) && forall s :: s in more ==> s in botScopes
    requires calls == Sent(gets, respond) + (if stop then [] else Gets(more))
    ensures forall call :: call in calls ==> exists s :: (s in keys || s in botScopes) && call == GetCommands(s)
  {
    var sent := Sent(gets, respond);
    forall call | call in calls
      ensures exists s :: (s in keys || s in botScopes) && call == GetCommands(s)
    {
      var j :| 0 <= j < |calls| && calls[j] == call;
      if j < |sent| {
        assert call == gets[j] == GetCommands(keys[j]);
        assert keys[j] in keys;
      } else {
        assert call == Gets(more)[j - |sent|] == GetCommands(more[j - |sent|]);
        assert more[j - |sent|] in more;
      }
    }
  }

  /** The loop over one registered scope's commands. */
  method CacheScopeLoop(c: Cache, s: Scope, idxs: seq<nat>, remote: seq<RemoteCmd>) returns (r: Cache)
    requires forall j :: 0 <= j < |idxs| ==> idxs[j] < |c.cmds|
    ensures r == CacheScope(c, s, idxs, remote)
  {
    r := c;
    var i := 0;
    while i < |idxs|
      invariant 0 <= i <= |idxs|
      invariant r == CacheScope(c, s, idxs[..i], remote)
    {
      assert idxs[..i + 1][..i] == idxs[..i];
      var j := idxs[i];
      var d := ByName(remote, r.cmds[j].name);
      if d.Some? {
        r := Cache(r.scopes[d.value.id := s], SetId(r.cmds, j, d.value.id));
      }
      i := i + 1;
    }
    assert idxs[..i] == idxs;
  }

  /** The loop filing a listing's ids under its scope. */
  method FileListed(m: map<string, Scope>, s: Scope, remote: seq<RemoteCmd>) returns (r: map<string, Scope>)
    ensures r == FileAll(m, s, remote)
  {
    r := m;
    var i := 0;
    while i < |remote|
      invariant 0 <= i <= |remote|
      invariant r == FileAll(m, s, remote[..i])
    {
      assert remote[..i + 1][..i] == remote[..i];
      r := r[remote[i].id := s];
      i := i + 1;
    }
    assert remote[..i] == remote;
  }

  /** `r` with `calls` made before it. */
  function After(calls: seq<HttpCall>, r: Cached): Cached {
    r.(calls := calls + r.calls)
  }

  lemma AfterAfter(a: seq<HttpCall>, b: seq<HttpCall>, r: Cached)
    ensures After(a, After(b, r)) == After(a + b, r)
  {
    assert a + (b + r.calls) == (a + b) + r.calls;
  }

  /** One registered scope whose listing arrives. */
  lemma CacheRegisteredListed(c: Cache, t: Table, keys: seq<Scope>, respond: HttpCall -> Response, remote: seq<RemoteCmd>)
    requires TableValid(t, c.cmds) && keys != [] && respond(GetCommands(keys[0])) == Listed(remote)
    ensures forall j :: 0 <= j < |Positions(t, keys[0])| ==> Positions(t, keys[0])[j] < |c.cmds|
    ensures TableValid(t, CacheScope(c, keys[0], Positions(t, keys[0]), remote).cmds)
    ensures CacheRegistered(c, t, keys, respond) ==
      After([GetCommands(keys[0])], CacheRegistered(CacheScope(c, keys[0], Positions(t, keys[0]), remote), t, keys[1..], respond))
  {
    PositionsInRange(t, c.cmds, keys[0]);
    TableValidSameButIds(t, c.cmds, CacheScope(c, keys[0], Positions(t, keys[0]), remote).cmds);
  }

  /** The first loop of `_cache_interactions`. */
  method CacheRegisteredLoop(c: Cache, t: Table, respond: HttpCall -> Response) returns (r: Cached)
    requires TableValid(t, c.cmds)
    ensures r == CacheRegistered(c, t, t.keys, respond)
  {
    var cache, calls := c, [];
    var i := 0;
    assert After([], CacheRegistered(c, t, t.keys[0..], respond)) == CacheRegistered(c, t, t.keys, respond);
    while i < |t.keys|
      invariant 0 <= i <= |t.keys|
      invariant TableValid(t, cache.cmds)
      invariant CacheRegistered(c, t, t.keys, respond) == After(calls, CacheRegistered(cache, t, t.keys[i..], respond))
    {
      var s := t.keys[i];
      assert t.keys[i..][0] == s && t.keys[i..][1..] == t.keys[i + 1..];
      match respond(GetCommands(s)) {
        case Forbidden =>
          assert CacheRegistered(cache, t, t.keys[i..], respond) == Cached(Some(s), cache, [GetCommands(s)]);
          return Cached(Some(s), cache, calls + [GetCommands(s)]);
        case Listed(remote) =>
          CacheRegisteredListed(cache, t, t.keys[i..], respond, remote);
          AfterAfter(calls, [GetCommands(s)], CacheRegistered(CacheScope(cache, s, Positions(t, s), remote), t, t.keys[i + 1..], respond));
          cache := CacheScopeLoop(cache, s, Positions(t, s), remote);
          calls := calls + [GetCommands(s)];
      }
      i := i + 1;
    }
    assert t.keys[i..] == [] && calls + [] == calls;
    return Cached(None, cache, calls);
  }

  /** What the second loop of `_cache_interactions` does for one scope: the
      ids filed and the fetch made, if the scope has no registered command. */
  function Visit(m: map<string, Scope>, t: Table, s: Scope, respond: HttpCall -> Response): (map<string, Scope>, seq<HttpCall>) {
    if s in t.m then (m, [])
    else
      var m' := match respond(GetCommands(s)) case Forbidden => m case Listed(remote) => FileAll(m, s, remote);
      (m', [GetCommands(s)])
  }

  /** The body of the second loop for one scope. */
  method VisitScope(m: map<string, Scope>, t: Table, s: Scope, respond: HttpCall -> Response)
    returns (r: map<string, Scope>, calls: seq<HttpCall>)
    ensures (r, calls) == Visit(m, t, s, respond)
  {
    r, calls := m, [];
    if s !in t.m {
      calls := [GetCommands(s)];
      match respond(GetCommands(s)) {
        case Forbidden =>
        case Listed(remote) =>
          r := FileListed(r, s, remote);
      }
    }
  }

  /** The second loop, one scope at a time. */
  lemma CacheUnregisteredFirst(m: map<string, Scope>, t: Table, ss: seq<Scope>, respond: HttpCall -> Response)
    requires ss != []
    ensures var v := Visit(m, t, ss[0], respond);
      var rest := CacheUnregistered(v.0, t, ss[1..], respond);
      CacheUnregistered(m, t, ss, respond) == (rest.0, v.1 + rest.1)
  {
    var rest := CacheUnregistered(Visit(m, t, ss[0], respond).0, t, ss[1..], respond);
    assert [] + rest.1 == rest.1;
  }

  /** The second loop of `_cache_interactions`. */
  method CacheUnregisteredLoop(m: map<string, Scope>, t: Table, botScopes: seq<Scope>, respond: HttpCall -> Response)
    returns (r: map<string, Scope>, calls: seq<HttpCall>)
    ensures (r, calls) == CacheUnregistered(m, t, botScopes, respond)
  {
    r, calls := m, [];
    var j := 0;
    assert botScopes[0..] == botScopes;
    assert [] + CacheUnregistered(m, t, botScopes, respond).1 == CacheUnregistered(m, t, botScopes, respond).1;
    while j < |botScopes|
      invariant 0 <= j <= |botScopes|
      invariant var rest := CacheUnregistered(r, t, botScopes[j..], respond);
        CacheUnregistered(m, t, botScopes, respond) == (rest.0, calls + rest.1)
    {
      CacheUnregisteredFirst(r, t, botScopes[j..], respond);
      assert botScopes[j..][0] == botScopes[j] && botScopes[j..][1..] == botScopes[j + 1..];
      var r', made := VisitScope(r, t, botScopes[j], respond);
      ghost var rest := CacheUnregistered(r', t, botScopes[j + 1..], respond);
      assert calls + (made + rest.1) == (calls + made) + rest.1;
      r, calls := r', calls + made;
      j := j + 1;
    }
    assert botScopes[j..] == [] && calls + [] == calls;
  }

  /** `_cache_interactions` on the values of the client's state. */
  method CacheLoops(c: Cache, t: Table, botScopes: seq<Scope>, respond: HttpCall -> Response) returns (r: Cached)
    requires TableValid(t, c.cmds)
    ensures r == CacheAll(c, t, botScopes, respond)
  {
    r := CacheRegisteredLoop(c, t, respond);
    if r.error.None? {
      var m, calls := CacheUnregisteredLoop(r.cache.scopes, t, botScopes, respond);
      r := Cached(None, Cache(m, r.cache.cmds), r.calls + calls);
    }
  }

  // ---- What a post changes ----

  /** The position of the last posted command that updates key `k` of a
      scope whose keys are `registered`; -1 if none does. */
  function LastPostedAt(posted: seq<RemoteCmd>, k: string, registered: set<string>): (r: int)
    ensures -1 <= r < |posted|
    ensures r >= 0 ==> k in UpdatedKeys(posted[r], registered)
    ensures forall j :: r < j < |posted| ==> k !in UpdatedKeys(posted[j], registered)
  {
    if posted == [] then -1
    else if k in UpdatedKeys(posted[|posted| - 1], registered) then |posted| - 1
    else
      var r := LastPostedAt(posted[..|posted| - 1], k, registered);
      assert forall j :: 0 <= j < |posted| - 1 ==> posted[..|posted| - 1][j] == posted[j];
      r
  }

  /** The last posted command that updates key `k`. */
  function LastPostedFor(posted: seq<RemoteCmd>, k: string, registered: set<string>): (r: Option<RemoteCmd>)
    ensures r.None? <==> forall i :: 0 <= i < |posted| ==> k !in UpdatedKeys(posted[i], registered)
    ensures r.Some? ==> k in UpdatedKeys(r.value, registered) && r.value in posted
  {
    var i := LastPostedAt(posted, k, registered);
    if i < 0 then None else Some(posted[i])
  }

  /** The commands at the positions of `keys` take `id`. */
  function SetIds(cmds: seq<InteractionCommand>, inner: ODict<string, nat>, keys: seq<string>, id: string): (r: seq<InteractionCommand>)
    requires forall k :: k in inner.m ==> inner.m[k] < |cmds|
    requires forall k :: k in keys ==> k in inner.m
    ensures SameButIds(cmds, r)
  {
    if keys == [] then cmds
    else
      var prev := SetIds(cmds, inner, keys[..|keys| - 1], id);
      assert keys[|keys| - 1] in keys;
      var r := SetId(prev, inner.m[keys[|keys| - 1]], id);
      SameButIdsTrans(cmds, prev, r);
      r
  }

  /** Distinct keys of the scope lead to distinct commands. */
  ghost predicate Injective(inner: ODict<string, nat>) {
    forall k1, k2 :: k1 in inner.m && k2 in inner.m && inner.m[k1] == inner.m[k2] ==> k1 == k2
  }

  lemma {:induction false} SetIdsSpec(cmds: seq<InteractionCommand>, inner: ODict<string, nat>, keys: seq<string>, id: string)
    requires forall k :: k in inner.m ==> inner.m[k] < |cmds|
    requires forall k :: k in keys ==> k in inner.m
    ensures forall i :: 0 <= i < |cmds| ==>
      SetIds(cmds, inner, keys, id)[i] == if exists k :: k in keys && inner.m[k] == i then cmds[i].(cmdId := Some(id)) else cmds[i]
  {
    if keys != [] {
      var pre := keys[..|keys| - 1];
      assert forall k :: k in pre ==> k in keys;
      SetIdsSpec(cmds, inner, pre, id);
      assert forall k :: k in keys <==> k in pre || k == keys[|keys| - 1] by {
        assert keys == pre + [keys[|keys| - 1]];
      }
    }
  }

  /** The loop over a post's response: each posted id is filed under the
      scope, and the commands of the keys the posted command updates take its id. */
  function ApplyPosted(c: Cache, inner: ODict<string, nat>, s: Scope, posted: seq<RemoteCmd>): (r: Cache)
    requires forall k :: k in inner.m ==> inner.m[k] < |c.cmds|
    ensures SameButIds(c.cmds, r.cmds)
  {
    if posted == [] then c
    else
      var prev := ApplyPosted(c, inner, s, posted[..|posted| - 1]);
      var d := posted[|posted| - 1];
      UpdatedKeysSpec(d, inner.m.Keys);
      var cmds := SetIds(prev.cmds, inner, UpdatedKeys(d, inner.m.Keys), d.id);
      SameButIdsTrans(c.cmds, prev.cmds, cmds);
      Cache(prev.scopes[d.id := s], cmds)
  }

  /** After a post, exactly the posted ids are filed under the scope, besides
      the entries kept from before. */
  lemma {:induction false} ApplyPostedIds(c: Cache, inner: ODict<string, nat>, s: Scope, posted: seq<RemoteCmd>)
    requires forall k :: k in inner.m ==> inner.m[k] < |c.cmds|
    ensures var r := ApplyPosted(c, inner, s, posted);
      && (forall id :: id in r.scopes <==> id in c.scopes || exists i :: 0 <= i < |posted| && posted[i].id == id)
      && (forall id :: id in r.scopes ==> r.scopes[id] == if exists i :: 0 <= i < |posted| && posted[i].id == id then s else c.scopes[id])
  {
    if posted != [] {
      var pre := posted[..|posted| - 1];
      ApplyPostedIds(c, inner, s, pre);
      assert forall i :: 0 <= i < |posted| - 1 ==> pre[i] == posted[i];
    }
  }

  /** After a post, the command of each key takes the id of the last posted
      command that updates the key, and every other command is unchanged. */
  lemma {:induction false} ApplyPostedCmds(c: Cache, inner: ODict<string, nat>, s: Scope, posted: seq<RemoteCmd>)
    requires forall k :: k in inner.m ==> inner.m[k] < |c.cmds|
    requires Injective(inner)
    ensures var r := ApplyPosted(c, inner, s, posted);
      && (forall k :: k in inner.m ==>
            r.cmds[inner.m[k]] == match LastPostedFor(posted, k, inner.m.Keys)
                                  case None => c.cmds[inner.m[k]]
                                  case Some(d) => c.cmds[inner.m[k]].(cmdId := Some(d.id)))
      && (forall i :: 0 <= i < |c.cmds| && i !in inner.m.Values ==> r.cmds[i] == c.cmds[i])
  {
    if posted != [] {
      var pre := posted[..|posted| - 1];
      var d := posted[|posted| - 1];
      ApplyPostedCmds(c, inner, s, pre);
      var prev := ApplyPosted(c, inner, s, pre);
      var keys := UpdatedKeys(d, inner.m.Keys);
      UpdatedKeysSpec(d, inner.m.Keys);
      SetIdsSpec(prev.cmds, inner, keys, d.id);
      var r := ApplyPosted(c, inner, s, posted);
      assert r.cmds == SetIds(prev.cmds, inner, keys, d.id);
      forall k | k in inner.m
        ensures r.cmds[inner.m[k]] == match LastPostedFor(posted, k, inner.m.Keys)
                                      case None => c.cmds[inner.m[k]]
                                      case Some(d') => c.cmds[inner.m[k]].(cmdId := Some(d'.id))
      {
        LastPostedStep(posted, k, inner.m.Keys);
        if k in keys {
          assert r.cmds[inner.m[k]] == prev.cmds[inner.m[k]].(cmdId := Some(d.id));
        } else {
          assert !exists k' :: k' in keys && inner.m[k'] == inner.m[k];
        }
      }
    }
  }

  /** The loop setting the id of the commands of `keys`. */
  method SetIdsLoop(cmds: seq<InteractionCommand>, inner: ODict<string, nat>, keys: seq<string>, id: string)
    returns (r: seq<InteractionCommand>)
    requires forall k :: k in inner.m ==> inner.m[k] < |cmds|
    requires forall k :: k in keys ==> k in inner.m
    ensures r == SetIds(cmds, inner, keys, id)
  {
    r := cmds;
    var j := 0;
    while j < |keys|
      invariant 0 <= j <= |keys| && |r| == |cmds|
      invariant r == SetIds(cmds, inner, keys[..j], id)
    {
      SetIdsStep(cmds, inner, keys, j, id);
      r := SetId(r, inner.m[keys[j]], id);
      j := j + 1;
    }
    assert keys[..j] == keys;
  }

  lemma SetIdsStep(cmds: seq<InteractionCommand>, inner: ODict<string, nat>, keys: seq<string>, j: nat, id: string)
    requires forall k :: k in inner.m ==> inner.m[k] < |cmds|
    requires forall k :: k in keys ==> k in inner.m
    requires j < |keys|
    ensures keys[j] in inner.m && inner.m[keys[j]] < |SetIds(cmds, inner, keys[..j], id)|
    ensures SetIds(cmds, inner, keys[..j + 1], id) == SetId(SetIds(cmds, inner, keys[..j], id), inner.m[keys[j]], id)
  {
    assert keys[..j + 1][..j] == keys[..j];
    assert keys[j] in keys;
  }

  /** The loop over a post's response. */
  method ApplyPostedLoop(c: Cache, inner: ODict<string, nat>, s: Scope, posted: seq<RemoteCmd>) returns (r: Cache)
    requires forall k :: k in inner.m ==> inner.m[k] < |c.cmds|
    ensures r == ApplyPosted(c, inner, s, posted)
  {
    r := c;
    var i := 0;
    while i < |posted|
      invariant 0 <= i <= |posted| && |r.cmds| == |c.cmds|
      invariant r == ApplyPosted(c, inner, s, posted[..i])
    {
      var d := posted[i];
      ApplyPostedStep(c, inner, s, posted, i);
      var cmds := SetIdsLoop(r.cmds, inner, UpdatedKeys(d, inner.m.Keys), d.id);
      r := Cache(r.scopes[d.id := s], cmds);
      i := i + 1;
    }
    assert posted[..i] == posted;
  }

  lemma ApplyPostedStep(c: Cache, inner: ODict<string, nat>, s: Scope, posted: seq<RemoteCmd>, i: nat)
    requires forall k :: k in inner.m ==> inner.m[k] < |c.cmds|
    requires i < |posted|
    ensures forall k :: k in UpdatedKeys(posted[i], inner.m.Keys) ==> k in inner.m
    ensures var prev := ApplyPosted(c, inner, s, posted[..i]);
      ApplyPosted(c, inner, s, posted[..i + 1]) ==
        Cache(prev.scopes[posted[i].id := s], SetIds(prev.cmds, inner, UpdatedKeys(posted[i], inner.m.Keys), posted[i].id))
  {
    assert posted[..i + 1][..i] == posted[..i];
    UpdatedKeysSpec(posted[i], inner.m.Keys);
  }

  lemma LastPostedStep(posted: seq<RemoteCmd>, k: string, registered: set<string>)
    requires posted != []
    ensures LastPostedFor(posted, k, registered) ==
      if k in UpdatedKeys(posted[|posted| - 1], registered) then Some(posted[|posted| - 1])
      else LastPostedFor(posted[..|posted| - 1], k, registered)
  {
  }
}
