/** The Snake client object: its event and command registries, event dispatch,
    the caching and synchronisation of application commands with the remote
    registry, and the readiness sequence after the gateway's READY. */
module Client {
  import opened Base
  import opened Events
  import opened Commands
  import opened Sync
  import opened Caching
  import opened Synchronise

  datatype RegistrationError =
    | DuplicateCommand(name: string)                   // add_message_command
    | DuplicateComponent(customId: string)             // add_component_callback
    | DuplicateInteraction(scope: Scope, name: string) // add_interaction

  /** The outcome of a registration: done, or the ValueError it raised. */
  datatype Outcome = Done | Failed(error: RegistrationError)

  /** `InteractionMissingAccess(scope)` */
  datatype SyncError = MissingAccess(scope: Scope)

  /** One wake-up of the readiness loop: the wait for a guild timed out, or a
      guild was cached and the guild cache now holds `cacheSize` guilds. */
  datatype Wake = TimedOut | GuildCached(cacheSize: nat)

  /** `table.get(k, [])` */
  function Get<V>(table: map<string, seq<V>>, k: string): seq<V> {
    if k in table then table[k] else []
  }

  /** `table.setdefault(k, []).append(x)` */
  function Append<V>(table: map<string, seq<V>>, k: string, x: V): (r: map<string, seq<V>>)
    ensures r.Keys == table.Keys + {k}
    ensures Get(r, k) == Get(table, k) + [x]
    ensures forall k' :: k' != k ==> Get(r, k') == Get(table, k')
  {
    table[k := Get(table, k) + [x]]
  }

  /** The scopes a command is registered in: the debug scope alone when one is
      set (a snowflake of 0 counts as unset), else its own scopes. */
  function EffectiveScopes(debugScope: Option<Snowflake>, scopes: seq<Scope>): seq<Scope> {
    if debugScope.Some? && debugScope.value != 0 then [Guild(debugScope.value)] else scopes
  }

  /** The keys before position `k` are new: none is taken and none repeats. */
  ghost predicate FreshUpTo<K>(taken: set<K>, keys: seq<K>, k: nat)
    requires k <= |keys|
  {
    && (forall j :: 0 <= j < k ==> keys[j] !in taken)
    && (forall i, j :: 0 <= i < j < k ==> keys[i] != keys[j])
  }

  /** The position of the first key that is already taken, either before the
      loop or by an earlier key of the same loop; `|keys|` if none is. */
  function FirstTaken<K>(taken: set<K>, keys: seq<K>): (k: nat)
    ensures k <= |keys| && FreshUpTo(taken, keys, k)
    ensures k < |keys| ==> keys[k] in taken || exists i :: 0 <= i < k && keys[i] == keys[k]
  {
    FirstTakenFrom(taken, keys, 0)
  }

  function FirstTakenFrom<K>(taken: set<K>, keys: seq<K>, i: nat): (k: nat)
    requires i <= |keys| && FreshUpTo(taken, keys, i)
    ensures i <= k <= |keys| && FreshUpTo(taken, keys, k)
    ensures k < |keys| ==> keys[k] in taken || exists i :: 0 <= i < k && keys[i] == keys[k]
    decreases |keys| - i
  {
    if i == |keys| || keys[i] in taken || keys[i] in keys[..i] then i
    else FirstTakenFrom(taken, keys, i + 1)
  }

  /** Scanning the keys in order, position `i` (not past the first taken one)
      is the first taken one exactly when its key is taken or repeats. */
  lemma FirstTakenAt<K>(taken: set<K>, keys: seq<K>, i: nat)
    requires i < |keys| && i <= FirstTaken(taken, keys)
    ensures FirstTaken(taken, keys) == i <==> keys[i] in taken || keys[i] in keys[..i]
  {
    var k := FirstTaken(taken, keys);
    if i == k && keys[i] !in taken {
      var j :| 0 <= j < k && keys[j] == keys[k];
      assert keys[..i][j] == keys[i];
    }
  }

  /** Message commands are filed under their own names. */
  ghost predicate CommandsNamed(commands: map<string, MessageCommand>) {
    forall k :: k in commands ==> commands[k].name == k
  }

  /** A component callback is filed under custom ids it listens for. */
  ghost predicate CallbacksListen(callbacks: map<string, ComponentCommand>) {
    forall id :: id in callbacks ==> id in callbacks[id].listeners
  }

  /** Listeners are filed under the event they listen to. */
  ghost predicate ListenersFiled(listeners: map<string, seq<Listener>>) {
    forall e, l :: e in listeners && l in listeners[e] ==> l.event == e
  }

  /** Waits are filed under the event they wait for, and every wait has an
      identity handed out before. */
  ghost predicate WaitsFiled(waits: map<string, seq<Wait>>, nextWaitId: nat) {
    forall e, w :: e in waits && w in waits[e] ==> w.event == e && w.id < nextWaitId
  }

  /** Every registry other than the interaction table files its entries
      under their own names. */
  ghost predicate RegistriesFiled(commands: map<string, MessageCommand>, callbacks: map<string, ComponentCommand>,
    listeners: map<string, seq<Listener>>, waits: map<string, seq<Wait>>, nextWaitId: nat)
  {
    && CommandsNamed(commands)
    && CallbacksListen(callbacks)
    && ListenersFiled(listeners)
    && WaitsFiled(waits, nextWaitId)
  }

  lemma ListenersFiledAppend(listeners: map<string, seq<Listener>>, l: Listener)
    requires ListenersFiled(listeners)
    ensures ListenersFiled(Append(listeners, l.event, l))
  {
  }

  lemma WaitsFiledAppend(waits: map<string, seq<Wait>>, nextWaitId: nat, w: Wait)
    requires WaitsFiled(waits, nextWaitId) && w.id == nextWaitId
    ensures WaitsFiled(Append(waits, w.event, w), nextWaitId + 1)
  {
  }

  /** Settling the waits of one event keeps the others filed. */
  lemma WaitsFiledKept(waits: map<string, seq<Wait>>, nextWaitId: nat, e: Event)
    requires WaitsFiled(waits, nextWaitId) && e.name in waits
    ensures WaitsFiled(waits[e.name := Kept(waits[e.name], e)], nextWaitId)
  {
    KeptAndResolvedMembers(waits[e.name], e);
  }

  /** The loop of `dispatch` over the waits of one event: each wait is
      resolved if its predicate accepts the event and kept otherwise. */
  method Settle(ws: seq<Wait>, e: Event) returns (kept: seq<Wait>, resolved: seq<Wait>)
    ensures kept == Kept(ws, e) && resolved == Resolved(ws, e)
  {
    kept, resolved := [], [];
    var i := 0;
    while i < |ws|
      invariant 0 <= i <= |ws|
      invariant kept == Kept(ws[..i], e) && resolved == Resolved(ws[..i], e)
    {
      assert ws[..i + 1] == ws[..i] + [ws[i]];
      KeptDistributes(ws[..i], [ws[i]], e);
      ResolvedDistributes(ws[..i], [ws[i]], e);
      if Satisfied(ws[i], e) {
        resolved := resolved + [ws[i]];
      } else {
        kept := kept + [ws[i]];
      }
      i := i + 1;
    }
    assert ws[..i] == ws;
  }

  /** The loop of `add_component_callback` over the custom ids: registers
      them one by one and stops with an error at the first one already taken;
      the ids before it stay registered, and no earlier entry is overwritten. */
  method RegisterCallback(callbacks: map<string, ComponentCommand>, c: ComponentCommand)
    returns (r: map<string, ComponentCommand>, outcome: Outcome)
    requires CallbacksListen(callbacks)
    ensures CallbacksListen(r)
    ensures var k := FirstTaken(callbacks.Keys, c.listeners);
      && (forall id :: id in r <==> id in callbacks || id in c.listeners[..k])
      && (forall id :: id in r ==> r[id] == if id in callbacks then callbacks[id] else c)
      && outcome == (if k < |c.listeners| then Failed(DuplicateComponent(c.listeners[k])) else Done)
  {
    ghost var k := FirstTaken(callbacks.Keys, c.listeners);
    r := callbacks;
    var i := 0;
    while i < |c.listeners|
      invariant 0 <= i <= k
      invariant forall id :: id in r <==> id in callbacks || id in c.listeners[..i]
      invariant forall id :: id in r ==> r[id] == if id in callbacks then callbacks[id] else c
      invariant CallbacksListen(r)
    {
      var id := c.listeners[i];
      FirstTakenAt(callbacks.Keys, c.listeners, i);
      if id in r {
        return r, Failed(DuplicateComponent(id));
      }
      assert c.listeners[..i + 1] == c.listeners[..i] + [id];
      r := r[id := c];
      i := i + 1;
    }
    return r, Done;
  }

  /** The command as registered after `i` scopes with the permission enforcer. */
  function Enforced(c: InteractionCommand, scopes: seq<Scope>, i: nat): (r: InteractionCommand)
    ensures r.resolvedName == c.resolvedName && r.scopes == scopes
  {
    c.(scopes := scopes, checks := c.checks + Repeat(PermissionEnforcer, i))
  }

  lemma EnforcedOnceMore(c: InteractionCommand, scopes: seq<Scope>, i: nat)
    ensures Enforced(c, scopes, 0) == c.(scopes := scopes)
    ensures Enforced(c, scopes, i + 1) == Enforced(c, scopes, i).(checks := Enforced(c, scopes, i).checks + [PermissionEnforcer])
  {
    assert c.checks + Repeat(PermissionEnforcer, 0) == c.checks;
    assert (c.checks + Repeat(PermissionEnforcer, i)) + [PermissionEnforcer] == c.checks + Repeat(PermissionEnforcer, i + 1);
  }

  /** The effect of registering `c` in `scopes`, with `k` the first scope
      where its name is taken: it is registered in the scopes before `k`,
      joins the arena with one permission enforcer per such scope when
      permissions are enforced, and the outcome names scope `k` if any. */
  ghost predicate Registers(t: Table, cmds: seq<InteractionCommand>, c: InteractionCommand, scopes: seq<Scope>, enforce: bool,
    t': Table, cmds': seq<InteractionCommand>, outcome: Outcome)
    requires t.Valid() && forall s :: s in t.m ==> t.m[s].Valid()
  {
    var k := FirstTaken(ScopesWith(t, c.resolvedName), scopes);
    && cmds' == cmds + [Enforced(c, scopes, if enforce then k else 0)]
    && t' == RegisterAll(t, scopes[..k], c.resolvedName, |cmds|)
    && outcome == (if k < |scopes| then Failed(DuplicateInteraction(scopes[k], c.resolvedName)) else Done)
  }

  /** The loop of `add_interaction` over the command's scopes: registers the
      command under its resolved name in each scope in turn, appending the
      permission enforcer to its checks once per scope when permissions are
      enforced, and stops with an error at the first scope where the name is
      already taken; the scopes before it stay registered. The command joins
      the arena at position `|cmds|`, shared by every scope it is in. */
  method RegisterInteraction(t: Table, cmds: seq<InteractionCommand>, c: InteractionCommand, scopes: seq<Scope>, enforce: bool)
    returns (t': Table, cmds': seq<InteractionCommand>, outcome: Outcome)
    requires TableValid(t, cmds)
    ensures TableValid(t', cmds')
    ensures Registers(t, cmds, c, scopes, enforce, t', cmds', outcome)
  {
    var name, n := c.resolvedName, |cmds|;
    ghost var k := FirstTaken(ScopesWith(t, name), scopes);
    var added := c.(scopes := scopes);
    EnforcedOnceMore(c, scopes, 0);
    TableValidArena(t, cmds, cmds + [c]);
    t' := t;
    var i := 0;
    while i < |scopes|
      invariant 0 <= i <= k
      invariant added == Enforced(c, scopes, if enforce then i else 0)
      invariant t' == RegisterAll(t, scopes[..i], name, n)
      invariant TableValid(t', cmds + [c])
    {
      var s := scopes[i];
      ScopesWithRegisterAll(t, scopes[..i], name, n);
      FirstTakenAt(ScopesWith(t, name), scopes, i);
      if s in t'.m && name in t'.m[s].m {
        assert s in ScopesWith(t', name);
        assert s in ScopesWith(t, name) || s in scopes[..i];
        assert i == k;
        TableValidReplaceLast(t', cmds, c, added);
        return t', cmds + [added], Failed(DuplicateInteraction(s, name));
      }
      assert s !in ScopesWith(t', name);
      if enforce {
        EnforcedOnceMore(c, scopes, i);
        added := added.(checks := added.checks + [PermissionEnforcer]);
      }
      TableValidRegister(t', cmds + [c], s, name, n);
      RegisterAllStep(t, scopes, i, name, n);
      t' := Register(t', s, name, n);
      i := i + 1;
    }
    assert k == i && scopes[..k] == scopes[..i];
    TableValidReplaceLast(t', cmds, c, added);
    return t', cmds + [added], Done;
  }

  // ---- application_commands ----

  /** The positions the scopes `keys` lead to, scope by scope, each scope's
      in insertion order. */
  function RegisteredIn(t: Table, keys: seq<Scope>): seq<nat>
    requires t.Valid() && forall s :: s in t.m ==> t.m[s].Valid()
  {
    if keys == [] then [] else RegisteredIn(t, keys[..|keys| - 1]) + Positions(t, keys[|keys| - 1])
  }

  /** A position is collected exactly when one of the scopes leads to it. */
  lemma {:induction false} RegisteredInSpec(t: Table, keys: seq<Scope>)
    requires t.Valid() && forall s :: s in t.m ==> t.m[s].Valid()
    ensures forall p :: p in RegisteredIn(t, keys) <==> exists i :: 0 <= i < |keys| && p in Positions(t, keys[i])
  {
    if keys != [] {
      var n := |keys| - 1;
      RegisteredInSpec(t, keys[..n]);
      forall p
        ensures (exists i :: 0 <= i < |keys| && p in Positions(t, keys[i])) <==>
          (exists i :: 0 <= i < n && p in Positions(t, keys[..n][i])) || p in Positions(t, keys[n])
      {
        if exists i :: 0 <= i < |keys| && p in Positions(t, keys[i]) {
          var i :| 0 <= i < |keys| && p in Positions(t, keys[i]);
          if i < n {
            assert keys[..n][i] == keys[i];
          }
        }
        if exists i :: 0 <= i < n && p in Positions(t, keys[..n][i]) {
          var i :| 0 <= i < n && p in Positions(t, keys[..n][i]);
          assert keys[..n][i] == keys[i];
        }
      }
    }
  }

  /** Some scope's table leads to position `p`. */
  ghost predicate Leads(t: Table, p: nat) {
    exists s, k :: s in t.m && k in t.m[s].m && t.m[s].m[k] == p
  }

  /** A position of a scope's listing is one the scope leads to. */
  lemma PositionLeads(t: Table, s: Scope, p: nat)
    requires t.Valid() && forall s' :: s' in t.m ==> t.m[s'].Valid()
    requires p in Positions(t, s)
    ensures Leads(t, p)
  {
    var inner := t.m[s];
    var j :| 0 <= j < |inner.keys| && inner.Values()[j] == p;
    assert inner.keys[j] in inner.m && inner.m[inner.keys[j]] == p;
  }

  /** A position some scope leads to is in that scope's listing. */
  lemma LeadsPosition(t: Table, p: nat)
    requires t.Valid() && forall s' :: s' in t.m ==> t.m[s'].Valid()
    requires Leads(t, p)
    ensures exists i :: 0 <= i < |t.keys| && p in Positions(t, t.keys[i])
  {
    var s, k :| s in t.m && k in t.m[s].m && t.m[s].m[k] == p;
    assert s in t.keys;
    var i :| 0 <= i < |t.keys| && t.keys[i] == s;
    var inner := t.m[s];
    assert k in inner.keys;
    var j :| 0 <= j < |inner.keys| && inner.keys[j] == k;
    assert Positions(t, s)[j] == p;
  }

  /** The positions collected over all scopes are those some scope leads to. */
  lemma RegisteredLeads(t: Table)
    requires t.Valid() && forall s :: s in t.m ==> t.m[s].Valid()
    ensures forall p :: p in RegisteredIn(t, t.keys) <==> Leads(t, p)
  {
    RegisteredInSpec(t, t.keys);
    forall p | p in RegisteredIn(t, t.keys)
      ensures Leads(t, p)
    {
      var i :| 0 <= i < |t.keys| && p in Positions(t, t.keys[i]);
      PositionLeads(t, t.keys[i], p);
    }
    forall p | Leads(t, p)
      ensures p in RegisteredIn(t, t.keys)
    {
      LeadsPosition(t, p);
    }
  }

  /** `application_commands` lists every command some scope's table leads
      to, and each once, although a command shared by several scopes appears
      in each of their tables. */
  lemma ApplicationCommandsSpec(t: Table, cmds: seq<InteractionCommand>)
    requires TableValid(t, cmds)
    ensures var ps := Dedup<nat>(RegisteredIn(t, t.keys));
      && (forall p: nat :: p in ps <==> Leads(t, p))
      && (forall i, j :: 0 <= i < j < |ps| ==> ps[i] != ps[j])
      && (forall j :: 0 <= j < |ps| ==> ps[j] < |cmds|)
  {
    var all := RegisteredIn(t, t.keys);
    var ps := Dedup<nat>(all);
    RegisteredLeads(t);
    DedupSpec(all);
    forall j | 0 <= j < |ps|
      ensures ps[j] < |cmds|
    {
      assert ps[j] in ps;
      var s, k :| s in t.m && k in t.m[s].m && t.m[s].m[k] == ps[j];
    }
  }

  /** The loops of `application_commands`: over the scopes, then over each
      scope's commands, appending those not collected yet. */
  method CollectCommands(t: Table) returns (r: seq<nat>)
    requires t.Valid() && forall s :: s in t.m ==> t.m[s].Valid()
    ensures r == Dedup<nat>(RegisteredIn(t, t.keys))
  {
    r := [];
    var i := 0;
    while i < |t.keys|
      invariant 0 <= i <= |t.keys|
      invariant r == Dedup<nat>(RegisteredIn(t, t.keys[..i]))
    {
      RegisteredInStep(t, t.keys, i);
      r := AddEachNew(r, Positions(t, t.keys[i]), RegisteredIn(t, t.keys[..i]));
      i := i + 1;
    }
    assert t.keys[..i] == t.keys;
  }

  /** The inner loop of `application_commands`: appending each of `ps` not
      collected yet continues the deduplication of `before`. */
  method AddEachNew<T(==)>(r0: seq<T>, ps: seq<T>, ghost before: seq<T>) returns (r: seq<T>)
    requires r0 == Dedup(before)
    ensures r == Dedup(before + ps)
  {
    r := r0;
    var j := 0;
    AppendedStep(before, ps, 0);
    while j < |ps|
      invariant 0 <= j <= |ps|
      invariant r == Dedup(before + ps[..j])
    {
      AppendedStep(before, ps, j);
      if ps[j] !in r {
        r := r + [ps[j]];
      }
      j := j + 1;
    }
    assert ps[..j] == ps;
  }

  /** Deduplicating a list extended one element at a time. */
  lemma AppendedStep<T>(before: seq<T>, ps: seq<T>, j: nat)
    requires j <= |ps|
    ensures before + ps[..0] == before
    ensures j < |ps| ==> Dedup(before + ps[..j + 1]) == AddNew(Dedup(before + ps[..j]), ps[j])
  {
    assert before + ps[..0] == before;
    if j < |ps| {
      var all := before + ps;
      assert all[..|before| + j] == before + ps[..j];
      assert all[..|before| + j + 1] == before + ps[..j + 1];
      DedupStep(all, |before| + j);
    }
  }

  lemma RegisteredInStep(t: Table, keys: seq<Scope>, i: nat)
    requires t.Valid() && forall s :: s in t.m ==> t.m[s].Valid()
    requires i < |keys|
    ensures RegisteredIn(t, keys[..i + 1]) == RegisteredIn(t, keys[..i]) + Positions(t, keys[i])
  {
    assert keys[..i + 1][..i] == keys[..i];
  }

  // ---- Readiness ----

  /** The wake-up that ends the readiness loop: the first timeout, or the
      first guild cached when the cache holds as many guilds as the gateway
      announced (the counts are compared, not the guilds); `|wakes|` when
      none has come yet. */
  function SettleAt(wakes: seq<Wake>, expected: nat): (k: nat)
    ensures k <= |wakes|
    ensures forall i :: 0 <= i < k ==> wakes[i].GuildCached? && wakes[i].cacheSize != expected
    ensures k < |wakes| ==> wakes[k].TimedOut? || wakes[k].cacheSize == expected
  {
    if wakes == [] then 0
    else if wakes[0].TimedOut? || wakes[0].cacheSize == expected then 0
    else
      var k := SettleAt(wakes[1..], expected);
      assert forall i :: 1 <= i < |wakes| ==> wakes[i] == wakes[1..][i - 1];
      1 + k
  }

  /** The readiness loop of `_on_websocket_ready`: wakes up on each guild
      cached or on the timeout, and stops at the wake-up that ends the wait. */
  method AwaitGuilds(wakes: seq<Wake>, expected: nat) returns (i: nat)
    ensures i == SettleAt(wakes, expected)
  {
    i := 0;
    while i < |wakes|
      invariant i <= SettleAt(wakes, expected)
    {
      if wakes[i].TimedOut? || wakes[i].cacheSize == expected {
        return;
      }
      i := i + 1;
    }
  }

  /** `order` lists the elements of the set `s` once each: an iteration
      order of the set. */
  ghost predicate Enumerates(order: seq<Snowflake>, s: set<Snowflake>) {
    && (forall g :: g in order <==> g in s)
    && (forall i, j :: 0 <= i < j < |order| ==> order[i] != order[j])
  }

  /** `order` is an iteration order of the set `_cache_interactions` builds:
      the global scope and the guilds of the guild cache, each once. */
  ghost predicate BotScopeOrder(order: seq<Scope>) {
    && Global in order
    && (forall i, j :: 0 <= i < j < |order| ==> order[i] != order[j])
  }

  /** The waits left once the `ready` event has been dispatched: those of
      `ready` that its (plain) event does not resolve, the others untouched. */
  ghost predicate ReadyDispatched(waits: map<string, seq<Wait>>, waits': map<string, seq<Wait>>) {
    waits' == if "ready" in waits then waits["ready" := Kept(waits["ready"], Event("ready", Plain))] else waits
  }

  /** The `InteractionMissingAccess` raised, if any. */
  function Raised(error: Option<Scope>): (r: Option<SyncError>)
    ensures r.Some? <==> error.Some?
    ensures r.Some? ==> r.value.scope == error.value
  {
    match error
    case None => None
    case Some(s) => Some(MissingAccess(s))
  }

  /** `_init_interactions`: synchronise when enabled, else cache; the
      error, if any, is handed to `on_error` and goes no further. */
  function Initialised(sync: bool, c: Cache, t: Table, guildOrder: seq<Snowflake>, botScopes: seq<Scope>,
    respond: HttpCall -> Response, syncNeeded: (string, Option<RemoteCmd>) -> bool, deleteUnused: bool): (r: Synced)
    requires TableValid(t, c.cmds)
    ensures SameButIds(c.cmds, r.cache.cmds)
  {
    if sync then SynchroniseAll(c, t, guildOrder, botScopes, respond, syncNeeded, deleteUnused)
    else
      var r := CacheAll(c, t, botScopes, respond);
      Synced(r.error, r.cache, EmptyDict(), r.calls)
  }

  /** Initialising fails only when a call is refused, and then names the
      scope that was being cached or synchronised; caching alone fetches no
      more than the registered scopes and the bot's other scopes. */
  lemma InitialisedCalls(sync: bool, c: Cache, t: Table, guildOrder: seq<Snowflake>, botScopes: seq<Scope>,
    respond: HttpCall -> Response, syncNeeded: (string, Option<RemoteCmd>) -> bool, deleteUnused: bool)
    requires TableValid(t, c.cmds)
    ensures var r := Initialised(sync, c, t, guildOrder, botScopes, respond, syncNeeded, deleteUnused);
      && (r.error.Some? ==>
            && EndsRefused(r.calls, respond)
            && (r.error.value in t.keys || (sync && r.error.value in SyncScopes(guildOrder))))
      && (sync && r.error.None? ==> forall s :: s in SyncScopes(guildOrder) ==> GetCommands(s) in r.calls)
      && (!sync ==> forall call :: call in r.calls ==> exists s :: (s in t.keys || s in botScopes) && call == GetCommands(s))
  {
    if sync {
      SynchroniseCalls(c, t, guildOrder, botScopes, respond, syncNeeded, deleteUnused);
    } else {
      CacheAllFails(c, t, botScopes, respond);
      CacheAllFetches(c, t, botScopes, respond);
    }
  }

  class Snake {
    /** `commands`: message commands by name. */
    var commands: map<string, MessageCommand>
    /** `interactions`: scope -> resolved name -> position in `cmds`. */
    var interactions: Table
    /** The application command objects, which the table shares between scopes. */
    var cmds: seq<InteractionCommand>
    /** `_component_callbacks`: custom id -> component callback. */
    var componentCallbacks: map<string, ComponentCommand>
    /** `_interaction_scopes`: remote command id -> scope. */
    var interactionScopes: map<string, Scope>
    var listeners: map<string, seq<Listener>>
    var waits: map<string, seq<Wait>>
    /** The identity the next wait gets (each wait owns a fresh future). */
    var nextWaitId: nat
    /** `_ready` */
    var ready: bool
    /** `_user._guild_ids` */
    var guildIds: set<Snowflake>
    /** The close code sent to the gateway by `stop`, once sent. */
    var closeCode: Option<int>

    const debugScope: Option<Snowflake>
    const enforceInteractionPerms: bool
    const syncInteractions: bool
    const deleteUnusedAppCmds: bool

    /** What the registries keep true: the table is well formed, every key
        names its command, and every entry of the event tables is filed under
        its own event. */
    ghost predicate Valid()
      reads this
    {
      TableValid(interactions, cmds) && RegistriesFiled(commands, componentCallbacks, listeners, waits, nextWaitId)
    }

    constructor(debugScope: Option<Snowflake>, enforceInteractionPerms: bool, syncInteractions: bool, deleteUnusedAppCmds: bool)
      ensures Valid()
      ensures commands == map[] && interactions == EmptyDict() && cmds == []
      ensures componentCallbacks == map[] && interactionScopes == map[]
      ensures listeners == map[] && waits == map[] && !ready && guildIds == {} && closeCode == None
      ensures this.debugScope == debugScope && this.enforceInteractionPerms == enforceInteractionPerms
      ensures this.syncInteractions == syncInteractions && this.deleteUnusedAppCmds == deleteUnusedAppCmds
    {
      this.debugScope := debugScope;
      this.enforceInteractionPerms := enforceInteractionPerms;
      this.syncInteractions := syncInteractions;
      this.deleteUnusedAppCmds := deleteUnusedAppCmds;
      commands := map[];
      interactions := EmptyDict();
      cmds := [];
      componentCallbacks := map[];
      interactionScopes := map[];
      listeners := map[];
      waits := map[];
      nextWaitId := 0;
      ready := false;
      guildIds := {};
      closeCode := None;
    }

    // ---- Listeners and waits ----

    /** `add_listener`: appended to its event's list, nothing else changes. */
    method AddListener(l: Listener)
      requires Valid()
      modifies this`listeners
      ensures Valid()
      ensures listeners == Append(old(listeners), l.event, l)
    {
      ListenersFiledAppend(listeners, l);
      listeners := Append(listeners, l.event, l);
    }

    /** `wait_for`: a new wait, with a fresh identity, appended to its event's
        list. The timeout belongs to the caller's await and is not modelled. */
    method WaitFor(event: string, check: Check) returns (w: Wait)
      requires Valid()
      modifies this`waits, this`nextWaitId
      ensures Valid()
      ensures w == Wait(old(nextWaitId), event, check)
      ensures waits == Append(old(waits), event, w) && nextWaitId == old(nextWaitId) + 1
    {
      w := Wait(nextWaitId, event, check);
      WaitsFiledAppend(waits, nextWaitId, w);
      waits := Append(waits, event, w);
      nextWaitId := nextWaitId + 1;
    }

    /** `wait_for_component`: refuses a wait when neither `messages` nor
        `components` was given (ValueError), otherwise waits on "component"
        with the component filter. `messagesGiven` and `componentsGiven` are
        the truth values of the two arguments; `messageIds` and `customIds`
        are the ids derived from them, and an argument not given contributes
        none. Components given without any custom id leave a filter that
        accepts every custom id. */
    method WaitForComponent(messagesGiven: bool, messageIds: seq<Snowflake>, componentsGiven: bool,
      customIds: seq<string>, check: Option<Event -> bool>)
      returns (r: Result<Wait, string>)
      requires Valid()
      modifies this`waits, this`nextWaitId
      ensures Valid()
      ensures !messagesGiven && !componentsGiven ==>
        r.Err? && waits == old(waits) && nextWaitId == old(nextWaitId)
      ensures messagesGiven || componentsGiven ==>
        && var filter := ComponentFilter(if messagesGiven then messageIds else [],
                                         if componentsGiven then customIds else [], check);
        && r == Ok(Wait(old(nextWaitId), "component", Component(filter)))
        && waits == Append(old(waits), "component", r.value) && nextWaitId == old(nextWaitId) + 1
    {
      if !(messagesGiven || componentsGiven) {
        return Err("You must specify messages or components (or both)");
      }
      var mids := if messagesGiven then messageIds else [];
      var cids := if componentsGiven then customIds else [];
      var w := WaitFor("component", Component(ComponentFilter(mids, cids, check)));
      return Ok(w);
    }

    /** `dispatch`: queues every listener of the event, resolves the waits
        its predicate accepts and leaves the others pending in their order.
        This is the corrected removal; the positional one the source uses is
        `KeptAsWritten`. */
    method Dispatch(e: Event) returns (queued: seq<Listener>, resolved: seq<Wait>)
      requires Valid()
      modifies this`waits
      ensures Valid()
      ensures queued == Get(old(listeners), e.name)
      ensures resolved == Resolved(Get(old(waits), e.name), e)
      ensures e.name in old(waits) ==> waits == old(waits)[e.name := Kept(old(waits)[e.name], e)]
      ensures e.name !in old(waits) ==> waits == old(waits)
    {
      queued := Get(listeners, e.name);
      var kept;
      kept, resolved := Settle(Get(waits, e.name), e);
      if e.name in waits {
        WaitsFiledKept(waits, nextWaitId, e);
        waits := waits[e.name := kept];
      }
    }

    /** `application_commands`: every registered command once, in the order
        first met scope by scope. */
    method ApplicationCommands() returns (r: seq<InteractionCommand>)
      requires Valid()
      ensures var ps := Dedup<nat>(RegisteredIn(interactions, interactions.keys));
        |r| == |ps| && forall j :: 0 <= j < |ps| ==> ps[j] < |cmds| && r[j] == cmds[ps[j]]
    {
      var ps := CollectCommands(interactions);
      ApplicationCommandsSpec(interactions, cmds);
      var arena := cmds;
      r := seq(|ps|, j requires 0 <= j < |ps| => arena[ps[j]]);
    }

    // ---- Caching, synchronisation and readiness ----

    /** `_cache_interactions`, with `botScopes` the iteration order of the
        set of the bot's guilds and the global scope. The state reached is
        kept when the pass raises. */
    method CacheInteractions(botScopes: seq<Scope>, respond: HttpCall -> Response) returns (err: Option<SyncError>, calls: seq<HttpCall>)
      requires Valid() && BotScopeOrder(botScopes)
      modifies this`interactionScopes, this`cmds
      ensures Valid()
      ensures var r := CacheAll(Cache(old(interactionScopes), old(cmds)), interactions, botScopes, respond);
        && interactionScopes == r.cache.scopes && cmds == r.cache.cmds
        && calls == r.calls && err == Raised(r.error)
    {
      var r := CacheLoops(Cache(interactionScopes, cmds), interactions, botScopes, respond);
      TableValidSameButIds(interactions, cmds, r.cache.cmds);
      interactionScopes, cmds := r.cache.scopes, r.cache.cmds;
      calls, err := r.calls, Raised(r.error);
    }

    /** `synchronise_interactions`, with `guildOrder` the iteration order of
        the bot's guild ids. */
    method SynchroniseInteractions(guildOrder: seq<Snowflake>, botScopes: seq<Scope>, respond: HttpCall -> Response,
      syncNeeded: (string, Option<RemoteCmd>) -> bool) returns (err: Option<SyncError>, calls: seq<HttpCall>)
      requires Valid() && Enumerates(guildOrder, guildIds) && BotScopeOrder(botScopes)
      modifies this`interactionScopes, this`cmds
      ensures Valid()
      ensures var r := SynchroniseAll(Cache(old(interactionScopes), old(cmds)), interactions, guildOrder, botScopes,
          respond, syncNeeded, deleteUnusedAppCmds);
        && interactionScopes == r.cache.scopes && cmds == r.cache.cmds
        && calls == r.calls && err == Raised(r.error)
    {
      var r := SynchroniseLoops(Cache(interactionScopes, cmds), interactions, guildOrder, botScopes, respond, syncNeeded, deleteUnusedAppCmds);
      TableValidSameButIds(interactions, cmds, r.cache.cmds);
      interactionScopes, cmds := r.cache.scopes, r.cache.cmds;
      calls, err := r.calls, Raised(r.error);
    }

    /** `_init_interactions` */
    method InitInteractions(guildOrder: seq<Snowflake>, botScopes: seq<Scope>, respond: HttpCall -> Response,
      syncNeeded: (string, Option<RemoteCmd>) -> bool) returns (err: Option<SyncError>, calls: seq<HttpCall>)
      requires Valid() && Enumerates(guildOrder, guildIds) && BotScopeOrder(botScopes)
      modifies this`interactionScopes, this`cmds
      ensures Valid()
      ensures var r := Initialised(syncInteractions, Cache(old(interactionScopes), old(cmds)), interactions, guildOrder, botScopes,
          respond, syncNeeded, deleteUnusedAppCmds);
        && interactionScopes == r.cache.scopes && cmds == r.cache.cmds
        && calls == r.calls && err == Raised(r.error)
    {
      if syncInteractions {
        err, calls := SynchroniseInteractions(guildOrder, botScopes, respond, syncNeeded);
      } else {
        err, calls := CacheInteractions(botScopes, respond);
      }
    }

    /** The tail of `_on_websocket_ready`, once the guild cache has settled:
        the application commands are initialised, the client becomes ready
        and the `ready` event is dispatched. */
    method BecomeReady(guildOrder: seq<Snowflake>, botScopes: seq<Scope>, respond: HttpCall -> Response,
      syncNeeded: (string, Option<RemoteCmd>) -> bool)
      returns (err: Option<SyncError>, calls: seq<HttpCall>, queued: seq<Listener>)
      requires Valid() && Enumerates(guildOrder, guildIds) && BotScopeOrder(botScopes)
      modifies this`interactionScopes, this`cmds, this`ready, this`waits
      ensures Valid()
      ensures var r := Initialised(syncInteractions, Cache(old(interactionScopes), old(cmds)), interactions, guildOrder, botScopes,
          respond, syncNeeded, deleteUnusedAppCmds);
        interactionScopes == r.cache.scopes && cmds == r.cache.cmds && calls == r.calls && err == Raised(r.error)
      ensures ready && queued == Get(listeners, "ready") && ReadyDispatched(old(waits), waits)
    {
      err, calls := InitInteractions(guildOrder, botScopes, respond, syncNeeded);
      ready := true;
      var resolved;
      queued, resolved := Dispatch(Event("ready", Plain));
    }

    /** `_on_websocket_ready`: the announced guilds join the bot's guild
        ids; once a wake-up ends the wait for the guild cache, the
        application commands are initialised, the client becomes ready and
        the `ready` event is dispatched. Until then nothing else changes. */
    method OnWebsocketReady(expected: set<Snowflake>, wakes: seq<Wake>, guildOrder: seq<Snowflake>, botScopes: seq<Scope>,
      respond: HttpCall -> Response, syncNeeded: (string, Option<RemoteCmd>) -> bool)
      returns (settled: bool, err: Option<SyncError>, calls: seq<HttpCall>, queued: seq<Listener>)
      requires Valid() && Enumerates(guildOrder, guildIds + expected) && BotScopeOrder(botScopes)
      modifies this`guildIds, this`interactionScopes, this`cmds, this`ready, this`waits
      ensures Valid()
      ensures guildIds == old(guildIds) + expected
      ensures settled <==> SettleAt(wakes, |expected|) < |wakes|
      ensures !settled ==>
        && interactionScopes == old(interactionScopes) && cmds == old(cmds) && ready == old(ready) && waits == old(waits)
        && err.None? && calls == [] && queued == []
      ensures settled ==>
        && (var r := Initialised(syncInteractions, Cache(old(interactionScopes), old(cmds)), interactions, guildOrder, botScopes,
              respond, syncNeeded, deleteUnusedAppCmds);
            interactionScopes == r.cache.scopes && cmds == r.cache.cmds && calls == r.calls && err == Raised(r.error))
        && ready && queued == Get(listeners, "ready") && ReadyDispatched(old(waits), waits)
    {
      guildIds := guildIds + expected;
      var i := AwaitGuilds(wakes, |expected|);
      if i == |wakes| {
        return false, None, [], [];
      }
      err, calls, queued := BecomeReady(guildOrder, botScopes, respond, syncNeeded);
      settled := true;
    }

    /** `stop`: the client is no longer ready and the gateway is closed with
        code 1001. `hasWs` says whether `ws` holds a websocket; while it is
        still MISSING (no `connect` has returned yet), reading its `close`
        raises AttributeError after `_ready` was cleared, and nothing is closed. */
    method Stop(hasWs: bool) returns (r: Result<(), string>)
      modifies this`ready, this`closeCode
      ensures !ready
      ensures r.Ok? <==> hasWs
      ensures closeCode == if hasWs then Some(1001) else old(closeCode)
    {
      ready := false;
      if !hasWs {
        return Err("AttributeError: ws is MISSING");
      }
      closeCode := Some(1001);
      return Ok(());
    }

    // ---- Command registries ----

    /** `add_message_command`: registers a new name, refuses a taken one. */
    method AddMessageCommand(c: MessageCommand) returns (r: Outcome)
      requires Valid()
      modifies this`commands
      ensures Valid()
      ensures c.name in old(commands) ==> r == Failed(DuplicateCommand(c.name)) && commands == old(commands)
      ensures c.name !in old(commands) ==> r == Done && commands == old(commands)[c.name := c]
    {
      if c.name !in commands {
        commands := commands[c.name := c];
        return Done;
      }
      return Failed(DuplicateCommand(c.name));
    }

    /** `add_component_callback`: registers the custom ids one by one and
        stops with an error at the first one already taken; the ids before it
        stay registered, and no earlier entry is overwritten. */
    method AddComponentCallback(c: ComponentCommand) returns (r: Outcome)
      requires Valid()
      modifies this`componentCallbacks
      ensures Valid()
      ensures var k := FirstTaken(old(componentCallbacks).Keys, c.listeners);
        && (forall id :: id in componentCallbacks <==> id in old(componentCallbacks) || id in c.listeners[..k])
        && (forall id :: id in componentCallbacks ==>
              componentCallbacks[id] == if id in old(componentCallbacks) then old(componentCallbacks)[id] else c)
        && r == (if k < |c.listeners| then Failed(DuplicateComponent(c.listeners[k])) else Done)
    {
      componentCallbacks, r := RegisterCallback(componentCallbacks, c);
    }

    /** `add_interaction`: after the debug scope (if any) has replaced the
        command's scopes, registers the command under its resolved name in
        each scope in turn, appending the permission enforcer to its checks
        once per scope when permissions are enforced, and stops with an error
        at the first scope where the name is already taken; the scopes before
        it stay registered. The command joins `cmds` at position `|cmds|`. */
    method AddInteraction(c: InteractionCommand) returns (r: Outcome)
      requires Valid()
      modifies this`interactions, this`cmds
      ensures Valid()
      ensures Registers(old(interactions), old(cmds), c, EffectiveScopes(debugScope, c.scopes), enforceInteractionPerms,
        interactions, cmds, r)
    {
      var scopes := EffectiveScopes(debugScope, c.scopes);
      interactions, cmds, r := RegisterInteraction(interactions, cmds, c, scopes, enforceInteractionPerms);
    }
  }
}
