/** The command values the Snake client registers, and the scale lookup. */
module Commands {
  import opened Base

  /** A check run before an interaction command; the client itself only ever
      appends the command's permission enforcer. */
  datatype CommandCheck = UserCheck(id: nat) | PermissionEnforcer

  /** A permission overwrite declared on a command, for one guild;
      `data` stands for its serialised form. */
  datatype Permission = Permission(guildId: Snowflake, data: nat)

  /** An application command. `name` is the top-level name, `resolvedName`
      includes the sub-command group and sub-command (`"parent group sub"`),
      `autocompletes` are the option names with an autocomplete callback,
      `cmdId` is the remote id once known. */
  datatype InteractionCommand = InteractionCommand(
    name: string,
    resolvedName: string,
    scopes: seq<Scope>,
    checks: seq<CommandCheck>,
    permissions: seq<Permission>,
    autocompletes: set<string>,
    cmdId: Option<string>)

  datatype MessageCommand = MessageCommand(name: string, enabled: bool, handler: nat)

  /** A component callback and the custom ids it listens for. */
  datatype ComponentCommand = ComponentCommand(listeners: seq<string>, handler: nat)

  /** `interactions`: scope -> resolved name -> command. A command object is
      shared by every scope it is registered in, so the table holds positions
      in an arena of commands and a change to one command is seen from all its
      scopes. */
  type Table = ODict<Scope, ODict<string, nat>>

  /** The table is well formed and every entry leads to a command registered
      under its own resolved name. */
  ghost predicate TableValid(t: Table, cmds: seq<InteractionCommand>) {
    && t.Valid()
    && (forall s :: s in t.m ==> t.m[s].Valid())
    && (forall s, k :: s in t.m && k in t.m[s].m ==> t.m[s].m[k] < |cmds| && cmds[t.m[s].m[k]].resolvedName == k)
  }

  /** Changing commands other than their resolved names, or adding commands,
      keeps the table valid. */
  lemma TableValidArena(t: Table, cmds: seq<InteractionCommand>, cmds': seq<InteractionCommand>)
    requires TableValid(t, cmds)
    requires |cmds| <= |cmds'| && forall i :: 0 <= i < |cmds| ==> cmds'[i].resolvedName == cmds[i].resolvedName
    ensures TableValid(t, cmds')
  {
  }

  /** The command last added may change, as long as its resolved name stays. */
  lemma TableValidReplaceLast(t: Table, cmds: seq<InteractionCommand>, c: InteractionCommand, c': InteractionCommand)
    requires TableValid(t, cmds + [c]) && c'.resolvedName == c.resolvedName
    ensures TableValid(t, cmds + [c'])
  {
    TableValidArena(t, cmds + [c], cmds + [c']);
  }

  /** The scopes in which `name` is registered. */
  function ScopesWith(t: Table, name: string): set<Scope> {
    set s | s in t.m && name in t.m[s].m
  }

  /** `interactions.setdefault(s, {})[name] = n` */
  function Register(t: Table, s: Scope, name: string, n: nat): (r: Table)
    requires t.Valid() && forall s' :: s' in t.m ==> t.m[s'].Valid()
    ensures r.Valid() && forall s' :: s' in r.m ==> r.m[s'].Valid()
    ensures r.keys == AddNew(t.keys, s)
  {
    t.Put(s, t.GetOr(s, EmptyDict()).Put(name, n))
  }

  /** Registering adds the one entry and changes no other. */
  lemma RegisterEffect(t: Table, s: Scope, name: string, n: nat)
    requires t.Valid() && forall s' :: s' in t.m ==> t.m[s'].Valid()
    ensures var r := Register(t, s, name, n);
      && (forall s', k :: s' in r.m && k in r.m[s'].m <==> (s' in t.m && k in t.m[s'].m) || (s' == s && k == name))
      && (forall s', k :: s' in r.m && k in r.m[s'].m ==>
            r.m[s'].m[k] == if s' == s && k == name then n else t.m[s'].m[k])
  {
  }

  lemma TableValidRegister(t: Table, cmds: seq<InteractionCommand>, s: Scope, name: string, n: nat)
    requires TableValid(t, cmds) && n < |cmds| && cmds[n].resolvedName == name
    ensures TableValid(Register(t, s, name, n), cmds)
  {
    RegisterEffect(t, s, name, n);
  }

  /** `name` registered as `n` in each of `ss`, in order. */
  function RegisterAll(t: Table, ss: seq<Scope>, name: string, n: nat): (r: Table)
    requires t.Valid() && forall s :: s in t.m ==> t.m[s].Valid()
    ensures r.Valid() && forall s :: s in r.m ==> r.m[s].Valid()
  {
    if ss == [] then t else Register(RegisterAll(t, ss[..|ss| - 1], name, n), ss[|ss| - 1], name, n)
  }

  lemma RegisterAllStep(t: Table, ss: seq<Scope>, i: nat, name: string, n: nat)
    requires t.Valid() && forall s :: s in t.m ==> t.m[s].Valid()
    requires i < |ss|
    ensures RegisterAll(t, ss[..i + 1], name, n) == Register(RegisterAll(t, ss[..i], name, n), ss[i], name, n)
  {
    assert ss[..i + 1][..i] == ss[..i];
  }

  /** Registering never overwrites: every earlier entry keeps its command,
      provided `name` was free in the scopes registered into. */
  lemma {:induction false} RegisterAllKeepsOld(t: Table, ss: seq<Scope>, name: string, n: nat)
    requires t.Valid() && forall s :: s in t.m ==> t.m[s].Valid()
    requires forall s :: s in ss ==> s !in ScopesWith(t, name)
    ensures forall s, k :: s in t.m && k in t.m[s].m ==>
      s in RegisterAll(t, ss, name, n).m && k in RegisterAll(t, ss, name, n).m[s].m &&
      RegisterAll(t, ss, name, n).m[s].m[k] == t.m[s].m[k]
  {
    if ss != [] {
      RegisterAllKeepsOld(t, ss[..|ss| - 1], name, n);
      RegisterEffect(RegisterAll(t, ss[..|ss| - 1], name, n), ss[|ss| - 1], name, n);
      assert ss[|ss| - 1] in ss;
    }
  }

  /** After registering, `name` leads to `n` in every scope registered into. */
  lemma {:induction false} RegisterAllFinds(t: Table, ss: seq<Scope>, name: string, n: nat)
    requires t.Valid() && forall s :: s in t.m ==> t.m[s].Valid()
    ensures forall s :: s in ss ==>
      s in RegisterAll(t, ss, name, n).m && name in RegisterAll(t, ss, name, n).m[s].m &&
      RegisterAll(t, ss, name, n).m[s].m[name] == n
  {
    if ss != [] {
      RegisterAllFinds(t, ss[..|ss| - 1], name, n);
      RegisterEffect(RegisterAll(t, ss[..|ss| - 1], name, n), ss[|ss| - 1], name, n);
      forall s | s in ss
        ensures s == ss[|ss| - 1] || s in ss[..|ss| - 1]
      {
        var i :| 0 <= i < |ss| && ss[i] == s;
        if i < |ss| - 1 {
          assert ss[..|ss| - 1][i] == s;
        }
      }
    }
  }

  /** New scopes come after the old ones, in the order first registered. */
  lemma {:induction false} RegisterAllKeys(t: Table, ss: seq<Scope>, name: string, n: nat)
    requires t.Valid() && forall s :: s in t.m ==> t.m[s].Valid()
    ensures RegisterAll(t, ss, name, n).keys == Dedup(t.keys + ss)
  {
    if ss == [] {
      assert t.keys + ss == t.keys;
      DedupOfDistinct(t.keys);
    } else {
      var m := |ss| - 1;
      RegisterAllKeys(t, ss[..m], name, n);
      var all := t.keys + ss;
      assert all[..|t.keys| + m] == t.keys + ss[..m];
      DedupStep(all, |t.keys| + m);
      assert all[..|t.keys| + m + 1] == all;
    }
  }

  /** Registering `name` makes it taken in exactly the scopes registered into,
      besides those where it was taken already. */
  lemma {:induction false} ScopesWithRegisterAll(t: Table, ss: seq<Scope>, name: string, n: nat)
    requires t.Valid() && forall s :: s in t.m ==> t.m[s].Valid()
    ensures forall s :: s in ScopesWith(RegisterAll(t, ss, name, n), name) <==> s in ScopesWith(t, name) || s in ss
  {
    if ss != [] {
      var n' := |ss| - 1;
      ScopesWithRegisterAll(t, ss[..n'], name, n);
      ScopesWithRegister(RegisterAll(t, ss[..n'], name, n), ss[n'], name, n);
      InSnoc(ss);
    }
  }

  /** Registering `name` in `s` makes it taken in `s` besides where it was. */
  lemma ScopesWithRegister(t: Table, s: Scope, name: string, n: nat)
    requires t.Valid() && forall s' :: s' in t.m ==> t.m[s'].Valid()
    ensures forall s' :: s' in ScopesWith(Register(t, s, name, n), name) <==> s' in ScopesWith(t, name) || s' == s
  {
    RegisterEffect(t, s, name, n);
  }

  /** A mounted scale and the name of the extension it came from. */
  datatype Scale = Scale(name: string, extensionName: string)

  /** `get_scale`: the scale mounted under `name`, else the first scale, in
      mounting order, whose extension is `name`, else nothing. */
  method GetScale(scales: ODict<string, Scale>, name: string) returns (r: Option<Scale>)
    requires scales.Valid()
    ensures name in scales.m ==> r == Some(scales.m[name])
    ensures name !in scales.m && r.Some? ==>
      exists i :: 0 <= i < |scales.keys| && r.value == scales.m[scales.keys[i]] && r.value.extensionName == name &&
        forall j :: 0 <= j < i ==> scales.m[scales.keys[j]].extensionName != name
    ensures name !in scales.m && r.None? ==> forall s :: s in scales.m.Values ==> s.extensionName != name
  {
    if name !in scales.m {
      var i := 0;
      while i < |scales.keys|
        invariant 0 <= i <= |scales.keys|
        invariant forall j :: 0 <= j < i ==> scales.m[scales.keys[j]].extensionName != name
      {
        var scale := scales.m[scales.keys[i]];
        if scale.extensionName == name {
          return Some(scale);
        }
        i := i + 1;
      }
      assert forall s :: s in scales.m.Values ==> exists k :: 0 <= k < |scales.keys| && s == scales.m[scales.keys[k]];
      return None;
    }
    return Some(scales.m[name]);
  }
}
