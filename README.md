# The dis_snek `Snake` client, modelled in Dafny

`Snake` (`dis_snek/client.py`) is the client object of the dis_snek Discord
library. This project models its bookkeeping and decision logic. The
network, the event loop and the handlers become parameters or opaque values.

The model has six parts.

- **Reconnect loop** (module `Gateway`, file `gateway.dfy`).
  - `_ws_connect` keeps the `params` record: resume flag, session id and sequence.
  - It maps each way a connection attempt ends to one of four actions: reconnect now, sleep 5 then reconnect, return, or raise.
  - `WsConnect` runs the loop over a sequence of attempt outcomes. `IsRunOf` describes every run.
  - `GatewayProperties` proves facts about all runs.
- **Listeners and waits** (modules `Events` and `Client`).
  - `add_listener`, `wait_for`, `wait_for_component` and its `_check` filter, and `dispatch`.
  - `listeners` and `waits` are string-keyed tables of lists, kept as fields of the class `Client.Snake`.
- **Command registries** (modules `Commands` and `Client`).
  - `add_interaction`, `add_message_command`, `add_component_callback`, `application_commands` and `get_scale`.
  - `interactions` is an insertion-ordered dictionary (`Base.ODict`) from scope to resolved name to a position in the arena `cmds`. This keeps the sharing of one command object between its scopes: a remote id learnt in one scope is seen from all of them.
- **Routing** (modules `Context`, `Routing` and `Mention`).
  - `get_context` builds the invoked name and resolves the keyword arguments.
  - `_dispatch_interaction` routes interactions; `_dispatch_msg_commands` routes messages.
  - The routing functions return the sequence of effects the client performs: handlers run, hooks and events dispatched.
- **Caching and synchronisation of application commands** (modules `Sync`, `Caching` and `Synchronise`).
  - Covers `_cache_interactions`, `synchronise_interactions` and `_init_interactions`.
  - Every HTTP call is a value of `Sync.HttpCall`. A parameter `respond` says what the remote answers to each call.
  - The result lists the calls made, in order, and the error raised, if any.
- **Readiness** (`Client.Snake.OnWebsocketReady`).
  - The guild-cache wait becomes a sequence of wake-ups.
  - Then the commands are initialised, the client becomes ready and `ready` is dispatched.

Every loop of the source is a method with loop invariants. Each such method
is proved equal to a function, and the properties are proved about that
function. The class `Client.Snake` holds the fields the source updates in
place. Its methods state the whole new state.

Where the code and the design description of the library disagree, the
model follows the code:

- a restart without resume sleeps 5 before reconnecting (client.py:316, 351);
- a `Forbidden` answer raises `InteractionMissingAccess`, which ends the whole caching or synchronisation pass, not only that scope (704-705, 843-844);
- readiness compares the number of cached guilds with the number announced, not the two sets (470);
- a wait is not removed when its timeout elapses (543), because nothing in `client.py` removes it;
- during synchronisation, local and remote commands are matched by remote id, not by name (772);
- permission batches gather across scopes and are sent again on every later scope (817-831), so a second run is not free of writes.

## Model

| member | source | states |
|---|---|---|
| Gateway.Decide | dis_snek/client.py:306-351 | The full decision table. Every exception dispatches Disconnect; a normal return does not. Reconnecting at once happens exactly after a resumable restart, a close with 1000 once ready, or errno 54 or 10054, when `ws` holds a websocket; it always resumes that websocket's session id and sequence. The same ends while `ws` is still MISSING raise the AttributeError of reading its `session_id`. A sleep precedes every fresh start. A close never sleeps. Code 1000 before ready returns. Codes 4011, 4013 and 4014 raise their own errors; any other code is re-raised. |
| Gateway.WsConnect | dis_snek/client.py:293-351 | With `_closed` set, no attempt is made. Otherwise the loop is the run `IsRunOf` describes: it starts from the initial record, takes `Decide` after each attempt, and stops at the first return or raise. |
| GatewayProperties.RunIsUnique | dis_snek/client.py:303-351 | Two runs over the same attempt outcomes are equal, so `IsRunOf` determines the loop completely. |
| GatewayProperties.FatalCloseStops | dis_snek/client.py:322-338 | A close with any code other than 1000 is the last attempt. The loop raises the sharding, intents or privileged-intents error for 4011, 4013 and 4014. |
| GatewayProperties.CleanCloseBeforeReadyReturns | dis_snek/client.py:323-329 | A close with 1000 before readiness is the last attempt, and the loop returns without an error. |
| GatewayProperties.ResumeAfterCleanClose | dis_snek/client.py:320-327 | A close with 1000 after readiness, with a websocket set, dispatches Disconnect. The next attempt resumes with that attempt's session id and sequence. |
| GatewayProperties.ResumeWithoutWebsocketRaises | dis_snek/client.py:307-347 | A resuming end while `ws` is still MISSING (its initial value, set at line 159), such as errno 54 from the very first `connect`, is the last attempt: the loop raises the AttributeError. |
| GatewayProperties.ConnectShapes | dis_snek/client.py:310-351 | Every attempt after the first starts fresh, resumes the previous websocket's session, or repeats the previous parameters after a normal return. |
| GatewayProperties.ResumeUsesObservedSession | dis_snek/client.py:310-349 | A resuming attempt uses a session id and sequence that an earlier attempt observed. |
| Client.Snake.Stop | dis_snek/client.py:495-498 | The client is no longer ready. With a websocket set, the gateway is closed with code 1001 and nothing is raised. While `ws` is still MISSING (its initial value, line 159), reading its `close` raises AttributeError and nothing is closed. |
| Client.Snake.constructor | dis_snek/client.py:115-198 | Every registry starts empty, the client is not ready, and the configuration flags are kept. |
| Client.Snake.AddListener | dis_snek/client.py:593-602 | The listener is appended to its event's list, creating the list if needed. Nothing else changes. |
| Client.Snake.WaitFor | dis_snek/client.py:525-543 | A new wait with a fresh identity is appended to its event's list. Nothing else changes. |
| Client.Snake.WaitForComponent | dis_snek/client.py:545-591 | When neither `messages` nor `components` is given, it raises ValueError and registers nothing. Otherwise it waits on `component` with the filter `_check`: the message id is among those given (or none were), the custom id likewise, and the caller's check, if any, holds. Components given without any custom id therefore accept every custom id. |
| Client.Snake.Dispatch | dis_snek/client.py:500-523 | Every listener of the event is queued, and the listener table is unchanged. The waits the event satisfies are resolved. The others stay pending in their order. No other event's waits change. This is the corrected removal (see Findings, 515-523); the removal as written is `Events.KeptAsWritten`. |
| Client.Settle | dis_snek/client.py:515-523 | The wait loop computes exactly the kept and the resolved waits: the corrected one-pass removal (see Findings, 515-523), not the positional pops as written, which `Events.KeptAsWritten` models. |
| Client.WaitsFiledKept | dis_snek/client.py:515-523 | Settling one event's waits keeps every wait filed under its own event with an identity already issued. |
| Events.KeptAndResolvedMembers | dis_snek/client.py:515-523 | A wait stays pending if and only if the event does not satisfy it. A wait is resolved if and only if the event satisfies it. |
| Events.KeptAndResolvedPartition | dis_snek/client.py:515-523 | Every wait is either kept or resolved: none is lost or counted twice. |
| Events.KeptDistributes | dis_snek/client.py:515-523 | Settling works piecewise, so pending waits keep their relative order. |
| Events.KeptNoMatch | dis_snek/client.py:515-523 | When no wait is satisfied, the list is unchanged. |
| Events.MatchIndices | dis_snek/client.py:516-520 | The indices collected are exactly the positions of the satisfied waits, in strictly increasing order. |
| Events.KeptAsWrittenNoMatch | dis_snek/client.py:515-523 | With no satisfied wait, popping by index leaves what the corrected removal leaves. |
| Events.KeptAsWrittenOneMatch | dis_snek/client.py:515-523 | With exactly one satisfied wait, popping by index leaves what the corrected removal leaves. |
| Events.KeptOneMatch | dis_snek/client.py:515-523 | With exactly one satisfied wait, the kept list is the list without it. |
| Events.KeptAsWrittenDropsWrongWait | dis_snek/client.py:515-523 | For waits a, b, c where a and b are satisfied, popping by index keeps b and drops c. The intended result is to keep c. |
| Events.KeptAsWrittenRaises | dis_snek/client.py:515-523 | For two satisfied waits, the second pop is out of range and raises. The intended result is to remove both. |
| Client.Snake.AddInteraction | dis_snek/client.py:604-624 | A debug scope replaces the command's scopes. The command is registered under its resolved name in each scope in turn, with the permission enforcer appended once per scope when enforced. It stops with a duplicate error at the first scope where the name is taken, including a scope repeated in the list. Earlier scopes stay registered and no entry is overwritten. |
| Client.RegisterInteraction | dis_snek/client.py:613-624 | The scope loop of `add_interaction` has exactly the effect `Registers` describes. |
| Client.EnforcedOnceMore | dis_snek/client.py:621-622 | Each registered scope adds exactly one permission enforcer to the command's checks. |
| Commands.Register | dis_snek/client.py:615-624 | A new scope goes to the end of the table's key order; an existing one keeps its place. |
| Commands.RegisterEffect | dis_snek/client.py:615-624 | Registering adds the one entry and changes no other. |
| Commands.RegisterAllKeepsOld | dis_snek/client.py:613-624 | Registering a free name in several scopes keeps every earlier entry and its command. |
| Commands.RegisterAllFinds | dis_snek/client.py:613-624 | After registering, the name leads to the command in every scope registered into. |
| Commands.RegisterAllKeys | dis_snek/client.py:613-624 | New scopes follow the old ones, in the order first registered. |
| Commands.ScopesWithRegisterAll | dis_snek/client.py:613-624 | The name is taken exactly in the scopes it was taken in before and the scopes registered into. |
| Client.FirstTaken | dis_snek/client.py:644-650 | The first key that is already taken, or that repeats an earlier key of the same loop. Every key before it is new. |
| Client.RegisterCallback | dis_snek/client.py:644-650 | The custom ids before the first taken one map to the callback. The taken one raises a duplicate error. Earlier entries are never overwritten. |
| Client.Snake.AddComponentCallback | dis_snek/client.py:638-650 | The table gains exactly the custom ids before the first duplicate, all mapped to the callback. Old entries keep their callbacks. The outcome names the duplicate. |
| Client.Snake.AddMessageCommand | dis_snek/client.py:626-636 | A new name is registered. A taken name raises a duplicate error and leaves the table unchanged. |
| Client.Snake.ApplicationCommands | dis_snek/client.py:247-255 | Every registered command once, in the order first met scope by scope. |
| Client.CollectCommands | dis_snek/client.py:249-255 | The loops of `application_commands` yield the positions of the scopes' commands without repeats, in first-seen order. |
| Client.AddEachNew | dis_snek/client.py:251-253 | Appending each element not yet present yields the deduplication of the whole list. |
| Client.RegisteredInSpec | dis_snek/client.py:250-251 | A position is collected if and only if one of the scopes leads to it. |
| Client.RegisteredLeads | dis_snek/client.py:250-251 | The positions collected over all scopes are exactly those some scope's table leads to. |
| Client.ApplicationCommandsSpec | dis_snek/client.py:247-255 | Every command some scope leads to is listed exactly once, and nothing else is listed. |
| Commands.GetScale | dis_snek/client.py:1016-1030 | The scale mounted under the name. Else the first scale, in mounting order, whose extension is that name. Else nothing, and then no scale has that extension. |
| Context.FirstSubCommand | dis_snek/client.py:887 | The first option of type SUB_COMMAND, if any. |
| Context.Invoke | dis_snek/client.py:874-889 | A leading SUB_COMMAND gives `name sub` and descends into its options. A leading SUB_COMMAND_GROUP gives `name group sub`, where `sub` is the group's first SUB_COMMAND, but descends into the group's first option. A group without options or without a sub-command raises. Any other payload keeps the name and the options. |
| Context.InvokedNameExtendsCommandName | dis_snek/client.py:874-889 | The invoked name always begins with the command's own name. |
| Context.ResolveUser | dis_snek/client.py:896-900 | A USER value resolves to the member keyed by (guild id, user id), else to the user, else stays raw. |
| Context.ResolveIn | dis_snek/client.py:901-904 | A CHANNEL or ROLE value resolves to its own cache's entity, else stays raw. |
| Context.ResolveMentionableAsWritten | dis_snek/client.py:905-910 | A MENTIONABLE value as written resolves only through the user or the role cache, because the member cache is looked up with the bare id. |
| Context.ResolveMentionable | dis_snek/client.py:905-910 | The corrected MENTIONABLE resolution: the member under (guild id, user id), else the user, else the role, else the raw value. A member or user resolves as for USER. |
| Context.MentionableMemberMissedAsWritten | dis_snek/client.py:905-910 | A cached member and user: as written, the argument is the user; corrected, it is the member. |
| Context.Resolve | dis_snek/client.py:891-910 | Each option kind resolves as above, and every other kind keeps the raw value. MENTIONABLE uses the corrected lookup (see Findings, 905-910). |
| Context.UserFallbacks | dis_snek/client.py:896-900 | A USER id without a cached member resolves to the cached user, or else stays raw. |
| Context.Keys | dis_snek/client.py:913 | The keyword name of each option is its lowered name. |
| Context.LastFocusedSpec | dis_snek/client.py:911-912 | The focused option is recorded if and only if some option is focused. It is the name of the last focused option. |
| Context.BuildArguments | dis_snek/client.py:891-913 | The keyword dictionary's key order is the lowered names in first-seen order. Each key holds the resolved value of the last option with that key. The focused name is that of the last focused option. Values resolve through `Context.Resolve`, so MENTIONABLE is corrected (see Findings, 905-910). |
| Context.GetContext | dis_snek/client.py:865-919 | A component payload gives a component context. Otherwise an invoked-name error is raised, or a command context: autocomplete exactly for AUTOCOMPLETE, the invoked name, the keyword arguments as above, `args` equal to the keyword values in insertion order, and the focused option. MENTIONABLE values are resolved as corrected (see Findings, 905-910). |
| Routing.Guarded | dis_snek/client.py:949-961 | The handler runs first and the after-hook always runs last. The error hook runs exactly when the handler raises. |
| Routing.RunCommandOrAutocomplete | dis_snek/client.py:948-961 | With a focused option whose callback is registered, that callback runs instead of the command, guarded by `on_autocomplete_error` and `on_autocomplete`. A missing callback raises into `on_autocomplete_error`, then `on_autocomplete` runs. Otherwise the command runs, guarded by `on_command_error` and `on_command`. |
| Routing.ComponentEffects | dis_snek/client.py:965-981 | Component is always dispatched first. The callback and `on_component` run exactly when the custom id is registered, and `on_component_error` exactly when it is registered and the callback raises. Button or Select is dispatched exactly for those component types. |
| Routing.ComponentCallbackFirst | dis_snek/client.py:965-980 | A registered callback, with its error and after hooks, comes straight after the Component event and before Button or Select. |
| Routing.DispatchInteraction | dis_snek/client.py:931-984 | An unknown interaction type raises NotImplementedError. A command or autocomplete whose id has no known scope is only logged. Otherwise the invoked name is looked up in that scope: a failure raises, or else the command runs, or, for a focused option, its registered autocomplete callback, guarded by `on_autocomplete_error` and `on_autocomplete`; a missing callback gives just those two hooks. A component gives the component effects. Its context uses the corrected MENTIONABLE lookup (see Findings, 905-910). |
| Routing.EffectivePrefix | dis_snek/client.py:992-999 | A literal prefix is used as it is. The mention sentinel becomes the leading `<@ID>` or `<@!ID>` of the bot with its space character, or nothing. This is the corrected mention test (see Findings, 288); the pattern as written is `Mention.MentionAsWritten`. |
| Routing.DispatchMessage | dis_snek/client.py:987-1014 | Messages from bots are ignored. A command runs if and only if the content starts with the effective prefix and the first word after it names a registered, enabled command. It runs guarded by `on_command_error` and `on_command`. The prefix comes from `Routing.EffectivePrefix`, so the mention test is the corrected one (see Findings, 288). |
| Routing.OtherUserMentionIgnored | dis_snek/client.py:994-999 | With the corrected mention test, a message that mentions the user whose id is the bot's id without its last digit runs no command. |
| Mention.Digits | dis_snek/client.py:288 | `str(id)` is a non-empty string of decimal digits. |
| Mention.MentionAsWrittenSound | dis_snek/client.py:288 | What the pattern as written matches is a prefix of the content that starts with `<@` and ends with `>` and a space character. |
| Mention.MentionAsWrittenParts | dis_snek/client.py:288 | Every match of the pattern as written is `<@`, an optional `!`, the id without its last digit, that digit any number of times, `>` and a space character. |
| Mention.MentionAsWrittenComplete | dis_snek/client.py:288 | Every prefix of the content with that shape is what the pattern matches. |
| Mention.ExactMention | dis_snek/client.py:288 | The corrected test accepts only `<@ID>` or `<@!ID>` with exactly the bot's id, followed by a space character, and accepts every such prefix. |
| Mention.ExactMentionAcceptedAsWritten | dis_snek/client.py:288 | Whatever the corrected test accepts, the pattern as written accepts too, with the same prefix. |
| Mention.MentionOfOtherUserAccepted | dis_snek/client.py:288 | For an id of two digits or more, `<@{id // 10}>` followed by a space is accepted as written and refused by the corrected test. |
| Mention.StemMentionNotTag | dis_snek/client.py:288 | The mention of the id without its last digit is not the bot's mention. |
| Caching.LastNamed | dis_snek/client.py:707 | The position of the last remote command with the name, since a later entry of the name-keyed dict replaces an earlier one. |
| Caching.ByName | dis_snek/client.py:707-710 | The remote command listed under the name, and nothing exactly when none has it. |
| Caching.CacheScopeCmds | dis_snek/client.py:709-723 | After a registered scope is cached, each of its commands whose name the listing has takes that listing's id. Every other command keeps its id. |
| Caching.CacheScopeIds | dis_snek/client.py:709-723 | Caching a registered scope files exactly the ids its commands take under that scope, and keeps every other entry. |
| Caching.FileAll | dis_snek/client.py:741-742 | Every id of the listing is filed under the scope. Every other entry is kept. |
| Caching.FirstForbidden | dis_snek/client.py:704-705 | The first call the remote refuses, and every call before it is accepted. |
| Caching.Sent | dis_snek/client.py:827-844 | The calls made run up to and including the first refused one. |
| Caching.SendAll | dis_snek/client.py:827-844 | Makes the calls in order and stops at the first refusal. It succeeds exactly when no call is refused. |
| Caching.CacheRegisteredCalls | dis_snek/client.py:700-705 | The registered scopes are fetched in order until one is refused. The pass fails exactly then, and it names that scope. |
| Caching.Unregistered | dis_snek/client.py:696-701 | The bot's scopes with no registered command are the ones left to fetch. |
| Caching.CacheUnregisteredCalls | dis_snek/client.py:733-739 | Every such scope is fetched once, in order. A refusal only skips that scope. |
| Caching.CacheUnregisteredIds | dis_snek/client.py:733-742 | Every id in the listing of such a scope ends up filed. |
| Caching.CacheAllCalls | dis_snek/client.py:694-747 | Caching fails exactly when a registered scope's fetch is refused. Then the other scopes are never fetched. |
| Caching.CacheAllFetches | dis_snek/client.py:694-747 | Caching makes only fetches, of registered scopes and of the bot's scopes. |
| Caching.CacheScopeLoop | dis_snek/client.py:709-723 | The loop over a registered scope's commands. |
| Caching.FileListed | dis_snek/client.py:741-742 | The loop filing a listing's ids. |
| Caching.CacheRegisteredLoop | dis_snek/client.py:700-723 | The first loop of `_cache_interactions`. |
| Caching.CacheUnregisteredLoop | dis_snek/client.py:733-747 | The second loop of `_cache_interactions`. |
| Caching.CacheLoops | dis_snek/client.py:694-747 | `_cache_interactions`: the first loop, then the second loop only when the first raised nothing. |
| Caching.LastPostedFor | dis_snek/client.py:792-812 | The last posted command that updates a key: by its own name, or by `parent sub` or `parent group sub`. |
| Caching.SetIdsSpec | dis_snek/client.py:798-812 | The commands of the keys take the id, and every other command keeps its own. |
| Caching.ApplyPostedIds | dis_snek/client.py:792-793 | After a post, exactly the posted ids are filed under the scope, besides the old entries. |
| Caching.ApplyPostedCmds | dis_snek/client.py:792-812 | After a post, each registered key's command holds the id of the last posted command that updates it, else its old id. |
| Caching.SetIdsLoop | dis_snek/client.py:798-812 | The loop setting the id of the commands named by joined keys. |
| Caching.ApplyPostedLoop | dis_snek/client.py:792-812 | The loop over a post's response. |
| Sync.FindById | dis_snek/client.py:772 | The first remote command whose id is the local command's id, and nothing exactly when none has it. |
| Sync.Names | dis_snek/client.py:774-777 | One JSON entry per local command, chosen by its top-level name. |
| Sync.Matches | dis_snek/client.py:772 | Each local command's remote counterpart, found by id. |
| Sync.AnyNeedsSyncSpec | dis_snek/client.py:782-784 | Some of the first n local commands needs syncing exactly when one of them does. |
| Sync.ScopeNeedsSync | dis_snek/client.py:770-784 | The entries to post are the names without repeats, in first-seen order. `found` is the matches without repeats. A post is needed exactly when some command needs syncing. |
| Sync.GroupKeys | dis_snek/client.py:805-812 | The registered keys `prefix sub` for the options of a group. |
| Sync.SubKeysSpec | dis_snek/client.py:798-812 | The sub-command keys of a posted command are exactly the registered joined keys `parent sub` and `parent group sub`. |
| Sync.UpdatedKeys | dis_snek/client.py:794-812 | A posted command whose name is registered updates that key alone. |
| Sync.UpdatedKeysSpec | dis_snek/client.py:794-812 | Every key a posted command updates is registered and is its name or a joined key. Without its name registered, exactly the joined keys are updated. |
| Sync.CmdPerms | dis_snek/client.py:820-825 | A command adds one entry per declared permission, under that permission's guild. Each entry carries the command's id and all its permissions. |
| Sync.AddPerm | dis_snek/client.py:821-825 | Appending to a guild's batch creates the batch at the end of the key order when it is new. |
| Sync.AddAllEntries | dis_snek/client.py:817-825 | Each guild's batch grows by exactly the scope's entries for that guild, in order. |
| Sync.AddAllKeys | dis_snek/client.py:817-825 | New guilds follow the old ones, in order of first appearance. |
| Sync.GatherPerms | dis_snek/client.py:817-825 | The permission loop of one scope appends every entry of its commands. |
| Sync.Unfound | dis_snek/client.py:834 | The remote commands no local command matched. |
| Synchronise.ScopeLocals | dis_snek/client.py:770 | The commands registered in the scope, in insertion order. |
| Synchronise.Edits | dis_snek/client.py:827-831 | One batch edit per guild, in the batches' key order. |
| Synchronise.Deletes | dis_snek/client.py:833-842 | One deletion per unused remote command, from the scope it belongs to. |
| Synchronise.SyncScope | dis_snek/client.py:763-844 | One scope: the fetch comes first. The run fails exactly at a refused call, names the scope, and only commands' remote ids change. |
| Synchronise.SyncAll | dis_snek/client.py:763-844 | The loop over the scopes stops at the first failing scope. Only commands' remote ids change. |
| Synchronise.SyncScopes | dis_snek/client.py:757 | The bot's guilds in the order given, then the global scope. |
| Synchronise.SynchroniseAll | dis_snek/client.py:749-844 | Caching first, then the loop over the scopes. Only commands' remote ids change. |
| Synchronise.SynchroniseScope | dis_snek/client.py:763-844 | One iteration of the scope loop. |
| Synchronise.SynchroniseListed | dis_snek/client.py:766-842 | An iteration once the listing arrived. |
| Synchronise.SynchronisePosted | dis_snek/client.py:792-842 | An iteration after an accepted post, or no post. |
| Synchronise.SynchroniseScopes | dis_snek/client.py:763-844 | The loop over `cmd_scopes`. |
| Synchronise.SynchroniseLoops | dis_snek/client.py:749-844 | `synchronise_interactions` on the values of the client's state. |
| Synchronise.StageBatches | dis_snek/client.py:817-831 | After a scope, each guild's batch is what it was before followed by that scope's entries for it. Every guild with a batch gets an edit call. |
| Synchronise.DeletesOfUnfound | dis_snek/client.py:833-842 | The planned deletions are exactly those of the remote commands no local command's id matches. |
| Synchronise.StageDeletes | dis_snek/client.py:833-842 | Deletions are planned only when enabled, and then for every unmatched remote command. |
| Synchronise.SyncScopeBatches | dis_snek/client.py:817-831 | Over one scope the batches only grow. A successful scope sends every batch gathered so far, earlier scopes' included. |
| Synchronise.SyncListedDeletes | dis_snek/client.py:833-842 | A scope deletes only when deletion is enabled, and only unmatched remote commands. When it succeeds, it deletes every one of them. |
| Synchronise.SyncScopePosts | dis_snek/client.py:786-790 | A scope posts exactly when its listing arrives and some local command needs syncing. It posts once, with the names without repeats. |
| Synchronise.SyncPostedPosts | dis_snek/client.py:786-790 | After the post decision, the scope's calls contain the post exactly when one was needed. |
| Synchronise.FinishCalls | dis_snek/client.py:827-844 | The calls after the post stop at the first refusal, and the scope then fails. |
| Synchronise.SyncAllCalls | dis_snek/client.py:763-844 | The scopes are synchronised in order until one fails. The run fails exactly then, with that scope. A successful run fetches every scope. |
| Synchronise.CacheAllFails | dis_snek/client.py:700-705 | A failed caching pass ends with the refused fetch of a registered scope. |
| Synchronise.SynchroniseCalls | dis_snek/client.py:749-844 | `synchronise_interactions` fails only when a call is refused; the last call is then the refused one, and the error names the scope being cached or synchronised. A successful run fetches every scope of `cmd_scopes`. |
| Synchronise.SynchroniseAllCases | dis_snek/client.py:755-763 | A caching failure ends the pass before any scope is synchronised. Otherwise the scope loop follows the caching calls. |
| Client.Raised | dis_snek/client.py:843-844 | An `InteractionMissingAccess` is raised exactly for a failed pass, naming its scope. |
| Client.Initialised | dis_snek/client.py:678-692 | Synchronise when enabled, else cache. Only commands' remote ids change. |
| Client.InitialisedCalls | dis_snek/client.py:678-692 | Initialising fails only when a call is refused, and then the last call is the refused one and the error names a registered or synchronised scope. Caching alone makes only fetches of registered or bot scopes. |
| Client.Snake.CacheInteractions | dis_snek/client.py:694-747 | `_interaction_scopes` and the commands' ids become those of the caching pass. The error is raised exactly when it fails. |
| Client.Snake.SynchroniseInteractions | dis_snek/client.py:749-844 | `_interaction_scopes` and the commands' ids become those of the synchronisation pass. The error is raised exactly when it fails. |
| Client.Snake.InitInteractions | dis_snek/client.py:678-692 | The state becomes that of `Initialised`. Its error goes to `on_error` and is not raised further. |
| Client.SettleAt | dis_snek/client.py:462-472 | The wake-up that ends the readiness loop: the first timeout, or the first time the cache holds as many guilds as were announced. |
| Client.AwaitGuilds | dis_snek/client.py:462-472 | The readiness loop stops at exactly that wake-up. |
| Client.Snake.BecomeReady | dis_snek/client.py:474-478 | Commands are initialised. Then the client is ready, `ready` is dispatched to its listeners, and the waits it satisfies are resolved. |
| Client.Snake.OnWebsocketReady | dis_snek/client.py:451-478 | The announced guilds join the bot's guild ids. The rest happens exactly when a wake-up ends the wait for the guild cache; until then nothing else changes. |

## Left out

- The event loop: tasks, futures, `asyncio.wait_for`, `asyncio.Event` and `asyncio.sleep`. A sleep is the action `SleepThenReconnect`. The guild-cache wait is a sequence of wake-ups. Listener tasks are returned as the list of queued listeners.
- Client.Snake.WaitFor: the timeout is not modelled, and the returned future is the wait's identity. Nothing in `client.py` removes a wait whose timeout elapsed.
- The network. Connection attempts are given as their outcomes (`Gateway.Attempt`). HTTP answers come from the parameter `respond`. Only the `Forbidden` answer is distinguished; other HTTP errors are not modelled.
- Gateway.WsConnect: whether `ws` holds a websocket is an input of each attempt (`Attempt.hasWs`), like the session it observes; the model does not derive it from which earlier `connect` calls returned. It runs over a finite sequence of attempts, so an endless reconnect loop appears as a run that ends with `AttemptsExhausted`. `_closed` is a constant parameter, since `client.py` never writes it.
- `_ready` and the websocket's session id and sequence are inputs to each attempt. Tasks outside the loop set them.
- `sync_needed`, `application_commands_to_dict`, `get_first_word`, `get_args`, `get_components_ids`, `to_snowflake`, the `Wait` class and the `*Context.from_dict` constructors are defined outside `client.py`. They are parameters, or are reduced to what `client.py` relies on: a wait called with an event returns whether its predicate holds, and a command's JSON entry is chosen by its name.
- Set iteration order. The bot's scopes in `_cache_interactions` and the guild ids in `synchronise_interactions` are iterated in an order given as a parameter. That order lists each element once, and the bot's scopes include the global scope (`Client.BotScopeOrder`, `Client.Enumerates`).
- Command identity. `if cmd not in commands` compares command objects; the model compares arena positions, which identify the objects.
- Context.Lower: lowers ASCII letters only, not the full Unicode case mapping of `str.lower`.
- `get_prefix` is an input (`MessagePrefix`). The message context's `args` come from `get_args`, which lies outside `client.py`.
- Client.Snake.Dispatch and Client.Settle: they remove the satisfied waits in one pass, the corrected removal of "## Findings"; the positional pops as written are modelled only by `Events.KeptAsWritten`.
- Context.Resolve, Context.BuildArguments, Context.GetContext, Routing.DispatchInteraction, Routing.EffectivePrefix and Routing.DispatchMessage: they use the corrected MENTIONABLE lookup and the corrected mention test of "## Findings"; the behaviour as written is modelled only by `Context.ResolveMentionableAsWritten` and `Mention.MentionAsWritten`.
- Handlers, hooks and events are not run. Routing returns the ordered effects, and a flag says whether the handler raises.
- Logging, `warn_missing` diagnostics, `print`, `traceback` and `tracemalloc`.
- `_gather_commands`, `load_extension`, `unload_extension`, `reload_extension`, `grow_scale`, `shed_scale` and `regrow_scale`. They depend on reflection and module loading.
- The thin getters (`get_guild`, `get_channel`, `get_user`, `get_member`, `get_sticker`, `get_nitro_packs`), `change_presence`, `login`, `start`, the `latency` float and `start_time`.

## Findings

| source | as written | input that shows it | evidently intended | confidence | as-written member | corrected member |
|---|---|---|---|---|---|---|
| dis_snek/client.py:515-523 | The indices of the satisfied waits are collected, then popped one by one from the shrinking list. | Waits a, b, c on one event, where the event satisfies a and b: the pops remove a and then c, so b stays pending and c is lost. With only a and b, the second pop raises IndexError. | Remove exactly the satisfied waits and keep the others in order. | not executed | Events.KeptAsWrittenDropsWrongWait | Client.Snake.Dispatch |
| dis_snek/client.py:288 | The pattern `^(<@!?{id}*>\s)` applies `*` to the last digit of the id only. | Bot id 123 and content `<@12> help`: the pattern matches `<@12> ` (last digit zero times), so a mention of user 12 is taken as the prefix. | Accept only `<@ID>` or `<@!ID>` with exactly the bot's id. | not executed | Mention.MentionOfOtherUserAccepted | Mention.ExactMention |
| dis_snek/client.py:905-910 | MENTIONABLE looks up `member_cache` with the bare id, but its keys are (guild id, user id) pairs. | A MENTIONABLE option whose user is cached both as a member of the interaction's guild and as a user: the argument is the user, never the member. | Look the member up under (guild id, user id), as USER does. | not executed | Context.MentionableMemberMissedAsWritten | Context.ResolveMentionable |
