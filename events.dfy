/** Events, listeners and pending waits of the Snake client, and the rule by
    which `dispatch` settles the waits registered under an event's name. */
module Events {
  import opened Base

  /** The context of a component interaction, as far as the waits look at it. */
  datatype ComponentUse = ComponentUse(messageId: Snowflake, customId: string, componentType: int)

  datatype Payload = Plain | ComponentPayload(ctx: ComponentUse)

  /** An event; `name` is its `resolved_name`, the key of the listener and wait tables. */
  datatype Event = Event(name: string, payload: Payload)

  /** A registered listener: the event it listens to and an opaque handler. */
  datatype Listener = Listener(event: string, handler: nat)

  /** The filter `wait_for_component` builds: the message ids and custom ids
      to accept (empty: any), and the caller's own check, if any. */
  datatype ComponentFilter = ComponentFilter(messageIds: seq<Snowflake>, customIds: seq<string>, check: Option<Event -> bool>)

  /** The predicate a wait carries. */
  datatype Check = NoCheck | Custom(holds: Event -> bool) | Component(filter: ComponentFilter)

  /** A pending wait: an identity, the event name it waits for and its predicate. */
  datatype Wait = Wait(id: nat, event: string, check: Check)

  /** The `_check` closure of `wait_for_component`. Only Component events carry a
      component context; any other payload is not what the closure accepts. */
  predicate ComponentWanted(f: ComponentFilter, e: Event) {
    match e.payload
    case Plain => false
    case ComponentPayload(ctx) =>
      && (|f.messageIds| == 0 || ctx.messageId in f.messageIds)
      && (|f.customIds| == 0 || ctx.customId in f.customIds)
      && (f.check.None? || f.check.value(e))
  }

  /** Calling a wait with an event returns true exactly when its predicate holds. */
  predicate Satisfied(w: Wait, e: Event) {
    match w.check
    case NoCheck => true
    case Custom(holds) => holds(e)
    case Component(f) => ComponentWanted(f, e)
  }

  /** The waits `dispatch` leaves pending: the unsatisfied ones, in their order. */
  function Kept(ws: seq<Wait>, e: Event): (r: seq<Wait>)
    ensures |r| <= |ws|
  {
    if ws == [] then []
    else if Satisfied(ws[0], e) then Kept(ws[1..], e)
    else [ws[0]] + Kept(ws[1..], e)
  }

  /** The waits `dispatch` resolves with the event: the satisfied ones, in order. */
  function Resolved(ws: seq<Wait>, e: Event): (r: seq<Wait>)
    ensures |r| <= |ws|
  {
    if ws == [] then []
    else if Satisfied(ws[0], e) then [ws[0]] + Resolved(ws[1..], e)
    else Resolved(ws[1..], e)
  }

  /** The kept waits are exactly the unsatisfied ones, the resolved waits
      exactly the satisfied ones. */
  lemma {:induction false} KeptAndResolvedMembers(ws: seq<Wait>, e: Event)
    ensures forall w :: w in Kept(ws, e) <==> w in ws && !Satisfied(w, e)
    ensures forall w :: w in Resolved(ws, e) <==> w in ws && Satisfied(w, e)
  {
    if ws != [] {
      KeptAndResolvedMembers(ws[1..], e);
      assert forall w :: w in ws <==> w == ws[0] || w in ws[1..];
    }
  }

  /** Every wait is either kept or resolved, never both and never lost. */
  lemma {:induction false} KeptAndResolvedPartition(ws: seq<Wait>, e: Event)
    ensures |Kept(ws, e)| + |Resolved(ws, e)| == |ws|
  {
    if ws != [] {
      KeptAndResolvedPartition(ws[1..], e);
    }
  }

  /** Filtering works piecewise, so the waits that stay pending keep their
      relative order. */
  lemma {:induction false} KeptDistributes(ws1: seq<Wait>, ws2: seq<Wait>, e: Event)
    ensures Kept(ws1 + ws2, e) == Kept(ws1, e) + Kept(ws2, e)
  {
    if ws1 != [] {
      assert (ws1 + ws2)[1..] == ws1[1..] + ws2;
      KeptDistributes(ws1[1..], ws2, e);
    } else {
      assert ws1 + ws2 == ws2;
    }
  }

  lemma {:induction false} ResolvedDistributes(ws1: seq<Wait>, ws2: seq<Wait>, e: Event)
    ensures Resolved(ws1 + ws2, e) == Resolved(ws1, e) + Resolved(ws2, e)
  {
    if ws1 != [] {
      assert (ws1 + ws2)[1..] == ws1[1..] + ws2;
      ResolvedDistributes(ws1[1..], ws2, e);
    } else {
      assert ws1 + ws2 == ws2;
    }
  }

  /** With no satisfied wait nothing is removed. */
  lemma {:induction false} KeptNoMatch(ws: seq<Wait>, e: Event)
    requires forall i :: 0 <= i < |ws| ==> !Satisfied(ws[i], e)
    ensures Kept(ws, e) == ws
  {
    if ws != [] {
      KeptNoMatch(ws[1..], e);
    }
  }

  // ---- The removal as `dispatch` writes it ----

  /** The positions of the satisfied waits, collected in one scan from `from` on. */
  function MatchIndices(ws: seq<Wait>, e: Event, from: nat): (r: seq<nat>)
    requires from <= |ws|
    ensures forall j :: 0 <= j < |r| ==> from <= r[j] < |ws| && Satisfied(ws[r[j]], e)
    ensures forall i :: from <= i < |ws| && Satisfied(ws[i], e) ==> i in r
    // collected in one ascending scan, which is why later pops hit shifted positions
    ensures forall j, k :: 0 <= j < k < |r| ==> r[j] < r[k]
    decreases |ws| - from
  {
    if from == |ws| then []
    else if Satisfied(ws[from], e) then [from] + MatchIndices(ws, e, from + 1)
    else MatchIndices(ws, e, from + 1)
  }

  /** `for idx in index_to_remove: _waits.pop(idx)` on the shrinking list;
      `None` stands for the IndexError a position past the end raises. */
  function PopAll(ws: seq<Wait>, idxs: seq<nat>): Option<seq<Wait>> {
    if idxs == [] then Some(ws)
    else if idxs[0] < |ws| then PopAll(ws[..idxs[0]] + ws[idxs[0] + 1..], idxs[1..])
    else None
  }

  /** The waits `dispatch` as written leaves pending (`None`: it raises). */
  function KeptAsWritten(ws: seq<Wait>, e: Event): Option<seq<Wait>> {
    PopAll(ws, MatchIndices(ws, e, 0))
  }

  /** With no satisfied wait, or exactly one, the positional removal is right. */
  lemma {:induction false} KeptAsWrittenNoMatch(ws: seq<Wait>, e: Event)
    requires forall i :: 0 <= i < |ws| ==> !Satisfied(ws[i], e)
    ensures KeptAsWritten(ws, e) == Some(Kept(ws, e))
  {
    NoMatchAt(ws, e, 0);
    KeptNoMatch(ws, e);
  }

  lemma {:induction false} KeptAsWrittenOneMatch(ws: seq<Wait>, e: Event, k: nat)
    requires k < |ws| && Satisfied(ws[k], e)
    requires forall i :: 0 <= i < |ws| && i != k ==> !Satisfied(ws[i], e)
    ensures KeptAsWritten(ws, e) == Some(Kept(ws, e))
  {
    NoMatchOutside(ws, e, k, 0);
    assert PopAll(ws, [k]) == PopAll(ws[..k] + ws[k + 1..], []);
    KeptOneMatch(ws, e, k);
  }

  /** Removing the one satisfied wait. */
  lemma {:induction false} KeptOneMatch(ws: seq<Wait>, e: Event, k: nat)
    requires k < |ws| && Satisfied(ws[k], e)
    requires forall i :: 0 <= i < |ws| && i != k ==> !Satisfied(ws[i], e)
    ensures Kept(ws, e) == ws[..k] + ws[k + 1..]
  {
    var pre, post := ws[..k], ws[k + 1..];
    assert ws == pre + ([ws[k]] + post);
    KeptDistributes(pre, [ws[k]] + post, e);
    KeptDistributes([ws[k]], post, e);
    KeptNoMatch(pre, e);
    KeptNoMatch(post, e);
    assert Kept([ws[k]], e) == [];
  }

  lemma {:induction false} NoMatchAt(ws: seq<Wait>, e: Event, from: nat)
    requires from <= |ws|
    requires forall i :: from <= i < |ws| ==> !Satisfied(ws[i], e)
    ensures MatchIndices(ws, e, from) == []
    decreases |ws| - from
  {
    if from < |ws| {
      NoMatchAt(ws, e, from + 1);
    }
  }

  lemma {:induction false} NoMatchOutside(ws: seq<Wait>, e: Event, k: nat, from: nat)
    requires from <= k < |ws| && Satisfied(ws[k], e)
    requires forall i :: from <= i < |ws| && i != k ==> !Satisfied(ws[i], e)
    ensures MatchIndices(ws, e, from) == [k]
    decreases |ws| - from
  {
    if from < k {
      NoMatchOutside(ws, e, k, from + 1);
    } else {
      NoMatchAt(ws, e, k + 1);
    }
  }

  /** Three waits on one event, the first two satisfied by it: the positional
      removal pops the first, then pops position 1 of the shrunken list, which
      is the unsatisfied third wait, and leaves the satisfied second pending. */
  lemma {:induction false} KeptAsWrittenDropsWrongWait(a: Wait, b: Wait, c: Wait, e: Event)
    requires Satisfied(a, e) && Satisfied(b, e) && !Satisfied(c, e)
    ensures KeptAsWritten([a, b, c], e) == Some([b])
    ensures Kept([a, b, c], e) == [c]
  {
    var ws := [a, b, c];
    assert ws[1..] == [b, c] && ws[1..][1..] == [c] && [c][1..] == [];
    assert Kept(ws, e) == [c] by {
      assert Kept([c], e) == [c];
      assert Kept([b, c], e) == [c];
    }
    assert KeptAsWritten(ws, e) == Some([b]) by {
      assert MatchIndices(ws, e, 2) == [];
      assert MatchIndices(ws, e, 1) == [1];
      assert MatchIndices(ws, e, 0) == [0, 1];
      assert ws[..0] + ws[1..] == [b, c];
      assert [b, c][..1] + [b, c][2..] == [b];
      assert PopAll(ws, [0, 1]) == PopAll([b, c], [1]);
      assert PopAll([b, c], [1]) == PopAll([b], []);
    }
  }

  /** Two satisfied waits and nothing else: the second pop is past the end of
      the shrunken list and raises IndexError, after the first wait was removed. */
  lemma {:induction false} KeptAsWrittenRaises(a: Wait, b: Wait, e: Event)
    requires Satisfied(a, e) && Satisfied(b, e)
    ensures KeptAsWritten([a, b], e) == None
    ensures Kept([a, b], e) == []
  {
    var ws := [a, b];
    assert ws[1..] == [b] && [b][1..] == [];
    assert MatchIndices(ws, e, 2) == [];
    assert MatchIndices(ws, e, 1) == [1];
    assert MatchIndices(ws, e, 0) == [0, 1];
    assert ws[..0] + ws[1..] == [b];
    assert PopAll(ws, [0, 1]) == PopAll([b], [1]);
  }
}
