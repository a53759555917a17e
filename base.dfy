/** Shared vocabulary of the Snake client model: optional values, results,
    an insertion-ordered dictionary (Python's dict keeps insertion order, and
    several operations of the client depend on it) and the protocol constants. */
module Base {

  datatype Option<T> = None | Some(value: T) {
    function GetOr(default: T): T {
      match this
      case Some(v) => v
      case None => default
    }
  }

  datatype Result<T, E> = Ok(value: T) | Err(error: E)

  type Snowflake = nat

  /** A registration scope: the global scope or one guild. */
  datatype Scope = Global | Guild(id: Snowflake)

  // Interaction type codes of the gateway protocol.
  const PING: int := 1
  const APPLICATION_COMMAND: int := 2
  const MESSAGE_COMPONENT: int := 3
  const AUTOCOMPLETE: int := 4

  // Application command option kinds relevant to routing.
  const SUB_COMMAND: int := 1
  const SUB_COMMAND_GROUP: int := 2
  const USER: int := 6
  const CHANNEL: int := 7
  const ROLE: int := 8
  const MENTIONABLE: int := 9

  // Message component kinds.
  const BUTTON: int := 2
  const SELECT: int := 3

  /** An insertion-ordered dictionary: `keys` lists the keys in the order they
      were first inserted, `m` holds the values. */
  datatype ODict<K(!new), V> = ODict(keys: seq<K>, m: map<K, V>) {

    ghost predicate Valid() {
      && (forall i, j :: 0 <= i < j < |keys| ==> keys[i] != keys[j])
      && (forall k :: k in m <==> k in keys)
    }

    /** `d[k] = v`: a new key goes to the end, an existing key keeps its place. */
    function Put(k: K, v: V): (d: ODict<K, V>)
      requires Valid()
      ensures d.Valid()
      ensures d.m == m[k := v]
      ensures k in m ==> d.keys == keys
      ensures k !in m ==> d.keys == keys + [k]
      ensures d.keys == AddNew(keys, k)
    {
      if k in m then ODict(keys, m[k := v]) else ODict(keys + [k], m[k := v])
    }

    /** `d.get(k, default)` */
    function GetOr(k: K, default: V): V {
      if k in m then m[k] else default
    }

    /** `list(d.values())`, in insertion order. */
    function Values(): (vs: seq<V>)
      requires Valid()
      ensures |vs| == |keys|
      ensures forall i :: 0 <= i < |keys| ==> vs[i] == m[keys[i]]
    {
      seq(|keys|, i requires 0 <= i < |keys| => m[keys[i]])
    }
  }

  function EmptyDict<K(!new), V>(): (d: ODict<K, V>)
    ensures d.Valid() && d.m == map[] && d.keys == []
  {
    ODict([], map[])
  }

  /** `[x] * k` */
  function Repeat<T>(x: T, k: nat): (s: seq<T>)
    ensures |s| == k
    ensures forall i :: 0 <= i < k ==> s[i] == x
  {
    if k == 0 then [] else Repeat(x, k - 1) + [x]
  }

  /** `if x not in s: s.append(x)` */
  function AddNew<T(==)>(s: seq<T>, x: T): seq<T> {
    if x in s then s else s + [x]
  }

  /** The distinct elements of `s` in the order of their first occurrence:
      the key order of a dict filled from `s`, or a list built by appending
      each element that is not in it yet. */
  function Dedup<T(==)>(s: seq<T>): seq<T> {
    if s == [] then []
    else
      AddNew(Dedup(s[..|s| - 1]), s[|s| - 1])
  }

  /** `Dedup` keeps every element once and nothing else. */
  lemma {:induction false} DedupSpec<T>(s: seq<T>)
    ensures forall x :: x in Dedup(s) <==> x in s
    ensures forall i, j :: 0 <= i < j < |Dedup(s)| ==> Dedup(s)[i] != Dedup(s)[j]
  {
    if s != [] {
      DedupSpec(s[..|s| - 1]);
      assert s == s[..|s| - 1] + [s[|s| - 1]];
    }
  }

  /** Deduplicating one element more. */
  lemma DedupStep<T>(s: seq<T>, i: nat)
    requires i < |s|
    ensures Dedup(s[..i + 1]) == AddNew(Dedup(s[..i]), s[i])
  {
    assert s[..i + 1][..i] == s[..i];
  }

  /** Deduplicating a list with one element more at the end. */
  lemma DedupSnoc<T>(s: seq<T>, x: T)
    ensures Dedup(s + [x]) == AddNew(Dedup(s), x)
  {
    assert (s + [x])[..|s|] == s;
  }

  /** The elements of a non-empty list: those before the last, and the last. */
  lemma InSnoc<T>(s: seq<T>)
    requires s != []
    ensures forall x :: x in s <==> x in s[..|s| - 1] || x == s[|s| - 1]
  {
    assert s == s[..|s| - 1] + [s[|s| - 1]];
  }

  /** A list without repeats is its own deduplication. */
  lemma {:induction false} DedupOfDistinct<T>(s: seq<T>)
    requires forall i, j :: 0 <= i < j < |s| ==> s[i] != s[j]
    ensures Dedup(s) == s
  {
    if s != [] {
      DedupOfDistinct(s[..|s| - 1]);
      DedupSpec(s[..|s| - 1]);
      assert s == s[..|s| - 1] + [s[|s| - 1]];
    }
  }
}
