/** The remote store gateway of src/lib/db.ts: the error formatter, the
    mapping of payloads onto RPC parameters, the batch de-duplication, and an
    abstract description of the calls the client sends. The transport itself
    is not modelled: a call is a value, and its outcome comes from an oracle. */
module Db {
  import opened Wrappers
  import opened Types

  // ---------------------------------------------------------------------------
  // Error formatting
  // ---------------------------------------------------------------------------

  /** A value a failing RPC rejects with. `ErrorObject` is an object that has
      a `message` property; each other field is `None` when falsy and holds
      the `String(…)` rendering when truthy. `OtherValue` is anything else,
      held as its `String(…)` rendering. */
  datatype RawError =
    | ErrorObject(message: string, code: Option<string>, details: Option<string>, hint: Option<string>)
    | OtherValue(text: string)

  const ErrorPrefix: string := "Supabase Error: "

  ghost predicate IsPrefix(p: string, s: string)
  {
    |p| <= |s| && s[..|p|] == p
  }

  ghost predicate IsSuffix(p: string, s: string)
  {
    |p| <= |s| && s[|s| - |p|..] == p
  }

  /** The message of the Error that handleSupabaseError throws: the prefix
      and the message, then the code, details and hint parts, each present
      exactly when its field is truthy, in that order. */
  function ErrorMessage(e: RawError): (r: string)
    ensures e.OtherValue? ==> r == e.text
    ensures e.ErrorObject? ==> IsPrefix(ErrorPrefix + e.message, r)
    ensures e.ErrorObject? ==>
      |r| == |ErrorPrefix| + |e.message|
             + (if e.code.Some? then 9 + |e.code.value| else 0)
             + (if e.details.Some? then 10 + |e.details.value| else 0)
             + (if e.hint.Some? then 7 + |e.hint.value| else 0)
    ensures e.ErrorObject? && e.code.None? && e.details.None? && e.hint.None? ==>
      r == ErrorPrefix + e.message
  {
    match e
    case OtherValue(t) => t
    case ErrorObject(m, c, d, h) =>
      var withMessage := ErrorPrefix + m;
      var withCode := if c.Some? then withMessage + (" (Code: " + c.value + ")") else withMessage;
      var withDetails := if d.Some? then withCode + (" Details: " + d.value) else withCode;
      var r := if h.Some? then withDetails + (" Hint: " + h.value) else withDetails;
      PrefixOfConcat(withMessage, r[|withMessage|..]);
      assert r == withMessage + r[|withMessage|..];
      r
  }

  lemma PrefixOfConcat(a: string, b: string)
    ensures IsPrefix(a, a + b)
  {
    assert (a + b)[..|a|] == a;
  }

  lemma SuffixOfConcat(a: string, b: string)
    ensures IsSuffix(b, a + b)
  {
    assert (a + b)[|a + b| - |b|..] == b;
  }

  lemma PrefixTransitive(a: string, b: string, c: string)
    requires IsPrefix(a, b) && IsPrefix(b, c)
    ensures IsPrefix(a, c)
  {
    assert c[..|a|] == c[..|b|][..|a|];
  }

  /** The code part follows the message directly. */
  lemma ErrorMessageCodeFirst(e: RawError)
    requires e.ErrorObject? && e.code.Some?
    ensures IsPrefix(ErrorPrefix + e.message + (" (Code: " + e.code.value + ")"), ErrorMessage(e))
  {
    var withCode := ErrorPrefix + e.message + (" (Code: " + e.code.value + ")");
    var withDetails := if e.details.Some? then withCode + (" Details: " + e.details.value) else withCode;
    PrefixOfConcat(withCode, " Details: " + e.details.GetOr(""));
    if e.hint.Some? {
      PrefixOfConcat(withDetails, " Hint: " + e.hint.value);
      PrefixTransitive(withCode, withDetails, ErrorMessage(e));
    }
  }

  /** Without a code, the details part follows the message directly. */
  lemma ErrorMessageDetailsAfterMessage(e: RawError)
    requires e.ErrorObject? && e.code.None? && e.details.Some?
    ensures IsPrefix(ErrorPrefix + e.message + (" Details: " + e.details.value), ErrorMessage(e))
  {
    var withDetails := ErrorPrefix + e.message + (" Details: " + e.details.value);
    PrefixOfConcat(withDetails, " Hint: " + e.hint.GetOr(""));
  }

  /** With a code, the details part follows the code part directly. */
  lemma ErrorMessageDetailsAfterCode(e: RawError)
    requires e.ErrorObject? && e.code.Some? && e.details.Some?
    ensures IsPrefix(ErrorPrefix + e.message + (" (Code: " + e.code.value + ")") + (" Details: " + e.details.value),
                     ErrorMessage(e))
  {
    var withDetails := ErrorPrefix + e.message + (" (Code: " + e.code.value + ")") + (" Details: " + e.details.value);
    PrefixOfConcat(withDetails, " Hint: " + e.hint.GetOr(""));
  }

  /** The hint part, when present, ends the message. */
  lemma ErrorMessageHintLast(e: RawError)
    requires e.ErrorObject? && e.hint.Some?
    ensures IsSuffix(" Hint: " + e.hint.value, ErrorMessage(e))
  {
    var r := ErrorMessage(e);
    SuffixOfConcat(r[..|r| - |" Hint: " + e.hint.value|], " Hint: " + e.hint.value);
  }

  /** Without a hint, the details part ends the message. */
  lemma ErrorMessageDetailsLast(e: RawError)
    requires e.ErrorObject? && e.hint.None? && e.details.Some?
    ensures IsSuffix(" Details: " + e.details.value, ErrorMessage(e))
  {
    var r := ErrorMessage(e);
    SuffixOfConcat(r[..|r| - |" Details: " + e.details.value|], " Details: " + e.details.value);
  }

  // ---------------------------------------------------------------------------
  // RPC parameters
  // ---------------------------------------------------------------------------

  /** The parameters of `create_task_p`; description null is `None`. */
  datatype CreateTaskParams = CreateTaskParams(
    column_id: string,
    title: string,
    description: Option<string>,
    priority: Priority,
    position: int)

  /** createTask: an absent description is sent as null and an absent
      priority as "medium". */
  function CreateTaskParamsOf(p: CreateTaskPayload): (r: CreateTaskParams)
    ensures r.column_id == p.column_id && r.title == p.title && r.position == p.position
    ensures r.description == p.description
    ensures p.priority.None? ==> r.priority == Medium
    ensures p.priority.Some? ==> r.priority == p.priority.value
  {
    CreateTaskParams(p.column_id, p.title, p.description, p.priority.GetOr(Medium), p.position)
  }

  /** Leaving the priority out and asking for "medium" send the same call. */
  lemma CreateTaskDefaultPriority(p: CreateTaskPayload)
    ensures CreateTaskParamsOf(p.(priority := None)) == CreateTaskParamsOf(p.(priority := Some(Medium)))
  {
  }

  /** The parameters of `update_task_p`; every `None` is sent as null. */
  datatype UpdateTaskParams = UpdateTaskParams(
    id: string,
    title: Option<string>,
    description: Option<string>,
    priority: Option<Priority>,
    column_id: Option<string>,
    position: Option<int>)

  /** updateTask: `field ?? null` for every optional field. For the
      description both an absent field and an explicit null become null. */
  function UpdateTaskParamsOf(p: UpdateTaskPayload): (r: UpdateTaskParams)
    ensures r.id == p.id
    ensures r.title == p.title && r.priority == p.priority
    ensures r.column_id == p.column_id && r.position == p.position
    ensures r.description.Some? <==> p.description.Some? && p.description.value.Some?
    ensures r.description.Some? ==> r.description.value == p.description.value.value
  {
    var description := if p.description.Some? then p.description.value else None;
    UpdateTaskParams(p.id, p.title, description, p.priority, p.column_id, p.position)
  }

  /** Consequence of the `?? null` mapping: an edit that clears the
      description (null) and an edit that leaves it out send the same
      parameters, so the store cannot tell them apart. */
  lemma ClearedDescriptionLooksAbsent(p: UpdateTaskPayload)
    ensures UpdateTaskParamsOf(p.(description := Some(None))) == UpdateTaskParamsOf(p.(description := None))
  {
  }

  // ---------------------------------------------------------------------------
  // Batch de-duplication: Array.from(new Map(items.map(x => [x.id, x])).values())
  // ---------------------------------------------------------------------------

  /** The index of the first element whose key is `k`, or -1. */
  function FirstIndex<T>(items: seq<T>, key: T -> string, k: string): (r: int)
    ensures -1 <= r < |items|
    ensures r >= 0 ==> key(items[r]) == k
    ensures r == -1 <==> forall i :: 0 <= i < |items| ==> key(items[i]) != k
    ensures r >= 0 ==> forall i :: 0 <= i < r ==> key(items[i]) != k
  {
    if |items| == 0 then -1
    else
      var f := FirstIndex(items[..|items| - 1], key, k);
      if f >= 0 then f
      else if key(items[|items| - 1]) == k then |items| - 1
      else -1
  }

  /** The index of the last element whose key is `k`, or -1. */
  function LastIndex<T>(items: seq<T>, key: T -> string, k: string): (r: int)
    ensures -1 <= r < |items|
    ensures r >= 0 ==> key(items[r]) == k
    ensures r == -1 <==> forall i :: 0 <= i < |items| ==> key(items[i]) != k
    ensures r >= 0 ==> forall i :: r < i < |items| ==> key(items[i]) != k
  {
    if |items| == 0 then -1
    else if key(items[|items| - 1]) == k then |items| - 1
    else LastIndex(items[..|items| - 1], key, k)
  }

  /** `map.set(key(x), x)` on a map held as its entry sequence: an existing
      key keeps its place and takes the new value, a new key goes last. */
  function Upsert<T>(entries: seq<T>, key: T -> string, x: T): seq<T>
  {
    var j := FirstIndex(entries, key, key(x));
    if j >= 0 then entries[j := x] else entries + [x]
  }

  /** The values of a `Map` built from `items`, in iteration order. */
  function Dedup<T>(items: seq<T>, key: T -> string): seq<T>
  {
    if |items| == 0 then []
    else Upsert(Dedup(items[..|items| - 1], key), key, items[|items| - 1])
  }

  ghost predicate DistinctKeys<T>(r: seq<T>, key: T -> string)
  {
    forall i, j :: 0 <= i < j < |r| ==> key(r[i]) != key(r[j])
  }

  /** Every item's key has an entry. */
  ghost predicate CoversKeys<T>(items: seq<T>, r: seq<T>, key: T -> string)
  {
    forall i :: 0 <= i < |items| ==> FirstIndex(r, key, key(items[i])) >= 0
  }

  /** Every entry is the last item carrying its key. */
  ghost predicate LastWins<T>(items: seq<T>, r: seq<T>, key: T -> string)
  {
    forall j :: 0 <= j < |r| ==>
      LastIndex(items, key, key(r[j])) >= 0 && r[j] == items[LastIndex(items, key, key(r[j]))]
  }

  /** Entries are ordered by the first occurrence of their keys. */
  ghost predicate FirstOccurrenceOrder<T>(items: seq<T>, r: seq<T>, key: T -> string)
  {
    forall i, j :: 0 <= i < j < |r| ==>
      FirstIndex(items, key, key(r[i])) < FirstIndex(items, key, key(r[j]))
  }

  /** What de-duplication promises: one entry per distinct key, each entry
      the last item with that key, entries ordered by the key's first
      occurrence among the items. */
  ghost predicate IsDedup<T>(items: seq<T>, r: seq<T>, key: T -> string)
  {
    DistinctKeys(r, key) && CoversKeys(items, r, key) && LastWins(items, r, key)
    && FirstOccurrenceOrder(items, r, key)
  }

  lemma FirstIndexExtend<T>(items: seq<T>, key: T -> string, x: T, k: string)
    requires FirstIndex(items, key, k) >= 0
    ensures FirstIndex(items + [x], key, k) == FirstIndex(items, key, k)
  {
    assert (items + [x])[..|items|] == items;
  }

  lemma LastIndexExtend<T>(items: seq<T>, key: T -> string, x: T, k: string)
    requires key(x) != k
    ensures LastIndex(items + [x], key, k) == LastIndex(items, key, k)
  {
    assert (items + [x])[..|items|] == items;
  }

  /** Entries of a de-duplication all come from keys that occur. */
  lemma EntriesOccur<T>(items: seq<T>, r: seq<T>, key: T -> string, x: T)
    requires LastWins(items, r, key)
    ensures forall j :: 0 <= j < |r| ==> FirstIndex(items, key, key(r[j])) >= 0
    ensures forall j :: 0 <= j < |r| ==>
      FirstIndex(items + [x], key, key(r[j])) == FirstIndex(items, key, key(r[j]))
  {
    forall j | 0 <= j < |r|
      ensures FirstIndex(items, key, key(r[j])) >= 0
      ensures FirstIndex(items + [x], key, key(r[j])) == FirstIndex(items, key, key(r[j]))
    {
      assert LastIndex(items, key, key(r[j])) >= 0;
      FirstIndexExtend(items, key, x, key(r[j]));
    }
  }

  /** Replacing an entry by an item with the same key keeps the keys. */
  lemma ReplaceKeepsKeys<T>(d: seq<T>, key: T -> string, f: nat, x: T, k: string)
    requires f < |d| && key(d[f]) == key(x)
    ensures FirstIndex(d[f := x], key, k) == FirstIndex(d, key, k)
  {
    if |d| > 0 && f < |d| - 1 {
      assert d[f := x][..|d| - 1] == d[..|d| - 1][f := x];
      ReplaceKeepsKeys(d[..|d| - 1], key, f, x, k);
    } else if |d| > 0 {
      assert d[f := x][..|d| - 1] == d[..|d| - 1];
    }
  }

  /** Upserting an item whose key already has an entry. */
  lemma UpsertExisting<T>(p: seq<T>, d: seq<T>, key: T -> string, x: T)
    requires IsDedup(p, d, key)
    requires FirstIndex(d, key, key(x)) >= 0
    ensures IsDedup(p + [x], Upsert(d, key, x), key)
  {
    var items := p + [x];
    var f := FirstIndex(d, key, key(x));
    var r := d[f := x];
    assert Upsert(d, key, x) == r;
    UpsertExistingDistinct(d, key, f, x);
    UpsertExistingCovers(p, d, key, f, x);
    UpsertExistingLastWins(p, d, key, f, x);
    UpsertExistingOrder(p, d, key, f, x);
  }

  lemma UpsertExistingDistinct<T>(d: seq<T>, key: T -> string, f: nat, x: T)
    requires DistinctKeys(d, key) && f < |d| && key(d[f]) == key(x)
    ensures DistinctKeys(d[f := x], key)
  {
    var r := d[f := x];
    assert forall j :: 0 <= j < |r| ==> key(r[j]) == key(d[j]);
  }

  lemma UpsertExistingCovers<T>(p: seq<T>, d: seq<T>, key: T -> string, f: nat, x: T)
    requires CoversKeys(p, d, key) && f < |d| && key(d[f]) == key(x)
    ensures CoversKeys(p + [x], d[f := x], key)
  {
    var items := p + [x];
    forall i | 0 <= i < |items|
      ensures FirstIndex(d[f := x], key, key(items[i])) >= 0
    {
      ReplaceKeepsKeys(d, key, f, x, key(items[i]));
      if i < |p| {
        assert items[i] == p[i];
      } else {
        assert FirstIndex(d, key, key(items[i])) >= 0 by {
          assert key(d[f]) == key(items[i]);
        }
      }
    }
  }

  lemma UpsertExistingLastWins<T>(p: seq<T>, d: seq<T>, key: T -> string, f: nat, x: T)
    requires LastWins(p, d, key) && DistinctKeys(d, key) && f < |d| && key(d[f]) == key(x)
    ensures LastWins(p + [x], d[f := x], key)
  {
    var items := p + [x];
    var r := d[f := x];
    forall j | 0 <= j < |r|
      ensures LastIndex(items, key, key(r[j])) >= 0 && r[j] == items[LastIndex(items, key, key(r[j]))]
    {
      if j == f {
        assert LastIndex(items, key, key(x)) == |p|;
      } else {
        assert key(r[j]) != key(x);
        LastIndexExtend(p, key, x, key(r[j]));
        assert LastIndex(p, key, key(r[j])) < |p|;
      }
    }
  }

  lemma UpsertExistingOrder<T>(p: seq<T>, d: seq<T>, key: T -> string, f: nat, x: T)
    requires LastWins(p, d, key) && FirstOccurrenceOrder(p, d, key) && f < |d| && key(d[f]) == key(x)
    ensures FirstOccurrenceOrder(p + [x], d[f := x], key)
  {
    var r := d[f := x];
    EntriesOccur(p, d, key, x);
    assert forall j :: 0 <= j < |r| ==> key(r[j]) == key(d[j]);
  }

  /** Upserting an item whose key is new. */
  lemma UpsertNew<T>(p: seq<T>, d: seq<T>, key: T -> string, x: T)
    requires IsDedup(p, d, key)
    requires FirstIndex(d, key, key(x)) == -1
    ensures IsDedup(p + [x], Upsert(d, key, x), key)
  {
    var items := p + [x];
    var r := d + [x];
    assert Upsert(d, key, x) == r;
    assert FirstIndex(p, key, key(x)) == -1 by {
      forall i | 0 <= i < |p| ensures key(p[i]) != key(x) {
        assert FirstIndex(d, key, key(p[i])) >= 0;
      }
    }
    UpsertNewCovers(p, d, key, x);
    UpsertNewLastWins(p, d, key, x);
    UpsertNewOrder(p, d, key, x);
  }

  lemma UpsertNewCovers<T>(p: seq<T>, d: seq<T>, key: T -> string, x: T)
    requires CoversKeys(p, d, key)
    ensures CoversKeys(p + [x], d + [x], key)
  {
    var items := p + [x];
    forall i | 0 <= i < |items|
      ensures FirstIndex(d + [x], key, key(items[i])) >= 0
    {
      if i < |p| {
        assert items[i] == p[i];
        FirstIndexExtend(d, key, x, key(items[i]));
      } else {
        assert (d + [x])[|d|] == x;
      }
    }
  }

  lemma UpsertNewLastWins<T>(p: seq<T>, d: seq<T>, key: T -> string, x: T)
    requires LastWins(p, d, key) && FirstIndex(d, key, key(x)) == -1
    ensures LastWins(p + [x], d + [x], key)
  {
    var items := p + [x];
    var r := d + [x];
    forall j | 0 <= j < |r|
      ensures LastIndex(items, key, key(r[j])) >= 0 && r[j] == items[LastIndex(items, key, key(r[j]))]
    {
      if j == |d| {
        assert LastIndex(items, key, key(x)) == |p|;
      } else {
        assert r[j] == d[j];
        assert key(d[j]) != key(x);
        LastIndexExtend(p, key, x, key(r[j]));
      }
    }
  }

  lemma UpsertNewOrder<T>(p: seq<T>, d: seq<T>, key: T -> string, x: T)
    requires LastWins(p, d, key) && FirstOccurrenceOrder(p, d, key) && FirstIndex(p, key, key(x)) == -1
    ensures FirstOccurrenceOrder(p + [x], d + [x], key)
  {
    var items := p + [x];
    var r := d + [x];
    EntriesOccur(p, d, key, x);
    assert items[..|p|] == p;
    assert FirstIndex(items, key, key(x)) == |p|;
    forall i, j | 0 <= i < j < |r|
      ensures FirstIndex(items, key, key(r[i])) < FirstIndex(items, key, key(r[j]))
    {
      assert r[i] == d[i];
      if j < |d| {
        assert r[j] == d[j];
      }
    }
  }

  /** The `Map` round trip de-duplicates: last write wins, first occurrence
      decides the order. */
  lemma {:induction false} DedupIsDedup<T>(items: seq<T>, key: T -> string)
    ensures IsDedup(items, Dedup(items, key), key)
  {
    if |items| > 0 {
      var p := items[..|items| - 1];
      var x := items[|items| - 1];
      assert items == p + [x];
      DedupIsDedup(p, key);
      if FirstIndex(Dedup(p, key), key, key(x)) >= 0 {
        UpsertExisting(p, Dedup(p, key), key, x);
      } else {
        UpsertNew(p, Dedup(p, key), key, x);
      }
    }
  }

  // ---------------------------------------------------------------------------
  // Batch payloads
  // ---------------------------------------------------------------------------

  /** An entry of `update_column_positions_p`. */
  datatype ColumnPositionEntry = ColumnPositionEntry(id: string, position: int, title: string, is_collapsed: bool)

  /** An entry of `update_task_positions_p`. */
  datatype TaskPositionEntry = TaskPositionEntry(
    id: string,
    column_id: string,
    position: int,
    title: string,
    description: Option<string>,
    priority: Priority)

  function ColumnKey(c: Column): string { c.id }
  function TaskKey(t: Task): string { t.id }

  function ColumnEntry(c: Column): ColumnPositionEntry
  {
    ColumnPositionEntry(c.id, c.position, c.title, c.is_collapsed)
  }

  function TaskEntry(t: Task): TaskPositionEntry
  {
    TaskPositionEntry(t.id, t.column_id, t.position, t.title, t.description, t.priority)
  }

  /** The de-duplicated items, with what de-duplication promises. */
  function Unique<T>(items: seq<T>, key: T -> string): (r: seq<T>)
    ensures IsDedup(items, r, key)
  {
    DedupIsDedup(items, key);
    Dedup(items, key)
  }

  /** updateColumnPositions: no call at all for an empty list; otherwise one
      call naming every updated column exactly once, in order of first
      mention, with the id, position, title and collapsed flag of the last
      update given for it. */
  function ColumnPositionsBatch(updates: seq<Column>): (r: Option<seq<ColumnPositionEntry>>)
    ensures r.None? <==> |updates| == 0
    ensures r.Some? ==> forall i, j :: 0 <= i < j < |r.value| ==> r.value[i].id != r.value[j].id
    ensures r.Some? ==> forall j :: 0 <= j < |r.value| ==>
      var l := LastIndex(updates, ColumnKey, r.value[j].id);
      l >= 0 && r.value[j] == ColumnEntry(updates[l])
    ensures r.Some? ==> forall i :: 0 <= i < |updates| ==>
      exists j :: 0 <= j < |r.value| && r.value[j].id == updates[i].id
    ensures r.Some? ==> forall i, j :: 0 <= i < j < |r.value| ==>
      FirstIndex(updates, ColumnKey, r.value[i].id) < FirstIndex(updates, ColumnKey, r.value[j].id)
  {
    if |updates| == 0 then None
    else
      var unique := Unique(updates, ColumnKey);
      var es := seq(|unique|, i requires 0 <= i < |unique| => ColumnEntry(unique[i]));
      ColumnEntriesFromUnique(updates, unique, es);
      Some(es)
  }

  /** updateTaskPositions: as for columns, with the six task fields. */
  function TaskPositionsBatch(updates: seq<Task>): (r: Option<seq<TaskPositionEntry>>)
    ensures r.None? <==> |updates| == 0
    ensures r.Some? ==> forall i, j :: 0 <= i < j < |r.value| ==> r.value[i].id != r.value[j].id
    ensures r.Some? ==> forall j :: 0 <= j < |r.value| ==>
      var l := LastIndex(updates, TaskKey, r.value[j].id);
      l >= 0 && r.value[j] == TaskEntry(updates[l])
    ensures r.Some? ==> forall i :: 0 <= i < |updates| ==>
      exists j :: 0 <= j < |r.value| && r.value[j].id == updates[i].id
    ensures r.Some? ==> forall i, j :: 0 <= i < j < |r.value| ==>
      FirstIndex(updates, TaskKey, r.value[i].id) < FirstIndex(updates, TaskKey, r.value[j].id)
  {
    if |updates| == 0 then None
    else
      var unique := Unique(updates, TaskKey);
      var es := seq(|unique|, i requires 0 <= i < |unique| => TaskEntry(unique[i]));
      TaskEntriesFromUnique(updates, unique, es);
      Some(es)
  }

  lemma ColumnEntriesFromUnique(updates: seq<Column>, unique: seq<Column>, es: seq<ColumnPositionEntry>)
    requires IsDedup(updates, unique, ColumnKey)
    requires |es| == |unique| && forall j :: 0 <= j < |es| ==> es[j] == ColumnEntry(unique[j])
    ensures forall i, j :: 0 <= i < j < |es| ==> es[i].id != es[j].id
    ensures forall j :: 0 <= j < |es| ==>
      var l := LastIndex(updates, ColumnKey, es[j].id);
      l >= 0 && es[j] == ColumnEntry(updates[l])
    ensures forall i :: 0 <= i < |updates| ==> exists j :: 0 <= j < |es| && es[j].id == updates[i].id
    ensures forall i, j :: 0 <= i < j < |es| ==>
      FirstIndex(updates, ColumnKey, es[i].id) < FirstIndex(updates, ColumnKey, es[j].id)
  {
    forall j | 0 <= j < |es|
      ensures var l := LastIndex(updates, ColumnKey, es[j].id); l >= 0 && es[j] == ColumnEntry(updates[l])
    {
      assert es[j].id == ColumnKey(unique[j]);
    }
    forall i | 0 <= i < |updates|
      ensures exists j :: 0 <= j < |es| && es[j].id == updates[i].id
    {
      var j := FirstIndex(unique, ColumnKey, ColumnKey(updates[i]));
      assert es[j].id == ColumnKey(unique[j]);
    }
  }

  lemma TaskEntriesFromUnique(updates: seq<Task>, unique: seq<Task>, es: seq<TaskPositionEntry>)
    requires IsDedup(updates, unique, TaskKey)
    requires |es| == |unique| && forall j :: 0 <= j < |es| ==> es[j] == TaskEntry(unique[j])
    ensures forall i, j :: 0 <= i < j < |es| ==> es[i].id != es[j].id
    ensures forall j :: 0 <= j < |es| ==>
      var l := LastIndex(updates, TaskKey, es[j].id);
      l >= 0 && es[j] == TaskEntry(updates[l])
    ensures forall i :: 0 <= i < |updates| ==> exists j :: 0 <= j < |es| && es[j].id == updates[i].id
    ensures forall i, j :: 0 <= i < j < |es| ==>
      FirstIndex(updates, TaskKey, es[i].id) < FirstIndex(updates, TaskKey, es[j].id)
  {
    forall j | 0 <= j < |es|
      ensures var l := LastIndex(updates, TaskKey, es[j].id); l >= 0 && es[j] == TaskEntry(updates[l])
    {
      assert es[j].id == TaskKey(unique[j]);
    }
    forall i | 0 <= i < |updates|
      ensures exists j :: 0 <= j < |es| && es[j].id == updates[i].id
    {
      var j := FirstIndex(unique, TaskKey, TaskKey(updates[i]));
      assert es[j].id == TaskKey(unique[j]);
    }
  }

  // ---------------------------------------------------------------------------
  // Calls, replies and traces
  // ---------------------------------------------------------------------------

  /** One request the client sends to the remote store, with the parameters
      it carries. Batch calls carry the already de-duplicated entries. */
  datatype Call =
    | GetBoardCall(slug: string)
    | CreateBoardCall(slug: string)
    | DeleteBoardCall(boardId: string)
    | GetColumnsCall(boardId: string)
    | CreateColumnCall(column: CreateColumnPayload)
    | UpdateColumnCall(update: UpdateColumnPayload)
    | DeleteColumnCall(columnId: string)
    | UpdateColumnPositionsCall(columnEntries: seq<ColumnPositionEntry>)
    | CreateTaskCall(task: CreateTaskParams)
    | UpdateTaskCall(taskUpdate: UpdateTaskParams)
    | DeleteTaskCall(taskId: string)
    | UpdateTaskPositionsCall(taskEntries: seq<TaskPositionEntry>)

  /** What a call resolves to: success, with the fresh identifier and
      timestamp a creating call is given, or a rejection. */
  datatype Reply = Accepted(newId: string, stamp: string) | Rejected(error: RawError)

  /** The success/failure oracle: the reply to the call at a given index of
      an operation's event trace. */
  type Oracle = nat -> Reply

  /** An entry of an operation's trace: a call sent, or the "mutation done"
      callback (which drives the broadcast to other viewers). */
  datatype Event = Sent(call: Call) | MutationDone

  /** The rows a successful create returns: the payload's fields plus the
      fresh identifier and timestamp. */
  function CreatedBoard(slug: string, reply: Reply): (b: Board)
    requires reply.Accepted?
    ensures b.slug == slug && b.id == reply.newId
  {
    Board(reply.newId, slug, reply.stamp, reply.stamp)
  }

  function CreatedColumn(p: CreateColumnPayload, reply: Reply): (c: Column)
    requires reply.Accepted?
    ensures c.id == reply.newId && c.board_id == p.board_id
    ensures c.title == p.title && c.position == p.position && !c.is_collapsed
  {
    Column(reply.newId, p.board_id, p.title, p.position, false, reply.stamp)
  }

  function CreatedTask(p: CreateTaskParams, reply: Reply): (t: Task)
    requires reply.Accepted?
    ensures t.id == reply.newId && t.column_id == p.column_id && t.title == p.title
    ensures t.description == p.description && t.priority == p.priority && t.position == p.position
  {
    Task(reply.newId, p.column_id, p.title, p.description, p.priority, p.position, reply.stamp, reply.stamp)
  }
}
