/** The batch delete. The handler walks the (supplier, product identifiers)
    entries in order and, within each entry, the identifiers in order; every
    delete the store confirms filters that identifier out of the supplier's
    list, and the first failure ends the batch with the earlier removals
    kept. The store is an oracle: `outcome(t)` says whether it confirms the
    `t`-th delete request of the batch. `RunTargets` is the walk as a fold
    over the requests and `Continue` the same walk in the shape of the
    handler's two loops; the handler in module AppState is proved to compute
    it, and the lemmas here say what it leaves: the requests before the
    first failure applied, each supplier's list keeping exactly the records
    no applied request named. */
module BatchDelete {
  import opened Lists
  import opened Schema
  import opened Mirror

  /** One entry of the selection: a supplier and the product identifiers
      selected under it. */
  type Entry = (string, seq<string>)

  /** A single delete request: supplier, product identifier. */
  type Target = (string, string)

  /** The requests of one entry, in order. */
  function Targets(e: Entry): (r: seq<Target>)
    ensures |r| == |e.1|
    ensures forall i :: 0 <= i < |r| ==> r[i] == (e.0, e.1[i])
  {
    seq(|e.1|, i requires 0 <= i < |e.1| => (e.0, e.1[i]))
  }

  /** All requests of a batch in the order the handler issues them. */
  function Flatten(entries: seq<Entry>): seq<Target>
    decreases |entries|
  {
    if entries == [] then []
    else Targets(entries[0]) + Flatten(entries[1..])
  }

  /** The entries of a selection table in the order `order` lists its keys
      (the order `Object.entries` yields them). */
  function Entries(sel: map<string, seq<string>>, order: seq<string>): (r: seq<Entry>)
    requires forall k :: k in order ==> k in sel
    ensures |r| == |order|
    ensures forall i :: 0 <= i < |r| ==> r[i] == (order[i], sel[order[i]])
  {
    seq(|order|, i requires 0 <= i < |order| => (order[i], sel[order[i]]))
  }

  /** A request is among those of an entry exactly when it names the
      entry's supplier and one of its identifiers. */
  lemma TargetsMember(e: Entry, t: Target)
    ensures t in Targets(e) <==> e.0 == t.0 && t.1 in e.1
  {
    if e.0 == t.0 && t.1 in e.1 {
      var j :| 0 <= j < |e.1| && e.1[j] == t.1;
      assert Targets(e)[j] == t;
    }
  }

  /** Some entry names the supplier of `t` and lists its identifier. */
  ghost predicate Listed(entries: seq<Entry>, t: Target) {
    exists i :: 0 <= i < |entries| && entries[i].0 == t.0 && t.1 in entries[i].1
  }

  /** A request is in the batch exactly when some entry names its supplier
      and lists its identifier. */
  lemma {:induction false} FlattenMember(entries: seq<Entry>, t: Target)
    ensures t in Flatten(entries) <==> Listed(entries, t)
    decreases |entries|
  {
    if entries != [] {
      var rest := entries[1..];
      FlattenMember(rest, t);
      TargetsMember(entries[0], t);
      if Listed(rest, t) {
        var i :| 0 <= i < |rest| && rest[i].0 == t.0 && t.1 in rest[i].1;
        assert entries[i + 1] == rest[i];
      }
      if Listed(entries, t) {
        var i :| 0 <= i < |entries| && entries[i].0 == t.0 && t.1 in entries[i].1;
        if i > 0 {
          assert rest[i - 1] == entries[i];
        }
      }
    }
  }

  /** The test `product.id !== productId` of the delete updater. */
  function NotId(id: string): Product -> bool {
    (p: Product) => p.id != id
  }

  /** The updater run after one confirmed delete: the supplier's list without
      the records that carry `id`. */
  function RemoveProduct(m: Table, supplierId: string, id: string): (r: Table)
    requires supplierId in m
    ensures r.Keys == m.Keys
  {
    m[supplierId := Filter(m[supplierId], NotId(id))]
  }

  /** One confirmed delete keeps, under its supplier, exactly the records
      with another identifier, and leaves every other supplier's list alone. */
  lemma RemoveProductEffect(m: Table, supplierId: string, id: string)
    requires supplierId in m
    ensures var r := RemoveProduct(m, supplierId, id);
            (forall p :: p in r[supplierId] <==> p in m[supplierId] && p.id != id) &&
            (forall k :: k in m && k != supplierId ==> r[k] == m[k])
  {
  }

  /** Every request of the list names a supplier among `keys`. */
  predicate Covered(keys: set<string>, ts: seq<Target>)
    decreases |ts|
  {
    ts == [] || (ts[0].0 in keys && Covered(keys, ts[1..]))
  }

  /** Coverage is coverage of each request. */
  lemma {:induction false} CoveredIff(keys: set<string>, ts: seq<Target>)
    ensures Covered(keys, ts) <==> forall i :: 0 <= i < |ts| ==> ts[i].0 in keys
    decreases |ts|
  {
    if ts != [] {
      CoveredIff(keys, ts[1..]);
      assert forall i :: 0 < i < |ts| ==> ts[i] == ts[1..][i - 1];
    }
  }

  /** The requests of entries whose suppliers are all in the table name only
      suppliers in the table. */
  lemma FlattenCovered(m: Table, entries: seq<Entry>)
    requires forall e :: e in entries ==> e.0 in m
    ensures Covered(m.Keys, Flatten(entries))
  {
    var ts := Flatten(entries);
    forall i | 0 <= i < |ts| ensures ts[i].0 in m {
      FlattenMember(entries, ts[i]);
      var k :| 0 <= k < |entries| && entries[k].0 == ts[i].0 && ts[i].1 in entries[k].1;
      assert entries[k] in entries;
    }
    CoveredIff(m.Keys, ts);
  }

  /** The table after the requests `ts` have all been confirmed, in order. */
  function ApplyDeletes(m: Table, ts: seq<Target>): (r: Table)
    requires Covered(m.Keys, ts)
    ensures r.Keys == m.Keys
    decreases |ts|
  {
    if ts == [] then m
    else ApplyDeletes(RemoveProduct(m, ts[0].0, ts[0].1), ts[1..])
  }

  /** The identifiers deleted from supplier `s` by the requests `ts`. */
  function DeletedFor(ts: seq<Target>, s: string): set<string> {
    set t | t in ts && t.0 == s :: t.1
  }

  /** A request adds its identifier to the deleted set of its own supplier
      only. */
  lemma DeletedForCons(ts: seq<Target>, s: string)
    requires ts != []
    ensures DeletedFor(ts, s)
            == if s == ts[0].0 then DeletedFor(ts[1..], s) + {ts[0].1} else DeletedFor(ts[1..], s)
  {
    assert forall t :: t in ts <==> t == ts[0] || t in ts[1..];
  }

  /** The test "identifier not in `gone`". */
  function NotIn(gone: set<string>): Product -> bool {
    (p: Product) => p.id !in gone
  }

  /** The records of `l` whose identifier is not in `gone`, in order. */
  function Surviving(l: seq<Product>, gone: set<string>): seq<Product> {
    Filter(l, NotIn(gone))
  }

  /** Removing one identifier and then the survivors of `gone` leaves the
      survivors of `gone` plus that identifier. */
  lemma RemoveThenSurviving(l: seq<Product>, id: string, gone: set<string>)
    ensures Surviving(Filter(l, NotId(id)), gone) == Surviving(l, gone + {id})
  {
    FilterTwice(l, NotId(id), NotIn(gone), NotIn(gone + {id}));
  }

  /** What a run of confirmed deletes leaves: under each supplier, the
      records whose identifier no request for that supplier named, in their
      original order. */
  lemma {:induction false} ApplyDeletesSurviving(m: Table, ts: seq<Target>)
    requires Covered(m.Keys, ts)
    ensures forall s :: s in m ==> ApplyDeletes(m, ts)[s] == Surviving(m[s], DeletedFor(ts, s))
    decreases |ts|
  {
    if ts == [] {
      forall s | s in m ensures m[s] == Surviving(m[s], DeletedFor(ts, s)) {
        assert DeletedFor(ts, s) == {};
        FilterKeepsAll(m[s], NotIn({}));
      }
    } else {
      var t := ts[0];
      var next := RemoveProduct(m, t.0, t.1);
      ApplyDeletesSurviving(next, ts[1..]);
      forall s | s in m ensures ApplyDeletes(m, ts)[s] == Surviving(m[s], DeletedFor(ts, s)) {
        DeletedForCons(ts, s);
        if s == t.0 {
          RemoveThenSurviving(m[s], t.1, DeletedFor(ts[1..], s));
        }
      }
    }
  }

  /** Deletes keep the table consistent. */
  lemma {:induction false} ApplyDeletesKeepsConsistent(m: Table, ts: seq<Target>)
    requires Covered(m.Keys, ts)
    requires Consistent(m)
    ensures Consistent(ApplyDeletes(m, ts))
    decreases |ts|
  {
    if ts != [] {
      var next := RemoveProduct(m, ts[0].0, ts[0].1);
      assert Consistent(next);
      ApplyDeletesKeepsConsistent(next, ts[1..]);
    }
  }

  /** The position, counted from request `from`, of the first failed
      request among the `n` requests from `from` on, or `n` when all of them
      succeed. */
  function FirstFailure(outcome: nat -> bool, from: nat, n: nat): (k: nat)
    ensures k <= n
    ensures forall t :: from <= t < from + k ==> outcome(t)
    ensures k < n ==> !outcome(from + k)
    decreases n
  {
    if n == 0 || !outcome(from) then 0 else 1 + FirstFailure(outcome, from + 1, n - 1)
  }

  /** The first failure is the only position with the two properties above. */
  lemma {:induction false} FirstFailureUnique(outcome: nat -> bool, from: nat, n: nat, k: nat)
    requires k <= n
    requires forall t :: from <= t < from + k ==> outcome(t)
    requires k < n ==> !outcome(from + k)
    ensures FirstFailure(outcome, from, n) == k
    decreases n
  {
    if 0 < k {
      FirstFailureUnique(outcome, from + 1, n - 1, k - 1);
    }
  }

  /** The outcome of a batch: the table it leaves, whether it ended on a
      failure, and how many delete requests had been sent when it ended. */
  datatype Run = Run(table: Table, failed: bool, attempts: nat)

  /** The requests `ts` sent one at a time, the first being request number
      `sent` of the batch: a confirmed request applies its updater and the
      walk goes on, a failed one ends it. */
  function RunTargets(m: Table, ts: seq<Target>, outcome: nat -> bool, sent: nat): (r: Run)
    requires Covered(m.Keys, ts)
    ensures r.table.Keys == m.Keys
    ensures sent <= r.attempts <= sent + |ts|
    ensures !r.failed ==> r.attempts == sent + |ts|
    decreases |ts|
  {
    if ts == [] then Run(m, false, sent)
    else if !outcome(sent) then Run(m, true, sent + 1)
    else RunTargets(RemoveProduct(m, ts[0].0, ts[0].1), ts[1..], outcome, sent + 1)
  }

  /** A prefix of covered requests is covered. */
  lemma CoveredPrefix(keys: set<string>, ts: seq<Target>, k: nat)
    requires k <= |ts| && Covered(keys, ts)
    ensures Covered(keys, ts[..k])
  {
    CoveredIff(keys, ts);
    CoveredIff(keys, ts[..k]);
  }

  /** The first `n` requests of `ts`, applied in order. */
  function ApplyFirst(m: Table, ts: seq<Target>, n: nat): (r: Table)
    requires Covered(m.Keys, ts)
    ensures r.Keys == m.Keys
    decreases n
  {
    if n == 0 || ts == [] then m
    else ApplyFirst(RemoveProduct(m, ts[0].0, ts[0].1), ts[1..], n - 1)
  }

  /** Applying the first `n` requests is applying the prefix of length `n`. */
  lemma {:induction false} ApplyFirstIsPrefix(m: Table, ts: seq<Target>, n: nat)
    requires n <= |ts| && Covered(m.Keys, ts)
    ensures Covered(m.Keys, ts[..n])
    ensures ApplyFirst(m, ts, n) == ApplyDeletes(m, ts[..n])
    decreases n
  {
    CoveredPrefix(m.Keys, ts, n);
    if n > 0 {
      ApplyFirstIsPrefix(RemoveProduct(m, ts[0].0, ts[0].1), ts[1..], n - 1);
      assert ts[..n][0] == ts[0] && ts[..n][1..] == ts[1..][..n - 1];
    }
  }

  /** The walk, described without following it: the requests before the
      first failure are applied, the failed request is the last one sent,
      and nothing after it is sent. */
  ghost function Settled(m: Table, ts: seq<Target>, outcome: nat -> bool, sent: nat): Run
    requires Covered(m.Keys, ts)
  {
    var k := FirstFailure(outcome, sent, |ts|);
    Run(ApplyFirst(m, ts, k), k < |ts|, sent + if k < |ts| then k + 1 else |ts|)
  }

  /** The fold over the requests is that description. */
  lemma {:induction false} RunTargetsCharacterised(m: Table, ts: seq<Target>, outcome: nat -> bool, sent: nat)
    requires Covered(m.Keys, ts)
    ensures RunTargets(m, ts, outcome, sent) == Settled(m, ts, outcome, sent)
    decreases |ts|
  {
    if ts == [] {
    } else if !outcome(sent) {
      FirstFailureUnique(outcome, sent, |ts|, 0);
    } else {
      RunTargetsCharacterised(RemoveProduct(m, ts[0].0, ts[0].1), ts[1..], outcome, sent + 1);
    }
  }

  /** A batch run against a store whose answer to the `t`-th request is
      `outcome(t)`. */
  function RunBatch(m: Table, entries: seq<Entry>, outcome: nat -> bool): (r: Run)
    requires forall e :: e in entries ==> e.0 in m
    ensures r.failed <==> exists t :: 0 <= t < |Flatten(entries)| && !outcome(t)
    ensures r.attempts <= |Flatten(entries)|
    ensures r.table.Keys == m.Keys
  {
    FlattenCovered(m, entries);
    RunTargetsCharacterised(m, Flatten(entries), outcome, 0);
    RunTargets(m, Flatten(entries), outcome, 0)
  }

  /** A batch whose `j`-th request fails after the earlier ones succeeded
      sends `j + 1` requests, and under each supplier keeps exactly the
      records no earlier request named: the failed request and all later
      ones have no effect. */
  lemma FailureKeepsEarlierRemovals(m: Table, entries: seq<Entry>, outcome: nat -> bool, j: nat)
    requires forall e :: e in entries ==> e.0 in m
    requires j < |Flatten(entries)|
    requires forall t :: 0 <= t < j ==> outcome(t)
    requires !outcome(j)
    ensures var r := RunBatch(m, entries, outcome);
            r.failed && r.attempts == j + 1 &&
            forall s :: s in m ==> r.table[s] == Surviving(m[s], DeletedFor(Flatten(entries)[..j], s))
  {
    var ts := Flatten(entries);
    FlattenCovered(m, entries);
    FirstFailureUnique(outcome, 0, |ts|, j);
    RunTargetsCharacterised(m, ts, outcome, 0);
    ApplyFirstIsPrefix(m, ts, j);
    ApplyDeletesSurviving(m, ts[..j]);
  }

  /** A batch in which every request succeeds removes, under each supplier,
      every record some request for that supplier named, and nothing else. */
  lemma SuccessRemovesAll(m: Table, entries: seq<Entry>, outcome: nat -> bool)
    requires forall e :: e in entries ==> e.0 in m
    requires forall t :: 0 <= t < |Flatten(entries)| ==> outcome(t)
    ensures var r := RunBatch(m, entries, outcome);
            !r.failed && r.attempts == |Flatten(entries)| &&
            forall s :: s in m ==> r.table[s] == Surviving(m[s], DeletedFor(Flatten(entries), s))
  {
    var ts := Flatten(entries);
    FlattenCovered(m, entries);
    FirstFailureUnique(outcome, 0, |ts|, |ts|);
    RunTargetsCharacterised(m, ts, outcome, 0);
    ApplyFirstIsPrefix(m, ts, |ts|);
    assert ts[..|ts|] == ts;
    ApplyDeletesSurviving(m, ts);
  }

  /** A batch built from a whole selection table, whatever order its keys
      come in, deletes under each supplier exactly the identifiers selected
      for that supplier, and nothing under a supplier with no entry. */
  lemma DeletedForSelected(sel: map<string, seq<string>>, order: seq<string>, s: string)
    requires forall k :: k in order <==> k in sel
    ensures DeletedFor(Flatten(Entries(sel, order)), s)
            == if s in sel then (set id | id in sel[s]) else {}
  {
    var es := Entries(sel, order);
    var ts := Flatten(es);
    forall id ensures id in DeletedFor(ts, s) <==> s in sel && id in sel[s] {
      FlattenMember(es, (s, id));
      if s in sel && id in sel[s] {
        var i :| 0 <= i < |order| && order[i] == s;
        assert es[i].0 == s && id in es[i].1;
      }
      if id in DeletedFor(ts, s) {
        var t :| t in ts && t.0 == s && t.1 == id;
        assert t == (s, id);
      }
    }
  }

  /** When the store confirms every request, the batch built from a whole
      selection table leaves under each supplier exactly the records whose
      identifiers were not selected for it, in their order. */
  lemma SelectionDeletedOnSuccess(m: Table, sel: map<string, seq<string>>, order: seq<string>, outcome: nat -> bool)
    requires forall k :: k in order <==> k in sel
    requires sel.Keys <= m.Keys
    requires forall t :: 0 <= t < |Flatten(Entries(sel, order))| ==> outcome(t)
    ensures forall e :: e in Entries(sel, order) ==> e.0 in m
    ensures forall s :: s in m ==>
              RunBatch(m, Entries(sel, order), outcome).table[s]
              == Surviving(m[s], if s in sel then (set id | id in sel[s]) else {})
  {
    var es := Entries(sel, order);
    forall e | e in es ensures e.0 in m {
      var i :| 0 <= i < |es| && es[i] == e;
    }
    SuccessRemovesAll(m, es, outcome);
    forall s | s in m
      ensures RunBatch(m, es, outcome).table[s] == Surviving(m[s], if s in sel then (set id | id in sel[s]) else {})
    {
      DeletedForSelected(sel, order, s);
    }
  }

  // The handler's two loops.

  /** The rest of the handler's run from identifier `j` of entry `i`, with
      `sent` requests sent so far and `table` the current mirror: the two
      loops of the handler, written as one recursion. */
  function Continue(table: Table, entries: seq<Entry>, outcome: nat -> bool, i: nat, j: nat, sent: nat): (r: Run)
    requires i <= |entries| && (i < |entries| ==> j <= |entries[i].1|)
    requires forall e :: e in entries ==> e.0 in table
    ensures r.table.Keys == table.Keys
    ensures sent <= r.attempts
    decreases |entries| - i, if i < |entries| then |entries[i].1| - j else 0
  {
    if i == |entries| then Run(table, false, sent)
    else if j == |entries[i].1| then Continue(table, entries, outcome, i + 1, 0, sent)
    else if !outcome(sent) then Run(table, true, sent + 1)
    else
      assert entries[i] in entries;
      Continue(RemoveProduct(table, entries[i].0, entries[i].1[j]), entries, outcome, i, j + 1, sent + 1)
  }

  /** The requests still to send at identifier `j` of entry `i`. */
  function Pending(entries: seq<Entry>, i: nat, j: nat): seq<Target>
    requires i <= |entries| && (i < |entries| ==> j <= |entries[i].1|)
  {
    if i == |entries| then [] else Targets(entries[i])[j..] + Flatten(entries[i + 1..])
  }

  /** At the start the whole batch is pending. */
  lemma PendingStart(entries: seq<Entry>)
    ensures Pending(entries, 0, 0) == Flatten(entries)
  {
    if entries != [] {
      assert Targets(entries[0])[0..] == Targets(entries[0]);
    }
  }

  /** Identifier `j` of entry `i` is the next request. */
  lemma PendingNextId(entries: seq<Entry>, i: nat, j: nat)
    requires i < |entries| && j < |entries[i].1|
    ensures Pending(entries, i, j) != []
    ensures Pending(entries, i, j)[0] == (entries[i].0, entries[i].1[j])
    ensures Pending(entries, i, j)[1..] == Pending(entries, i, j + 1)
  {
    var here := Targets(entries[i]);
    var rest := Flatten(entries[i + 1..]);
    assert here[j..] == [here[j]] + here[j + 1..];
    assert (here[j..] + rest)[1..] == here[j + 1..] + rest;
  }

  /** After the last identifier of entry `i` the next entry begins. */
  lemma PendingNextEntry(entries: seq<Entry>, i: nat)
    requires i < |entries|
    ensures Pending(entries, i, |entries[i].1|) == Pending(entries, i + 1, 0)
  {
    var rest := entries[i + 1..];
    assert Targets(entries[i])[|entries[i].1|..] == [];
    if i + 1 < |entries| {
      assert rest[0] == entries[i + 1] && rest[1..] == entries[i + 2..];
      assert Targets(entries[i + 1])[0..] == Targets(entries[i + 1]);
    } else {
      assert rest == [];
    }
  }

  /** The handler's loops send the pending requests as the fold does. */
  lemma {:induction false} ContinueIsRun(table: Table, entries: seq<Entry>, outcome: nat -> bool, i: nat, j: nat, sent: nat)
    requires i <= |entries| && (i < |entries| ==> j <= |entries[i].1|)
    requires forall e :: e in entries ==> e.0 in table
    ensures Covered(table.Keys, Pending(entries, i, j))
    ensures Continue(table, entries, outcome, i, j, sent) == RunTargets(table, Pending(entries, i, j), outcome, sent)
    decreases |entries| - i, if i < |entries| then |entries[i].1| - j else 0
  {
    if i == |entries| {
    } else if j == |entries[i].1| {
      PendingNextEntry(entries, i);
      ContinueIsRun(table, entries, outcome, i + 1, 0, sent);
    } else {
      assert entries[i] in entries;
      PendingNextId(entries, i, j);
      var next := RemoveProduct(table, entries[i].0, entries[i].1[j]);
      ContinueIsRun(next, entries, outcome, i, j + 1, sent + 1);
    }
  }

  /** Run from the start, the handler's loops are the batch run. */
  lemma RunBatchIsContinue(m: Table, entries: seq<Entry>, outcome: nat -> bool)
    requires forall e :: e in entries ==> e.0 in m
    ensures RunBatch(m, entries, outcome) == Continue(m, entries, outcome, 0, 0, 0)
  {
    PendingStart(entries);
    ContinueIsRun(m, entries, outcome, 0, 0, 0);
  }
}
