/** The client mirror of the store: supplier identifier to that supplier's
    products, in the order the client received them. These are the updater
    bodies the create and update handlers pass to `setProductsBySupplier`;
    each builds a new table from the previous one. */
module Mirror {
  import opened Lists
  import opened Schema

  type Table = map<string, seq<Product>>

  /** The list under `key` (`prev[key] ?? []`). */
  function Get(m: Table, key: string): seq<Product> {
    if key in m then m[key] else []
  }

  /** Every product listed under a key belongs to the supplier of that key. */
  ghost predicate Consistent(m: Table) {
    forall k, p :: k in m && p in m[k] ==> p.supplierId == k
  }

  /** The number of records in `l` that carry identifier `id`. */
  function Occurrences(l: seq<Product>, id: string): nat {
    multiset(Ids(l))[id]
  }

  // ---------------------------------------------------------------- create

  /** Reconciliation after a create: the record the store returned is
      appended to the list under `key`; every other key keeps its list. */
  function AppendCreated(m: Table, key: string, created: Product): (r: Table)
    ensures r.Keys == m.Keys + {key}
    ensures r[key] == Get(m, key) + [created]
    ensures forall k :: k in m && k != key ==> r[k] == m[k]
  {
    m[key := Get(m, key) + [created]]
  }

  /** The created record is the last one of its list and its identifier
      occurs there once more than before, so exactly once when the store
      handed out a fresh identifier. */
  lemma CreatedOnceAtEnd(m: Table, key: string, created: Product)
    ensures var l := AppendCreated(m, key, created)[key];
            l[|l| - 1] == created &&
            Occurrences(l, created.id) == Occurrences(Get(m, key), created.id) + 1
    ensures created.id !in Ids(Get(m, key)) ==>
            Occurrences(AppendCreated(m, key, created)[key], created.id) == 1
  {
    var before := Get(m, key);
    assert Ids(before + [created]) == Ids(before) + [created.id];
  }

  /** A create keeps the table consistent when the returned record belongs
      to the supplier whose list it joins. */
  lemma AppendKeepsConsistent(m: Table, key: string, created: Product)
    requires Consistent(m)
    requires created.supplierId == key
    ensures Consistent(AppendCreated(m, key, created))
  {
  }

  // ---------------------------------------------------------------- update

  /** `existing.map(p => p.id === updated.id ? updated : p)`. */
  function ReplaceById(existing: seq<Product>, updated: Product): (r: seq<Product>)
    ensures |r| == |existing|
    ensures Ids(r) == Ids(existing)
    ensures forall i :: 0 <= i < |r| ==> r[i] == existing[i] || r[i] == updated
    ensures forall i :: 0 <= i < |existing| && existing[i].id == updated.id ==> r[i] == updated
    ensures forall i :: 0 <= i < |existing| && existing[i].id != updated.id ==> r[i] == existing[i]
  {
    seq(|existing|, i requires 0 <= i < |existing| =>
      if existing[i].id == updated.id then updated else existing[i])
  }

  /** Reconciliation after an update: inside the list of the supplier the
      returned record names, every record with its identifier is replaced by
      it; every other key keeps its list. */
  function ReplaceInTable(m: Table, updated: Product): (r: Table)
    ensures r.Keys == m.Keys + {updated.supplierId}
    ensures r[updated.supplierId] == ReplaceById(Get(m, updated.supplierId), updated)
    ensures forall k :: k in m && k != updated.supplierId ==> r[k] == m[k]
  {
    m[updated.supplierId := ReplaceById(Get(m, updated.supplierId), updated)]
  }

  /** The returned record is in the list afterwards exactly when some record
      with its identifier was there before; nothing is ever added. */
  lemma ReplacedPresentIff(existing: seq<Product>, updated: Product)
    ensures updated in ReplaceById(existing, updated) <==> updated.id in Ids(existing)
  {
    var r := ReplaceById(existing, updated);
    if updated.id in Ids(existing) {
      var i :| 0 <= i < |existing| && Ids(existing)[i] == updated.id;
      assert r[i] == updated;
    }
    if updated in r {
      var i :| 0 <= i < |r| && r[i] == updated;
      assert Ids(r)[i] == updated.id;
    }
  }

  /** Applying the same reply twice changes nothing the first did not. */
  lemma ReplaceIdempotent(existing: seq<Product>, updated: Product)
    ensures ReplaceById(ReplaceById(existing, updated), updated) == ReplaceById(existing, updated)
  {
  }

  /** A field-level update of record `i`, whose identifier no other record
      shares, replaces that record by the one with the single field set and
      leaves every other position as it was. */
  lemma UpdateTouchesOneRecord(existing: seq<Product>, i: nat, f: Field, v: FieldValue)
    requires i < |existing|
    requires NoDup(Ids(existing))
    requires Fits(f, v)
    ensures ReplaceById(existing, SetField(existing[i], f, v)) == existing[i := SetField(existing[i], f, v)]
  {
    var u := SetField(existing[i], f, v);
    var r := ReplaceById(existing, u);
    forall j | 0 <= j < |existing| ensures r[j] == existing[i := u][j] {
      if j != i {
        assert Ids(existing)[j] != Ids(existing)[i] by {
          if j < i { assert Ids(existing)[j] != Ids(existing)[i]; }
          else { assert Ids(existing)[i] != Ids(existing)[j]; }
        }
      }
    }
  }

  /** An update keeps the table consistent: the returned record lands only
      in the list of the supplier it names. */
  lemma ReplaceKeepsConsistent(m: Table, updated: Product)
    requires Consistent(m)
    ensures Consistent(ReplaceInTable(m, updated))
  {
    var r := ReplaceInTable(m, updated);
    forall k: string, p: Product | k in r && p in r[k] ensures p.supplierId == k {
      if k == updated.supplierId {
        var l := Get(m, k);
        var i :| 0 <= i < |r[k]| && r[k][i] == p;
        assert r[k][i] == l[i] || r[k][i] == updated;
        if r[k][i] == l[i] { assert l[i] in m[k]; }
      }
    }
  }
}
