/** The status store's data-access operations (MediaStatusDao.kt): the
    table is a map from content hash to record; queries read it, `update`,
    `insert` and `delete` change it in place. */
module Dao {
  import opened Wrappers
  import opened Photos
  import opened MediaStatuses

  type Table = map<string, MediaStatus>

  /** `findByHash` over a table value: the row stored under `hash`, or none. */
  function Lookup(table: Table, hash: string): (r: Option<MediaStatus>)
    ensures r.Some? <==> hash in table
    ensures r.Some? ==> r.value == table[hash]
  {
    if hash in table then Some(table[hash]) else None
  }

  /** The answers `findByMediaStoreId(id)` may give: with `LIMIT 1` and no
      ordering, any one row carrying that id, or none when no row does. */
  ghost predicate IdAnswer(table: Table, id: int, r: Option<MediaStatus>)
  {
    match r
    case None => forall h :: h in table ==> table[h].mediaStoreId != id
    case Some(x) => x.fileHash in table && table[x.fileHash] == x && x.mediaStoreId == id
  }

  /** `@Update`: replaces the row whose primary key is `r.fileHash`; a record
      with no stored row changes nothing. */
  function Updated(table: Table, r: MediaStatus): (t: Table)
    ensures r.fileHash in table ==> r.fileHash in t && t[r.fileHash] == r
    ensures t.Keys == table.Keys
    ensures forall h :: h in table && h != r.fileHash ==> t[h] == table[h]
    ensures r.fileHash !in table ==> t == table
  {
    if r.fileHash in table then table[r.fileHash := r] else table
  }

  /** `@Insert(onConflict = REPLACE)`: afterwards the row under `r.fileHash`
      is exactly `r`, whether or not one was there before. */
  function Inserted(table: Table, r: MediaStatus): (t: Table)
    ensures r.fileHash in t && t[r.fileHash] == r
    ensures t.Keys == table.Keys + {r.fileHash}
    ensures forall h :: h in table && h != r.fileHash ==> t[h] == table[h]
  {
    table[r.fileHash := r]
  }

  /** `@Delete`: removes the row keyed by `r.fileHash` and nothing else. */
  function Removed(table: Table, r: MediaStatus): (t: Table)
    ensures t.Keys == table.Keys - {r.fileHash}
    ensures forall h :: h in t ==> t[h] == table[h]
  {
    table - {r.fileHash}
  }

  /** Successive `update` calls, one per record, in order. */
  function UpdatedAll(table: Table, rs: seq<MediaStatus>): (t: Table)
    ensures t.Keys == table.Keys
    decreases |rs|
  {
    if rs == [] then table else Updated(UpdatedAll(table, rs[..|rs| - 1]), rs[|rs| - 1])
  }

  /** The rows `getSizeBetweenDates(firstDate, secondDate, status)` selects:
      the given status and a modification date inside the closed range, as
      SQL BETWEEN has it. */
  ghost function Selected(table: Table, firstDate: int, secondDate: int, status: PhotoStatus): set<string>
  {
    set h | h in table && table[h].status == status && firstDate <= table[h].dateModified <= secondDate
  }

  /** The total size of the rows under the keys `ks`. */
  ghost function SizeSum(table: Table, ks: set<string>): int
    requires ks <= table.Keys
    decreases ks
  {
    if ks == {} then 0 else var h :| h in ks; table[h].size + SizeSum(table, ks - {h})
  }

  /** The sum does not depend on which key is taken first. */
  lemma {:induction false} SizeSumRemove(table: Table, ks: set<string>, k: string)
    requires ks <= table.Keys && k in ks
    ensures SizeSum(table, ks) == table[k].size + SizeSum(table, ks - {k})
    decreases ks
  {
    var h :| h in ks && SizeSum(table, ks) == table[h].size + SizeSum(table, ks - {h});
    if h != k {
      SizeSumRemove(table, ks - {h}, k);
      SizeSumRemove(table, ks - {k}, h);
      assert ks - {h} - {k} == ks - {k} - {h};
    }
  }

  /** The sum reads only the sizes of the rows it adds up. */
  lemma {:induction false} SizeSumSameSizes(t: Table, u: Table, ks: set<string>)
    requires ks <= t.Keys && ks <= u.Keys
    requires forall h :: h in ks ==> t[h].size == u[h].size
    ensures SizeSum(t, ks) == SizeSum(u, ks)
    decreases ks
  {
    if ks != {} {
      var h :| h in ks;
      SizeSumRemove(t, ks, h);
      SizeSumRemove(u, ks, h);
      SizeSumSameSizes(t, u, ks - {h});
    }
  }

  /** `List<Long>.sum()`. */
  function Sum(xs: seq<int>): int
    decreases |xs|
  {
    if xs == [] then 0 else Sum(xs[..|xs| - 1]) + xs[|xs| - 1]
  }

  /** An enumeration of distinct keys, as a query returns them, adds up to
      the same total as the set of those keys. */
  lemma {:induction false} SumOfEnumeration(table: Table, keys: seq<string>, sizes: seq<int>)
    requires |keys| == |sizes|
    requires forall i :: 0 <= i < |keys| ==> keys[i] in table && sizes[i] == table[keys[i]].size
    requires forall i, j :: 0 <= i < j < |keys| ==> keys[i] != keys[j]
    ensures (set k | k in keys) <= table.Keys
    ensures Sum(sizes) == SizeSum(table, set k | k in keys)
    decreases |keys|
  {
    if keys != [] {
      var n := |keys| - 1;
      var ks := set k | k in keys;
      var ks' := set k | k in keys[..n];
      SumOfEnumeration(table, keys[..n], sizes[..n]);
      assert ks' == ks - {keys[n]} by {
        forall k | k in ks ensures k in ks' <==> k != keys[n] {
          if k != keys[n] {
            var i :| 0 <= i < |keys| && keys[i] == k;
            assert keys[..n][i] == k;
          }
        }
      }
      SizeSumRemove(table, ks, keys[n]);
    }
  }

  /** A sequence without repetitions has as many elements as its set. */
  lemma {:induction false} DistinctCardinality(keys: seq<string>)
    requires forall i, j :: 0 <= i < j < |keys| ==> keys[i] != keys[j]
    ensures |set k | k in keys| == |keys|
    decreases |keys|
  {
    if keys != [] {
      var n := |keys| - 1;
      DistinctCardinality(keys[..n]);
      assert (set k | k in keys) == (set k | k in keys[..n]) + {keys[n]};
      assert keys[n] !in keys[..n];
    }
  }

  /** The status store. `table` is the whole `mediaStatus` table. */
  class MediaStatusDao {
    var table: Table

    ghost predicate Valid()
      reads this
    {
      KeyedByHash(table)
    }

    constructor (initial: Table)
      requires KeyedByHash(initial)
      ensures Valid() && table == initial
    {
      table := initial;
    }

    /** `findByHash`, as a query over the current table. */
    function FindByHash(hash: string): (r: Option<MediaStatus>)
      reads this
      requires Valid()
      ensures r.Some? <==> hash in table
      ensures r.Some? ==> r.value == table[hash] && r.value.fileHash == hash
    {
      Lookup(table, hash)
    }

    /** `findByMediaStoreId`: some row carrying `id`, or none if no row does.
        Which of several matching rows comes back is not determined. */
    method FindByMediaStoreId(id: int) returns (r: Option<MediaStatus>)
      requires Valid()
      ensures IdAnswer(table, id, r)
      ensures r.None? <==> forall h :: h in table ==> table[h].mediaStoreId != id
    {
      if h :| h in table && table[h].mediaStoreId == id {
        r := Some(table[h]);
      } else {
        r := None;
      }
    }

    /** `getSizeBetweenDates`: the sizes of exactly the selected rows, one
        per row, in no particular order; `keys` names the row of each size. */
    method GetSizeBetweenDates(firstDate: int, secondDate: int, status: PhotoStatus)
      returns (sizes: seq<int>, ghost keys: seq<string>)
      ensures |sizes| == |keys|
      ensures forall i :: 0 <= i < |keys| ==> keys[i] in table && sizes[i] == table[keys[i]].size
      ensures forall i, j :: 0 <= i < j < |keys| ==> keys[i] != keys[j]
      ensures forall h :: h in keys <==> h in Selected(table, firstDate, secondDate, status)
      ensures |sizes| == |Selected(table, firstDate, secondDate, status)|
      ensures Sum(sizes) == SizeSum(table, Selected(table, firstDate, secondDate, status))
    {
      sizes, keys := [], [];
      var rest := table.Keys;
      while rest != {}
        invariant rest <= table.Keys
        invariant |sizes| == |keys|
        invariant forall i :: 0 <= i < |keys| ==> keys[i] in table && keys[i] !in rest && sizes[i] == table[keys[i]].size
        invariant forall i, j :: 0 <= i < j < |keys| ==> keys[i] != keys[j]
        invariant forall h :: h in keys <==> h !in rest && h in Selected(table, firstDate, secondDate, status)
        decreases rest
      {
        var h :| h in rest;
        var r := table[h];
        if r.status == status && firstDate <= r.dateModified <= secondDate {
          sizes, keys := sizes + [r.size], keys + [h];
        }
        rest := rest - {h};
      }
      SumOfEnumeration(table, keys, sizes);
      assert (set k | k in keys) == Selected(table, firstDate, secondDate, status);
      DistinctCardinality(keys);
    }

    method Update(r: MediaStatus)
      requires Valid()
      modifies this
      ensures Valid()
      ensures table == Updated(old(table), r)
    {
      if r.fileHash in table {
        table := table[r.fileHash := r];
      }
    }

    method Insert(r: MediaStatus)
      requires Valid()
      modifies this
      ensures Valid()
      ensures table == Inserted(old(table), r)
    {
      table := table[r.fileHash := r];
    }

    method Delete(r: MediaStatus)
      requires Valid()
      modifies this
      ensures Valid()
      ensures table == Removed(old(table), r)
    {
      table := table - {r.fileHash};
    }
  }
}
