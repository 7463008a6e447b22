/**
 * The dataset store the upload endpoint talks to: look a dataset up by name,
 * create one, remove one, and insert a batch of records.
 *
 * A dataset owns its records. Identifiers come from a counter, so a new
 * dataset never reuses the identifier of an existing or removed one. Names
 * are not unique in the store itself: only the endpoint's lookup before
 * creating keeps them apart.
 */
module Store {
  import opened Wrappers
  import opened Rows

  datatype Dataset = Dataset(name: string, records: seq<Record>)

  /** The contents of the store, and the identifier the next dataset will get. */
  datatype StoreState = StoreState(datasets: map<DatasetId, Dataset>, nextId: DatasetId)

  /** Identifiers already handed out lie below the counter, and every record sits in the dataset it names. */
  predicate Consistent(s: StoreState)
  {
    && (forall id | id in s.datasets :: id < s.nextId)
    && (forall id, r | id in s.datasets && r in s.datasets[id].records :: r.datasetId == id)
  }

  predicate NameTaken(s: StoreState, name: string)
  {
    exists id | id in s.datasets :: s.datasets[id].name == name
  }

  /** The store after creating an empty dataset called name under the next identifier. */
  function Created(s: StoreState, name: string): (t: StoreState)
    ensures Consistent(s) ==> Consistent(t) && s.nextId !in s.datasets
    ensures t.nextId == s.nextId + 1
    ensures t.datasets.Keys == s.datasets.Keys + {s.nextId}
    ensures t.datasets[s.nextId] == Dataset(name, [])
    ensures forall id | id in s.datasets && id != s.nextId :: id in t.datasets && t.datasets[id] == s.datasets[id]
  {
    var t := StoreState(s.datasets[s.nextId := Dataset(name, [])], s.nextId + 1);
    assert Consistent(s) ==> Consistent(t) by {
      if Consistent(s) {
        forall id, r | id in t.datasets && r in t.datasets[id].records ensures r.datasetId == id {
          assert id != s.nextId;
        }
      }
    }
    t
  }

  /** The store after removing dataset id together with its records; a missing id changes nothing. */
  function Removed(s: StoreState, id: DatasetId): (t: StoreState)
    ensures Consistent(s) ==> Consistent(t)
    ensures id !in t.datasets && t.nextId == s.nextId
    ensures forall other | other in s.datasets && other != id :: other in t.datasets && t.datasets[other] == s.datasets[other]
    ensures forall other | other in t.datasets :: other in s.datasets
  {
    StoreState(s.datasets - {id}, s.nextId)
  }

  /** Every record names a dataset of the store. */
  predicate OwnersExist(s: StoreState, rows: seq<Record>)
  {
    forall r | r in rows :: r.datasetId in s.datasets
  }

  /** The datasets after appending one record to the dataset it names. */
  function AddRecord(ds: map<DatasetId, Dataset>, r: Record): map<DatasetId, Dataset>
  {
    if r.datasetId in ds then ds[r.datasetId := ds[r.datasetId].(records := ds[r.datasetId].records + [r])]
    else ds
  }

  /** The datasets after appending each record, in order, to the dataset it names. */
  function InsertAll(ds: map<DatasetId, Dataset>, rows: seq<Record>): (t: map<DatasetId, Dataset>)
    ensures t.Keys == ds.Keys
  {
    if rows == [] then ds else AddRecord(InsertAll(ds, rows[..|rows| - 1]), rows[|rows| - 1])
  }

  /** The store after a successful batch insert. */
  function Inserted(s: StoreState, rows: seq<Record>): StoreState
  {
    StoreState(InsertAll(s.datasets, rows), s.nextId)
  }

  /**
   * A batch stamped with one dataset's identifier is appended, in order, to
   * that dataset's records; names and all other datasets are untouched.
   */
  lemma {:induction false} InsertAllIntoOne(ds: map<DatasetId, Dataset>, rows: seq<Record>, id: DatasetId)
    requires id in ds
    requires forall r | r in rows :: r.datasetId == id
    ensures InsertAll(ds, rows) == ds[id := ds[id].(records := ds[id].records + rows)]
  {
    if rows != [] {
      var init := rows[..|rows| - 1];
      assert forall r | r in init :: r in rows;
      InsertAllIntoOne(ds, init, id);
      var last := rows[|rows| - 1];
      assert last in rows;
      assert rows == init + [last];
      var mid := ds[id := ds[id].(records := ds[id].records + init)];
      assert InsertAll(ds, rows) == AddRecord(mid, last);
      assert ds[id].records + init + [last] == ds[id].records + rows;
      var full := ds[id].(records := ds[id].records + rows);
      assert AddRecord(mid, last) == mid[id := full];
      assert mid[id := full] == ds[id := full];
    } else {
      assert ds[id].records + rows == ds[id].records;
      assert ds[id].(records := ds[id].records) == ds[id];
    }
  }

  /** Appending records to the datasets they name keeps the store consistent. */
  lemma {:induction false} InsertedConsistent(s: StoreState, rows: seq<Record>)
    requires Consistent(s)
    ensures Consistent(Inserted(s, rows))
  {
    if rows != [] {
      var init := rows[..|rows| - 1];
      InsertedConsistent(s, init);
      var ds := InsertAll(s.datasets, init);
      var last := rows[|rows| - 1];
      if last.datasetId in ds {
        var t := AddRecord(ds, last);
        forall id, r | id in t && r in t[id].records ensures r.datasetId == id {
          if id == last.datasetId && r !in ds[id].records {
            assert r == last;
          }
        }
      }
    }
  }

  /**
   * Creating a dataset and inserting a batch stamped with its identifier adds
   * exactly one dataset, holding the batch in order, to a consistent store.
   */
  lemma CreatedThenInserted(s: StoreState, name: string, rows: seq<Record>)
    requires Consistent(s)
    requires forall r | r in rows :: r.datasetId == s.nextId
    ensures s.nextId !in s.datasets
    ensures Consistent(Inserted(Created(s, name), rows))
    ensures Inserted(Created(s, name), rows).datasets == s.datasets[s.nextId := Dataset(name, rows)]
  {
    var id := s.nextId;
    var created := Created(s, name);
    var entry := Dataset(name, rows);
    assert Inserted(created, rows).datasets == s.datasets[id := entry] by {
      InsertAllIntoOne(created.datasets, rows, id);
      assert created.datasets[id].(records := created.datasets[id].records + rows) == entry by {
        assert created.datasets[id] == Dataset(name, []);
        assert [] + rows == rows;
      }
      assert created.datasets[id := entry] == s.datasets[id := entry];
    }
    InsertedConsistent(created, rows);
  }

  /** The store as an object whose methods change it in place, as the database does. */
  class DatasetStore {
    var datasets: map<DatasetId, Dataset>
    var nextId: DatasetId

    function State(): StoreState
      reads this
    {
      StoreState(datasets, nextId)
    }

    ghost predicate Valid()
      reads this
    {
      Consistent(State())
    }

    constructor ()
      ensures Valid() && State() == StoreState(map[], 0)
    {
      datasets := map[];
      nextId := 0;
    }

    /** `crud.dataset.get_by_name`: some dataset with that name, if there is one. */
    method GetByName(name: string) returns (found: Option<DatasetId>)
      ensures found.Some? <==> NameTaken(State(), name)
      ensures found.Some? ==> found.value in datasets && datasets[found.value].name == name
    {
      if exists id | id in datasets :: datasets[id].name == name {
        var id :| id in datasets && datasets[id].name == name;
        found := Some(id);
      } else {
        found := None;
      }
    }

    /** `crud.dataset.create`: a new, empty dataset under a fresh identifier. */
    method Create(name: string) returns (id: DatasetId)
      requires Valid()
      modifies this
      ensures Valid()
      ensures id == old(nextId) && id !in old(datasets)
      ensures State() == Created(old(State()), name)
    {
      id := nextId;
      datasets := datasets[id := Dataset(name, [])];
      nextId := nextId + 1;
    }

    /** `crud.dataset.remove`: the dataset and its records are gone. */
    method Remove(id: DatasetId)
      requires Valid()
      modifies this
      ensures Valid()
      ensures State() == Removed(old(State()), id)
    {
      datasets := datasets - {id};
    }

    /**
     * `crud.data.batch_insert`: all records or none. Whether the database
     * accepts the batch is the oracle `accepted`; a batch naming a dataset
     * that does not exist is refused as well.
     */
    method BatchInsert(rows: seq<Record>, accepted: bool) returns (ok: bool)
      requires Valid()
      modifies this
      ensures Valid()
      ensures ok == (accepted && OwnersExist(old(State()), rows))
      ensures State() == if ok then Inserted(old(State()), rows) else old(State())
    {
      ok := accepted && forall r | r in rows :: r.datasetId in datasets;
      if ok {
        InsertedConsistent(State(), rows);
        datasets := InsertAll(datasets, rows);
      }
    }
  }
}
