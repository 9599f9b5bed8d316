/**
 * The abstract table behind both repositories: rows keyed by their string ID, each
 * with a soft-delete mark (GORM's `DeletedAt`). Default-scoped reads see only the
 * rows that are not marked; `Unscoped` reads see all of them.
 *
 * `FirstOrCreate` under `Where(Record{ID: id})` is first-write-wins: a live row with
 * the ID is returned as it is and the submitted fields are dropped; with no row at all
 * the record is inserted. A soft-deleted row is invisible to the lookup, so the insert
 * is attempted and is refused by the unique ID column: a conflict, nothing stored.
 */
module Store {

  datatype Stored<R> = Stored(rec: R, deleted: bool)

  type Table<R> = map<string, Stored<R>>

  /** A row with this ID exists and is not soft-deleted. */
  predicate Live<R>(t: Table<R>, id: string) {
    id in t && !t[id].deleted
  }

  /** Every row is stored under the ID `key` gives its record. */
  ghost predicate Keyed<R>(t: Table<R>, key: R -> string) {
    forall id :: id in t ==> key(t[id].rec) == id
  }

  /** Default-scoped read: the records of the live rows. */
  function LiveRecords<R(==)>(t: Table<R>): (rs: set<R>)
    ensures forall id :: Live(t, id) ==> t[id].rec in rs
    ensures forall r :: r in rs ==> exists id :: Live(t, id) && t[id].rec == r
  {
    set id | id in t && !t[id].deleted :: t[id].rec
  }

  /** `Unscoped` read: the records of all rows, soft-deleted or not. */
  function AllRecords<R(==)>(t: Table<R>): (rs: set<R>)
    ensures forall id :: id in t ==> t[id].rec in rs
    ensures forall r :: r in rs ==> exists id :: id in t && t[id].rec == r
  {
    set id | id in t :: t[id].rec
  }

  /** What `FirstOrCreate` did. */
  datatype Upserted = Found | Created | Conflict

  /** `Where(Record{ID: id}).Attrs(r).FirstOrCreate(&r)`. */
  function FirstOrCreate<R>(t: Table<R>, id: string, r: R): (res: (Table<R>, Upserted))
    ensures res.0.Keys == t.Keys + {id}
    ensures forall k :: k in t ==> res.0[k] == t[k]
    ensures id !in t ==> res.0[id] == Stored(r, false)
    ensures res.1 == Found <==> Live(t, id)
    ensures res.1 == Conflict <==> id in t && t[id].deleted
  {
    if Live(t, id) then (t, Found)
    else if id in t then (t, Conflict)
    else (t[id := Stored(r, false)], Created)
  }

  /** A bulk load: `FirstOrCreate` for each record in turn, every per-record outcome discarded. */
  function InsertAll<R>(t: Table<R>, rs: seq<R>, key: R -> string): Table<R>
    decreases |rs|
  {
    if |rs| == 0 then t else InsertAll(FirstOrCreate(t, key(rs[0]), rs[0]).0, rs[1..], key)
  }

  /** The IDs of a sequence of records. */
  function Keys<R>(rs: seq<R>, key: R -> string): (ks: set<string>)
    ensures forall i :: 0 <= i < |rs| ==> key(rs[i]) in ks
    ensures forall k :: k in ks ==> exists i :: 0 <= i < |rs| && key(rs[i]) == k
  {
    set i | 0 <= i < |rs| :: key(rs[i])
  }

  /**
   * A bulk load never changes a row that was already there, and afterwards every
   * loaded ID has a row; rows it adds are live and hold one of the loaded records.
   */
  lemma {:induction false} InsertAllEffect<R>(t: Table<R>, rs: seq<R>, key: R -> string)
    ensures InsertAll(t, rs, key).Keys == t.Keys + Keys(rs, key)
    ensures forall k :: k in t ==> InsertAll(t, rs, key)[k] == t[k]
    ensures forall k :: k in InsertAll(t, rs, key) && k !in t ==>
      !InsertAll(t, rs, key)[k].deleted && InsertAll(t, rs, key)[k].rec in rs
    ensures Keyed(t, key) ==> Keyed(InsertAll(t, rs, key), key)
    decreases |rs|
  {
    if |rs| > 0 {
      var t1 := FirstOrCreate(t, key(rs[0]), rs[0]).0;
      InsertAllEffect(t1, rs[1..], key);
      assert Keys(rs, key) == {key(rs[0])} + Keys(rs[1..], key) by {
        forall k | k in Keys(rs, key) ensures k in {key(rs[0])} + Keys(rs[1..], key) {
          var i :| 0 <= i < |rs| && key(rs[i]) == k;
          if i > 0 {
            assert key(rs[1..][i - 1]) == k;
          }
        }
      }
      forall k | k in InsertAll(t, rs, key) && k !in t
        ensures InsertAll(t, rs, key)[k].rec in rs
      {
        if k in t1 {
          assert t1[k].rec == rs[0];
        } else {
          assert InsertAll(t, rs, key)[k].rec in rs[1..];
        }
      }
    }
  }

  /** Loading records whose IDs all have rows already changes nothing. */
  lemma {:induction false} InsertAllPresent<R>(t: Table<R>, rs: seq<R>, key: R -> string)
    requires forall i :: 0 <= i < |rs| ==> key(rs[i]) in t
    ensures InsertAll(t, rs, key) == t
    decreases |rs|
  {
    if |rs| > 0 {
      assert FirstOrCreate(t, key(rs[0]), rs[0]).0 == t;
      InsertAllPresent(t, rs[1..], key);
    }
  }

  /** Loading the same records a second time gives the table the first load gave. */
  lemma InsertAllIdempotent<R>(t: Table<R>, rs: seq<R>, key: R -> string)
    ensures InsertAll(InsertAll(t, rs, key), rs, key) == InsertAll(t, rs, key)
  {
    InsertAllEffect(t, rs, key);
    InsertAllPresent(InsertAll(t, rs, key), rs, key);
  }

  /**
   * First write wins: for an ID with no row yet, the stored record is the first
   * record in the load that carries that ID.
   */
  lemma {:induction false} InsertAllFirstWins<R>(t: Table<R>, rs: seq<R>, key: R -> string, i: nat)
    requires i < |rs| && key(rs[i]) !in t
    requires forall j :: 0 <= j < i ==> key(rs[j]) != key(rs[i])
    ensures key(rs[i]) in InsertAll(t, rs, key)
    ensures InsertAll(t, rs, key)[key(rs[i])] == Stored(rs[i], false)
    decreases |rs|
  {
    var t1 := FirstOrCreate(t, key(rs[0]), rs[0]).0;
    if i == 0 {
      InsertAllEffect(t1, rs[1..], key);
    } else {
      InsertAllFirstWins(t1, rs[1..], key, i - 1);
    }
  }
}
