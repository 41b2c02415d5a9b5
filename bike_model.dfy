/** The `bikes` table: id, brand, tipe (model name), an optional deskripsi
    (description), an optional bike image (a nullable long BLOB) and the
    creation time. Ids come from an auto-increment counter and creation times
    from a clock that moves forward with every insert. */
module BikeModel {

  import opened Common
  import Tables

  datatype Bike = Bike(
    id: int,
    brand: string,
    tipe: string,
    deskripsi: Option<string>,
    bikeImage: Option<seq<byte>>,
    createdAt: int)

  function CreatedAt(b: Bike): int { b.createdAt }

  /** The bikes table seen through its creation times. */
  function CreationTimes(rows: map<int, Bike>): map<int, int>
  {
    Tables.CreationTimes(rows, CreatedAt)
  }

  /** Every row is stored under its own id, ids lie below the next
      auto-increment value, creation times lie before the clock and no two
      rows share one. */
  predicate WellFormed(rows: map<int, Bike>, nextId: int, clock: int)
  {
    (forall k :: k in rows ==> rows[k].id == k && k < nextId && rows[k].createdAt < clock)
    && Tables.Distinct(CreationTimes(rows))
  }

  /** Adding a row with a fresh id, created now, keeps the table well formed
      once the counter and the clock move on. */
  lemma InsertKeepsWellFormed(rows: map<int, Bike>, nextId: int, clock: int, b: Bike)
    requires WellFormed(rows, nextId, clock)
    requires b.id == nextId && b.createdAt == clock
    ensures nextId !in rows
    ensures WellFormed(rows[nextId := b], nextId + 1, clock + 1)
  {
    var times := CreationTimes(rows[nextId := b]);
    forall x, y | x in times && y in times && x != y
      ensures times[x] != times[y]
    {
      if x != nextId && y != nextId {
        assert times[x] == CreationTimes(rows)[x] && times[y] == CreationTimes(rows)[y];
      }
    }
  }

  /** Changing a row's image keeps the table well formed. */
  lemma SetImageKeepsWellFormed(rows: map<int, Bike>, nextId: int, clock: int, id: int, image: Option<seq<byte>>)
    requires WellFormed(rows, nextId, clock) && id in rows
    ensures WellFormed(rows[id := rows[id].(bikeImage := image)], nextId, clock)
  {
    assert CreationTimes(rows[id := rows[id].(bikeImage := image)]) == CreationTimes(rows);
  }

  /** The table, updated in place by the handlers. */
  class BikeTable {
    var rows: map<int, Bike>
    var nextId: int
    var clock: int

    predicate Valid()
      reads this
    {
      WellFormed(rows, nextId, clock)
    }

    constructor (initial: map<int, Bike>, nextId: int, clock: int)
      requires WellFormed(initial, nextId, clock)
      ensures Valid() && rows == initial && this.nextId == nextId && this.clock == clock
    {
      rows := initial;
      this.nextId := nextId;
      this.clock := clock;
    }

    /** `Bike.create({brand, tipe, deskripsi, bikeImage: null})`: the new
        row gets the next id and the current time; the old rows stay. */
    method Create(brand: string, tipe: string, deskripsi: Option<string>) returns (b: Bike)
      requires Valid()
      modifies this
      ensures Valid()
      ensures b == Bike(old(nextId), brand, tipe, deskripsi, None, old(clock))
      ensures b.id !in old(rows) && rows == old(rows)[b.id := b]
      ensures nextId == old(nextId) + 1 && clock == old(clock) + 1
    {
      b := Bike(nextId, brand, tipe, deskripsi, None, clock);
      InsertKeepsWellFormed(rows, nextId, clock, b);
      rows := rows[nextId := b];
      nextId := nextId + 1;
      clock := clock + 1;
    }

    /** `bike.update({bikeImage: image})` on the row with this id. */
    method SetBikeImage(id: int, image: Option<seq<byte>>)
      requires Valid() && id in rows
      modifies this
      ensures Valid()
      ensures rows == old(rows)[id := old(rows)[id].(bikeImage := image)]
      ensures nextId == old(nextId) && clock == old(clock)
    {
      SetImageKeepsWellFormed(rows, nextId, clock, id, image);
      rows := rows[id := rows[id].(bikeImage := image)];
    }
  }
}
