/** The bike catalog handlers: create a bike (without image), list all
    bikes newest first, read one bike. Every bike is answered as a summary
    whose `hasBikeImage` flag says whether an image is stored. */
module BikeController {

  import opened Common
  import Js
  import Tables
  import opened BikeModel

  datatype BikeSummary = BikeSummary(
    id: int,
    brand: string,
    tipe: string,
    deskripsi: Option<string>,
    hasBikeImage: bool,
    createdAt: int)

  /** The object literal built for each bike: the columns copied, and
      `hasBikeImage: !!bikeImage`. A stored Buffer is truthy even when it
      is empty, so the flag is set exactly when the column is not null. */
  function Summary(b: Bike): (s: BikeSummary)
    ensures s.hasBikeImage <==> b.bikeImage.Some?
    ensures s.id == b.id && s.brand == b.brand && s.tipe == b.tipe && s.deskripsi == b.deskripsi
    ensures s.createdAt == b.createdAt
  {
    BikeSummary(b.id, b.brand, b.tipe, b.deskripsi, b.bikeImage.Some?, b.createdAt)
  }

  /** `createBike`: brand and tipe must be present and not empty; the new
      bike gets a fresh id, the current time and no image. */
  method CreateBike(bikes: BikeTable, brand: Option<string>, tipe: Option<string>, deskripsi: Option<string>)
    returns (r: Response<BikeSummary>)
    requires bikes.Valid()
    modifies bikes
    ensures bikes.Valid()
    ensures !Present(brand) || !Present(tipe) ==>
      r == Fail(400, "Brand and tipe are required")
      && bikes.rows == old(bikes.rows) && bikes.nextId == old(bikes.nextId) && bikes.clock == old(bikes.clock)
    ensures Present(brand) && Present(tipe) ==>
      var b := Bike(old(bikes.nextId), brand.value, tipe.value, deskripsi, None, old(bikes.clock));
      old(bikes.nextId) !in old(bikes.rows)
      && bikes.rows == old(bikes.rows)[b.id := b]
      && r == Ok(201, "Bike created successfully", Summary(b))
      && !r.data.value.hasBikeImage
      && bikes.nextId == old(bikes.nextId) + 1 && bikes.clock == old(bikes.clock) + 1
  {
    if !Present(brand) || !Present(tipe) {
      return Fail(400, "Brand and tipe are required");
    }
    var b := bikes.Create(brand.value, tipe.value, deskripsi);
    r := Ok(201, "Bike created successfully", Summary(b));
  }

  /** The summaries of the rows with the given keys, in that order. */
  function SummaryList(rows: map<int, Bike>, ks: seq<int>): (list: seq<BikeSummary>)
    requires forall i :: 0 <= i < |ks| ==> ks[i] in rows
    ensures |list| == |ks| && forall i :: 0 <= i < |ks| ==> list[i] == Summary(rows[ks[i]])
  {
    seq(|ks|, i requires 0 <= i < |ks| => Summary(rows[ks[i]]))
  }

  /** A newest-first listing of the keys gives every bike once, newest
      first, each entry copied from its own row. */
  lemma SummaryListNewestFirst(rows: map<int, Bike>, ks: seq<int>)
    requires (forall k :: k in rows ==> rows[k].id == k)
    requires Tables.SortedNewestFirst(CreationTimes(rows), ks)
    ensures var list := SummaryList(rows, ks);
      |list| == |rows|
      && (forall i :: 0 <= i < |list| ==> list[i].id in rows && list[i] == Summary(rows[list[i].id]))
      && (forall k :: k in rows ==> exists i :: 0 <= i < |list| && list[i].id == k)
      && (forall i, j :: 0 <= i < j < |list| ==> list[i].createdAt > list[j].createdAt)
  {
    var times := CreationTimes(rows);
    var list := SummaryList(rows, ks);
    forall i | 0 <= i < |list| ensures list[i].id == ks[i] && list[i].createdAt == times[ks[i]] {
    }
    forall k | k in rows ensures exists i :: 0 <= i < |list| && list[i].id == k {
      assert k in times;
      var i :| 0 <= i < |ks| && ks[i] == k;
      assert list[i].id == k;
    }
  }

  /** `getAllBikes`: every bike, newest first, with its image flag. */
  function GetAllBikes(rows: map<int, Bike>): (r: Response<seq<BikeSummary>>)
    requires forall k :: k in rows ==> rows[k].id == k
    requires Tables.Distinct(CreationTimes(rows))
    ensures r.status == 200 && r.message == "Bikes retrieved successfully" && r.data.Some?
    ensures var list := r.data.value;
      |list| == |rows|
      && (forall i :: 0 <= i < |list| ==> list[i].id in rows && list[i] == Summary(rows[list[i].id]))
      && (forall k :: k in rows ==> exists i :: 0 <= i < |list| && list[i].id == k)
      && (forall i, j :: 0 <= i < j < |list| ==> list[i].createdAt > list[j].createdAt)
  {
    var ks := Tables.NewestFirst(CreationTimes(rows));
    SummaryListNewestFirst(rows, ks);
    Ok(200, "Bikes retrieved successfully", SummaryList(rows, ks))
  }

  /** `getBikeById`: the bike named by the path, or 404. */
  function GetBikeById(rows: map<int, Bike>, idParam: string): (r: Response<BikeSummary>)
    ensures r.status == 200 || r.status == 404
    ensures r.Success() <==> Js.ParseInt(idParam).Some? && Js.ParseInt(idParam).value in rows
    ensures !r.Success() ==> r == Fail(404, "Bike not found")
    ensures r.Success() ==> r == Ok(200, "Bike retrieved successfully", Summary(rows[Js.ParseInt(idParam).value]))
  {
    var id := Js.ParseInt(idParam);
    if id.None? || id.value !in rows then Fail(404, "Bike not found")
    else Ok(200, "Bike retrieved successfully", Summary(rows[id.value]))
  }

  /** A bike just created comes first in the list, without image. */
  lemma CreatedBikeIsListedFirst(rows: map<int, Bike>, nextId: int, clock: int, b: Bike)
    requires WellFormed(rows, nextId, clock)
    requires b.id == nextId && b.createdAt == clock && b.bikeImage.None?
    ensures WellFormed(rows[nextId := b], nextId + 1, clock + 1)
    ensures var r := GetAllBikes(rows[nextId := b]);
      |r.data.value| == |rows| + 1 && r.data.value[0] == Summary(b) && !r.data.value[0].hasBikeImage
  {
    var after := rows[nextId := b];
    InsertKeepsWellFormed(rows, nextId, clock, b);
    var times := CreationTimes(after);
    assert Tables.IsNewest(times, nextId);
    Tables.NewestComesFirst(times, nextId);
  }

  /** A bike just created can be read back by its id. */
  lemma CreatedBikeIsReadable(rows: map<int, Bike>, nextId: nat, b: Bike)
    requires b.id == nextId
    ensures GetBikeById(rows[nextId := b], Js.DecimalString(nextId)) == Ok(200, "Bike retrieved successfully", Summary(b))
  {
    Js.ParseIntReadsDecimalPrefix(nextId, "");
    assert Js.DecimalString(nextId) + "" == Js.DecimalString(nextId);
  }
}
