/** The bike image handlers: upload an image for a bike named in the body,
    and fetch it by path id. The image text is handled as for profile
    images: prefix stripped, base 64 decoded; fetched as a JPEG data URI. */
module BikeImageController {

  import opened Common
  import Js
  import DataUri
  import opened BikeModel

  /** The `data` of an upload answer. */
  datatype BikeImageAck = BikeImageAck(bikeId: int, brand: string, tipe: string, hasBikeImage: bool)

  /** The `data` of a fetch answer. */
  datatype BikeImageData = BikeImageData(bikeId: int, brand: string, tipe: string, imageBase64: string)

  /** JavaScript truthiness of the numeric `bikeId` body field: absent, null
      and 0 are falsy. */
  predicate PresentId(field: Option<int>)
  {
    field.Some? && field.value != 0
  }

  /** `uploadBikeImage`: both fields are required, then the bike must
      exist, then the text must decode; only that bike's image changes. */
  method UploadBikeImage(bikes: BikeTable, bikeId: Option<int>, bikeImageBase64: Option<string>)
    returns (r: Response<BikeImageAck>)
    requires bikes.Valid()
    modifies bikes
    ensures bikes.Valid() && bikes.nextId == old(bikes.nextId) && bikes.clock == old(bikes.clock)
    ensures !PresentId(bikeId) || !Present(bikeImageBase64) ==>
      r == Fail(400, "Bike ID and image data are required") && bikes.rows == old(bikes.rows)
    ensures PresentId(bikeId) && Present(bikeImageBase64) && bikeId.value !in old(bikes.rows) ==>
      r == Fail(404, "Bike not found") && bikes.rows == old(bikes.rows)
    ensures PresentId(bikeId) && Present(bikeImageBase64) && bikeId.value in old(bikes.rows)
            && DataUri.ImageBytes(bikeImageBase64.value).None? ==>
      r == Fail(400, "Invalid image format") && bikes.rows == old(bikes.rows)
    ensures PresentId(bikeId) && Present(bikeImageBase64) && bikeId.value in old(bikes.rows)
            && DataUri.ImageBytes(bikeImageBase64.value).Some? ==>
      var b := old(bikes.rows)[bikeId.value];
      r == Ok(200, "Bike image uploaded successfully", BikeImageAck(b.id, b.brand, b.tipe, true))
      && bikes.rows == old(bikes.rows)[bikeId.value := b.(bikeImage := DataUri.ImageBytes(bikeImageBase64.value))]
  {
    if !PresentId(bikeId) || !Present(bikeImageBase64) {
      return Fail(400, "Bike ID and image data are required");
    }
    if bikeId.value !in bikes.rows {
      return Fail(404, "Bike not found");
    }
    var image := DataUri.ImageBytes(bikeImageBase64.value);
    if image.None? {
      return Fail(400, "Invalid image format");
    }
    var b := bikes.rows[bikeId.value];
    bikes.SetBikeImage(bikeId.value, image);
    r := Ok(200, "Bike image uploaded successfully", BikeImageAck(b.id, b.brand, b.tipe, true));
  }

  /** `getBikeImage`: the bike named by the path, then its image; the stored
      bytes are sent back as a JPEG data URI, which decodes to them. */
  function GetBikeImage(rows: map<int, Bike>, bikeIdParam: string): (r: Response<BikeImageData>)
    ensures r.status == 200 || r.status == 404
    ensures r.Success() <==> Js.ParseInt(bikeIdParam).Some? && Js.ParseInt(bikeIdParam).value in rows
                             && rows[Js.ParseInt(bikeIdParam).value].bikeImage.Some?
    ensures r.Success() ==>
      var b := rows[Js.ParseInt(bikeIdParam).value];
      r.message == "Bike image retrieved successfully"
      && r.data.Some? && r.data.value.bikeId == b.id && r.data.value.brand == b.brand && r.data.value.tipe == b.tipe
      && r.data.value.imageBase64 == DataUri.ImageDataUri(b.bikeImage.value)
      && DataUri.ImageBytes(r.data.value.imageBase64) == b.bikeImage
    ensures Js.ParseInt(bikeIdParam).None? || Js.ParseInt(bikeIdParam).value !in rows ==>
      r == Fail(404, "Bike not found")
    ensures Js.ParseInt(bikeIdParam).Some? && Js.ParseInt(bikeIdParam).value in rows
            && rows[Js.ParseInt(bikeIdParam).value].bikeImage.None? ==>
      r == Fail(404, "Bike image not found")
  {
    var id := Js.ParseInt(bikeIdParam);
    if id.None? || id.value !in rows then Fail(404, "Bike not found")
    else
      var b := rows[id.value];
      match b.bikeImage
      case None => Fail(404, "Bike image not found")
      case Some(bytes) =>
        DataUri.ImageDataUriRoundTrip(bytes);
        Ok(200, "Bike image retrieved successfully", BikeImageData(b.id, b.brand, b.tipe, DataUri.ImageDataUri(bytes)))
  }

  /** An absent bike is reported before a missing image. */
  lemma FetchMissingBikeFirst(rows: map<int, Bike>, id: nat)
    ensures id !in rows ==> GetBikeImage(rows, Js.DecimalString(id)) == Fail(404, "Bike not found")
    ensures id in rows && rows[id].bikeImage.None? ==>
      GetBikeImage(rows, Js.DecimalString(id)) == Fail(404, "Bike image not found")
  {
    Js.ParseIntReadsDecimalPrefix(id, "");
    assert Js.DecimalString(id) + "" == Js.DecimalString(id);
  }

  /** Fetching by the decimal text of a bike's id returns the data URI of
      its stored image. */
  lemma FetchStoredBikeImage(rows: map<int, Bike>, id: nat)
    requires id in rows && rows[id].bikeImage.Some?
    ensures var b := rows[id];
      GetBikeImage(rows, Js.DecimalString(id))
        == Ok(200, "Bike image retrieved successfully",
              BikeImageData(b.id, b.brand, b.tipe, DataUri.ImageDataUri(b.bikeImage.value)))
  {
    Js.ParseIntReadsDecimalPrefix(id, "");
    assert Js.DecimalString(id) + "" == Js.DecimalString(id);
  }

  /** The text a fetch returns for a stored image is accepted by an upload
      and decodes to that image. */
  lemma FetchedBikeImageDecodes(rows: map<int, Bike>, id: nat)
    requires id in rows && rows[id].bikeImage.Some?
    ensures var fetched := GetBikeImage(rows, Js.DecimalString(id));
      fetched.data.Some? && Present(Some(fetched.data.value.imageBase64))
      && DataUri.ImageBytes(fetched.data.value.imageBase64) == rows[id].bikeImage
  {
    FetchStoredBikeImage(rows, id);
    DataUri.ImageDataUriRoundTrip(rows[id].bikeImage.value);
  }

  /** Uploading the text a fetch returned, for the same bike, leaves the
      table as it was. */
  method FetchThenUpload(bikes: BikeTable, id: nat)
    returns (r: Response<BikeImageAck>)
    requires bikes.Valid()
    requires id != 0 && id in bikes.rows && bikes.rows[id].bikeImage.Some?
    modifies bikes
    ensures r.status == 200 && bikes.rows == old(bikes.rows)
  {
    var fetched := GetBikeImage(bikes.rows, Js.DecimalString(id));
    FetchedBikeImageDecodes(bikes.rows, id);
    ghost var before := bikes.rows;
    assert PresentId(Some(id));
    r := UploadBikeImage(bikes, Some(id), Some(fetched.data.value.imageBase64));
    assert bikes.rows == before[id := before[id].(bikeImage := before[id].bikeImage)];
    assert before[id].(bikeImage := before[id].bikeImage) == before[id];
  }
}
