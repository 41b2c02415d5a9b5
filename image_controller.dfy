/** The profile image handlers: upload (for the caller named by the token),
    fetch (public, by path id), replace and clear (only one's own image).
    Each runs its checks in a fixed order and answers at the first that
    fails; the table changes only on success. */
module ImageController {

  import opened Common
  import Js
  import DataUri
  import opened UserModel

  /** The `data` of upload, replace and clear answers. */
  datatype ImageAck = ImageAck(userId: int, username: string, hasProfileImage: bool)

  /** The `data` of a fetch answer. */
  datatype ImageData = ImageData(userId: int, imageBase64: string)

  /** `uploadProfileImage`: the caller's id comes from the token, never from
      the path. Missing input is checked before the user lookup, and text
      that does not decode is refused without a change. */
  method UploadProfileImage(users: UserTable, callerId: int, imageBase64: Option<string>)
    returns (r: Response<ImageAck>)
    requires users.Valid()
    modifies users
    ensures users.Valid()
    ensures !Present(imageBase64) ==>
      r == Fail(400, "Image data is required") && users.rows == old(users.rows)
    ensures Present(imageBase64) && callerId !in old(users.rows) ==>
      r == Fail(404, "User not found") && users.rows == old(users.rows)
    ensures Present(imageBase64) && callerId in old(users.rows) && DataUri.ImageBytes(imageBase64.value).None? ==>
      r == Fail(400, "Invalid image format") && users.rows == old(users.rows)
    ensures Present(imageBase64) && callerId in old(users.rows) && DataUri.ImageBytes(imageBase64.value).Some? ==>
      var u := old(users.rows)[callerId];
      r == Ok(200, "Profile image uploaded successfully", ImageAck(callerId, u.username, true))
      && users.rows == old(users.rows)[callerId := u.(profileImage := DataUri.ImageBytes(imageBase64.value))]
  {
    if !Present(imageBase64) {
      return Fail(400, "Image data is required");
    }
    if callerId !in users.rows {
      return Fail(404, "User not found");
    }
    var image := DataUri.ImageBytes(imageBase64.value);
    if image.None? {
      return Fail(400, "Invalid image format");
    }
    var username := users.rows[callerId].username;
    users.SetProfileImage(callerId, image);
    r := Ok(200, "Profile image uploaded successfully", ImageAck(callerId, username, true));
  }

  /** `getProfileImage`: the user named by the path, then the image; the
      stored bytes are sent back as a JPEG data URI, which decodes to them. */
  function GetProfileImage(rows: map<int, User>, userIdParam: string): (r: Response<ImageData>)
    ensures r.status == 200 || r.status == 404
    ensures r.Success() <==> Js.ParseInt(userIdParam).Some? && Js.ParseInt(userIdParam).value in rows
                             && rows[Js.ParseInt(userIdParam).value].profileImage.Some?
    ensures r.Success() ==> r.message == "Profile image retrieved successfully"
                            && r.data.Some? && r.data.value.userId == Js.ParseInt(userIdParam).value
                            && r.data.value.imageBase64 == DataUri.ImageDataUri(rows[r.data.value.userId].profileImage.value)
                            && DataUri.ImageBytes(r.data.value.imageBase64) == rows[r.data.value.userId].profileImage
    ensures Js.ParseInt(userIdParam).None? || Js.ParseInt(userIdParam).value !in rows ==>
      r == Fail(404, "User not found")
    ensures Js.ParseInt(userIdParam).Some? && Js.ParseInt(userIdParam).value in rows
            && rows[Js.ParseInt(userIdParam).value].profileImage.None? ==>
      r == Fail(404, "Profile image not found")
  {
    var id := Js.ParseInt(userIdParam);
    if id.None? || id.value !in rows then Fail(404, "User not found")
    else
      match rows[id.value].profileImage
      case None => Fail(404, "Profile image not found")
      case Some(bytes) =>
        DataUri.ImageDataUriRoundTrip(bytes);
        Ok(200, "Profile image retrieved successfully", ImageData(id.value, DataUri.ImageDataUri(bytes)))
  }

  /** `updateProfileImage`: the ownership check comes first, before the
      input is even looked at; then as for an upload. */
  method UpdateProfileImage(users: UserTable, callerId: int, userIdParam: string, imageBase64: Option<string>)
    returns (r: Response<ImageAck>)
    requires users.Valid()
    modifies users
    ensures users.Valid()
    ensures Js.ParseInt(userIdParam) != Some(callerId) ==>
      r == Fail(403, "Access denied. You can only update your own profile image.") && users.rows == old(users.rows)
    ensures Js.ParseInt(userIdParam) == Some(callerId) && !Present(imageBase64) ==>
      r == Fail(400, "Image data is required") && users.rows == old(users.rows)
    ensures Js.ParseInt(userIdParam) == Some(callerId) && Present(imageBase64) && callerId !in old(users.rows) ==>
      r == Fail(404, "User not found") && users.rows == old(users.rows)
    ensures Js.ParseInt(userIdParam) == Some(callerId) && Present(imageBase64) && callerId in old(users.rows)
            && DataUri.ImageBytes(imageBase64.value).None? ==>
      r == Fail(400, "Invalid image format") && users.rows == old(users.rows)
    ensures Js.ParseInt(userIdParam) == Some(callerId) && Present(imageBase64) && callerId in old(users.rows)
            && DataUri.ImageBytes(imageBase64.value).Some? ==>
      var u := old(users.rows)[callerId];
      r == Ok(200, "Profile image updated successfully", ImageAck(callerId, u.username, true))
      && users.rows == old(users.rows)[callerId := u.(profileImage := DataUri.ImageBytes(imageBase64.value))]
  {
    if Js.ParseInt(userIdParam) != Some(callerId) {
      return Fail(403, "Access denied. You can only update your own profile image.");
    }
    if !Present(imageBase64) {
      return Fail(400, "Image data is required");
    }
    if callerId !in users.rows {
      return Fail(404, "User not found");
    }
    var image := DataUri.ImageBytes(imageBase64.value);
    if image.None? {
      return Fail(400, "Invalid image format");
    }
    var username := users.rows[callerId].username;
    users.SetProfileImage(callerId, image);
    r := Ok(200, "Profile image updated successfully", ImageAck(callerId, username, true));
  }

  /** `deleteProfileImage`: ownership, then the user lookup; the image
      becomes null and nothing else changes. */
  method DeleteProfileImage(users: UserTable, callerId: int, userIdParam: string)
    returns (r: Response<ImageAck>)
    requires users.Valid()
    modifies users
    ensures users.Valid()
    ensures Js.ParseInt(userIdParam) != Some(callerId) ==>
      r == Fail(403, "Access denied. You can only delete your own profile image.") && users.rows == old(users.rows)
    ensures Js.ParseInt(userIdParam) == Some(callerId) && callerId !in old(users.rows) ==>
      r == Fail(404, "User not found") && users.rows == old(users.rows)
    ensures Js.ParseInt(userIdParam) == Some(callerId) && callerId in old(users.rows) ==>
      var u := old(users.rows)[callerId];
      r == Ok(200, "Profile image deleted successfully", ImageAck(callerId, u.username, false))
      && users.rows == old(users.rows)[callerId := u.(profileImage := None)]
  {
    if Js.ParseInt(userIdParam) != Some(callerId) {
      return Fail(403, "Access denied. You can only delete your own profile image.");
    }
    if callerId !in users.rows {
      return Fail(404, "User not found");
    }
    var username := users.rows[callerId].username;
    users.SetProfileImage(callerId, None);
    r := Ok(200, "Profile image deleted successfully", ImageAck(callerId, username, false));
  }

  /** After an image is stored for a user, fetching by the user's id gives
      the data URI of exactly those bytes; uploading that text again would
      store the same bytes. */
  lemma FetchAfterUpload(rows: map<int, User>, id: nat, input: string)
    requires id in rows && DataUri.ImageBytes(input).Some?
    ensures var after := rows[id := rows[id].(profileImage := DataUri.ImageBytes(input))];
      var r := GetProfileImage(after, Js.DecimalString(id));
      r == Ok(200, "Profile image retrieved successfully",
              ImageData(id, DataUri.ImageDataUri(DataUri.ImageBytes(input).value)))
      && DataUri.ImageBytes(r.data.value.imageBase64) == DataUri.ImageBytes(input)
  {
    Js.ParseIntReadsDecimalPrefix(id, "");
    assert Js.DecimalString(id) + "" == Js.DecimalString(id);
  }

  /** After the image is cleared, a fetch answers "Profile image not found";
      a fetch for an absent user answers "User not found" first. */
  lemma FetchAfterDelete(rows: map<int, User>, id: nat)
    ensures id in rows ==>
      GetProfileImage(rows[id := rows[id].(profileImage := None)], Js.DecimalString(id))
        == Fail(404, "Profile image not found")
    ensures id !in rows ==> GetProfileImage(rows, Js.DecimalString(id)) == Fail(404, "User not found")
  {
    Js.ParseIntReadsDecimalPrefix(id, "");
    assert Js.DecimalString(id) + "" == Js.DecimalString(id);
  }

  /** A path id without any digit names no user. */
  lemma FetchWithoutDigits(rows: map<int, User>, userIdParam: string)
    requires forall i :: 0 <= i < |userIdParam| ==> !Js.IsDecimalDigit(userIdParam[i])
    ensures GetProfileImage(rows, userIdParam) == Fail(404, "User not found")
  {
    Js.ParseIntWithoutDigits(userIdParam);
  }

  /** Fetching by the decimal text of a user's id returns the data URI of
      that user's stored image. */
  lemma FetchStoredImage(rows: map<int, User>, id: nat)
    requires id in rows && rows[id].profileImage.Some?
    ensures GetProfileImage(rows, Js.DecimalString(id))
      == Ok(200, "Profile image retrieved successfully", ImageData(id, DataUri.ImageDataUri(rows[id].profileImage.value)))
  {
    Js.ParseIntReadsDecimalPrefix(id, "");
    assert Js.DecimalString(id) + "" == Js.DecimalString(id);
  }

  /** The text a fetch returns for a stored image is accepted by an update
      and decodes to that image. */
  lemma FetchedImageDecodes(rows: map<int, User>, id: nat)
    requires id in rows && rows[id].profileImage.Some?
    ensures var fetched := GetProfileImage(rows, Js.DecimalString(id));
      Js.ParseInt(Js.DecimalString(id)) == Some(id)
      && fetched.data.Some? && Present(Some(fetched.data.value.imageBase64))
      && DataUri.ImageBytes(fetched.data.value.imageBase64) == rows[id].profileImage
  {
    Js.ParseIntReadsDecimalPrefix(id, "");
    assert Js.DecimalString(id) + "" == Js.DecimalString(id);
    FetchStoredImage(rows, id);
    DataUri.ImageDataUriRoundTrip(rows[id].profileImage.value);
  }

  /** Replacing an image with the text a fetch returned leaves the table as
      it was. */
  method FetchThenUpdate(users: UserTable, callerId: nat)
    returns (r: Response<ImageAck>)
    requires users.Valid()
    requires callerId in users.rows && users.rows[callerId].profileImage.Some?
    modifies users
    ensures r.status == 200 && users.rows == old(users.rows)
  {
    var param := Js.DecimalString(callerId);
    var fetched := GetProfileImage(users.rows, param);
    FetchedImageDecodes(users.rows, callerId);
    ghost var before := users.rows;
    r := UpdateProfileImage(users, callerId, param, Some(fetched.data.value.imageBase64));
    assert users.rows == before[callerId := before[callerId].(profileImage := before[callerId].profileImage)];
    assert before[callerId].(profileImage := before[callerId].profileImage) == before[callerId];
  }
}
