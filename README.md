# GSportbikes backend: request handlers over the user and bike tables

This project is a Dafny model of the request handlers of the GSportbikes
backend, an Express and Sequelize service for a motorcycle catalogue. The
handlers covered are:

- the profile-image handlers (upload, fetch, replace and clear one optional
  image per user);
- the user handlers (list, read, partial update, delete);
- the bike catalogue handlers (create, list newest first, read);
- the bike-image handlers (upload and fetch);
- the bearer-token guard `verifyToken` that sits in front of the
  authenticated routes.

Each database table is a map `id -> record`, held in a class (`UserTable`,
`BikeTable`) whose methods update it in place as `user.update`,
`user.destroy` and `Bike.create` do. Handlers that write are methods.
Read-only handlers are functions of the rows. Every handler answers with a
status code and the `{success, message, data}` envelope (`Response`). Its
contract states, branch by branch in the source's order, which status
and message it gives and what the table becomes.

The string machinery the handlers rely on is modelled and proved:

- base 64 (section 4 of RFC 4648), proved to be a bijection between byte
  strings and well-formed text;
- removal of the `data:image/<letters>;base64,` prefix;
- the JPEG data URI that fetches return, proved to read back to the stored
  bytes;
- JavaScript's `parseInt` of a path id and `split(" ")` of the
  Authorization header;
- the e-mail regular expression, as an automaton proved to accept exactly
  that expression's language;
- the `createdAt DESC` ordering of the list queries, proved to be the only
  listing of a table by descending creation time.

Password hashing (`bcrypt.hash`) and token verification (`jwt.verify`) are
function-typed parameters. The id of the authenticated caller (`req.user.id`)
is a parameter of the handlers behind `verifyToken`.

Files: `common.dfy` (envelope, options, bytes), `js.dfy`, `base64.dfy`,
`data_uri.dfy`, `email.dfy`, `tables.dfy`, `user_model.dfy`,
`bike_model.dfy`, `auth_middleware.dfy`, `mysql_text.dfy` (MySQL's reading
of text compared with an integer column), `image_controller.dfy`,
`user_controller.dfy`, `bike_controller.dfy`, `bike_image_controller.dfy`.

## Model

| member | source | states |
|---|---|---|
| Common.Present | backend/controllers/imageController.js:10 | a field is truthy if and only if it is present and non-empty text |
| Base64.ToSextets | backend/controllers/imageController.js:88 | every sextet is an alphabet index or the pad mark, four for each started group of three bytes |
| Base64.FromSextets | backend/controllers/imageController.js:31 | only a whole number of four-sextet groups reads back as bytes |
| Base64.Encode | backend/controllers/imageController.js:88 | `toString("base64")` gives four characters per started group of three bytes, each from the alphabet or "=" |
| Base64.Decode | backend/controllers/imageController.js:31 | only text of whole four-character groups of alphabet characters and "=" decodes |
| Base64.SextetsRoundTrip | backend/controllers/imageController.js:31 | reading back the sextets of any byte string gives that byte string |
| Base64.SextetsCanonical | backend/controllers/imageController.js:31 | sextets that read back as bytes b are exactly the sextets of b, so there is no second spelling |
| Base64.DecodeEncode | backend/controllers/imageController.js:31 | decoding the encoding of any byte string gives the byte string |
| Base64.EncodeDecode | backend/controllers/imageController.js:31 | text that decodes to b is the encoding of b |
| Base64.StandardTestVectors | backend/controllers/imageController.js:88 | the encodings of "", "f", "fo" and "foo" are "", "Zg==", "Zm8=" and "Zm9v", the vectors of section 10 of RFC 4648 |
| Base64.StandardTestVectorFoobar | backend/controllers/imageController.js:88 | the encoding of "foobar" is "Zm9vYmFy", the last vector of section 10 of RFC 4648 |
| Base64.DecodeIsInverseOfEncode | backend/controllers/imageController.js:31 | decoding s gives b if and only if b encodes to s |
| DataUri.PrefixLength | backend/controllers/imageController.js:30 | a length is found only when the text up to it matches `data:image/[a-z]+;base64,` |
| DataUri.PrefixLengthFindsMatch | backend/controllers/imageController.js:30 | whenever a match starts the text, that match is the one found, so the match at the start is unique |
| DataUri.PrefixLengthNone | backend/controllers/imageController.js:30 | no match is found if and only if no prefix of the text matches |
| DataUri.StripImagePrefix | backend/controllers/imageController.js:30 | the result is a suffix of the input, no longer than it |
| DataUri.StripRemovesMatchedPrefix | backend/controllers/imageController.js:143 | a matching prefix is removed once, leaving the rest intact even if the rest starts with another prefix |
| DataUri.StripKeepsUnprefixed | backend/controllers/bikeImageController.js:29-33 | text not starting with a match is left as it is |
| DataUri.ImageBytes | backend/controllers/imageController.js:30-31 | the stored bytes encode back to exactly the text after the removed prefix |
| DataUri.ImageDataUri | backend/controllers/imageController.js:95 | the fetched text is a matching prefix followed by the base 64 encoding of the bytes |
| DataUri.ImageDataUriRoundTrip | backend/controllers/imageController.js:88-95 | uploading the text a fetch returns stores exactly the fetched bytes |
| DataUri.ImageDataUriInjective | backend/controllers/imageController.js:95 | two fetched texts are equal if and only if the stored bytes are |
| DataUri.ImageBytesOfBareText | backend/controllers/imageController.js:30-31 | unprefixed text is stored as b if and only if it is the encoding of b |
| Js.TrimStart | backend/controllers/userController.js:35 | the result is the input without its leading white space, and starts with a non-space |
| Js.DigitRun | backend/controllers/userController.js:35 | the run is the longest prefix of digits of the radix |
| Js.DecimalString | backend/controllers/userController.js:35-42 | the decimal text of an id, as a client sends it in the path, is non-empty, all digits and without a leading zero |
| Js.DecimalStringValue | backend/controllers/userController.js:35-42 | the decimal text of n denotes n |
| Js.ParseInt | backend/controllers/userController.js:35 | `parseInt` gives a number only for text holding a digit |
| Js.ParseIntReadsDecimalPrefix | backend/controllers/userController.js:35 | `parseInt` reads the decimal text of n back as n, even with non-digit text after it, except for "0x" |
| Js.ParseIntWithoutLeadingDigits | backend/controllers/userController.js:35 | `parseInt` is NaN when no digit follows the white space and an optional sign |
| Js.ParseIntWithoutDigits | backend/controllers/userController.js:35 | `parseInt` of text without digits is NaN, which equals no caller id |
| Js.Split | backend/middleware/authMiddleware.js:14 | split gives at least one field, no field holds the separator, and joining the fields restores the text |
| Js.SplitOfSeparatorFree | backend/middleware/authMiddleware.js:14 | text without the separator splits into itself alone |
| Js.SplitAtSeparator | backend/middleware/authMiddleware.js:14 | splitting at the first separator gives the first field, then the split of the rest |
| Js.SplitOfJoin | backend/middleware/authMiddleware.js:14 | split is the inverse of join for separator-free fields |
| EmailFormat.TldAccepts | backend/controllers/userController.js:94-95 | from the last label the scanner accepts exactly the texts of `[^\s@]*` |
| EmailFormat.DotAccepts | backend/controllers/userController.js:94-95 | after a dot it accepts exactly the texts of `[^\s@]+` |
| EmailFormat.HostAccepts | backend/controllers/userController.js:94-95 | in the host it accepts exactly the class texts holding a dot that has a character after it |
| EmailFormat.DomainPartByDot | backend/controllers/userController.js:94 | `[^\s@]+\.[^\s@]+` holds if and only if the first character and the rest are in the class and the rest has such a dot |
| EmailFormat.AfterAtAccepts | backend/controllers/userController.js:94-95 | after "@" it accepts exactly the texts of `[^\s@]+\.[^\s@]+` |
| EmailFormat.LocalAccepts | backend/controllers/userController.js:94-95 | in the local part it accepts exactly class text, "@", then a domain part |
| EmailFormat.MatchesPatternTail | backend/controllers/userController.js:94 | the whole pattern holds if and only if the first character is in the class and the rest is local text, "@" and a domain |
| EmailFormat.ScannerAcceptsPattern | backend/controllers/userController.js:94-95 | the scanner ends in its accepting state if and only if the text is in the regular expression's language |
| EmailFormat.IsValidEmail | backend/controllers/userController.js:95 | `emailRegex.test(email)` holds if and only if the text is in the language of `^[^\s@]+@[^\s@]+\.[^\s@]+$` |
| EmailFormat.MatchIsInClassBesideAt | backend/controllers/userController.js:94 | in a match, every character except the separating "@" is in `[^\s@]` |
| EmailFormat.ValidEmailHasNoWhitespace | backend/controllers/userController.js:94-95 | an accepted address holds no white space |
| EmailFormat.ValidEmailHasOneAt | backend/controllers/userController.js:94-95 | an accepted address has exactly one "@", neither first nor last |
| Tables.CreationTimes | backend/models/userModel.js:32 | creation times are recorded for exactly the rows of the table, each the row's own |
| Tables.NewestExists | backend/controllers/userController.js:10 | a non-empty table has a most recently created row |
| Tables.NewestFirst | backend/controllers/userController.js:10 | the listing holds every row exactly once, in strictly descending creation time |
| Tables.OthersAreOlder | backend/controllers/bikeController.js:59 | every row other than the newest was created before it |
| Tables.ConsNewest | backend/controllers/bikeController.js:59 | the newest row followed by a listing of the others is a listing of the whole table |
| Tables.HeadIsNewest | backend/controllers/bikeController.js:59 | the first row of a descending listing is the newest |
| Tables.TailIsSorted | backend/controllers/bikeController.js:59 | a descending listing without its head lists the remaining rows |
| Tables.NewestComesFirst | backend/controllers/bikeController.js:59 | the newest row comes first in the listing |
| Tables.NewestFirstIsUnique | backend/controllers/userController.js:10 | a listing of every row by descending creation time exists and is unique |
| UserModel.Public | backend/controllers/userController.js:9 | the answer copies every field of the row except the password, which it does not have |
| UserModel.ReplaceKeepsWellFormed | backend/models/userModel.js:15-20 | replacing a row with credentials no other row holds keeps username and e-mail unique |
| UserModel.RemoveKeepsWellFormed | backend/models/userModel.js:4-34 | removing a row keeps the table well formed |
| UserModel.UserTable.constructor | backend/models/userModel.js:4-34 | a table starts from any well-formed set of rows |
| UserModel.UserTable.SetProfileImage | backend/controllers/imageController.js:40-42 | only the given user's image changes, and the table stays well formed |
| UserModel.UserTable.Replace | backend/controllers/userController.js:135 | only the given row changes, and the table stays well formed |
| UserModel.UserTable.Destroy | backend/controllers/userController.js:187 | exactly the given row is removed, and the table stays well formed |
| BikeModel.InsertKeepsWellFormed | backend/models/bikeModel.js:4-32 | an insert under a fresh id, created now, keeps ids fresh and creation times distinct |
| BikeModel.SetImageKeepsWellFormed | backend/models/bikeModel.js:24-27 | changing a bike's image keeps the table well formed |
| BikeModel.BikeTable.constructor | backend/models/bikeModel.js:4-32 | a table starts from any well-formed set of rows |
| BikeModel.BikeTable.Create | backend/controllers/bikeController.js:17-22 | the new bike gets a fresh id, the current time and no image, and the old rows stay |
| BikeModel.BikeTable.SetBikeImage | backend/controllers/bikeImageController.js:42-44 | only the given bike's image changes |
| AuthMiddleware.TokenOf | backend/middleware/authMiddleware.js:14 | the token holds no space and is shorter than the header |
| AuthMiddleware.Guard | backend/middleware/authMiddleware.js:5-32 | a rejection is a 401 without data, and the request proceeds only with a present token that verifies to the identity attached |
| AuthMiddleware.TokenIsSecondField | backend/middleware/authMiddleware.js:14 | the token is the second field of the header, whatever the first is |
| AuthMiddleware.GuardOnSchemeAndToken | backend/middleware/authMiddleware.js:14-31 | "scheme token" proceeds if and only if the token is non-empty and verifies; otherwise 401 "No token provided" or "Invalid token"; any scheme is accepted |
| AuthMiddleware.GuardOnHeader | backend/middleware/authMiddleware.js:6-31 | for any header, the request proceeds if and only if the second field of its split on " " exists, is non-empty and verifies; otherwise 401 "No token provided" for a missing or empty field, "Invalid token" for one that does not verify |
| AuthMiddleware.GuardWithoutToken | backend/middleware/authMiddleware.js:6-20 | a missing header, or one without a space, gives 401 "No token provided" |
| AuthMiddleware.Request.constructor | backend/middleware/authMiddleware.js:6 | a request starts with its header and no identity attached |
| AuthMiddleware.VerifyToken | backend/middleware/authMiddleware.js:5-32 | exactly one of "attach the identity and continue" or "answer 401 with no identity attached" happens, and the answer is the guard's "No token provided" or "Invalid token" rejection |
| ImageController.UploadProfileImage | backend/controllers/imageController.js:4-61 | 400 for missing text, then 404 for an unknown caller, then 400 for text that does not decode; otherwise only the caller's image becomes the decoded bytes; every failure leaves the table unchanged |
| ImageController.GetProfileImage | backend/controllers/imageController.js:64-106 | 200 if and only if the path id names a user with an image, and then the returned text is the JPEG data URI of that image and decodes to it; otherwise 404 "User not found" or "Profile image not found" |
| ImageController.UpdateProfileImage | backend/controllers/imageController.js:109-174 | 403 unless the path id is the caller, checked before the input and the lookup; then as for an upload |
| ImageController.DeleteProfileImage | backend/controllers/imageController.js:177-221 | 403 unless the path id is the caller, then 404; otherwise only the caller's image becomes null |
| ImageController.FetchAfterUpload | backend/controllers/imageController.js:73-95 | after an upload, a fetch by the user's id returns a data URI that decodes to the uploaded bytes |
| ImageController.FetchAfterDelete | backend/controllers/imageController.js:73-85 | after a delete, a fetch gives 404 "Profile image not found"; for an absent user, "User not found" comes first |
| ImageController.FetchWithoutDigits | backend/controllers/imageController.js:69-78 | a path id without digits gives 404 "User not found" |
| ImageController.FetchStoredImage | backend/controllers/imageController.js:88-95 | a fetch by a user's id returns the JPEG data URI of that user's stored bytes |
| ImageController.FetchThenUpdate | backend/controllers/imageController.js:143-155 | putting back the text a fetch returned succeeds and leaves the table as it was |
| UserController.PublicList | backend/controllers/userController.js:8-9 | each listed entry is the password-free projection of the row at the same position |
| UserController.PublicListNewestFirst | backend/controllers/userController.js:8-11 | a newest-first listing names every user once, each entry copied from its own row, in descending creation time |
| UserController.GetAllUsers | backend/controllers/userController.js:6-26 | 200 with every user exactly once, newest first, without passwords |
| UserController.GetUserById | backend/controllers/userController.js:29-66 | 403 "Access denied…" if and only if the path id is not the caller; 404 "User not found" if and only if the caller's row is absent; otherwise the caller's row without password |
| UserController.OwnProfileByDecimalId | backend/controllers/userController.js:35-57 | one's own id, even with text without digits after it, returns one's own profile |
| UserController.GetUserByIdAsWritten | backend/controllers/userController.js:35-57 | as written: 403 if and only if `parseInt` of the path is not the caller; a success returns the row MySQL selects by the raw text |
| UserController.AsWrittenReturnsOtherProfile | backend/controllers/userController.js:35-44 | as written, caller 1 asking for "1e2" receives user 100's profile, while the modelled handler returns the caller's own |
| UserController.DeleteUserAsWritten | backend/controllers/userController.js:164-197 | as written: 403 if and only if `parseInt` of the path is not the caller; then the row MySQL selects by the raw text is destroyed and its username and e-mail returned under the id `parseInt(id)` |
| UserController.AsWrittenDeletesOtherUser | backend/controllers/userController.js:170-193 | as written, caller 1 deleting "1e2" destroys user 100 and keeps their own row |
| MySqlText.ExponentTextValue | backend/controllers/userController.js:42 | MySQL reads the text "1e2" as the id 100 |
| UserController.TakenByOther | backend/controllers/userController.js:104-113 | a conflict is found only when a username or an e-mail is supplied |
| UserController.OtherProfileIsDenied | backend/controllers/userController.js:35-40 | another user's id gives 403, whether or not that user exists |
| UserController.Updated | backend/controllers/userController.js:124-135 | each supplied field is replaced, the password by its hash; id, image and creation time are kept |
| UserController.UpdateKeepsCredentialsUnique | backend/controllers/userController.js:104-135 | an update that passed the uniqueness check keeps usernames and e-mails pairwise distinct |
| UserController.UpdateUser | backend/controllers/userController.js:69-161 | 403, 404, 400 on an invalid e-mail, 409 when another user holds a supplied username or e-mail, in that order and without change; otherwise only the caller's supplied fields change, and the answer carries no password |
| UserController.DeleteUser | backend/controllers/userController.js:164-206 | 403 unless the path id is the caller, then 404; otherwise exactly the caller's row is removed and its id, username and e-mail are returned |
| BikeController.Summary | backend/controllers/bikeController.js:69-77 | the fields are copied from the bike, and `hasBikeImage` is set if and only if an image is stored |
| BikeController.CreateBike | backend/controllers/bikeController.js:4-45 | 400 without a change unless brand and tipe are present; otherwise 201 with a fresh bike without image added and the other bikes kept |
| BikeController.SummaryList | backend/controllers/bikeController.js:63-79 | the list has the query's length and order, each entry built from the bike at its position |
| BikeController.SummaryListNewestFirst | backend/controllers/bikeController.js:50-79 | a newest-first listing names every bike once, each entry copied from its own row, in descending creation time |
| BikeController.GetAllBikes | backend/controllers/bikeController.js:48-94 | 200 with every bike exactly once, newest first, each flagged with whether it has an image |
| BikeController.GetBikeById | backend/controllers/bikeController.js:97-132 | 200 if and only if the path id names a bike, with its summary; otherwise 404 "Bike not found" |
| BikeController.CreatedBikeIsListedFirst | backend/controllers/bikeController.js:17-79 | a bike just created is listed first, without image, in a list one longer |
| BikeController.CreatedBikeIsReadable | backend/controllers/bikeController.js:102-123 | a bike just created is read back by its id |
| BikeImageController.UploadBikeImage | backend/controllers/bikeImageController.js:4-64 | 400 unless id and text are present, then 404, then 400 for text that does not decode; otherwise only that bike's image becomes the decoded bytes |
| BikeImageController.GetBikeImage | backend/controllers/bikeImageController.js:67-111 | 200 if and only if the path id names a bike with an image, and then the returned text is the JPEG data URI of that image and decodes to it; otherwise 404 "Bike not found" or "Bike image not found" |
| BikeImageController.FetchMissingBikeFirst | backend/controllers/bikeImageController.js:76-88 | "Bike not found" for an absent bike, "Bike image not found" for a bike without image |
| BikeImageController.FetchStoredBikeImage | backend/controllers/bikeImageController.js:91-102 | a fetch by a bike's id returns the JPEG data URI of its stored bytes |
| BikeImageController.FetchThenUpload | backend/controllers/bikeImageController.js:29-44 | uploading the text a fetch returned succeeds and leaves the table as it was |

## Left out

- Registration, login and the profile route: `authController.js` is not part of this model, so no handler creates users. A `UserTable` starts from any well-formed rows.
- Server start-up, CORS, body-size limits, the database connection and schema sync (`index.js`, `config/database.js`): these are I/O.
- The route tables are not modelled as code. For the handlers behind `verifyToken`, the caller id is a parameter that stands for `req.user.id` after `AuthMiddleware.VerifyToken` let the request through.
- `bcrypt.hash` with 10 salt rounds and `jwt.verify` with the server secret: these are foreign libraries, passed in as functions. The JWT payload is reduced to `Identity(id, username)`.
- The 500 answers of every handler's `catch`, and console logging: these are storage or runtime failures, which the model does not have.
- `getAllBikes` runs its per-bike lookups concurrently with `Promise.all`. The model builds the list sequentially, which gives the same result when no other request interleaves.
- UserController.UpdateUser: the storage-layer race between the uniqueness check and the update is not modelled. The `SequelizeUniqueConstraintError` path to 409 is therefore not modelled either.
- ImageController.UploadProfileImage: text that is not well-formed, canonical base 64 gets 400 "Invalid image format". Node's `Buffer.from(text, "base64")` never throws on such text: it skips characters outside the alphabet and stores whatever it decodes. The model does not capture that lenient decoding.
- ImageController.UpdateProfileImage: decoding is modelled as for UploadProfileImage.
- ImageController.UploadProfileImage, ImageController.UpdateProfileImage, BikeImageController.UploadBikeImage: the image field of the body is modelled as an optional string. A truthy value that is not a string (a number, an array, or the object that URL-encoded bodies build from `imageBase64[a]=x`) has no `.replace`, so in the source the call throws and the answer is 400 "Invalid image format"; that is the only input on which the source reaches this answer, and the model does not represent it. The model's 400 "Invalid image format" is given to string text that is not well-formed base 64 instead.
- BikeImageController.UploadBikeImage: decoding is modelled as for UploadProfileImage.
- `updatedAt` is not modelled. `createdAt` is a counter that increases with every insert, so no two rows share a creation time.
- UserController.GetAllUsers: requires distinct creation times, under which the `createdAt DESC` order is fully determined. Ties, which the database may order either way, are not modelled.
- BikeController.GetAllBikes: requires distinct creation times, for the same reason as GetAllUsers.
- `findByPk` with the path text, and the `id` of `findOne` and `update`, are modelled as a lookup of `parseInt` of that text. MySQL compares the raw text with the integer id as a number instead, which differs for text such as "1e2" (row 100, while `parseInt` gives 1). So the ownership guarantees of UserController.GetUserById, UserController.UpdateUser, UserController.DeleteUser, ImageController.UpdateProfileImage and ImageController.DeleteProfileImage hold only under the `parseInt` lookup; UserController.GetUserByIdAsWritten and UserController.DeleteUserAsWritten show the raw-text lookup for `getUserById` and `deleteUser` (see Findings).
- UserController.UpdateUser: usernames and e-mails are compared exactly, in the conflict check and in the uniqueness constraint. MySQL's default collation compares them without regard to case, so the source answers 409 when "ALICE" is requested while another user holds "alice"; the model lets that update through.
- UserModel.UniqueCredentials: uniqueness is exact string inequality, not the case-insensitive uniqueness of MySQL's default collation.
- `parseInt` results are exact integers. Double-precision rounding of ids beyond 2^53 is not modelled.
- BikeImageController.UploadBikeImage: `bikeId` is modelled as a JSON number. A `bikeId` sent as a string is not modelled.
- A stored image that is an empty byte string counts as present, because an empty Buffer is truthy in JavaScript. So `hasBikeImage` is true, and a fetch of it answers 200.

## Findings

| source | as written | input that shows it | evidently intended | confidence | as-written member | corrected member |
|---|---|---|---|---|---|---|
| backend/controllers/userController.js:35-44 | ownership is checked on `parseInt(id)`, but the row is looked up by the raw path text, which MySQL reads as a number | caller 1 requests `/users/1e2`: `parseInt` gives 1, MySQL selects user 100, whose profile is returned | look up the id the ownership check approved | not executed | UserController.AsWrittenReturnsOtherProfile | UserController.GetUserById |
| backend/controllers/userController.js:170-187 | ownership is checked on `parseInt(id)`, but the row destroyed is the one the raw path text selects, which MySQL reads as a number | caller 1 sends DELETE `/users/1e2`: `parseInt` gives 1, MySQL selects user 100, who is destroyed | destroy the row the ownership check approved | not executed | UserController.AsWrittenDeletesOtherUser | UserController.DeleteUser |
