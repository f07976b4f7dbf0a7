# Room response assembly of the hotel booking backend

This project models, in Dafny, how the hotel booking backend's `RoomController`
turns rooms into the responses it sends back:

- `getRoomResponse` merges a room, the bytes of its photo blob and the booking
  list of the booking service into one `RoomResponse`. A null booking list
  gives a response with no bookings and no photo, even when the room has a
  photo. With a list, each booking becomes a summary (id, check-in date,
  check-out date, confirmation code), and the photo is the blob's whole content.
  A blob that cannot be read raises `PhotoRetrievalException`.
- `getAllRooms` keeps, in order, the rooms for which the room service holds
  non-empty photo bytes. Each kept response then gets as its photo the base64
  of those stored bytes, so the suppression above never shows in the list.
- `updateRoom` picks the uploaded bytes when an upload is present and non-empty,
  and the stored bytes otherwise. It sets the room's photo to a blob of those
  bytes, or to none when there are none, and answers with `getRoomResponse`.
- `getRoomById` turns an absent room into `ResourceNotFoundException`.

Files:

- `wrappers.dfy`: `Option`, standing for a Java reference that may be null.
- `base64.dfy`: the base64 encoding of section 4 of RFC 4648 (standard alphabet,
  `=` padding, no line breaks), with a decoder and the round trip
  `Decode(Encode(b)) == Some(b)`.
- `hotel_model.dfy`: the `Room` entity as a class (its photo is replaced in
  place), and the bookings, summaries and responses as datatypes. It also holds
  the blob with its "read fails" flag and the failures raised.
- `room_controller.dfy`: the four controller routines and the lemmas about them.

The room service and the booking service are inputs. Their answers by room id
are functions (`PhotoLookup`, `BookingLookup`). The room returned by
`roomService.update` and the optional room returned by `roomService.getRoomById`
are parameters. A `RoomResponse` is built once and changed once, by `setPhoto`
in `getAllRooms`, before anyone else sees it. It is therefore a datatype, and
that change is a field update of the value.

`RoomResponse.java` is not part of this model. Its six-argument constructor is
taken to keep the photo bytes as their base64 text and a null photo as null
(`HotelModel.NewRoomResponse`). This matches the `String` photo that
`getAllRooms` sets, and the base64 text the responses carry.

## Model

| member | source | states |
|---|---|---|
| `Base64.Encode` | src/main/java/com/surya/hotelbooking/controller/RoomController.java:65 | the text has 4 characters per started group of 3 bytes; every character is in the RFC 4648 alphabet, and only the last two may instead be `=` padding |
| `Base64.DecodeEncode` | src/main/java/com/surya/hotelbooking/controller/RoomController.java:65 | decoding the base64 text gives back exactly the encoded bytes, so the photo text loses nothing |
| `Base64.EncodeDecode` | src/main/java/com/surya/hotelbooking/controller/RoomController.java:65 | the only text that decodes to some bytes is their encoding: the decoder accepts canonical base64 only |
| `Base64.DecodeIffEncode` | src/main/java/com/surya/hotelbooking/controller/RoomController.java:65 | a text decodes to some bytes exactly when it is their encoding, so a photo stated by what it decodes to is pinned to one text |
| `Base64.EncodeEmptyIff` | src/main/java/com/surya/hotelbooking/controller/RoomController.java:63-65 | the encoding is the empty string exactly for no bytes, so a kept photo is never "" |
| `HotelModel.GetBytes` | src/main/java/com/surya/hotelbooking/controller/RoomController.java:128 | a positional blob read succeeds exactly when the blob is readable, the 1-based position lies in the blob or just past it and the length is not negative; it then yields at most `length` bytes, a prefix of the content from that position, and exactly `length` bytes when that many remain |
| `HotelModel.ReadAllBytes` | src/main/java/com/surya/hotelbooking/controller/RoomController.java:128 | reading from position 1 for the blob's length yields its whole content, and fails exactly when the blob is unreadable |
| `HotelModel.NewRoomResponse` | src/main/java/com/surya/hotelbooking/controller/RoomController.java:133-138 | the response copies id, type, price, booked flag and bookings; its photo is present exactly when bytes are given, and it is their base64 encoding, which decodes back to them |
| `RoomController.Summaries` | src/main/java/com/surya/hotelbooking/controller/RoomController.java:116-123 | one summary per booking, in the same order, with that booking's id, check-in date, check-out date and confirmation code |
| `RoomController.GetRoomResponse` | src/main/java/com/surya/hotelbooking/controller/RoomController.java:113-149 | fails exactly when the booking list is non-null and the room's blob is present but unreadable, and then only with PhotoRetrieval; a null list gives no bookings and no photo, whatever the blob holds; a non-null list gives its summaries, and a photo present exactly when the blob is, equal to the base64 encoding of the blob's whole content; id, type, price and booked are always copied |
| `RoomController.Listed` | src/main/java/com/surya/hotelbooking/controller/RoomController.java:60-63 | the kept rooms all have non-empty stored photo bytes, and there are no more of them than input rooms |
| `RoomController.ListedAppend` | src/main/java/com/surya/hotelbooking/controller/RoomController.java:60-70 | the listing of a concatenation is the concatenation of the listings: input order is kept and the gaps are closed |
| `RoomController.ListedMembership` | src/main/java/com/surya/hotelbooking/controller/RoomController.java:60-63 | a room is kept exactly when it is an input room with non-empty stored photo bytes |
| `RoomController.ListedLength` | src/main/java/com/surya/hotelbooking/controller/RoomController.java:60-63 | nothing is dropped exactly when every room has stored photo bytes; the listing is empty exactly when none has |
| `RoomController.ListedCount` | src/main/java/com/surya/hotelbooking/controller/RoomController.java:58-71 | the listing is as long as the number of input positions whose room has non-empty stored photo bytes |
| `RoomController.GetAllRooms` | src/main/java/com/surya/hotelbooking/controller/RoomController.java:57-72 | fails (with PhotoRetrieval only) exactly when some kept room's getRoomResponse fails; otherwise gives one response per kept room, in order, equal to that room's getRoomResponse except for the photo, which is always the base64 encoding of the room's stored bytes (and decodes back to them) |
| `RoomController.ResolvePhotoBytes` | src/main/java/com/surya/hotelbooking/controller/RoomController.java:87-88 | a present, non-empty upload is used; when the upload is absent or empty the stored bytes are |
| `RoomController.PhotoBlobFor` | src/main/java/com/surya/hotelbooking/controller/RoomController.java:90 | there is a blob exactly when the bytes are non-null and non-empty, and it is readable and holds exactly those bytes |
| `RoomController.UpdateWithoutUploadKeepsPhoto` | src/main/java/com/surya/hotelbooking/controller/RoomController.java:87-90 | without a usable upload the new blob is the blob of the stored bytes |
| `RoomController.PhotoResolutionIdempotent` | src/main/java/com/surya/hotelbooking/controller/RoomController.java:87-90 | resolving again, without an upload, from the bytes the new blob holds gives the same blob |
| `RoomController.UpdateRoom` | src/main/java/com/surya/hotelbooking/controller/RoomController.java:87-96 | the room's photo becomes the blob of the resolved bytes and nothing else of the room changes; the answer is the room's getRoomResponse, never fails, and with a non-null booking list carries a photo exactly when there were bytes, decoding to them |
| `RoomController.GetRoomById` | src/main/java/com/surya/hotelbooking/controller/RoomController.java:100-108 | ResourceNotFound exactly when the room is absent; a present room gives exactly its getRoomResponse, so PhotoRetrieval happens exactly for a present room with a non-null booking list and an unreadable blob, and a success copies the room's fields |

## Left out

- HTTP routing, Spring annotations and the `ResponseEntity` wrapping: the routines return their response or their failure.
- `addNewRoom`, `deleteRoom` and `getRoomTypes` only pass their arguments on to the room service, so there is nothing of the controller's own to model.
- `RoomRepository.findDistinctRoomTypes` is a JPQL query run by the database; there is no code in it to model.
- The internals of `RoomService` and `BookingService` are not part of this model; only their answers are. In particular, what `roomService.update` does with the room type, price and photo bytes it receives is not modelled.
- RoomController.UpdateRoom: it starts from the room that `roomService.update` returned, and the room type and price arguments are not modelled.
- An `IOException` from reading the uploaded file, and an `SQLException` from the room service's photo lookup, are left out. Both belong to I/O that is not part of this model.
- The `(int)` cast of the blob's `long` length is taken as exact: every stored photo was written from a Java `byte[]`, which holds at most 2^31 - 1 bytes, so its length fits in an `int`.
- The blob implementation that the persistence layer hands back is not part of this model. `HotelModel.GetBytes` follows the `java.sql.Blob.getBytes` contract, and an unreadable blob stands for any `SQLException` it raises.
- `BigDecimal` prices and `LocalDate` dates are only copied, so they are plain values here.
- A null element inside the booking list (a `NullPointerException` in the map) is not modelled.
- Persisting the room after `setPhoto` is not modelled: the controller never saves it.
- The Tomcat base64 encoder itself is not part of this model. `Base64.Encode` re-specifies it as the encoding of section 4 of RFC 4648.
- `Base64.Decode` is not in the source, which never decodes. It exists to state what the encoding keeps. It rejects non-zero unused bits before the padding, as section 3.5 of RFC 4648 permits.
