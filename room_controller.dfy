/** The room controller's assembly logic: one room with its photo and its
    bookings into one response, the list of rooms that have a stored photo,
    the photo chosen on update, and the lookup by id. The room service and
    the booking service are given as their answers. */
module RoomController {
  import opened Wrappers
  import opened Base64
  import opened HotelModel

  /** The booking service's answer for a room id: None stands for a null list,
      which is not the same as an empty one. */
  type BookingLookup = RoomId -> Option<seq<BookedRoom>>

  /** The room service's stored photo bytes for a room id (null as None). */
  type PhotoLookup = RoomId -> Option<seq<Byte>>

  /** The summary made of one booking. */
  function Summary(b: BookedRoom): BookingResponse {
    BookingResponse(b.bookingId, b.checkInDate, b.checkOutDate, b.bookingConfirmationCode)
  }

  /** The stream map over the bookings: one summary per booking, in the same
      order, carrying id, dates and confirmation code of that booking. */
  function Summaries(bookings: seq<BookedRoom>): (r: seq<BookingResponse>)
    ensures |r| == |bookings|
    ensures forall i :: 0 <= i < |r| ==>
      r[i].id == bookings[i].bookingId &&
      r[i].checkInDate == bookings[i].checkInDate &&
      r[i].checkOutDate == bookings[i].checkOutDate &&
      r[i].bookingConfirmationCode == bookings[i].bookingConfirmationCode
  {
    if bookings == [] then [] else [Summary(bookings[0])] + Summaries(bookings[1..])
  }

  /** The response fields that are copied from the room in every branch. */
  predicate CopiesRoom(resp: RoomResponse, room: Room)
    reads room
  {
    resp.id == room.id && resp.roomType == room.roomType &&
    resp.roomPrice == room.roomPrice && resp.isBooked == room.booked
  }

  /** getRoomResponse. With a null booking list the response has no bookings
      and no photo, whatever the blob holds, and cannot fail. With a list, the
      bookings are summarised and the photo is the blob's whole content; the
      only failure is an unreadable blob, reported as PhotoRetrieval. */
  function GetRoomResponse(room: Room, bookingsOf: BookingLookup): (r: Result<RoomResponse>)
    reads room
    ensures r.Fail? <==> bookingsOf(room.id).Some? && room.photo.Some? && !room.photo.value.readable
    ensures r.Fail? ==> r.error == PhotoRetrieval
    ensures r.Ok? ==> CopiesRoom(r.value, room)
    ensures bookingsOf(room.id).None? ==> r.Ok? && r.value.photo == None && r.value.bookings == []
    ensures bookingsOf(room.id).Some? && r.Ok? ==>
      r.value.bookings == Summaries(bookingsOf(room.id).value) &&
      (r.value.photo.Some? <==> room.photo.Some?) &&
      (r.value.photo.Some? ==> r.value.photo.value == Encode(room.photo.value.content) &&
                               Decode(r.value.photo.value) == Some(room.photo.value.content))
  {
    match bookingsOf(room.id)
    case Some(bookings) =>
      var bookingInfo := Summaries(bookings);
      if room.photo.None? then
        Ok(NewRoomResponse(room.id, room.roomType, room.roomPrice, room.booked, None, bookingInfo))
      else
        (match ReadAllBytes(room.photo.value)
         case None => Fail(PhotoRetrieval)
         case Some(photoBytes) =>
           Ok(NewRoomResponse(room.id, room.roomType, room.roomPrice, room.booked, Some(photoBytes), bookingInfo)))
    case None =>
      Ok(NewRoomResponse(room.id, room.roomType, room.roomPrice, room.booked, None, []))
  }

  /** The rooms listing keeps a room when the store holds non-empty photo bytes for it. */
  predicate HasStoredPhoto(room: Room, photoById: PhotoLookup) {
    photoById(room.id).Some? && |photoById(room.id).value| > 0
  }

  /** The rooms that the listing keeps, in their input order. */
  function Listed(rooms: seq<Room>, photoById: PhotoLookup): (r: seq<Room>)
    ensures |r| <= |rooms|
    ensures forall k :: 0 <= k < |r| ==> HasStoredPhoto(r[k], photoById)
  {
    if rooms == [] then []
    else (if HasStoredPhoto(rooms[0], photoById) then [rooms[0]] else []) + Listed(rooms[1..], photoById)
  }

  /** Filtering a concatenation filters each part and keeps them in order:
      the listing is order-preserving and closes the gaps. */
  lemma {:induction false} ListedAppend(a: seq<Room>, b: seq<Room>, photoById: PhotoLookup)
    ensures Listed(a + b, photoById) == Listed(a, photoById) + Listed(b, photoById)
  {
    if a == [] {
      assert a + b == b;
    } else {
      assert (a + b)[1..] == a[1..] + b;
      ListedAppend(a[1..], b, photoById);
    }
  }

  /** A room appears in the listing exactly when it is an input room with a
      non-empty stored photo. */
  lemma {:induction false} ListedMembership(rooms: seq<Room>, photoById: PhotoLookup, room: Room)
    ensures room in Listed(rooms, photoById) <==> room in rooms && HasStoredPhoto(room, photoById)
  {
    if rooms != [] {
      ListedMembership(rooms[1..], photoById, room);
      assert rooms == [rooms[0]] + rooms[1..];
    }
  }

  /** The listing drops nothing exactly when every room has stored photo bytes,
      and is empty exactly when none has. */
  lemma {:induction false} ListedLength(rooms: seq<Room>, photoById: PhotoLookup)
    ensures |Listed(rooms, photoById)| == |rooms| <==> forall k :: 0 <= k < |rooms| ==> HasStoredPhoto(rooms[k], photoById)
    ensures Listed(rooms, photoById) == [] <==> forall k :: 0 <= k < |rooms| ==> !HasStoredPhoto(rooms[k], photoById)
  {
    if rooms != [] {
      ListedLength(rooms[1..], photoById);
      assert forall k :: 1 <= k < |rooms| ==> rooms[k] == rooms[1..][k - 1];
    }
  }

  /** The positions of the input rooms that the listing keeps. */
  function KeptPositions(rooms: seq<Room>, photoById: PhotoLookup): set<int> {
    set k | 0 <= k < |rooms| && HasStoredPhoto(rooms[k], photoById)
  }

  /** The listing is exactly as long as the number of rooms with stored photo bytes. */
  lemma {:induction false} ListedCount(rooms: seq<Room>, photoById: PhotoLookup)
    ensures |Listed(rooms, photoById)| == |KeptPositions(rooms, photoById)|
    decreases |rooms|
  {
    if rooms != [] {
      var n := |rooms| - 1;
      var init := rooms[..n];
      assert rooms == init + [rooms[n]];
      ListedAppend(init, [rooms[n]], photoById);
      ListedCount(init, photoById);
      var last := if HasStoredPhoto(rooms[n], photoById) then {n} else {};
      assert KeptPositions(rooms, photoById) == KeptPositions(init, photoById) + last;
      assert n !in KeptPositions(init, photoById);
    }
  }

  /** getAllRooms. The rooms with non-empty stored photo bytes, in order, each
      as its getRoomResponse with the photo replaced by the base64 of the
      stored bytes; the whole call fails when one of them cannot be assembled. */
  method GetAllRooms(rooms: seq<Room>, photoById: PhotoLookup, bookingsOf: BookingLookup)
    returns (r: Result<seq<RoomResponse>>)
    ensures r.Fail? <==> (exists k :: 0 <= k < |Listed(rooms, photoById)| &&
                           GetRoomResponse(Listed(rooms, photoById)[k], bookingsOf).Fail?)
    ensures r.Fail? ==> r.error == PhotoRetrieval
    ensures r.Ok? ==> |r.value| == |Listed(rooms, photoById)|
    ensures r.Ok? ==> forall k :: 0 <= k < |r.value| ==>
      var room := Listed(rooms, photoById)[k];
      GetRoomResponse(room, bookingsOf).Ok? &&
      r.value[k] == GetRoomResponse(room, bookingsOf).value.(photo := r.value[k].photo) &&
      r.value[k].photo == Some(Encode(photoById(room.id).value)) &&
      Decode(r.value[k].photo.value) == photoById(room.id)
  {
    var roomResponses: seq<RoomResponse> := [];
    var i := 0;
    while i < |rooms|
      invariant 0 <= i <= |rooms|
      invariant |roomResponses| == |Listed(rooms[..i], photoById)|
      invariant forall k :: 0 <= k < |roomResponses| ==>
        var room := Listed(rooms[..i], photoById)[k];
        GetRoomResponse(room, bookingsOf).Ok? &&
        roomResponses[k] == GetRoomResponse(room, bookingsOf).value.(photo := Some(Encode(photoById(room.id).value)))
    {
      var room := rooms[i];
      assert rooms[..i + 1] == rooms[..i] + [room];
      ListedAppend(rooms[..i], [room], photoById);
      assert Listed([room], photoById) == if HasStoredPhoto(room, photoById) then [room] else [];
      var photoBytes := photoById(room.id);
      if photoBytes.Some? && |photoBytes.value| > 0 {
        var base64Photo := Encode(photoBytes.value);
        var roomResponse := GetRoomResponse(room, bookingsOf);
        if roomResponse.Fail? {
          assert rooms == rooms[..i + 1] + rooms[i + 1..];
          ListedAppend(rooms[..i + 1], rooms[i + 1..], photoById);
          assert Listed(rooms, photoById)[|roomResponses|] == room;
          return Fail(roomResponse.error);
        }
        roomResponses := roomResponses + [roomResponse.value.(photo := Some(base64Photo))];
      }
      i := i + 1;
    }
    assert rooms[..i] == rooms;
    forall k | 0 <= k < |roomResponses|
      ensures Decode(roomResponses[k].photo.value) == photoById(Listed(rooms, photoById)[k].id)
    {
      DecodeEncode(photoById(Listed(rooms, photoById)[k].id).value);
    }
    return Ok(roomResponses);
  }

  /** The photo bytes updateRoom settles on: a present, non-empty upload wins,
      otherwise the bytes already stored for the room. */
  function ResolvePhotoBytes(upload: Option<seq<Byte>>, stored: Option<seq<Byte>>): (r: Option<seq<Byte>>)
    ensures r == upload || r == stored
    ensures upload.Some? && |upload.value| > 0 ==> r == upload
    ensures !(upload.Some? && |upload.value| > 0) ==> r == stored
  {
    if upload.Some? && |upload.value| > 0 then upload else stored
  }

  /** The blob updateRoom puts on the room: a readable blob of exactly the
      resolved bytes when there are any, and none otherwise. */
  function PhotoBlobFor(photoBytes: Option<seq<Byte>>): (r: Option<Blob>)
    ensures r.Some? <==> photoBytes.Some? && |photoBytes.value| > 0
    ensures r.Some? ==> r.value.readable && r.value.content == photoBytes.value
  {
    if photoBytes.Some? && |photoBytes.value| > 0 then Some(SerialBlob(photoBytes.value)) else None
  }

  /** An update without a usable upload keeps the stored photo: the new blob
      holds exactly the stored bytes, and a second such update changes nothing. */
  lemma UpdateWithoutUploadKeepsPhoto(upload: Option<seq<Byte>>, stored: Option<seq<Byte>>)
    requires upload.None? || upload.value == []
    ensures PhotoBlobFor(ResolvePhotoBytes(upload, stored)) == PhotoBlobFor(stored)
  {
  }

  /** Storing the resolved photo and updating again without an upload gives the same blob. */
  lemma PhotoResolutionIdempotent(upload: Option<seq<Byte>>, stored: Option<seq<Byte>>)
    ensures var blob := PhotoBlobFor(ResolvePhotoBytes(upload, stored));
            var kept := if blob.Some? then Some(blob.value.content) else None;
            PhotoBlobFor(ResolvePhotoBytes(None, kept)) == blob
  {
  }

  /** updateRoom, after the room service has applied the update and returned
      `theRoom`: the room's photo becomes the blob of the resolved bytes and
      the response is assembled from it. A blob made this way is always
      readable, so the update never fails with PhotoRetrieval. */
  method UpdateRoom(roomId: RoomId, upload: Option<seq<Byte>>, photoById: PhotoLookup,
                    theRoom: Room, bookingsOf: BookingLookup)
    returns (r: Result<RoomResponse>)
    modifies theRoom`photo
    ensures theRoom.photo == PhotoBlobFor(ResolvePhotoBytes(upload, photoById(roomId)))
    ensures r == GetRoomResponse(theRoom, bookingsOf)
    ensures r.Ok?
    ensures bookingsOf(theRoom.id).Some? ==>
      (r.value.photo.Some? <==> theRoom.photo.Some?) &&
      (r.value.photo.Some? ==> Decode(r.value.photo.value) == ResolvePhotoBytes(upload, photoById(roomId)))
  {
    var photoBytes := ResolvePhotoBytes(upload, photoById(roomId));
    var photoBlob := PhotoBlobFor(photoBytes);
    theRoom.photo := photoBlob;
    r := GetRoomResponse(theRoom, bookingsOf);
  }

  /** getRoomById: an absent room is ResourceNotFound, and that is the only way
      to get it; a present room gives its getRoomResponse. */
  function GetRoomById(found: Option<Room>, bookingsOf: BookingLookup): (r: Result<RoomResponse>)
    reads if found.Some? then {found.value} else {}
    ensures r.Fail? && r.error == ResourceNotFound <==> found.None?
    ensures r.Fail? && r.error == PhotoRetrieval <==>
      found.Some? && bookingsOf(found.value.id).Some? && found.value.photo.Some? && !found.value.photo.value.readable
    ensures r.Ok? ==> found.Some? && CopiesRoom(r.value, found.value)
    ensures found.Some? ==> r == GetRoomResponse(found.value, bookingsOf)
  {
    match found
    case None => Fail(ResourceNotFound)
    case Some(room) => GetRoomResponse(room, bookingsOf)
  }
}
