/** The entities the room controller reads and builds: the persisted room,
    the bookings that refer to it, and the response objects sent back. */
module HotelModel {
  import opened Wrappers
  import opened Base64

  /** Java's Long identifiers. */
  type RoomId = int

  /** A BigDecimal price, as unscaled value and scale. The controller only
      copies it, so nothing here computes with it. */
  datatype Price = Price(unscaled: int, scale: int)

  /** A LocalDate, only copied. */
  datatype Date = Date(year: int, month: int, day: int)

  /** A JDBC large object holding the photo. `readable` is false when reading
      the bytes back raises an SQLException. */
  datatype Blob = Blob(content: seq<Byte>, readable: bool)

  /** A blob built in memory from bytes (a SerialBlob): it can always be read back. */
  function SerialBlob(bytes: seq<Byte>): (b: Blob)
    ensures b.readable && b.content == bytes
  {
    Blob(bytes, true)
  }

  /** `Blob.getBytes(pos, length)` as the JDBC interface describes it: up to
      `length` consecutive bytes starting at the 1-based position `pos`. It
      raises an SQLException (None) when the blob cannot be read or the
      arguments do not designate a place in the blob. */
  function GetBytes(blob: Blob, pos: int, length: int): (r: Option<seq<Byte>>)
    ensures r.Some? <==> blob.readable && 1 <= pos <= |blob.content| + 1 && 0 <= length
    ensures r.Some? ==> |r.value| <= length && r.value <= blob.content[pos - 1..]
    ensures r.Some? && pos - 1 + length <= |blob.content| ==> |r.value| == length
  {
    if !blob.readable || pos < 1 || pos > |blob.content| + 1 || length < 0 then None
    else
      var end := if pos - 1 + length <= |blob.content| then pos - 1 + length else |blob.content|;
      Some(blob.content[pos - 1..end])
  }

  /** `getBytes(1, (int) length())`: the read the controller does. It gives the
      blob's whole content, and fails exactly when the blob cannot be read. */
  function ReadAllBytes(blob: Blob): (r: Option<seq<Byte>>)
    ensures r.Some? <==> blob.readable
    ensures r.Some? ==> r.value == blob.content
  {
    GetBytes(blob, 1, |blob.content|)
  }

  /** The persisted room entity. Its photo is replaced in place by the update
      path; the identifier is never changed once assigned. */
  class Room {
    const id: RoomId
    var roomType: string
    var roomPrice: Price
    var booked: bool
    var photo: Option<Blob>

    constructor (id: RoomId, roomType: string, roomPrice: Price, booked: bool, photo: Option<Blob>)
      ensures this.id == id && this.roomType == roomType && this.roomPrice == roomPrice
      ensures this.booked == booked && this.photo == photo
    {
      this.id := id;
      this.roomType := roomType;
      this.roomPrice := roomPrice;
      this.booked := booked;
      this.photo := photo;
    }
  }

  /** A booking, owned by the booking side and only read here. */
  datatype BookedRoom = BookedRoom(
    bookingId: int,
    checkInDate: Date,
    checkOutDate: Date,
    bookingConfirmationCode: string,
    roomId: RoomId)

  /** The summary of one booking carried inside a room response. */
  datatype BookingResponse = BookingResponse(
    id: int,
    checkInDate: Date,
    checkOutDate: Date,
    bookingConfirmationCode: string)

  /** The room as sent back: the photo travels as base64 text, or is absent. */
  datatype RoomResponse = RoomResponse(
    id: RoomId,
    roomType: string,
    roomPrice: Price,
    isBooked: bool,
    photo: Option<string>,
    bookings: seq<BookingResponse>)

  /** The six-argument RoomResponse constructor: it keeps the photo bytes as
      their base64 text, and an absent photo as absent (never as ""). */
  function NewRoomResponse(id: RoomId, roomType: string, roomPrice: Price, isBooked: bool,
                           photoBytes: Option<seq<Byte>>, bookings: seq<BookingResponse>): (r: RoomResponse)
    ensures r.id == id && r.roomType == roomType && r.roomPrice == roomPrice && r.isBooked == isBooked
    ensures r.bookings == bookings
    ensures r.photo.Some? <==> photoBytes.Some?
    ensures r.photo.Some? ==> Decode(r.photo.value) == photoBytes && r.photo.value == Encode(photoBytes.value)
  {
    match photoBytes
    case None => RoomResponse(id, roomType, roomPrice, isBooked, None, bookings)
    case Some(bytes) =>
      DecodeEncode(bytes);
      RoomResponse(id, roomType, roomPrice, isBooked, Some(Encode(bytes)), bookings)
  }

  /** The failures the controller raises: PhotoRetrievalException and
      ResourceNotFoundException. */
  datatype Failure = PhotoRetrieval | ResourceNotFound

  /** A value, or the exception that replaced it. */
  datatype Result<T> = Ok(value: T) | Fail(error: Failure)
}
