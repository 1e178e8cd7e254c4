/** The booking store of `lib/store.js`: per conversation, an ordered list of booking
    records, held in memory (the JSON file behind it is not modelled). */
module Store {

  /** `{ booking, bookerJid, created_at }`; an absent `bookerJid` is the empty string. */
  datatype Record = Record(booking: string, bookerJid: string, createdAt: string)

  /** What `removeBooking` returns: `false` for an unknown conversation, `null` for an
      index out of range, otherwise the removed record. */
  datatype Removal = NoConversation | NotFound | Removed(record: Record)

  /** `xs` without its element at zero-based position k (`splice(k, 1)`). */
  function Without(xs: seq<Record>, k: nat): (r: seq<Record>)
    requires k < |xs|
    ensures |r| == |xs| - 1
    ensures forall i :: 0 <= i < k ==> r[i] == xs[i]
    ensures forall i :: k <= i < |r| ==> r[i] == xs[i + 1]
    ensures multiset(r) + multiset{xs[k]} == multiset(xs)
  {
    assert xs == xs[..k] + [xs[k]] + xs[k + 1..];
    xs[..k] + xs[k + 1..]
  }

  class BookingStore {
    /** The store document: conversation id to its list of records. */
    var bookings: map<string, seq<Record>>

    constructor ()
      ensures bookings == map[]
    {
      bookings := map[];
    }

    /** `getBookings`: the stored list, or the empty list for an unknown conversation. */
    function GetBookings(userJid: string): (r: seq<Record>)
      reads this
      ensures userJid in bookings ==> r == bookings[userJid]
      ensures userJid !in bookings ==> r == []
    {
      if userJid in bookings then bookings[userJid] else []
    }

    /** `addBooking`: appends one record, creating the list if needed, and returns the
        new length. */
    method AddBooking(userJid: string, bookingText: string, bookerJid: string, createdAt: string)
      returns (length: nat)
      modifies this
      ensures bookings == old(bookings)[userJid := old(GetBookings(userJid)) + [Record(bookingText, bookerJid, createdAt)]]
      ensures GetBookings(userJid)[..|GetBookings(userJid)| - 1] == old(GetBookings(userJid))
      ensures GetBookings(userJid)[|GetBookings(userJid)| - 1] == Record(bookingText, bookerJid, createdAt)
      ensures length == |old(GetBookings(userJid))| + 1 == |GetBookings(userJid)|
      ensures forall c :: c != userJid ==> GetBookings(c) == old(GetBookings(c))
    {
      if userJid !in bookings {
        bookings := bookings[userJid := []];
      }
      bookings := bookings[userJid := bookings[userJid] + [Record(bookingText, bookerJid, createdAt)]];
      length := |bookings[userJid]|;
    }

    /** `setBookings`: replaces the conversation's list. */
    method SetBookings(userJid: string, newBookings: seq<Record>)
      modifies this
      ensures bookings == old(bookings)[userJid := newBookings]
      ensures GetBookings(userJid) == newBookings
      ensures forall c :: c != userJid ==> GetBookings(c) == old(GetBookings(c))
    {
      bookings := bookings[userJid := newBookings];
    }

    /** `removeBooking`: removes the record at a 1-based index and returns it; nothing is
        written when the conversation is unknown or the index is out of range. */
    method RemoveBooking(userJid: string, indexOneBased: int) returns (removed: Removal)
      modifies this
      ensures userJid !in old(bookings) ==> removed == NoConversation && bookings == old(bookings)
      ensures userJid in old(bookings) && !(1 <= indexOneBased <= |old(bookings[userJid])|)
        ==> removed == NotFound && bookings == old(bookings)
      ensures userJid in old(bookings) && 1 <= indexOneBased <= |old(bookings[userJid])|
        ==> && removed == Removed(old(bookings[userJid])[indexOneBased - 1])
            && bookings == old(bookings)[userJid := Without(old(bookings[userJid]), indexOneBased - 1)]
      ensures forall c :: c != userJid ==> GetBookings(c) == old(GetBookings(c))
    {
      if userJid !in bookings {
        return NoConversation;
      }
      var index := indexOneBased - 1;
      if 0 <= index < |bookings[userJid]| {
        var list := bookings[userJid];
        removed := Removed(list[index]);
        bookings := bookings[userJid := Without(list, index)];
        return;
      }
      return NotFound;
    }
  }
}
